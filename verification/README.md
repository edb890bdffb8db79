# Robot Radar scorer, modelled in Dafny

Robot Radar is a small Streamlit page that guesses whether a text was written
by a machine. Its core is `advanced_analysis(text)`, which does the following:

1. It rejects texts with fewer than 30 whitespace-separated tokens.
2. It splits the text into sentences with `re.split(r'[.!?]+', text)`.
3. It keeps each piece whose untrimmed length exceeds one, stripped of surrounding whitespace.
4. It rejects the text if no sentence is left.
5. It measures the population standard deviation of the sentence word counts, a readability grade, and the share of words longer than six characters.
6. It adds bonuses to a base of 40.

The page then turns the score into a verdict: "LIKELY AI-GENERATED" above 70, "SUSPICIOUS / MIXED" above 40, and "LIKELY HUMAN" otherwise. It also shows one of two recommendation cards, split at 50.

The model follows that structure, one module per concern:

- `Strings`: generic filtering and joining helpers.
- `Tokens`: Python's argument-less `str.split()` and `str.strip()`, over exactly the characters for which `str.isspace()` holds.
- `Sentences`: the `[.!?]+` split and the keep-and-strip comprehension.
- `Stats`: the exact population variance of the word counts.
- `Scoring`: the bonuses, the clamp, and the score.
- `Analysis`: `advanced_analysis` itself and its report.
- `Display`: the verdict tier, the recommendation card, and what the results area shows.

Some facts the proofs bring out about the code as written:

- A text of 30 tokens can still get the "Please provide at least 30 words" error. `" ."` repeated 30 times has 30 tokens, but no fragment of its split is longer than one character (`Analysis.ThirtyWordsWithoutSentences`, `Display.TooShortDespiteThirtyWords`).
- The length filter runs before stripping, so a fragment of two or more blanks becomes an empty sentence of zero words. That zero then enters the standard deviation (`Sentences.BlankFragmentKeptEmpty`).
- The score only ever takes the values 40, 50, 55, 60, 65, 70, 75, 80 and 90, so the clamp to [5, 98] never acts.
- "LIKELY HUMAN" is shown only at exactly 40, when no signal fired.
- Perfectly uniform sentence lengths with no other signal score 70. That is "SUSPICIOUS / MIXED", not "LIKELY AI-GENERATED".

The source compares the standard deviation with 4 and 7. It is the non-negative square root of the variance, so the model compares the variance with 16 and 49. The variance itself is computed exactly, as Σ(N·x − S)² / N³ over N sentences with S words in all. That is the mean of (x − S/N)² with the fractions cleared. `Stats.VarianceByIntegers` proves that it equals the textbook formula (N·Q − S²) / N².

## Model

| member | source | states |
|---|---|---|
| Tokens.Words | app.py:103 | every token of `text.split()` is non-empty and holds no whitespace |
| Tokens.WordsKeepEveryNonSpace | app.py:107 | joining the tokens gives back the text with its whitespace deleted: no character is lost, added or reordered |
| Tokens.WordsSplitAtSpace | app.py:107 | any whitespace character is a token boundary: the tokens of a + [c] + b are those of a followed by those of b |
| Tokens.WordsOfToken | app.py:107 | a non-empty whitespace-free string is one single token, so tokens are maximal runs |
| Tokens.WordsAtMostLength | app.py:103 | a text never has more tokens than characters |
| Tokens.Strip | app.py:106 | `s.strip()` neither starts nor ends with whitespace and is s with a whitespace-only prefix and suffix cut off |
| Tokens.StripUnique | app.py:106 | any such trimming that leaves no edge whitespace is exactly `s.strip()` |
| Tokens.WordsIgnoreEdgeSpace | app.py:111 | stripping a sentence does not change its word count: `s.strip().split() == s.split()` |
| Sentences.FragmentsShape | app.py:105 | the split yields at least one piece, no piece contains `.`, `!` or `?`, and only the first and last pieces can be empty |
| Sentences.SingleFragmentIffNoTerminator | app.py:105 | the split leaves the text whole exactly when it contains no `.`, `!` or `?` |
| Sentences.FragmentsKeepEveryOtherChar | app.py:105 | joining the pieces gives the text with every `.`, `!` and `?` deleted |
| Sentences.FragmentCount | app.py:105 | there is one more piece than there are maximal runs of terminators |
| Sentences.SplitAtRun | app.py:105 | the cut positions: a terminator-free clause followed by a maximal run of terminators gives that clause as a piece, then the pieces of the rest |
| Sentences.KeepSentences | app.py:106 | no sentence is left exactly when every piece has at most one character, and never more sentences than pieces |
| Sentences.KeptAreLongFragmentsStripped | app.py:106 | as sets: a piece appears stripped among the sentences exactly when some piece longer than one character strips to it |
| Sentences.KeepSingle | app.py:106 | one piece yields its stripped self when its untrimmed length exceeds one, and nothing otherwise |
| Sentences.KeepAppend | app.py:106 | the filter keeps order and multiplicity: the sentences of a + b are those of a followed by those of b |
| Sentences.KeptAreClean | app.py:106 | kept sentences carry no terminator and no edge whitespace |
| Sentences.BlankFragmentKeptEmpty | app.py:106 | a piece of two or more blanks survives the filter as an empty sentence |
| Sentences.SentencesOf | app.py:105-106 | the measured sentences hold no terminator, are stripped, and are absent exactly when every piece is at most one character long |
| Stats.Variance | app.py:113 | the population variance of the word counts is never negative |
| Stats.NoDeviationIffCentred | app.py:113 | the scaled squared deviations vanish exactly when every count equals the mean |
| Stats.VarianceZeroIffUniform | app.py:113 | the variance, and so the standard deviation, is zero exactly when all sentences have the same word count |
| Stats.DeviationsExpand | app.py:113 | expanding the square: Σ(n·x − s)² = n²·Σx² − 2ns·Σx + N·s² |
| Stats.VarianceByIntegers | app.py:113 | the variance equals the computational formula (N·Σx² − (Σx)²) / N² |
| Stats.VarianceBelow | app.py:118-119 | "variance below k" is the integer comparison N·Σx² − (Σx)² < k·N² |
| Scoring.Clamp | app.py:125 | `min(max(x, lo), hi)` lies in [lo, hi], is x inside the range and the nearer bound outside it |
| Scoring.Score | app.py:117-125 | the score is a multiple of 5 between 40 and 90 and one of the nine reachable values |
| Scoring.ClampIsInert | app.py:125 | the unclamped sum always lies strictly between 5 and 98, so the clamp returns it unchanged |
| Scoring.SteadierNeverScoresLower | app.py:118-119 | a smaller spread of sentence lengths never lowers the score |
| Scoring.PlainerNeverScoresLower | app.py:122 | a smaller share of long words never lowers the score |
| Scoring.ScoreTopIffAllSignals | app.py:117-122 | the score is 90 exactly when the lengths are steady, the grade is in [8, 12] and the long-word share is below 0.15 |
| Scoring.ScoreBaseIffNoSignal | app.py:117-122 | the score is 40 exactly when no bonus applies |
| Scoring.SteadyScoresAtLeast70 | app.py:117-118 | a standard deviation below 4 alone gives a score of at least 70 |
| Scoring.RatioThreshold | app.py:122 | the test `ratio < 0.15` on c long words out of n is the integer test 20c < 3n |
| Analysis.ComplexCount | app.py:114 | the long-word count is at most the word count, is zero exactly when no word is longer than six, and equals the word count exactly when all are |
| Analysis.ComplexRatio | app.py:114 | the long-word share lies in [0, 1], is 0 exactly when no word is long and 1 exactly when all are |
| Analysis.Analyze | app.py:102-130 | the result is None exactly when there are fewer than 30 tokens or no sentence survives; otherwise word_count is the token count (at least 30), the percentage lies in [0, 100], the variance is non-negative, the score is reachable and the grade is passed through |
| Analysis.Measure | app.py:111-130 | the report built from the sentence counts keeps the word count and grade, has a percentage in [0, 100], a non-negative variance and a reachable score |
| Analysis.AnalyzeReport | app.py:111-130 | for a text that passes both guards, the report equals the reference report computed from integer counts only |
| Analysis.ReportByCounts | app.py:113-128 | with N sentences, word-count sum S and square sum Q, and c long words of n, the score is 40 + (30 if NQ − S² < 16N², else 15 if NQ − S² < 49N², else 0) + (10 for a grade in [8, 12]) + (10 if 20c < 3n); the variance is (NQ − S²)/N/N; the percentage is 100·c/n |
| Analysis.MeasuredSentences | app.py:105-111 | as sets: the measured sentences are the stripped pieces of the split longer than one character |
| Analysis.VocabularyByCounts | app.py:122 | the vocabulary bonus applies exactly when 20 times the long-word count is below 3 times the word count |
| Analysis.ThirtyWordsWithoutSentences | app.py:103-109 | a 30-token text of `" ."` pairs returns None |
| Analysis.RunOnText | app.py:105-118 | a text of 30 or more tokens without `.`, `!` or `?` is one sentence, its own strip, with variance 0 and a score of at least 70 |
| Analysis.UniformSentencesScoreHigh | app.py:111-118 | equal sentence word counts give variance 0 and a score of at least 70 |
| Analysis.BurstinessByCounts | app.py:113-119 | the +30 and the no-bonus cases of the burstiness test are integer comparisons on the word counts |
| Display.TierOf | app.py:181-183 | above 70 is AI-generated, from 41 to 70 is suspicious, 40 and below is human: each score gets exactly one tier |
| Display.TierMonotone | app.py:181-183 | a higher score never yields a less suspicious verdict |
| Display.AdviceOf | app.py:206 | the humanize card is shown exactly when the score exceeds 50 |
| Display.AdviceAgreesWithTier | app.py:181-206 | the AI verdict always gets the humanize card, the human verdict always the verify card, and the middle tier gets the verify card exactly at scores up to 50 |
| Display.MiddleTierVerifiesOnlyAt50 | app.py:181-206 | among reachable scores, "suspicious" with the verify card happens only at 50 |
| Display.HumanTierIffNoSignal | app.py:117-183 | the human verdict is shown exactly when no bonus applies |
| Display.AiTierIffSignals | app.py:117-181 | the AI verdict needs steady lengths plus one more signal, or fairly steady lengths plus both others |
| Display.Present | app.py:173-226 | nothing is shown without a click on a non-empty text, the "too short" error exactly when the analysis returns None, and otherwise the report with its tier and card |
| Display.ShownHumanOnlyAtBase | app.py:181-183 | for a report's score, the "LIKELY HUMAN" verdict is shown exactly when the score is 40 |
| Display.TooShortDespiteThirtyWords | app.py:225-226 | a clicked 30-token text can draw the "at least 30 words" error |

## Left out

- The page layout, CSS, header, sidebar, text area, sample loader and clear button are presentation only. Only the results section's choice of what to show is modelled (`Display.Present`).
- The Plotly gauge, its colour bands, and the colour and emoji attached to each tier are cosmetic.
- The spinner and `time.sleep(0.8)` only delay the page.
- The Flesch-Kincaid grade comes from the textstat library, whose syllable counting is not part of this model. `Analysis.Analyze` takes it as a parameter standing for that library's value on the same text.
- Floating point is not modelled: the model uses exact rational arithmetic.
  - The source's `round(…, 1)` on the reported grade, spread and percentage is left out.
  - The long-word share is an exact fraction. The float test `ratio < 0.15` agrees with the exact one whenever the word count is below about 10^15, since distinct fractions c/n differ from 0.15 by at least 1/(20n).
- The square root of `np.std` is not modelled. The report's `lengthVariance` is the square of the standard deviation that the source reports as `sentence_variance`.
  - The tests "std < 4" and "std < 7" are stated as "variance < 16" and "variance < 49". These match exactly for a non-negative square root.
  - Floating-point rounding of the square root near 16 and 49 is not modelled.
- The two affiliate link constants only fill in the recommendation cards' URLs.
- Python's `len` counts code points and Dafny's `char` is a Unicode scalar value, so lone surrogates in a Python string are not modelled.
