# Segmental feature extraction for a Brazilian Portuguese lexicon

This project models the core of `seg_extraction.py` and proves properties of
the model. The script reads a lexicon, one `word,transcription,POS` line per
word. Syllables in the transcription are separated by `-`, and the stressed
syllable carries a `'`.

For each word it writes one 31-column row:
- the word, the transcription, the syllable count;
- the 1-based number of the stressed syllable and its location (`final`,
  `penult` or `antepenult`);
- five groups of five features, for the antepenult, penult, final, stressed
  and "alternative" syllables. The features are the onset and coda consonant
  counts, the onset and coda material, and the nucleus.

Words stressed before the antepenult get no row; they are set aside in a list.

The modules follow the script's structure:

- `Failures` — `Option`, and a `Result` whose error cases are the script's
  runtime failures. These are an assertion failing (field count, stress-mark
  count, vowel count, unknown location) and an `IndexError`.
- `Strings` — the Python string operations used: `''.join` (`Concat`),
  `list(s)` (`Chars`), `str.split` (`Split`), `str.rstrip` (`RStrip`).
- `Inventory` — the `vowels` list.
- `Tokenize` — the tilde-merge loop of `syllInfo`. The model follows
  Python's own list-slice and negative-index rules.
- `Syllable` — `syllInfo`: selecting the syllable, stripping the stress mark,
  checking the vowel count, and measuring the syllable.
- `Record` — the main loop: parsing a line, finding and classifying the
  stress, assembling the row, and the run over the whole lexicon.

Each loop of the script is a method proved equal to a specification function.
The properties are proved about those functions:
- `MergeTildes` is proved equal to `Tokens`;
- `VowelIndices` to `VowelPositions`;
- `MeasureVowels` to `Measured`;
- `SyllInfo` to `InfoAt`;
- `ProcessRecord` to `RecordOutcome`;
- `ProcessLexicon` to `Run`.

## Model

| member | source | states |
|---|---|---|
| Inventory.TildeVowel | seg_extraction.py:54 | a token followed by `~` is in the vowel list only if the token is itself a one-character vowel |
| Inventory.NotVowels | seg_extraction.py:54 | no vowel begins with the stress mark, and `~` alone is not a vowel |
| Tokenize.MergeTildes | seg_extraction.py:79-83 | the in-place merge loop, with its bound fixed before the loop, yields exactly the token list `Tokens`, or the failure where `syl[x]` runs past the shortened list |
| Tokenize.MergeStepCases | seg_extraction.py:82-83 | one pass either leaves the list alone, joins `syl[x-1]` with the tilde at `x`, or (at `x == 0`, where `syl[-1]` is the last token and `syl[-1:1]` is empty) inserts an empty token before the last one |
| Tokenize.TokensSound | seg_extraction.py:79-83 | the tokens concatenate back to the syllable. Each token is one character, a vowel written with a tilde, or the empty token. No token is empty unless the syllable starts with `~`. The first token starts with the first character |
| Tokenize.StressTokenFirst | seg_extraction.py:79-87 | the first token is the stress mark exactly when the syllable starts with `'`, so stripping removes the mark and nothing else |
| Tokenize.TokensDefined | seg_extraction.py:81-83 | a syllable with at most one tilde never makes the loop run past the end of the list |
| Tokenize.NoTildeNoMerge | seg_extraction.py:79-83 | without a tilde every character is its own token, so the digraphs `tS` and `dZ` count as two tokens |
| Tokenize.SingleTilde | seg_extraction.py:79-83 | for a syllable whose only tilde is at position `p > 0`: the tilde is joined to the character before it exactly when the two form a vowel of the inventory and the tilde is not the last character; otherwise, and for every other character, each character is its own token |
| Tokenize.PlainMergeExample | seg_extraction.py:81-83 | `ma~s` tokenises to `["m", "a~", "s"]` |
| Tokenize.OverrunExample | seg_extraction.py:81-83 | `ma~w~s`: two merges shorten the list, and the pass at index 4 fails |
| Tokenize.LeadingTildeExample | seg_extraction.py:81-83 | `~a` tokenises to `["~", "", "a"]`: the pass at 0 inserts an empty token rather than merging |
| Tokenize.TrailingTildeExample | seg_extraction.py:81 | a tilde in the last position is never examined and stays a token of its own |
| Strings.RStrip | seg_extraction.py:116 | the result is a prefix of the line; everything removed is whitespace; the result does not end in whitespace |
| Strings.SplitJoin | seg_extraction.py:116 | joining the comma-split parts with commas gives back the string |
| Strings.JoinSplit | seg_extraction.py:127 | splitting the join of separator-free parts gives back the parts |
| Syllable.RoleFromName | seg_extraction.py:61 | exactly the three location names are accepted, each naming its own role |
| Syllable.InfoAt | seg_extraction.py:59-111 | a location is rejected exactly when it is not one of the three names; every other failure is an `IndexError` or a vowel-count failure |
| Syllable.SyllInfo | seg_extraction.py:59-111 | the step-by-step extractor returns exactly `InfoAt(syls, location)` |
| Syllable.DescribeSyllable | seg_extraction.py:79-111 | tokenising and then measuring one syllable string gives `SyllableInfo` |
| Syllable.Measure | seg_extraction.py:86-111 | stripping, vowel search, the count check and measuring give `Analyse` of the token list |
| Syllable.VowelIndices | seg_extraction.py:90-93 | the append loop collects exactly `VowelPositions` |
| Syllable.VowelPositionsExact | seg_extraction.py:90-93 | the collected indices are exactly the positions of vowel tokens, in increasing order |
| Syllable.MeasureVowels | seg_extraction.py:99-109 | the nucleus built with `+=`, the counts and the material are the `Measured` features of the vowel positions |
| Syllable.LocationOutcomes | seg_extraction.py:61-76 | an unknown name is rejected. The all-`NA` answer comes exactly for an antepenult of fewer than 3 syllables or a penult of fewer than 2, so `final` never answers `NA` |
| Syllable.RoleSelection | seg_extraction.py:71-76 | `final`, `penult` and `antepenult` describe `syls[-1]`, `syls[-2]` and `syls[-3]` when the word has that many syllables |
| Syllable.VowelCountGate | seg_extraction.py:90-96 | a syllable fails exactly when its stripped token list has no vowel token or more than three. The failure carries that count, and zero means no token is a vowel |
| Syllable.OnsetCoda | seg_extraction.py:104-105 | the onset count is the position of the first vowel token and the coda count is the number of tokens after the last one. Both runs contain no vowel token |
| Syllable.AnalyseMaterial | seg_extraction.py:104-109 | onset and coda material are the joined tokens before the first and after the last vowel token, or `None` when the count is 0 |
| Syllable.MaterialSentinel | seg_extraction.py:108-109 | the material is the literal `None` exactly when the count is 0: consonant tokens can never spell `None` |
| Syllable.SyllableRoundTrip | seg_extraction.py:79-109 | the syllable string is its stress mark (if leading), then the onset material, then the tokens from the first to the last vowel, then the coda material |
| Syllable.VowelSpan | seg_extraction.py:104-105 | every vowel token lies between onset and coda, so onset count + vowel tokens + coda count never exceed the token count |
| Syllable.NucleusAlone | seg_extraction.py:99-101 | with a single vowel token the nucleus is that token |
| Syllable.NucleusPair | seg_extraction.py:99-101 | with a later vowel token the nucleus is the first vowel token followed by the next one; a third is never part of it |
| Syllable.StressedExample | seg_extraction.py:86-87 | `'za` is measured as onset `z`, no coda, nucleus `a`: the leading mark is dropped |
| Syllable.InnerStressExample | seg_extraction.py:86-87 | `k'a` keeps its non-leading mark, which is counted as onset material `k'` |
| Syllable.EmptySyllableExample | seg_extraction.py:86 | an empty syllable fails with `IndexError` at `syl[0]` |
| Record.HeaderRow | seg_extraction.py:45-50 | the header row is the 31 column names in order |
| Record.InfoCells | seg_extraction.py:66-68 | the five cells of a group are all `NA` exactly for a missing syllable, and otherwise the five measured features in order |
| Record.Row | seg_extraction.py:170-175 | the row has 31 cells: word, transcription, syllable count, stressed number, location, the five groups in header order, and the part of speech |
| Record.FieldsRejoin | seg_extraction.py:116 | the fields contain no comma and joined with commas give the line without trailing whitespace |
| Record.StressedPositions | seg_extraction.py:133 | the positions, in increasing order, of exactly the syllables containing `'` |
| Record.UniqueStress | seg_extraction.py:133-139 | with one stressed syllable reported, it is the only syllable containing `'` |
| Record.Classify | seg_extraction.py:147-163 | the location is the one whose distance from the end matches the stressed index, and there is none exactly when the stress is before the antepenult |
| Record.ProcessRecord | seg_extraction.py:116-175 | the main-loop body, calling the extractor again for the stressed and alternative groups as the script does, gives `RecordOutcome` |
| Record.PlaceStress | seg_extraction.py:147-167 | the `if`/`elif` chain gives the classified row, or sets the word aside |
| Record.ProcessLexicon | seg_extraction.py:114-167 | the loop over all lines gives `Run`: header first, one row or set-aside word per line, stopping at the first failure |
| Record.RunAccounting | seg_extraction.py:114-167 | a run has no failure exactly when every line is accepted. The output is then the header followed by the rows of the written lines, and the set-aside words are those of the skipped lines, both in input order; each line gives exactly one of the two |
| Record.RunSticky | seg_extraction.py:114-119 | after a failure, further lines change nothing |
| Record.RunFailure | seg_extraction.py:114-119 | a failed run stopped at a failing line, keeping what the lines before it produced |
| Record.WrittenRow | seg_extraction.py:123-139 | a written row carries the three fields, the syllable count and the 1-based number of the only syllable with `'`, which is among the last three. Its stressed group describes that syllable |
| Record.WrittenLocation | seg_extraction.py:147-160 | the location is `final`, `penult` or `antepenult` exactly when the stressed syllable is last, second to last or third to last |
| Record.WrittenAlternative | seg_extraction.py:146-162 | the alternative group is the final syllable for penult stress, the penult otherwise, and all `NA` for a monosyllable |
| Record.WrittenPositions | seg_extraction.py:141-144 | the positional groups describe the last, second-to-last and third-to-last syllables, or are all `NA` when the word is too short |
| Record.SkippedRecord | seg_extraction.py:164-167 | a set-aside word is the line's word and transcription, with the stress before the antepenult, after its last three syllables were described without failure |
| Record.RecordRejections | seg_extraction.py:116-136 | a line fails on field count exactly when it has other than three fields, and then on stress count exactly when other than one syllable has `'`. A location name is never the cause |

## Left out

- File and CSV input/output are not modelled: opening the lexicon, the csv writer, `writerow` and closing the file (lines 35-39, 45-50, 170-175, 181). The header and every row are values in the `Report`; the lexicon is a sequence of lines, and how the file is cut into lines is not modelled.
- The `print` statements (lines 165, 185-188) are output only. The set-aside words are kept in the `Report` but not printed.
- When a line fails, Python stops with an exception, and the rows written so far stay in the output file. The model stops the run with the error in `Report.failure`, and the rows and set-aside words produced before it are kept.
- `re.search("'", syl)` (line 133) is modelled as "the syllable contains the character `'`".
- The `consonants` list (line 56) is never read by the script, so it does not appear. Every non-vowel token is onset or coda material, and there is no unknown-phoneme failure.
- Only `~` is ever merged into the token before it; `tS` and `dZ` stay two tokens.
- The script is Python 2 and works on byte strings; the model uses strings of characters. A non-ASCII character is several bytes in the script, so it becomes several tokens, each counted as onset or coda material; in the model it is one token. On such input the counts and the material differ from the script's.
