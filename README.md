# Akshara comparison engine of a Sanskrit Wordle

This project models the scoring core of a Wordle played with Sanskrit
aksharas (syllables), and proves properties of the model in Dafny.

- **`Word`** (`word_processor.dfy`, module `WordProcessor`). A word is split
  into parallel per-position views:
  - its aksharas;
  - one svara (vowel) per akshara: the first sub-symbol of the akshara's
    vinyaasa that is one of the fourteen `SVARAS`;
  - one vyanjana cluster per akshara: every other sub-symbol, in order.

  Building a word fails in two cases. The word's vinyaasa may contain the
  anusvara "ं", or an akshara may have no svara; the Python code then
  raises `IndexError` on `[0]`. The word also answers the membership and
  position queries that the comparison asks.
- **`Compare`** (`evaluate.dfy`, module `Evaluate`). This compares a secret
  word with a guess of the same akshara count. The status list holds one
  `(vyanjana status, svara status)` pair per position, decided by a ladder:
  1. the whole akshara at the same position gives `(Correct, Correct)`;
  2. else the whole akshara elsewhere in the secret gives `(Present, Present)`;
  3. else the svara and the vyanjana cluster are judged separately
     (correct, present or absent), and equal verdicts collapse into
     `(Absent, Absent)`, `(Mismatch, Mismatch)` or `(Missing, Missing)`.
- **`Scenarios`** (`scenarios.dfy`). Concrete games, built end to end from
  fixed decompositions.

The external `akshara` library splits a word into aksharas and vinyaasas.
Here its answer is an input: a sequence of `Syllable(akshara, vinyaasa)`.
The model assumes that the vinyaasa of the whole word, which is checked for
the anusvara, is the concatenation of the aksharas' vinyaasas
(`WordVinyaasa`).

`Word.is_svara_correct` and `Word.is_vyanjana_correct` are called by
`evaluate.py` but not defined in `word_processor.py`. They are defined here
by assumption, like the neighbouring queries:
- `IsSvaraCorrect(s, i)` is `svaras[i] == s`;
- `IsVyanjanaCorrect(v, i)` is `v in vyanjanas[i]`.

`evaluate.py` has no multiplicity-correction pass: each position's result
depends only on that guess position and the secret word (`Statuses`,
`PositionsAreIndependent`).

A Python constructor that can raise is modelled in three parts:
- a Dafny `constructor` for the dataclass defaults;
- a `PostInit` method that returns the error, if any;
- a static `New` factory that returns a `Result`.

## Model

| member | source | states |
|---|---|---|
| WordProcessor.Flatten | word_processor.py:62 | the comprehension at line 62, inner lists in order; characterised by `FlattenMembers` and `FlattenAppend` |
| WordProcessor.FlattenMembers | word_processor.py:62 | a symbol is in the flattened list exactly when it is in one of the inner lists |
| WordProcessor.FlattenAppend | word_processor.py:62 | flattening distributes over concatenation, so the inner lists' order is kept |
| WordProcessor.WordVinyaasa | word_processor.py:28 | the vinyaasa of the whole word, taken as the aksharas' vinyaasas concatenated in order; characterised by `WordVinyaasaMembers` |
| WordProcessor.WordVinyaasaMembers | word_processor.py:28 | a symbol is in the whole word's vinyaasa exactly when it is in some akshara's vinyaasa |
| WordProcessor.SvarasOf | word_processor.py:35 | the comprehension at line 35, in order; characterised by `FiltersMembers`, `FiltersAppend`, `FiltersPartition` and `SvaraIsFirstSvara` |
| WordProcessor.VyanjanasOf | word_processor.py:36 | the comprehension at line 36, in order; characterised by `FiltersMembers`, `FiltersAppend` and `FiltersPartition` |
| WordProcessor.FiltersMembers | word_processor.py:35-36 | the svara filter keeps exactly the sub-symbols in `SVARAS`, the vyanjana filter exactly the others |
| WordProcessor.SvaraIsFirstSvara | word_processor.py:35 | the kept svara is a sub-symbol of the vinyaasa with no svara before it, i.e. the first svara |
| WordProcessor.FiltersAppend | word_processor.py:35-36 | both filters distribute over concatenation, so both preserve the vinyaasa's order |
| WordProcessor.FiltersPartition | word_processor.py:35-36 | together the two filters keep every sub-symbol exactly once (as multisets) |
| WordProcessor.SingleSvaraLossless | word_processor.py:35-37 | for an akshara with one svara, svara plus vyanjana cluster is its whole vinyaasa, up to order |
| WordProcessor.FirstSvaraless | word_processor.py:33-35 | the position where the loop fails: every earlier akshara has a svara and this one has none, or no akshara lacks one |
| WordProcessor.FirstSvaralessAt | word_processor.py:33-35 | that position is determined by the first svara-less akshara |
| WordProcessor.ConstructionErrorAt | word_processor.py:33-35 | once the anusvara check has passed, the error is `MissingSvara(i)` for the first svara-less akshara `i`, else none |
| WordProcessor.ConstructionError | word_processor.py:28-35 | `UnsupportedAnusvara` exactly when some vinyaasa holds "ं"; no error exactly when no vinyaasa holds it and every akshara has a svara; `MissingSvara(i)` names the first akshara without a svara |
| WordProcessor.DecomposedStep | word_processor.py:33-38 | appending the next akshara's first svara and its cluster extends the decomposed prefix by one position |
| WordProcessor.Word.DecomposedIsValid | word_processor.py:35-38 | views built from a decomposition are parallel to the aksharas, every svara is in `SVARAS`, and no vyanjana is |
| WordProcessor.Word.constructor | word_processor.py:14-23 | the dataclass initialiser: the word's text is kept and the akshara, svara and vyanjana lists start empty |
| WordProcessor.Word.PostInit | word_processor.py:25-38 | fails with exactly the error `ConstructionError` gives; otherwise the aksharas, svaras and vyanjana clusters are those of the decomposition, one per akshara in order, and the word is valid |
| WordProcessor.Word.New | word_processor.py:14-38 | building a word fails exactly when `ConstructionError` says, with that error; otherwise the fresh word keeps its text, is valid and decomposes as given |
| WordProcessor.Word.IsAksharaCorrect | word_processor.py:48-50 | true iff `aksharas[index]` is the akshara; then the akshara is also present |
| WordProcessor.Word.IsAksharaPresent | word_processor.py:52-54 | true iff the akshara occurs at some position |
| WordProcessor.Word.IsSvaraPresent | word_processor.py:56-58 | true iff the svara occurs in `svaras`; in a valid word it is then in `SVARAS` |
| WordProcessor.Word.IsVyanjanaPresent | word_processor.py:60-63 | true iff the symbol is in some position's cluster (the flattened list); in a valid word it is then not a svara |
| WordProcessor.Word.IsSvaraCorrect | evaluate.py:64 | the svara at the position is the given one; such a svara is also present |
| WordProcessor.Word.IsVyanjanaCorrect | evaluate.py:65-67 | the symbol is in the position's cluster; such a symbol is also present |
| Evaluate.SvaraStatus | evaluate.py:62-74 | `Correct` iff the secret's svara at the position is the guessed one; `Present` iff not but it occurs elsewhere; `Absent` iff the secret has it nowhere |
| Evaluate.VyanjanaStatus | evaluate.py:56-81 | `Correct` iff some guessed consonant is in the secret's cluster at the position; `Absent` iff none is in any cluster; `Present` otherwise; an empty cluster gives `Absent` |
| Evaluate.Cell | evaluate.py:50-94 | `(Correct, Correct)` iff the akshara matches at the position; `(Present, Present)` iff it does not match there but occurs elsewhere; `Missing` and `Mismatch` appear only as matched pairs |
| Evaluate.FallbackPairs | evaluate.py:83-94 | for an akshara absent from the secret: both sides absent gives `(Absent, Absent)`, both present gives `(Mismatch, Mismatch)`, both correct gives `(Missing, Missing)`, unequal sides give `(vyanjana, svara)` |
| Evaluate.Statuses | evaluate.py:48-94 | the status list `compare` produces: one pair per guess position, position `i` holding `Cell` of the guess's akshara, svara and cluster at `i` |
| Evaluate.AllCorrectIffSameAksharas | evaluate.py:50-51 | every position is `(Correct, Correct)` iff the guess has exactly the secret's aksharas (the win test of app.py:142) |
| Evaluate.PositionsAreIndependent | evaluate.py:48-94 | two guesses that agree at a position get the same result there: no cross-position adjustment |
| Evaluate.SelfComparisonWins | evaluate.py:50-51 | a word compared with itself is `(Correct, Correct)` everywhere |
| Evaluate.Compare.constructor | evaluate.py:20-29 | the dataclass initialiser: the secret and the guess are kept and the status list starts empty |
| Evaluate.Compare.PostInit | evaluate.py:38-43 | fails iff the akshara counts differ; otherwise the status list has the guess's length and every entry is `(Absent, Absent)` |
| Evaluate.Compare.New | evaluate.py:20-43 | setting up a comparison fails exactly when the akshara counts differ; otherwise the status list is all `(Absent, Absent)` |
| Evaluate.Compare.PositionStatus | evaluate.py:50-94 | one pass of the loop body: the result is the ladder's verdict `Cell` for the guess's akshara, svara and cluster at the index |
| Evaluate.Compare.Compare | evaluate.py:45-94 | every position's status is overwritten with its verdict, the length is kept, and neither word is changed |
| Evaluate.CompareTwice | evaluate.py:48-94 | comparing twice yields the same status list both times |
| Scenarios.ConsonantsThenVowel | word_processor.py:35-36 | an akshara spelt as consonants with virama, then a vowel, has that vowel as its svara and those consonants as its cluster |
| Scenarios.MeenakshiBuilds | word_processor.py:28-35 | मीनाक्षी (मी, ना, क्षी) builds without error |
| Scenarios.MeeneekshiBuilds | word_processor.py:28-35 | मीनीक्षी (मी, नी, क्षी) builds without error |
| Scenarios.BuildMeenakshi | word_processor.py:25-38 | the built word मीनाक्षी has aksharas मी, ना, क्षी, svaras ई, आ and cluster न् in the middle |
| Scenarios.BuildMeeneekshi | word_processor.py:25-38 | the built word मीनीक्षी has aksharas मी, नी, क्षी, svara ई and cluster न् in the middle |
| Scenarios.MiddleCell | evaluate.py:56-94 | against मीनाक्षी, the guessed नी at position 1 gives `(Correct, Present)`: न् is in place, ई is only elsewhere |
| Scenarios.MeeneekshiAgainstMeenakshi | evaluate.py:48-94 | the lemma over the specification: for any valid secret and guess with the views of मीनाक्षी and मीनीक्षी, `Statuses` is `(Correct, Correct), (Correct, Present), (Correct, Correct)` |
| Scenarios.GuessedExactly | evaluate.py:48-53 | guessing मीनाक्षी exactly gives `(Correct, Correct)` at all three positions |
| Scenarios.SvaraPresentElsewhere | evaluate.py:48-94 | the end-to-end run: both words built with `Word.New`, compared through `Compare.New` and `Compare.Compare`, leaving the status list `(Correct, Correct), (Correct, Present), (Correct, Correct)` |
| Scenarios.AnusvaraRefused | word_processor.py:28-29 | building शंख, whose vinyaasa holds "ं", fails with `UnsupportedAnusvara` |

## Left out

- The `akshara` library calls `vk.get_akshara` and `vk.get_vinyaasa` (word_processor.py:40-46) are a foreign linguistic service. Their answer is an input (`seq<Syllable>`), and the whole word's vinyaasa is assumed to be the concatenation of the aksharas' vinyaasas.
- The unused `base_url` field (word_processor.py:21) is not modelled.
- `Compare` accepts a plain string for either word and builds a `Word` from it (evaluate.py:33-36). This is not modelled: both arguments are `Word`s.
- The commented-out older status scheme (evaluate.py:96-125) is not modelled.
- No multiplicity-correction pass is modelled, because evaluate.py has none.
- `is_svara_correct` and `is_vyanjana_correct` are not defined in word_processor.py. `Word.IsSvaraCorrect` and `Word.IsVyanjanaCorrect` define them by assumption, as stated above. As written, evaluate.py:64 raises `AttributeError` as soon as `compare` reaches the fallback branch (a guessed akshara that is neither at its position nor elsewhere in the secret); the assumed definitions are what let that branch reach a verdict.
- WordProcessor.Word.IsAksharaCorrect: takes a `nat` index within range. Python's negative indices and the `IndexError` for an index out of range are not modelled, because the comparison only passes in-range indices. The same holds for `IsSvaraCorrect`, `IsVyanjanaCorrect` and `Compare.PositionStatus`.
- WordProcessor.Word.PostInit: when it fails, the model says nothing about the fields it has partly filled. In Python the exception discards the object, and `New` returns only the error.
- The UI, session, logging and transliteration (app.py, utils.py, backend.py) are not part of this model.
- Colour rendering (grid.py) is not part of this model.
- Word-list reading and random word choice (dictionary.py) are not part of this model.
- Storage, password hashing and network I/O (database.py) are not part of this model.
