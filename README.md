# Name abbreviations, modelled in Dafny

This project models `Maxwell_Oziel.py`, the program that gives each name in a list a three-letter abbreviation. It works in five steps:

1. Every raw name line is normalised to CamelCase (`reformat_name`).
2. Every position of the normal form gets a score (`is_last_letter`, `calculate_scores_in_word`).
3. For every index pair `1 <= i < j <= n - 1`, the abbreviation `upper(name[0] name[i] name[j])` is formed. Each abbreviation keeps the lowest `scores[i] + scores[j]` among the pairs that produce it (`create_abbreviations`, `create_all_abbreviations`).
4. Every abbreviation that two or more names share is struck out of all of them (`find_duplicates`, `remove_duplicates`, `find_and_remove_duplicates`).
5. Each name keeps all of its remaining abbreviations tied for the lowest score (`choose_best_abbreviations_inner`, `choose_best_abbreviations`).

Layout:

- `outcomes.dfy` holds `Option` and `Result`.
- `chars.dfy` holds ASCII letter classes and case mapping.
- `dicts.dfy` holds the insertion-ordered `{abbreviation: score}` dictionary. It is a key sequence plus a map, and distinct keys are part of its type.
- `normalizer.dfy` holds `reformat_name`.
- `scorer.dfy` holds the scoring pass.
- `generator.dfy` holds abbreviation generation.
- `dedup.dfy` holds duplicate removal.
- `selector.dfy` holds the choice of the best abbreviations.
- `pipeline.dfy` holds the composition performed by `main`.

Where the source works by updating variables in a loop, the model is a method with that loop. Each such method is proved equal to a specification function, and the properties are lemmas about those functions. This covers:

- `calculate_scores_in_word`: mutates a list of `-1` placeholders in place. The model uses an array.
- `create_abbreviations`: a dictionary updated in nested loops.
- `find_duplicates`: a count dictionary.
- `choose_best_abbreviations_inner`: a running minimum.

The comprehensions and the single expressions are functions.

A `KeyError` from a letter that `calculate_scores_in_word` looks up, when the letter is missing from the table, is the `Failure` of a `Result` and carries the missing key. Across a batch, the first failing line's error is the result, as the exception would be.

Two behaviours of `reformat_name` follow from the code and are proved as stated:

- Apostrophes are removed before title-casing, so `o'brien` becomes `Obrien`, not `OBrien`.
- `str.title` lowers capitals inside a word. Normalising twice therefore differs from normalising once: `o brien` gives `OBrien`, which gives `Obrien`.

## Model

| member | source | states |
|---|---|---|
| NameNormalizer.Delete | Maxwell_Oziel.py:53-56 | the first and the last substitution: no occurrence of the deleted character is left and the text does not grow |
| NameNormalizer.CollapseNonLetters | Maxwell_Oziel.py:54 | only ASCII letters and spaces are left and the text does not grow |
| NameNormalizer.PipelineIsCamelCase | Maxwell_Oziel.py:54-56 | collapsing non-letter runs, title-casing and deleting spaces together give the reference CamelCase form: a letter upper-cased when it starts a run of letters, lower-cased otherwise, and no other character |
| NameNormalizer.CamelCaseShape | Maxwell_Oziel.py:54-56 | the reference form holds exactly one character per letter of its input, and only letters |
| NameNormalizer.ReformatNameSpec | Maxwell_Oziel.py:46-57 | the normal form is the reference form of the apostrophe-free name; it holds only ASCII letters; its length is the number of letters, so no longer than the input |
| NameNormalizer.ReformatCapitals | Maxwell_Oziel.py:53-57 | every letter of the apostrophe-free name appears in the normal form at the index given by the number of letters before it; it is upper-case exactly when it starts a run of letters and lower-case otherwise |
| NameNormalizer.CamelCaseOfLetters | Maxwell_Oziel.py:55-56 | on letters only, the reference form keeps every character and changes only its case |
| NameNormalizer.ReformatLettersOnly | Maxwell_Oziel.py:46-57 | a name of letters only keeps its length; its first letter is raised and the rest are lowered (`McDonald` gives `Mcdonald`) |
| NameNormalizer.DeleteAbsent | Maxwell_Oziel.py:53 | text without the deleted character, such as a name without apostrophes, passes the deletion unchanged |
| NameNormalizer.DeleteAppend | Maxwell_Oziel.py:53 | deleting a character from a concatenation deletes it from each part |
| NameNormalizer.CamelCaseAppend | Maxwell_Oziel.py:54-56 | the reference form of a concatenation is the form of the first part followed by the form of the second, read after the first |
| NameNormalizer.ReformatApostrophe | Maxwell_Oziel.py:53-55 | two letter words joined by an apostrophe become one word: the second word's first letter is lower-cased (`o'brien` gives `Obrien`) |
| NameNormalizer.ReformatNotIdempotent | Maxwell_Oziel.py:54-56 | two letter words joined by a space give a capital at the start of the second word, and normalising that result lowers the capital again |
| LetterScorer.ScoresPrefix | Maxwell_Oziel.py:33-42 | a successful pass over the first `k` positions yields `k` scores |
| LetterScorer.FailurePersists | Maxwell_Oziel.py:40 | once the lookup fails, every longer prefix fails with the same key |
| LetterScorer.ScoresPrefixSpec | Maxwell_Oziel.py:33-42 | a prefix succeeds exactly when no lookup in it misses; then each score is the per-position rule; otherwise some lookup misses |
| LetterScorer.ScoresSpec | Maxwell_Oziel.py:13-44 | the pass succeeds exactly when the table has every letter it must look up. On success: one score per position, position 0 scores 0, a word's first letter scores 0, a last letter (end of name or before a capital) scores 20 for `E` and 5 otherwise, and any other letter scores its table value plus `min(char_word_pos, 3)`, a bonus in 1..3. On failure: the error is the first missing letter |
| LetterScorer.ScoresNonNegative | Maxwell_Oziel.py:31-42 | with a table of non-negative values every score is non-negative, so no `-1` placeholder survives |
| LetterScorer.WordPosIsOffset | Maxwell_Oziel.py:42 | `char_word_pos` is the distance back to the start of the current word: there the name starts or a capital stands, and no capital lies in between |
| LetterScorer.CalculateScoresInWord | Maxwell_Oziel.py:22-44 | the loop that fills the placeholder array returns exactly the scores of the rule, or the first missing key |
| Dicts.Put | Maxwell_Oziel.py:76 | storing a score keeps an existing key's position and appends a new key |
| AbbreviationGenerator.KeepMin | Maxwell_Oziel.py:75-76 | one candidate's update leaves the smaller of the stored and offered scores, keeps every other key, and appends only a new key |
| AbbreviationGenerator.MinDictKeys | Maxwell_Oziel.py:70-76 | the keys after offering a list of candidates are exactly the candidates' abbreviations, at most one per candidate |
| AbbreviationGenerator.MinDictLowest | Maxwell_Oziel.py:75-76 | every stored score is at most the score of every candidate for that key |
| AbbreviationGenerator.MinDictAttained | Maxwell_Oziel.py:75-76 | every stored score is the score of some candidate for that key |
| AbbreviationGenerator.MinDictOrder | Maxwell_Oziel.py:75-76 | the keys are in order of first occurrence among the candidates, each once |
| AbbreviationGenerator.PairsSpec | Maxwell_Oziel.py:70-71 | the loops visit exactly the pairs `1 <= i < j <= n - 1`, `C(n - 1, 2)` of them, and none when `n <= 2` |
| AbbreviationGenerator.FirstOccurrences | Maxwell_Oziel.py:75-76 | reference key order: distinct keys, exactly the candidates' abbreviations |
| AbbreviationGenerator.FirstOccurrencesOrder | Maxwell_Oziel.py:75-76 | the keys of a prefix of the candidates are a prefix of the keys, so a key met earlier is listed earlier |
| AbbreviationGenerator.AbbreviationsShape | Maxwell_Oziel.py:66-78 | every key has three upper-case letters and starts with the upper-cased first letter of the normal form; the dictionary is empty when the normal form has fewer than three letters; there are at most `C(n - 1, 2)` keys |
| AbbreviationGenerator.AbbreviationsScores | Maxwell_Oziel.py:66-78 | every admissible pair's abbreviation is a key whose score is at most `scores[i] + scores[j]`; every key's score is `scores[i] + scores[j]` for some admissible pair producing it |
| AbbreviationGenerator.OfferRow | Maxwell_Oziel.py:71-76 | the inner loop leaves the dictionary of all candidates so far followed by those of row `i` |
| AbbreviationGenerator.CreateAbbreviations | Maxwell_Oziel.py:59-78 | the nested loops compute exactly the dictionary of the specification, or the scorer's missing key |
| AbbreviationGenerator.RecordsSuccess | Maxwell_Oziel.py:80-88 | the per-line list succeeds exactly when every line does, and then holds each line with its dictionary, in order |
| AbbreviationGenerator.RecordsFailure | Maxwell_Oziel.py:80-88 | a failing list carries the error of its first failing line |
| AbbreviationGenerator.AllAbbreviationsSpec | Maxwell_Oziel.py:80-88 | `create_all_abbreviations` on lines already read: one record per line, in order, with that line's `create_abbreviations` dictionary, or the first failing line's error |
| Deduplicator.OwnersPositive | Maxwell_Oziel.py:94-97 | a key is counted at all exactly when some record holds it |
| Deduplicator.OwnersOfTwo | Maxwell_Oziel.py:94-99 | two different records holding a key make its count exceed 1 |
| Deduplicator.TwoOfOwners | Maxwell_Oziel.py:94-99 | a count above 1 means two different records hold the key |
| Deduplicator.DuplicatesSpec | Maxwell_Oziel.py:90-99 | a key is a duplicate exactly when two different records hold it |
| Deduplicator.CountKeys | Maxwell_Oziel.py:96-97 | the inner loop adds one to the count of every key of one dictionary and leaves the other counts alone |
| Deduplicator.FindDuplicates | Maxwell_Oziel.py:90-99 | the counting loops return exactly the keys held by more than one record |
| Deduplicator.Without | Maxwell_Oziel.py:108 | the filtered keys are the old keys not removed, and stay distinct |
| Deduplicator.WithoutOrder | Maxwell_Oziel.py:108 | filtering keeps the order: the kept keys of a prefix are a prefix of the kept keys |
| Deduplicator.Restrict | Maxwell_Oziel.py:108 | the filtered dictionary has the old keys minus the removed ones, in their old order, with unchanged scores |
| Deduplicator.RemoveDuplicates | Maxwell_Oziel.py:101-108 | same number of records and same names; each dictionary loses exactly the given keys and keeps its other keys in order, with their scores |
| Deduplicator.FindAndRemoveDuplicates | Maxwell_Oziel.py:110-119 | finding then removing the duplicates yields the deduplicated list |
| Deduplicator.DeduplicatedSpec | Maxwell_Oziel.py:101-119 | records, names and order are kept; every dictionary becomes a sub-dictionary with unchanged scores and keys in their old order; a record keeps a key exactly when no other record has it; afterwards no key is shared by two records |
| BestSelector.Lowest | Maxwell_Oziel.py:129-137 | the running minimum is at most every score seen and equals one of them |
| BestSelector.WithScore | Maxwell_Oziel.py:131-137 | the keys kept are exactly those with the given score, each once |
| BestSelector.LowestSnoc | Maxwell_Oziel.py:132-134 | one more key lowers the minimum exactly when its score is below it |
| BestSelector.WithScoreSnoc | Maxwell_Oziel.py:135-136 | one more key joins the tied keys exactly when its score equals the minimum |
| BestSelector.WithScoreBelow | Maxwell_Oziel.py:132-134 | a score below the minimum so far has no earlier ties, so the winners restart with that key |
| BestSelector.WithScoreOrder | Maxwell_Oziel.py:131-137 | the tied keys of a prefix come first, in iteration order |
| BestSelector.BestEmpty | Maxwell_Oziel.py:121-139 | the result is empty exactly when the dictionary is |
| BestSelector.BestMinimal | Maxwell_Oziel.py:121-139 | a key is returned exactly when it is in the dictionary and no key scores lower |
| BestSelector.BestOrder | Maxwell_Oziel.py:121-139 | every winner appears once, and the winners keep dictionary order |
| BestSelector.ChooseBestAbbreviationsInner | Maxwell_Oziel.py:121-139 | the running-minimum loop, with `None` for `float('inf')`, returns exactly the winners of the specification |
| BestSelector.ChooseBestAbbreviations | Maxwell_Oziel.py:141-148 | same number of entries, same names in the same order, each with the winners of its dictionary |
| Pipeline.BestOfDeduplicated | Maxwell_Oziel.py:110-148 | after deduplication, a record's winners are exactly its unshared abbreviations that score no more than its other unshared abbreviations |
| Pipeline.WithScoreOfWithout | Maxwell_Oziel.py:108-137 | filtering out keys and then picking those with a given score is one filter of the original keys |
| Pipeline.BestOrderOfDeduplicated | Maxwell_Oziel.py:101-148 | after deduplication, a record's winners are its dictionary keys, in dictionary order, with every non-winner struck out |
| Pipeline.BestAbbreviationsSpec | Maxwell_Oziel.py:159-168 | the whole computation fails exactly when some line's lookup fails, with the first failing line's error. Otherwise every line, named and in order, gets exactly those abbreviations of its own dictionary that no other line has and that score lowest among those |
| Pipeline.BestAbbreviationsOrder | Maxwell_Oziel.py:159-168 | on success, every line's chosen abbreviations are its dictionary keys, in dictionary order, with every non-winner struck out |

## Left out

- File and console I/O is not modelled. The letter table and the name lines are parameters instead. This covers:
  - `load_letter_values` (lines 3-11);
  - the `open` and `rstrip("\n")` in `create_all_abbreviations` (lines 87-88): the lines are given already stripped;
  - `write_best_abbreviations_to_file` (lines 150-157);
  - the `input`, `print` and file-writing calls of `main` (lines 163, 167, 169).
- Unicode: letters are ASCII `a-zA-Z` only, matching `[^a-zA-Z]` at line 54. After that substitution only ASCII letters are left, so `str.title` and `str.upper` are modelled on ASCII alone.
- General regular expressions and `str.title` are not modelled. Only the three substitutions of `reformat_name` are modelled, and `title()` only on strings of letters and spaces.
- `float('inf')` at line 129 is `None` of an `Option`, because it only means "no minimum yet".
- Aliasing is not modelled: dictionaries and lists are values, so the model says nothing about sharing of the mutable objects. The inner loop of `create_abbreviations` is a method of its own (`OfferRow`), and so is the inner loop of `find_duplicates` (`CountKeys`).
- `find_duplicates` returns a Python `set`, which is unordered; the model returns a Dafny `set`.
