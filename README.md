# Dataset editor for calculated questions — a Dafny model

local_dataseteditor is a Moodle plugin for editing the wildcards (dataset
definitions) of a question category and the rows of values behind them. This
project models its page logic and data shaping in Dafny and proves properties
of that model:

- **import_dataset.php**: reading an uploaded tab-separated spreadsheet into
  a header of wildcard names and data rows. Blank lines and lines holding
  just `0` are skipped. On the confirmation form, cells that say `null` are
  rejected. The page also lists the changes an overwrite would make.
- **dataset.php**: sorting each submitted dataset row into one of three kinds:
  - kept;
  - deleted on request (DELETE_GIVEN);
  - deleted because it is empty (DELETE_ASSUME).

  Partly filled rows are rejected. Cancel, save, save-and-add and any other
  button each lead somewhere different. The page also decides what is shown
  again and how many rows the form offers.
- **locallib.php**: `get_wildcards`, which gives the wildcards of a category,
  each with a sample of values capped in size and a count of the values left
  out. `get_dataset_items`, which groups the stored values into rows by item
  number.
- **renderer.php**: the wildcard edit form. Wildcards are sorted by
  case-folded name, then by id. Blank entries pad the list to a minimum
  length. Each row gets its own field suffix, and a delete box appears only
  for stored wildcards.
- **wildcards.php**: collecting the submitted wildcard rows. A sample that
  left values out ends in `...`. The form has three blank rows below the
  stored wildcards.

Some PHP built-ins are written out in `PhpText`:

- `rtrim` and string falsiness;
- `explode`/`implode` on a separator: a tab for upload lines, a comma for key lists;
- `strtolower`;
- the byte order of `<` on strings;
- `clean_param(..., PARAM_ALPHANUMEXT)` and `clean_param(..., PARAM_SEQUENCE)`;
- `intval` on a text of digits, saturated at PHP_INT_MAX;
- the key order of `array_flip` and `array_diff_key`.

The model makes these choices:

- A PHP array keyed by id becomes a key sequence plus a map (`LocalLib.WildcardList`).
- Database queries become filters over record lists. Those lists are taken
  to be in the order the query asks for.
- Form fields become total functions from the field's index to its value.
- `unformat_float`, and the emptiness test applied to its result, are
  parameters.

## Model

| member | source | states |
|---|---|---|
| PhpText.Rtrim | import_dataset.php:81 | the result is a prefix of the line, does not end in whitespace, and only whitespace was removed |
| PhpText.Explode | import_dataset.php:89 | explode on a separator (a tab for upload lines, a comma for key lists) yields at least one piece and no piece holds the separator |
| PhpText.ImplodeExplode | import_dataset.php:89 | joining the pieces with the separator gives back the text |
| PhpText.ExplodeImplode | dataset.php:119-124 | splitting pieces joined by the separator gives back the pieces, when none holds the separator |
| PhpText.ExplodeFieldCount | import_dataset.php:89 | a text with t separators has t + 1 pieces |
| PhpText.ToLower | renderer.php:64-65 | strtolower keeps the length, folds every capital A-Z to its small letter and keeps every other character |
| PhpText.ToLowerEqual | renderer.php:64-67 | two names fold to the same text exactly when they have equal length and agree character by character up to case |
| PhpText.CleanAlphanumExt | import_dataset.php:93 | the cleaned name holds only letters, digits, `_` and `-`, is no longer than the input, leaves an already clean name unchanged, and keeps a single character exactly when it is allowed |
| PhpText.CleanAlphanumExtAppend | import_dataset.php:93 | cleaning a concatenation cleans each part: every allowed character is kept, in order, and every other one dropped |
| PhpText.CleanSequence | dataset.php:119-124 | PARAM_SEQUENCE leaves only digits and commas, leaves an already clean text unchanged, and keeps a single character exactly when it is a digit or a comma |
| PhpText.CleanSequenceAppend | dataset.php:119-124 | cleaning a concatenation cleans each part: every digit and comma is kept, in order, and every other character dropped |
| PhpText.StrLessCharacterized | renderer.php:68 | `<` on two names is strcmp order: a proper prefix sorts first, otherwise the first differing character decides |
| PhpText.StrLessIrreflexive | renderer.php:68 | no name sorts before itself |
| PhpText.StrLessTrichotomy | renderer.php:67-68 | of two different names exactly one sorts first |
| PhpText.StrLessTransitive | renderer.php:68 | the string order is transitive |
| PhpText.NatToString | renderer.php:94 | the decimal text is non-empty, one digit exactly for numbers below 10, and ends in the last digit |
| PhpText.Intval | dataset.php:119-124 | intval of a text of digits is its value when that is at most PHP_INT_MAX (2^63 - 1), and PHP_INT_MAX otherwise |
| PhpText.DigitsValueOfNatToString | dataset.php:119-124 | the unbounded value of a number's decimal text is the number |
| PhpText.IntvalOfNatToString | dataset.php:119-124 | intval of a number's decimal text is the number up to PHP_INT_MAX, and PHP_INT_MAX above it |
| PhpText.NatToStringInjective | renderer.php:94 | different numbers have different decimal texts |
| PhpText.Dedup | import_dataset.php:197 | array_flip's keys: every name once, the same names as the list; a one-name list is kept as it is |
| PhpText.DedupPrefix | import_dataset.php:197 | the names of every prefix of the list come first, in the same order: keys are in the order of first occurrence |
| PhpText.DiffKeys | import_dataset.php:199-200 | array_diff_key keeps exactly the keys of the first array missing from the second, without repeats; a one-key array is kept exactly when the second lacks its key |
| PhpText.DiffKeysAppend | import_dataset.php:199-200 | filtering a concatenation filters each part, so the kept keys stay in the first array's order |
| ImportDataset.ReadLinesCharacterized | import_dataset.php:78-111 | the first kept line is the header, one cleaned name per field; each later kept line is one data row, in file order, without gaps; no kept line means no header and no rows |
| ImportDataset.SkippedLines | import_dataset.php:81-87 | `!$line` after rtrim skips exactly a line of whitespace only or a `0` followed by whitespace only |
| ImportDataset.ZeroLineSkipped | import_dataset.php:81-87 | a line holding `0` plus trailing whitespace changes nothing, like a blank line: a data row whose only non-blank text is a leading 0 is dropped and later rows move up |
| ImportDataset.ReadHeaderLine | import_dataset.php:91-95 | the header loop yields one name per field, field k cleaned to letters, digits, `_` and `-` |
| ImportDataset.ReadDataLine | import_dataset.php:97-106 | the data loop gives field i the key i exactly when the field is non-empty, with the unformatted value |
| ImportDataset.ParseUpload | import_dataset.php:78-111 | the upload loop yields exactly that header and those rows; a data row has a key only for a non-empty field |
| ImportDataset.IsNullTextCases | import_dataset.php:156 | `strtolower($val) == 'null'` holds exactly for the four letters n, u, l, l, each in either case |
| ImportDataset.RowMissingEmpty | import_dataset.php:152-170 | a row yields no message exactly when none of its cells says null; each of its messages carries the 1-based row number |
| ImportDataset.MissingEmpty | import_dataset.php:148-173 | the form yields no message exactly when no cell says null; every message names a row between 1 and the row count |
| ImportDataset.ReadResubmittedRow | import_dataset.php:150-172 | a resubmitted row holds every non-null cell under its column; each null cell gives one message |
| ImportDataset.ReadResubmittedNames | import_dataset.php:141-146 | the name loop yields the first wildcardcount names, each field cleaned |
| ImportDataset.ReadResubmittedRows | import_dataset.php:148-173 | the row loop yields exactly the rows and messages of the first itemcount lines, and success exactly when there is no message |
| ImportDataset.ResubmittedNamesCharacterized | import_dataset.php:141-146 | there are max(wildcardcount, 0) names and name w is field w cleaned |
| ImportDataset.ResubmittedRowsCharacterized | import_dataset.php:148-173 | there are max(itemcount, 0) rows and row i holds the non-null cells of line i |
| ImportDataset.ParseResubmission | import_dataset.php:136-173 | the wildcard and row loops yield exactly ResubmissionOf: the cleaned names, the non-null cells of each row, the messages and the verdict |
| ImportDataset.ResubmissionOfCharacterized | import_dataset.php:136-173 | the names and rows are as the two lemmas above say; reading the form back succeeds exactly when no cell among the first itemcount rows and wildcardcount columns says null; every message names a row between 1 and itemcount |
| ImportDataset.ComputeNameDiff | import_dataset.php:193-200 | dropped names are the current names missing from the header; added names are the header names not current; the two are disjoint, without repeats, and names in both are in neither |
| ImportDataset.BuildChangeList | import_dataset.php:202-211 | one delete per dropped name, then one add per new name, then "update all data" |
| ImportDataset.HandleImportPost | import_dataset.php:60-216 | a readable upload is parsed and shown for confirmation, never saved; an upload error or unopened file shows nothing; cancel does nothing; overwrite saves exactly when no cell is null and otherwise shows the form again, and the dataset saved or shown again is the one read back from the form (its cleaned names and non-null cells); every confirmation lists the changes of its names |
| LocalLib.DefinitionsOf | locallib.php:44-49 | the category's definitions, with distinct ids; a one-record table yields that record exactly when it is of the category |
| LocalLib.DefinitionsOfAppend | locallib.php:44-49 | selecting from two tables in turn selects from their concatenation: the definitions keep table order |
| LocalLib.ItemsOf | locallib.php:65-71 | exactly the value records of the given definitions |
| LocalLib.ValuesOfAppend | locallib.php:73-79 | the values of a definition in two tables in turn are its values in their concatenation, in table order |
| LocalLib.ItemsOfValues | locallib.php:65-79 | selecting the value records of the category's definitions keeps each definition's own values, in table order |
| LocalLib.CollectDefinitions | locallib.php:51-62 | one entry per definition, keyed by its id, in query order, with no values and a zero count |
| LocalLib.SampleValues | locallib.php:73-79 | each wildcard keeps the first val_limit of its values in query order and counts the rest |
| LocalLib.SamplesOfStep | locallib.php:73-79 | one more value record keeps every entry's id and name and its sample the first val_limit values read so far, with the rest counted |
| LocalLib.GetWildcards | locallib.php:38-82 | one entry per definition of the category, keyed by id, in query order; each sample is at most val_limit long, and sample plus count is all of the definition's values |
| LocalLib.LastWith | locallib.php:107-117 | a record with the given item number and definition, or none exactly when there is none |
| LocalLib.LastWithIsLast | locallib.php:107-117 | when a record has the item number and definition and no later record does, that record is the one returned: the last match wins |
| LocalLib.LastWithNumberIsLast | locallib.php:107-117 | when a record has the item number and no later record does, that record is the one returned: the last record of the row wins |
| LocalLib.GroupCharacterized | locallib.php:104-117 | rows are exactly the item numbers in use; row n holds one entry per definition with a value in row n, namely its last record |
| LocalLib.GroupAsWrittenCollapses | locallib.php:116 | as written every row holds a single entry under the null key: the row's last record |
| LocalLib.GroupAsWrittenLosesValues | locallib.php:116 | two values in one row: the documented grouping keeps two entries, the written one keeps one |
| LocalLib.GetDatasetItems | locallib.php:85-120 | the grouping loop, with the inner key being the definition id: rows by item number, each mapping a definition to its stored value |
| LocalLib.GetDatasetItemsAsWritten | locallib.php:91-120 | the grouping loop as written: one entry per row, the last record with that item number |
| Renderer.WildcardCmp | renderer.php:63-74 | the comparison returns -1, 0 or 1, and 0 exactly when the case-folded names and the ids are equal |
| Renderer.WildcardCmpOrdersByName | renderer.php:63-74 | the case-folded name decides first; the id only breaks ties |
| Renderer.WildcardCmpAntisymmetric | renderer.php:63-74 | swapping the arguments negates the result |
| Renderer.WildcardCmpTransitive | renderer.php:63-74 | "sorts no later than" is transitive |
| Renderer.Insert | renderer.php:76 | inserting adds exactly one wildcard |
| Renderer.InsertSorted | renderer.php:76 | inserting into a sorted list keeps it sorted |
| Renderer.SortWildcards | renderer.php:76 | uasort's result is sorted by wildcard_cmp and a permutation of the input |
| Renderer.PadWildcards | renderer.php:81-89 | blank entries are appended up to min_rows; the original entries stay in front unchanged; nothing is added when the list is already long enough |
| Renderer.SuffixInjective | renderer.php:94 | different rows get different field suffixes |
| Renderer.BuildRows | renderer.php:92-117 | row k shows entry k under suffix `_k`; a delete box appears exactly when the id is positive; suffixes are distinct |
| Renderer.RenderWildcardForm | renderer.php:49-123 | max(count, min_rows) rows: row k shows entry k of SortWildcards (sorted by wildcard_cmp and a permutation of the input), then blank rows; delete box exactly for stored ids; distinct suffixes |
| DatasetForm.KeysOf | dataset.php:119-124 | a key list field cleaned to digits and commas and cut at the commas gives one key per piece, intval of that piece (saturated at PHP_INT_MAX), so one more key than there are commas |
| DatasetForm.Intvals | dataset.php:119-124 | array_map('intval', ...) gives one number per piece, piece k read with intval |
| DatasetForm.KeysOfEmptyText | dataset.php:119-124 | an empty key list field reads as the single key 0 |
| DatasetForm.KeysOfImplode | dataset.php:119-124 | a non-empty list of keys written as comma-separated decimals reads back key by key, a key above PHP_INT_MAX as PHP_INT_MAX; with no key above PHP_INT_MAX the list reads back as itself |
| DatasetForm.KeysOfPieces | dataset.php:119-124 | every piece a key is read from is made of digits only |
| DatasetForm.ReadPost | dataset.php:119-124 | both key lists are read with KeysOf and are never empty; the other fields are passed on unchanged |
| DatasetForm.ProblemsEmpty | dataset.php:171-183 | no error notification exactly when no row is partly filled without being deleted, unless the submit was a cancel |
| DatasetForm.ReadRowCells | dataset.php:143-169 | a row's cells are recorded under every wildcard key; the row has data or an empty cell exactly when some cell is filled or empty |
| DatasetForm.ItemsStep | dataset.php:133-169 | recording one more row keeps `$newitems` equal to one record set per row read so far |
| DatasetForm.MarksStep | dataset.php:137-188 | marking one more row keeps `$deleteitems` equal to the marks of the rows read so far |
| DatasetForm.ClassifyRow | dataset.php:134-188 | for one row: cells recorded exactly when there are wildcard keys; marked DELETE_GIVEN when ticked and DELETE_ASSUME when without data; a problem exactly when partly filled, not deleted and not cancelled; no other row's entry changes |
| DatasetForm.ClassifyRows | dataset.php:133-189 | every row's cells are recorded (no row when there are no wildcard keys); a row is marked when its box is ticked or it has no data, DELETE_ASSUME winning over DELETE_GIVEN; the errors are the partly filled rows in order; success exactly when there are none |
| DatasetForm.DropAssumed | dataset.php:242-246 | the delete marks shown again are exactly the DELETE_GIVEN ones |
| DatasetForm.HandleDatasetPage | dataset.php:110-255 | the submitted key lists are read by ReadPost; any button but cancel, save or save-and-add is an error; a save happens exactly for a complete, non-cancelled submit; the user's input is shown again exactly when not cancelled and not complete; the form has the submitted row count plus 5 rows after save-and-add and the stored count plus 5 otherwise |
| WildcardsPage.CollectWildcardEdits | wildcards.php:62-77 | exactly num_wildcard_rows rows (none for a negative count), in index order |
| WildcardsPage.MarkTruncated | wildcards.php:94-98 | a non-empty sample that left values out keeps its length, ends in `...` and keeps the values before it; an empty one becomes the single value `...` (the write to `values[-1]`); otherwise the wildcard is unchanged |
| WildcardsPage.TruncatedSampleShape | wildcards.php:93-98 | with a sample size of at least one, a sample that left values out shows its first size-1 values and then `...` |
| WildcardsPage.MarkAllTruncated | wildcards.php:94-98 | every wildcard, under the same key and in the same order, gets its ellipsis |
| WildcardsPage.CmpOrderIsNameOrder | renderer.php:63-76 | wildcards in wildcard_cmp order are in case-insensitive name order |
| WildcardsPage.ShownEntries | wildcards.php:93-98 | entry k of the list shown is definition k's wildcard, with at most four values |
| WildcardsPage.SortedRowsShowDefinitions | renderer.php:76-117 | the first rows show each definition exactly once, in case-insensitive name order, with at most four values |
| WildcardsPage.RowsFromDefinitions | renderer.php:76-117 | every sorted row shows some definition |
| WildcardsPage.DefinitionsInRows | renderer.php:76-117 | every definition has a sorted row |
| WildcardsPage.RowsInNameOrder | renderer.php:63-117 | rows built from a sorted list are in case-insensitive name order |
| WildcardsPage.HandleWildcardsPage | wildcards.php:53-101 | a POST's rows are collected and its button identified in the order cancel, save-and-add, save; the form shows every definition of the category once, in name order, with at most four values, then exactly three blank rows |

## Left out

- HTML, notification text, headings, `print_object`, and the login, capability and session-key checks are presentation or framework plumbing.
- `required_param` aborts the page when a field is missing; the model takes every field as present.
- PhpText.Intval: the limit is the 64-bit PHP_INT_MAX; a 32-bit build, where it is 2^31 - 1, is not modelled.
- The cleaning of the other form fields (PARAM_INT, PARAM_BOOL, PARAM_NOTAGS) is not modelled; those field functions return values already cleaned. The two PARAM_SEQUENCE key lists of dataset.php are cleaned, cut and read with intval by DatasetForm.KeysOf.
- `unformat_float` and the test `trim($val) === ''` on its result are parameters, since locale number parsing is not modelled.
- Reading the upload (`fopen`, `fgets`, `feof`) is not modelled; the file is given as its lines.
- The database is not modelled. The tables are record lists, already in the order each query asks for. Definition ids are taken to be distinct, as a primary key guarantees.
- `local_dataseteditor_save_dataset_items` and `overwrite_wildcard_dataset` are not part of this model; only what the pages pass to them is.
- dataset.php reads its wildcards and items through `local_dataseteditor_get_wildcards` and `local_dataseteditor_get_dataset_items`, which locallib.php in this revision does not define. The number of stored rows it counts afterwards is a parameter.
- Renderer.WildcardCmp: PHP's `!=` and `<` compare two numeric strings as numbers. The model uses byte order for all names.
- Renderer.SortWildcards: renderer.php:76 passes the bare name `wildcard_cmp`, an undefined constant. PHP 5 and 7 read it as the string 'wildcard_cmp' with a warning, and PHP 8 throws an Error there. The model assumes the sort runs with wildcard_cmp.
- Renderer.SortWildcards: uasort's own algorithm is not modelled. The model specifies the sort by its result, and any sort by wildcard_cmp gives the same order when ids are distinct.
- LocalLib.GetDatasetItems: the key order of the returned rows is not modelled, since the query has no ordering.
- WildcardsPage.HandleWildcardsPage: states each row's id, name, order and the four-value bound, not the exact sample shown. MarkAllTruncated and LocalLib.GetWildcards state that sample.
- The renderers the pages call besides `render_wildcard_form` (`render_dataset_form`, `render_dataset_import_confirm`, `render_dataset_upload_form`) are not in renderer.php as given and are not part of this model; only what the pages pass to them is.
- The export page, the index, course and category pages, lib.php and the constants files are outside this model.

## Findings

| source | as written | input that shows it | evidently intended | confidence | as-written member | corrected member |
|---|---|---|---|---|---|---|
| locallib.php:116 | each value is stored under `$item->definition`, a field never set, so every value of a row lands under the null key and only the row's last value survives | two value records with item number 1, for definitions 10 and 11 | the inner key is the definition id, as the doc comment at locallib.php:85-89 promises | not executed | LocalLib.GroupAsWrittenLosesValues | LocalLib.GetDatasetItems |
