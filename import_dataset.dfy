/**
 * The import page of the dataset editor (import_dataset.php): reading an
 * uploaded tab-delimited spreadsheet into a header of wildcard names and a
 * list of data rows, re-reading the confirmation form on resubmission
 * (rejecting cells that say `null`), and listing the wildcard changes an
 * overwrite would make.
 *
 * unformat_float() is a parameter `unformat`: the model does not interpret
 * numbers, it only records which text each stored value came from.
 */
module ImportDataset {
  import opened PhpText
  import opened Wrappers

  /** One data row: column index -> parsed value; an empty field has no key. */
  type DataRow<V> = map<nat, V>

  /** What has been read so far: the header names and the data rows. */
  datatype Upload<V> = Upload(header: seq<string>, rows: seq<DataRow<V>>)

  /** A line that `!$line` rejects after rtrim: blank, or exactly "0". */
  predicate IsSkipped(line: string) {
    IsFalsy(Rtrim(line))
  }

  /**
   * `!rtrim($line)` holds exactly for a line of whitespace only, or for a `0`
   * followed by whitespace only.
   */
  lemma SkippedLines(line: string)
    ensures IsSkipped(line) <==>
      || (forall k :: 0 <= k < |line| ==> IsRtrimChar(line[k]))
      || (|line| >= 1 && line[0] == '0' && forall k :: 1 <= k < |line| ==> IsRtrimChar(line[k]))
  {
    var t := Rtrim(line);
    if |t| > 0 {
      assert line[0] == t[0] && line[|t| - 1] == t[|t| - 1];
      if |t| == 1 {
        assert t == [line[0]];
      }
    }
  }

  /** The header: each tab-separated field cleaned with PARAM_ALPHANUMEXT. */
  function CleanHeader(words: seq<string>): seq<string> {
    seq(|words|, k requires 0 <= k < |words| => CleanAlphanumExt(words[k]))
  }

  /** A data line: field i becomes key i, unless it is empty. */
  function ParseRow<V>(words: seq<string>, unformat: string -> V): DataRow<V> {
    map i | 0 <= i < |words| && |words[i]| > 0 :: unformat(words[i])
  }

  /** The effect of one line of the upload loop. */
  function ReadLine<V>(u: Upload<V>, line: string, unformat: string -> V): Upload<V> {
    if IsSkipped(line) then u
    else
      var t := Rtrim(line);
      if u.header == [] then Upload(CleanHeader(Explode(TAB, t)), u.rows)
    else Upload(u.header, u.rows + [ParseRow(Explode(TAB, t), unformat)])
  }

  /** The effect of the whole upload loop on a file read as lines. */
  function ReadLines<V>(lines: seq<string>, unformat: string -> V): Upload<V>
    decreases |lines|
  {
    if |lines| == 0 then Upload([], [])
    else ReadLine(ReadLines(lines[..|lines| - 1], unformat), lines[|lines| - 1], unformat)
  }

  /** The lines that are not skipped, right-trimmed, in file order. */
  function Kept(lines: seq<string>): (r: seq<string>)
    ensures |r| <= |lines|
    decreases |lines|
  {
    if |lines| == 0 then []
    else
      var line := lines[|lines| - 1];
      Kept(lines[..|lines| - 1]) + (if IsSkipped(line) then [] else [Rtrim(line)])
  }

  /**
   * What the upload loop produces: the first kept line is the header (one
   * cleaned name per field), and each later kept line is one data row, in
   * file order, numbered 0, 1, 2, ... without gaps.
   */
  lemma {:induction false} ReadLinesCharacterized<V>(lines: seq<string>, unformat: string -> V)
    ensures var k, u := Kept(lines), ReadLines(lines, unformat);
      && (u.header == [] <==> k == [])
      && (k == [] ==> u.rows == [])
      && (k != [] ==> u.header == CleanHeader(Explode(TAB, k[0])) && |u.rows| == |k| - 1)
      && (forall j :: 0 <= j < |u.rows| ==> u.rows[j] == ParseRow(Explode(TAB, k[j + 1]), unformat))
    decreases |lines|
  {
    if |lines| > 0 {
      var init := lines[..|lines| - 1];
      ReadLinesCharacterized(init, unformat);
      var k0, u0 := Kept(init), ReadLines(init, unformat);
      var t := Rtrim(lines[|lines| - 1]);
      var k, u := Kept(lines), ReadLines(lines, unformat);
      if !IsSkipped(lines[|lines| - 1]) {
        assert k == k0 + [t];
        if u0.header == [] {
          assert |Explode(TAB, t)| >= 1;
          assert |u.header| >= 1;
        } else {
          assert u.rows == u0.rows + [ParseRow(Explode(TAB, t), unformat)];
          forall j | 0 <= j < |u.rows|
            ensures u.rows[j] == ParseRow(Explode(TAB, k[j + 1]), unformat)
          {
            if j < |u0.rows| {
              assert k[j + 1] == k0[j + 1];
            }
          }
        }
      }
    }
  }

  /** A line holding just "0" (and trailing space) is skipped like a blank one. */
  lemma {:induction false} ZeroLineSkipped<V>(u: Upload<V>, trailing: string, unformat: string -> V)
    requires forall k :: 0 <= k < |trailing| ==> IsRtrimChar(trailing[k])
    ensures ReadLine(u, "0" + trailing, unformat) == u
    decreases |trailing|
  {
    if |trailing| > 0 {
      var s := "0" + trailing;
      assert s[..|s| - 1] == "0" + trailing[..|trailing| - 1];
      ZeroLineSkipped(u, trailing[..|trailing| - 1], unformat);
    }
  }

  /** The header loop: every field of the first kept line, cleaned, in order. */
  method ReadHeaderLine(words: seq<string>) returns (header: seq<string>)
    ensures |header| == |words|
    ensures forall k :: 0 <= k < |words| ==> header[k] == CleanAlphanumExt(words[k])
    ensures header == CleanHeader(words)
  {
    header := [];
    var j := 0;
    while j < |words|
      invariant 0 <= j <= |words|
      invariant |header| == j
      invariant forall k :: 0 <= k < j ==> header[k] == CleanAlphanumExt(words[k])
    {
      header := header + [CleanAlphanumExt(words[j])];
      j := j + 1;
    }
  }

  /** The data loop: the value of every non-empty field, keyed by the field's position. */
  method ReadDataLine<V>(words: seq<string>, unformat: string -> V) returns (dataRow: DataRow<V>)
    ensures forall c: nat :: c in dataRow <==> c < |words| && |words[c]| > 0
    ensures forall c :: c in dataRow ==> dataRow[c] == unformat(words[c])
    ensures dataRow == ParseRow(words, unformat)
  {
    dataRow := map[];
    var i := 0;
    while i < |words|
      invariant 0 <= i <= |words|
      invariant forall c: nat :: c in dataRow <==> c < i && |words[c]| > 0
      invariant forall c :: c in dataRow ==> dataRow[c] == unformat(words[c])
    {
      if |words[i]| > 0 {
        dataRow := dataRow[i := unformat(words[i])];
      }
      i := i + 1;
    }
  }

  /**
   * The upload loop (import_dataset.php, lines 78-111): skip blank lines,
   * take the first remaining line as the header, and every later line as a
   * data row.
   */
  method ParseUpload<V>(lines: seq<string>, unformat: string -> V)
    returns (header: seq<string>, rows: seq<DataRow<V>>)
    ensures Upload(header, rows) == ReadLines(lines, unformat)
    ensures Kept(lines) == [] ==> header == [] && rows == []
    ensures Kept(lines) != [] ==>
      && header == CleanHeader(Explode(TAB, Kept(lines)[0]))
      && |rows| == |Kept(lines)| - 1
    ensures forall j :: 0 <= j < |rows| ==>
      rows[j] == ParseRow(Explode(TAB, Kept(lines)[j + 1]), unformat)
    ensures forall j, i :: 0 <= j < |rows| && i in rows[j] ==>
      i < |Explode(TAB, Kept(lines)[j + 1])| && |Explode(TAB, Kept(lines)[j + 1])[i]| > 0
  {
    header, rows := [], [];
    var lineNum := 0;
    while lineNum < |lines|
      invariant 0 <= lineNum <= |lines|
      invariant Upload(header, rows) == ReadLines(lines[..lineNum], unformat)
    {
      assert lines[..lineNum + 1][..lineNum] == lines[..lineNum];
      var line := Rtrim(lines[lineNum]);
      lineNum := lineNum + 1;
      if !IsFalsy(line) {
        var words := Explode(TAB, line);
        if header == [] {
          header := ReadHeaderLine(words);
        } else {
          var dataRow := ReadDataLine(words, unformat);
          rows := rows + [dataRow];
        }
      }
    }
    assert lines[..lineNum] == lines;
    ReadLinesCharacterized(lines, unformat);
  }

  /** The confirmation-form text that stands for a missing value: `null` in any case. */
  predicate IsNullText(s: string) {
    ToLower(s) == "null"
  }

  /** `strtolower($val) == 'null'` holds exactly for the four letters of null, each in either case. */
  lemma IsNullTextCases(s: string)
    ensures IsNullText(s) <==> |s| == 4 && forall k :: 0 <= k < 4 ==> SameIgnoringCase(s[k], "null"[k])
  {
    ToLowerEqual(s, "null");
    assert ToLower("null") == "null";
  }

  /** The message for a missing value: the wildcard name and the 1-based row number. */
  datatype MissingData = MissingData(name: string, num: int)

  /** Row `item` of a resubmitted form: every cell that is not `null`, by column. */
  function ResubmittedRow<V>(item: nat, wcCount: nat, valField: (nat, nat) -> string,
                             unformat: string -> V): DataRow<V> {
    map w | 0 <= w < wcCount && !IsNullText(valField(item, w)) :: unformat(valField(item, w))
  }

  /** The messages for the `null` cells of row `item` among its first `w` columns. */
  function RowMissing(names: seq<string>, item: nat, w: nat, valField: (nat, nat) -> string): seq<MissingData>
    requires w <= |names|
    decreases w
  {
    if w == 0 then []
    else RowMissing(names, item, w - 1, valField)
         + (if IsNullText(valField(item, w - 1)) then [MissingData(names[w - 1], item + 1)] else [])
  }

  /** The messages for the `null` cells of the first `n` rows, row by row. */
  function Missing(names: seq<string>, n: nat, valField: (nat, nat) -> string): seq<MissingData>
    decreases n
  {
    if n == 0 then []
    else Missing(names, n - 1, valField) + RowMissing(names, n - 1, |names|, valField)
  }

  /** A row has no message exactly when none of its cells says `null`. */
  lemma {:induction false} RowMissingEmpty(names: seq<string>, item: nat, w: nat, valField: (nat, nat) -> string)
    requires w <= |names|
    ensures RowMissing(names, item, w, valField) == [] <==>
      forall c :: 0 <= c < w ==> !IsNullText(valField(item, c))
    ensures forall m :: m in RowMissing(names, item, w, valField) ==> m.num == item + 1
    decreases w
  {
    if w > 0 {
      RowMissingEmpty(names, item, w - 1, valField);
    }
  }

  /** The form has no message exactly when none of its cells says `null`. */
  lemma {:induction false} MissingEmpty(names: seq<string>, n: nat, valField: (nat, nat) -> string)
    ensures Missing(names, n, valField) == [] <==>
      forall i, c :: 0 <= i < n && 0 <= c < |names| ==> !IsNullText(valField(i, c))
    ensures forall m :: m in Missing(names, n, valField) ==> 1 <= m.num <= n
    decreases n
  {
    if n > 0 {
      MissingEmpty(names, n - 1, valField);
      RowMissingEmpty(names, n - 1, |names|, valField);
    }
  }

  /**
   * One row of the confirmation form (import_dataset.php, lines 150-172):
   * every cell but a `null` one goes into the row under its column, and each
   * `null` cell gives one message.
   */
  method ReadResubmittedRow<V>(names: seq<string>, itemNum: nat, valField: (nat, nat) -> string,
                               unformat: string -> V)
    returns (thisItem: DataRow<V>, rowMissing: seq<MissingData>)
    ensures thisItem == ResubmittedRow(itemNum, |names|, valField, unformat)
    ensures rowMissing == RowMissing(names, itemNum, |names|, valField)
  {
    thisItem, rowMissing := map[], [];
    var wcNum := 0;
    while wcNum < |names|
      invariant 0 <= wcNum <= |names|
      invariant forall c: nat :: c in thisItem <==> c < wcNum && !IsNullText(valField(itemNum, c))
      invariant forall c :: c in thisItem ==> thisItem[c] == unformat(valField(itemNum, c))
      invariant rowMissing == RowMissing(names, itemNum, wcNum, valField)
    {
      var val := valField(itemNum, wcNum);
      if IsNullText(val) {
        rowMissing := rowMissing + [MissingData(names[wcNum], itemNum + 1)];
      } else {
        thisItem := thisItem[wcNum := unformat(val)];
      }
      wcNum := wcNum + 1;
    }
  }

  /** The values of `f` at 0, 1, ..., n - 1, in order; none for a negative count. */
  function FirstValues<T>(n: int, f: nat -> T): seq<T>
    decreases n
  {
    if n <= 0 then [] else FirstValues(n - 1, f) + [f(n - 1)]
  }

  lemma {:induction false} FirstValuesCharacterized<T>(n: int, f: nat -> T)
    ensures |FirstValues(n, f)| == if n < 0 then 0 else n
    ensures forall k :: 0 <= k < |FirstValues(n, f)| ==> FirstValues(n, f)[k] == f(k)
    decreases n
  {
    if n > 0 {
      FirstValuesCharacterized(n - 1, f);
      assert FirstValues(n, f) == FirstValues(n - 1, f) + [f(n - 1)];
    }
  }

  /** Name field w of the confirmation form, cleaned with PARAM_ALPHANUMEXT. */
  function CleanedNames(nameField: nat -> string): nat -> string {
    (w: nat) => CleanAlphanumExt(nameField(w))
  }

  /** The first `n` names of the confirmation form, cleaned; none for a negative count. */
  function ResubmittedNames(n: int, nameField: nat -> string): seq<string> {
    FirstValues(n, CleanedNames(nameField))
  }

  /** Row i of the confirmation form, read with its wcCount columns. */
  function RowsOf<V>(wcCount: nat, valField: (nat, nat) -> string, unformat: string -> V): nat -> DataRow<V> {
    (i: nat) => ResubmittedRow(i, wcCount, valField, unformat)
  }

  /** The first `n` rows of the confirmation form; none for a negative count. */
  function ResubmittedRows<V>(n: int, wcCount: nat, valField: (nat, nat) -> string,
                              unformat: string -> V): seq<DataRow<V>> {
    FirstValues(n, RowsOf(wcCount, valField, unformat))
  }

  lemma ResubmittedNamesCharacterized(n: int, nameField: nat -> string)
    ensures |ResubmittedNames(n, nameField)| == if n < 0 then 0 else n
    ensures forall w :: 0 <= w < |ResubmittedNames(n, nameField)| ==>
      ResubmittedNames(n, nameField)[w] == CleanAlphanumExt(nameField(w))
  {
    FirstValuesCharacterized(n, CleanedNames(nameField));
  }

  lemma ResubmittedRowsCharacterized<V>(n: int, wcCount: nat, valField: (nat, nat) -> string,
                                        unformat: string -> V)
    ensures |ResubmittedRows(n, wcCount, valField, unformat)| == if n < 0 then 0 else n
    ensures forall i :: 0 <= i < |ResubmittedRows(n, wcCount, valField, unformat)| ==>
      ResubmittedRows(n, wcCount, valField, unformat)[i] == ResubmittedRow(i, wcCount, valField, unformat)
  {
    FirstValuesCharacterized(n, RowsOf(wcCount, valField, unformat));
  }

  /** What re-reading the confirmation form yields: names, rows, messages and the verdict. */
  datatype Resubmission<V> = Resubmission(names: seq<string>, items: seq<DataRow<V>>,
                                          missing: seq<MissingData>, success: bool)

  /**
   * The confirmation form as read back: `wildcardcount` cleaned names,
   * `itemcount` rows of the non-`null` cells, one message per `null` cell,
   * and success exactly when there is none.
   */
  function ResubmissionOf<V>(itemCount: int, wcCount: int, nameField: nat -> string,
                             valField: (nat, nat) -> string, unformat: string -> V): Resubmission<V>
  {
    var names := ResubmittedNames(wcCount, nameField);
    var missing := Missing(names, if itemCount < 0 then 0 else itemCount, valField);
    Resubmission(names, ResubmittedRows(itemCount, |names|, valField, unformat), missing, missing == [])
  }

  /**
   * Reading the form back gives `wildcardcount` cleaned names and
   * `itemcount` rows (none for a negative count), row `i` holding the
   * non-`null` cells of line `i`; it succeeds exactly when no cell says
   * `null`, and every message names a row between 1 and `itemcount`.
   */
  lemma ResubmissionOfCharacterized<V>(itemCount: int, wcCount: int, nameField: nat -> string,
                                       valField: (nat, nat) -> string, unformat: string -> V)
    ensures var r := ResubmissionOf(itemCount, wcCount, nameField, valField, unformat);
      && |r.names| == (if wcCount < 0 then 0 else wcCount)
      && (forall w :: 0 <= w < |r.names| ==> r.names[w] == CleanAlphanumExt(nameField(w)))
      && |r.items| == (if itemCount < 0 then 0 else itemCount)
      && (forall i :: 0 <= i < |r.items| ==> r.items[i] == ResubmittedRow(i, |r.names|, valField, unformat))
    ensures ResubmissionOf(itemCount, wcCount, nameField, valField, unformat).success <==>
      forall i, w :: 0 <= i < itemCount && 0 <= w < wcCount ==> !IsNullText(valField(i, w))
    ensures forall msg :: msg in ResubmissionOf(itemCount, wcCount, nameField, valField, unformat).missing ==>
      1 <= msg.num <= itemCount
  {
    var r := ResubmissionOf(itemCount, wcCount, nameField, valField, unformat);
    ResubmittedNamesCharacterized(wcCount, nameField);
    ResubmittedRowsCharacterized(itemCount, |r.names|, valField, unformat);
    MissingEmpty(r.names, |r.items|, valField);
  }

  /**
   * The wildcard-name loop of the confirmation form (import_dataset.php,
   * lines 141-146): each `wc_name_w<n>` field, cleaned.
   */
  method ReadResubmittedNames(wcCount: int, nameField: nat -> string) returns (names: seq<string>)
    ensures names == ResubmittedNames(wcCount, nameField)
  {
    names := [];
    var wcNum := 0;
    while wcNum < wcCount
      invariant 0 <= wcNum && (wcNum <= wcCount || wcNum == 0)
      invariant names == ResubmittedNames(wcNum, nameField)
    {
      var name := CleanAlphanumExt(nameField(wcNum));
      assert ResubmittedNames(wcNum + 1, nameField) == names + [name];
      names := names + [name];
      wcNum := wcNum + 1;
    }
  }

  /**
   * Re-reading the confirmation form (import_dataset.php, lines 136-173):
   * the names, then the loop over the rows, produce exactly ResubmissionOf.
   */
  method ParseResubmission<V>(itemCount: int, wcCount: int, nameField: nat -> string,
                              valField: (nat, nat) -> string, unformat: string -> V)
    returns (names: seq<string>, items: seq<DataRow<V>>, missing: seq<MissingData>, success: bool)
    ensures Resubmission(names, items, missing, success) ==
      ResubmissionOf(itemCount, wcCount, nameField, valField, unformat)
  {
    names := ReadResubmittedNames(wcCount, nameField);
    items, missing, success := ReadResubmittedRows(names, itemCount, valField, unformat);
  }

  /** The row loop: each row's non-null cells, and a message per null cell; success exactly when there is none. */
  method ReadResubmittedRows<V>(names: seq<string>, itemCount: int, valField: (nat, nat) -> string,
                                unformat: string -> V)
    returns (items: seq<DataRow<V>>, missing: seq<MissingData>, success: bool)
    ensures items == ResubmittedRows(itemCount, |names|, valField, unformat)
    ensures missing == Missing(names, if itemCount < 0 then 0 else itemCount, valField)
    ensures success <==> missing == []
  {
    success := true;
    items, missing := [], [];
    var itemNum := 0;
    while itemNum < itemCount
      invariant 0 <= itemNum && (itemNum <= itemCount || itemNum == 0)
      invariant items == ResubmittedRows(itemNum, |names|, valField, unformat)
      invariant missing == Missing(names, itemNum, valField)
      invariant success <==> missing == []
    {
      var thisItem, rowMissing := ReadResubmittedRow(names, itemNum, valField, unformat);
      assert ResubmittedRows(itemNum + 1, |names|, valField, unformat) == items + [thisItem];
      assert Missing(names, itemNum + 1, valField) == missing + rowMissing;
      missing := missing + rowMissing;
      if rowMissing != [] {
        success := false;
      }
      items := items + [thisItem];
      itemNum := itemNum + 1;
    }
    assert itemNum == if itemCount < 0 then 0 else itemCount;
  }

  /** The wildcard changes an import would make. */
  datatype NameDiff = NameDiff(toDelete: seq<string>, toAdd: seq<string>)

  /**
   * The name diff (import_dataset.php, lines 193-200): the current names the
   * new header drops, and the header names that are new, each once, in the
   * order of first occurrence (PhpText.DedupPrefix, PhpText.DiffKeysAppend).
   */
  function ComputeNameDiff(oldNames: seq<string>, newNames: seq<string>): (r: NameDiff)
    ensures forall n :: n in r.toDelete <==> n in oldNames && n !in newNames
    ensures forall n :: n in r.toAdd <==> n in newNames && n !in oldNames
    ensures forall n :: n in oldNames && n in newNames ==> n !in r.toDelete && n !in r.toAdd
    ensures forall n :: !(n in r.toDelete && n in r.toAdd)
    ensures Distinct(r.toDelete) && Distinct(r.toAdd)
  {
    NameDiff(DiffKeys(Dedup(oldNames), newNames), DiffKeys(Dedup(newNames), oldNames))
  }

  /** One line of the list of changes shown before an overwrite. */
  datatype Change = DeleteWildcard(name: string) | AddWildcard(name: string) | UpdateAllData

  /**
   * `changes` lists one delete per dropped name, then one add per new name,
   * then "update all data".
   */
  predicate ListsChanges(diff: NameDiff, changes: seq<Change>) {
    && |changes| == |diff.toDelete| + |diff.toAdd| + 1
    && (forall k :: 0 <= k < |diff.toDelete| ==> changes[k] == DeleteWildcard(diff.toDelete[k]))
    && (forall k :: 0 <= k < |diff.toAdd| ==> changes[|diff.toDelete| + k] == AddWildcard(diff.toAdd[k]))
    && changes[|changes| - 1] == UpdateAllData
  }

  /**
   * The list of changes (import_dataset.php, lines 202-211): one delete per
   * dropped name, then one add per new name, then "update all data".
   */
  method BuildChangeList(diff: NameDiff) returns (changes: seq<Change>)
    ensures ListsChanges(diff, changes)
  {
    changes := [];
    var k := 0;
    while k < |diff.toDelete|
      invariant 0 <= k <= |diff.toDelete| && |changes| == k
      invariant forall j :: 0 <= j < k ==> changes[j] == DeleteWildcard(diff.toDelete[j])
    {
      changes := changes + [DeleteWildcard(diff.toDelete[k])];
      k := k + 1;
    }
    k := 0;
    while k < |diff.toAdd|
      invariant 0 <= k <= |diff.toAdd| && |changes| == |diff.toDelete| + k
      invariant forall j :: 0 <= j < |diff.toDelete| ==> changes[j] == DeleteWildcard(diff.toDelete[j])
      invariant forall j :: 0 <= j < k ==> changes[|diff.toDelete| + j] == AddWildcard(diff.toAdd[j])
    {
      changes := changes + [AddWildcard(diff.toAdd[k])];
      k := k + 1;
    }
    changes := changes + [UpdateAllData];
  }

  /** A POST to the import page, with the uploaded file already read as lines. */
  datatype ImportPost =
    | FileUpload(uploadError: bool, fileOpened: bool, lines: seq<string>)
    | FormSubmit(cancel: bool, overwrite: bool, itemCount: int, wcCount: int,
                 nameField: nat -> string, valField: (nat, nat) -> string)

  /** The dataset handed to overwrite_wildcard_dataset, or shown for confirmation. */
  datatype Dataset<V> = Dataset(names: seq<string>, items: seq<DataRow<V>>)

  datatype Confirmation<V> = Confirmation(data: Dataset<V>, changes: seq<Change>)

  /** What the page does with a POST: the dataset it overwrites with, and the confirmation it shows. */
  datatype ImportOutcome<V> = ImportOutcome(overwritten: Option<Dataset<V>>, confirmation: Option<Confirmation<V>>)

  /**
   * The import page's handling of a POST (import_dataset.php, lines 60-216):
   * a readable upload is parsed and shown for confirmation; a confirmed form
   * overwrites the dataset only when no cell is `null`, and is shown again
   * otherwise; a cancel does neither. `oldNames` are the current wildcard
   * names in the order get_wildcards returns them.
   */
  method HandleImportPost<V>(oldNames: seq<string>, post: ImportPost, unformat: string -> V)
    returns (r: ImportOutcome<V>)
    ensures r.overwritten.Some? ==> r.confirmation.None?
    ensures r.overwritten.Some? ==> post.FormSubmit? && !post.cancel && post.overwrite
    ensures post.FileUpload? ==>
      (r.overwritten.None? && (r.confirmation.Some? <==> !post.uploadError && post.fileOpened))
    ensures post.FileUpload? && r.confirmation.Some? ==>
      r.confirmation.value.data == Dataset(ReadLines(post.lines, unformat).header, ReadLines(post.lines, unformat).rows)
    ensures post.FormSubmit? && (post.cancel || !post.overwrite) ==>
      r.overwritten.None? && r.confirmation.None?
    ensures post.FormSubmit? && !post.cancel && post.overwrite ==>
      (r.overwritten.Some? <==> forall i, w :: 0 <= i < post.itemCount && 0 <= w < post.wcCount ==>
         !IsNullText(post.valField(i, w)))
    ensures post.FormSubmit? && !post.cancel && post.overwrite ==>
      (r.overwritten.Some? || r.confirmation.Some?)
    ensures post.FormSubmit? && !post.cancel && post.overwrite ==>
      var res := ResubmissionOf(post.itemCount, post.wcCount, post.nameField, post.valField, unformat);
      && (r.overwritten.Some? ==> r.overwritten.value == Dataset(res.names, res.items))
      && (r.confirmation.Some? ==> r.confirmation.value.data == Dataset(res.names, res.items))
    ensures r.confirmation.Some? ==>
      ListsChanges(ComputeNameDiff(oldNames, r.confirmation.value.data.names), r.confirmation.value.changes)
  {
    var shown: Option<Dataset<V>> := None;
    r := ImportOutcome(None, None);
    match post {
      case FileUpload(uploadError, fileOpened, lines) =>
        if !uploadError && fileOpened {
          var header, rows := ParseUpload(lines, unformat);
          shown := Some(Dataset(header, rows));
        }
      case FormSubmit(cancel, overwrite, itemCount, wcCount, nameField, valField) =>
        if !cancel && overwrite {
          var names, items, missing, success := ParseResubmission(itemCount, wcCount, nameField, valField, unformat);
          ResubmissionOfCharacterized(itemCount, wcCount, nameField, valField, unformat);
          if success {
            r := ImportOutcome(Some(Dataset(names, items)), None);
          } else {
            shown := Some(Dataset(names, items));
          }
        }
    }
    if shown.Some? {
      var changes := BuildChangeList(ComputeNameDiff(oldNames, shown.value.names));
      r := ImportOutcome(None, Some(Confirmation(shown.value, changes)));
    }
  }
}
