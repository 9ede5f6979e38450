/** The header of the CSV file (internal/csvinput/reader.go:22-49, 130-156,
    251-273): which column holds which attribute, and which columns are the
    user's own ("custom") columns that are carried through unchanged. */
module CsvColumns {
  import opened Wrappers
  import opened Seqs
  import opened Text

  /** The columns every file must have. */
  const RequiredColumns: seq<string> := ["name", "start", "end", "duration", "depends_on"]

  /** Japanese headings, and the English ones spelled differently, with the
      canonical column keys they stand for. */
  const ColumnAliases: seq<(string, string)> := [
    ("\U{30BF}\U{30B9}\U{30AF}\U{540D}", "name"),
    ("\U{958B}\U{59CB}", "start"),
    ("\U{7D42}\U{4E86}", "end"),
    ("\U{671F}\U{9593}", "duration"),
    ("\U{4F9D}\U{5B58}", "depends_on"),
    ("\U{5B9F}\U{7E3E}\U{958B}\U{59CB}", "actual_start"),
    ("\U{5B9F}\U{7E3E}\U{7D42}\U{4E86}", "actual_end"),
    ("\U{5B9F}\U{7E3E}\U{671F}\U{9593}", "actual_duration"),
    ("\U{72B6}\U{614B}", "status"),
    ("\U{5099}\U{8003}", "notes"),
    ("notes", "notes"),
    ("status", "status")
  ]

  /** The column keys the reader interprets itself. */
  const KnownColumns: seq<string> := [
    "name", "start", "end", "duration", "depends_on",
    "actual_start", "actual_end", "actual_duration", "status", "notes"
  ]

  /** The value `table` holds for `key`, as a Go map lookup gives it. */
  function Lookup(table: seq<(string, string)>, key: string): Option<string>
  {
    if table == [] then None
    else if table[0].0 == key then Some(table[0].1)
    else Lookup(table[1..], key)
  }

  /** `key` is one of `keys`. */
  predicate Listed(keys: seq<string>, key: string)
  {
    if keys == [] then false
    else keys[0] == key || Listed(keys[1..], key)
  }

  /** A user-defined column: its heading as written (trimmed) and its position. */
  datatype CustomColumn = CustomColumn(name: string, index: nat)

  /** The result of reading the header: the position of each column key, and
      the custom columns in header order. */
  datatype Columns = Columns(index: map<string, nat>, custom: seq<CustomColumn>)

  /** One heading as the reader sees it: the column key it stands for and its
      trimmed text. */
  datatype Heading = Heading(key: string, text: string)

  /** Reads one heading: the key is the trimmed, lower-cased heading, replaced
      by its canonical key when it is an alias. */
  function ReadHeading(heading: string): (h: Heading)
    ensures h.text == TrimSpace(heading)
    ensures Lookup(ColumnAliases, ToLower(h.text)).None? ==> h.key == ToLower(h.text)
    ensures Lookup(ColumnAliases, ToLower(h.text)).Some? ==> h.key == Lookup(ColumnAliases, ToLower(h.text)).value
  {
    var text := TrimSpace(heading);
    var key := ToLower(text);
    match Lookup(ColumnAliases, key)
    case Some(canonical) => Heading(canonical, text)
    case None => Heading(key, text)
  }

  /** Every heading of the header, read. */
  function Headings(header: seq<string>): (hs: seq<Heading>)
    ensures |hs| == |header|
    ensures forall i :: 0 <= i < |header| ==> hs[i] == ReadHeading(header[i])
  {
    seq(|header|, i requires 0 <= i < |header| => ReadHeading(header[i]))
  }

  /** A heading that opens a custom column: not a known key and not blank. */
  predicate IsCustom(h: Heading)
  {
    !Listed(KnownColumns, h.key) && h.text != ""
  }

  /** The position of each key among the headings; a later heading with the
      same key replaces an earlier one, as assignment into a Go map does. */
  function KeyIndex(hs: seq<Heading>): (m: map<string, nat>)
    ensures forall k :: k in m ==> m[k] < |hs| && hs[m[k]].key == k
    ensures forall i :: 0 <= i < |hs| ==> hs[i].key in m && i <= m[hs[i].key]
  {
    if hs == [] then map[]
    else
      var init := hs[..|hs| - 1];
      var m := KeyIndex(init);
      assert forall i :: 0 <= i < |init| ==> hs[i] == init[i];
      m[hs[|hs| - 1].key := |hs| - 1]
  }

  /** The column index of a header. */
  function HeaderIndex(header: seq<string>): map<string, nat>
  {
    KeyIndex(Headings(header))
  }

  /** Each key is mapped to the LAST heading that stands for it. */
  lemma {:induction false} HeaderIndexIsLast(header: seq<string>)
    ensures forall k :: k in HeaderIndex(header) ==>
      HeaderIndex(header)[k] < |header| && ReadHeading(header[HeaderIndex(header)[k]]).key == k
      && forall i :: HeaderIndex(header)[k] < i < |header| ==> ReadHeading(header[i]).key != k
    ensures forall i :: 0 <= i < |header| ==> ReadHeading(header[i]).key in HeaderIndex(header)
  {
    var hs := Headings(header);
    var m := KeyIndex(hs);
    forall k | k in m
      ensures forall i :: m[k] < i < |header| ==> ReadHeading(header[i]).key != k
    {
      forall i | m[k] < i < |header| ensures ReadHeading(header[i]).key != k {
        assert hs[i].key in m && i <= m[hs[i].key];
      }
    }
    forall i | 0 <= i < |header| ensures ReadHeading(header[i]).key in m {
      assert hs[i].key in m;
    }
  }

  /** The headings of a list of custom columns. */
  function ColumnNames(cols: seq<CustomColumn>): (names: seq<string>)
    ensures |names| == |cols|
    ensures forall i :: 0 <= i < |cols| ==> names[i] == cols[i].name
  {
    seq(|cols|, i requires 0 <= i < |cols| => cols[i].name)
  }

  /** The custom columns among the headings: the first column of each distinct
      custom heading, in header order. */
  function CustomOf(hs: seq<Heading>): (cols: seq<CustomColumn>)
    ensures forall j :: 0 <= j < |cols| ==>
      cols[j].index < |hs| && IsCustom(hs[cols[j].index]) && cols[j].name == hs[cols[j].index].text
    ensures forall i, j :: 0 <= i < j < |cols| ==> cols[i].index < cols[j].index
  {
    if hs == [] then []
    else
      var init := hs[..|hs| - 1];
      var h := hs[|hs| - 1];
      var cols := CustomOf(init);
      assert forall i :: 0 <= i < |init| ==> hs[i] == init[i];
      if IsCustom(h) && h.text !in ColumnNames(cols) then
        cols + [CustomColumn(h.text, |hs| - 1)]
      else cols
  }

  /** The custom columns of a header. */
  function CustomColumns(header: seq<string>): seq<CustomColumn>
  {
    CustomOf(Headings(header))
  }

  /** Every custom heading's column is listed, and each is listed at its first
      occurrence: no column before it bears the same custom heading. */
  lemma {:induction false} CustomOfComplete(hs: seq<Heading>)
    ensures forall i :: 0 <= i < |hs| && IsCustom(hs[i]) ==> hs[i].text in ColumnNames(CustomOf(hs))
    ensures forall j, i :: (0 <= j < |CustomOf(hs)| && 0 <= i < CustomOf(hs)[j].index
      && IsCustom(hs[i])) ==> hs[i].text != CustomOf(hs)[j].name
  {
    if hs != [] {
      var init := hs[..|hs| - 1];
      var cols := CustomOf(init);
      CustomOfComplete(init);
      assert forall i :: 0 <= i < |init| ==> hs[i] == init[i];
      var all := CustomOf(hs);
      assert all[..|cols|] == cols;
      forall i | 0 <= i < |hs| && IsCustom(hs[i])
        ensures hs[i].text in ColumnNames(all)
      {
        if i < |init| {
          var j :| 0 <= j < |cols| && ColumnNames(cols)[j] == hs[i].text;
          assert ColumnNames(all)[j] == all[j].name;
        } else {
          assert ColumnNames(all)[|all| - 1] == all[|all| - 1].name;
        }
      }
    }
  }

  /** The custom columns of a header are exactly its custom headings: each
      listed column is a custom heading, named by its trimmed text; every
      custom heading is listed by its text; no two share a name; and they
      keep header order. */
  lemma CustomColumnsMeaning(header: seq<string>)
    ensures forall j :: 0 <= j < |CustomColumns(header)| ==>
      CustomColumns(header)[j].index < |header|
      && IsCustom(ReadHeading(header[CustomColumns(header)[j].index]))
      && CustomColumns(header)[j].name == TrimSpace(header[CustomColumns(header)[j].index])
    ensures forall i :: 0 <= i < |header| && IsCustom(ReadHeading(header[i])) ==>
      TrimSpace(header[i]) in ColumnNames(CustomColumns(header))
    ensures Distinct(ColumnNames(CustomColumns(header)))
    ensures forall i, j :: 0 <= i < j < |CustomColumns(header)| ==>
      CustomColumns(header)[i].index < CustomColumns(header)[j].index
  {
    var hs := Headings(header);
    CustomOfComplete(hs);
    forall i | 0 <= i < |header| && IsCustom(ReadHeading(header[i]))
      ensures TrimSpace(header[i]) in ColumnNames(CustomColumns(header))
    {
      assert hs[i].text == TrimSpace(header[i]);
    }
  }

  /** One more heading: its key now points at it. */
  lemma {:induction false} KeyIndexStep(hs: seq<Heading>, idx: nat)
    requires idx < |hs|
    ensures KeyIndex(hs[..idx + 1]) == KeyIndex(hs[..idx])[hs[idx].key := idx]
  {
    assert hs[..idx + 1][..idx] == hs[..idx];
  }

  /** One more heading: it opens a column when it is custom and new. */
  lemma {:induction false} CustomOfStep(hs: seq<Heading>, idx: nat)
    requires idx < |hs|
    ensures CustomOf(hs[..idx + 1]) ==
      if IsCustom(hs[idx]) && hs[idx].text !in ColumnNames(CustomOf(hs[..idx]))
      then CustomOf(hs[..idx]) + [CustomColumn(hs[idx].text, idx)]
      else CustomOf(hs[..idx])
  {
    assert hs[..idx + 1][..idx] == hs[..idx];
  }

  /** The set of names grows by the name of the appended column. */
  lemma {:induction false} NamesGrow(cols: seq<CustomColumn>, c: CustomColumn)
    ensures Elems(ColumnNames(cols + [c])) == Elems(ColumnNames(cols)) + {c.name}
  {
    assert ColumnNames(cols + [c]) == ColumnNames(cols) + [c.name];
  }

  /** The first loop of the header reader: every heading's key is mapped to
      its position, and each new custom heading opens a custom column. */
  method ScanHeader(header: seq<string>) returns (mapped: map<string, nat>, custom: seq<CustomColumn>)
    ensures mapped == HeaderIndex(header)
    ensures custom == CustomColumns(header)
  {
    ghost var hs := Headings(header);
    mapped := map[];
    custom := [];
    var seenCustom: set<string> := {};
    for idx := 0 to |header|
      invariant mapped == KeyIndex(hs[..idx])
      invariant custom == CustomOf(hs[..idx])
      invariant seenCustom == Elems(ColumnNames(custom))
    {
      var col := header[idx];
      ghost var h := ReadHeading(col);
      assert h == hs[idx];
      KeyIndexStep(hs, idx);
      CustomOfStep(hs, idx);
      var key := ToLower(TrimSpace(col));
      var canonical := Lookup(ColumnAliases, key);
      if canonical.Some? {
        key := canonical.value;
      }
      assert key == h.key;
      mapped := mapped[key := idx];
      if !Listed(KnownColumns, key) {
        var trimmed := TrimSpace(col);
        if trimmed != "" {
          if trimmed !in seenCustom {
            seenCustom := seenCustom + {trimmed};
            NamesGrow(custom, CustomColumn(trimmed, idx));
            custom := custom + [CustomColumn(trimmed, idx)];
          }
        }
      }
    }
    assert hs[..|header|] == hs;
  }

  /** Reads the header: maps every heading to its key and collects the custom
      columns, then checks that the required columns are all present, reporting
      the first one missing. */
  method MapColumns(header: seq<string>) returns (r: Result<Columns, string>)
    ensures r.Ok? <==> forall c :: c in RequiredColumns ==> c in HeaderIndex(header)
    ensures r.Ok? ==> r.value == Columns(HeaderIndex(header), CustomColumns(header))
    ensures r.Err? ==> exists k :: (0 <= k < |RequiredColumns| && r.error == RequiredColumns[k]
      && RequiredColumns[k] !in HeaderIndex(header)
      && forall j :: 0 <= j < k ==> RequiredColumns[j] in HeaderIndex(header))
  {
    var mapped, custom := ScanHeader(header);
    var missing := FirstMissing(RequiredColumns, mapped);
    match missing
    case Some(k) =>
      return Err(RequiredColumns[k]);
    case None =>
      return Ok(Columns(mapped, custom));
  }

  /** The position of the first of `required` that `mapped` lacks, if any. */
  method FirstMissing(required: seq<string>, mapped: map<string, nat>) returns (missing: Option<nat>)
    ensures missing.None? <==> forall c :: c in required ==> c in mapped
    ensures missing.Some? ==> (missing.value < |required| && required[missing.value] !in mapped
      && forall j :: 0 <= j < missing.value ==> required[j] in mapped)
  {
    for k := 0 to |required|
      invariant forall j :: 0 <= j < k ==> required[j] in mapped
    {
      if required[k] !in mapped {
        return Some(k);
      }
    }
    return None;
  }

  /** The custom columns' values in one record: each column's trimmed field,
      or the empty string where the record is too short to hold it. */
  function CustomValuesOf(record: seq<string>, customCols: seq<CustomColumn>): (values: seq<string>)
    ensures |values| == |customCols|
    ensures forall i :: 0 <= i < |customCols| && customCols[i].index >= |record| ==> values[i] == ""
    ensures forall i :: 0 <= i < |customCols| ==> Trimmed(values[i])
  {
    seq(|customCols|, i requires 0 <= i < |customCols| =>
      if customCols[i].index < |record| then TrimSpace(record[customCols[i].index]) else "")
  }

  /** Reads the custom columns' values out of one record. */
  method MakeCustomValues(record: seq<string>, customCols: seq<CustomColumn>) returns (values: seq<string>)
    ensures values == CustomValuesOf(record, customCols)
    ensures forall i :: 0 <= i < |customCols| && customCols[i].index < |record| ==>
      values[i] == TrimSpace(record[customCols[i].index])
  {
    if |customCols| == 0 {
      return [];
    }
    values := seq(|customCols|, _ => "");
    for i := 0 to |customCols|
      invariant |values| == |customCols|
      invariant forall j :: 0 <= j < i ==> values[j] == CustomValuesOf(record, customCols)[j]
      invariant forall j :: i <= j < |customCols| ==> values[j] == ""
    {
      if customCols[i].index < |record| {
        values := values[i := TrimSpace(record[customCols[i].index])];
      }
    }
  }

  /** The headings of the custom columns, in order. */
  method CustomColumnNames(customCols: seq<CustomColumn>) returns (names: seq<string>)
    ensures names == ColumnNames(customCols)
  {
    if |customCols| == 0 {
      return [];
    }
    names := seq(|customCols|, _ => "");
    for i := 0 to |customCols|
      invariant |names| == |customCols|
      invariant forall j :: 0 <= j < i ==> names[j] == customCols[j].name
    {
      names := names[i := customCols[i].name];
    }
  }

  /** A lookup finds the first entry whose key matches. */
  lemma {:induction false} LookupFirst(table: seq<(string, string)>, key: string, i: nat)
    requires i < |table| && table[i].0 == key
    requires forall j :: 0 <= j < i ==> table[j].0 != key
    ensures Lookup(table, key) == Some(table[i].1)
  {
    if i > 0 {
      LookupFirst(table[1..], key, i - 1);
    }
  }

  /** A lookup of a key no entry has fails. */
  lemma {:induction false} LookupAbsent(table: seq<(string, string)>, key: string)
    requires forall j :: 0 <= j < |table| ==> table[j].0 != key
    ensures Lookup(table, key) == None
  {
    if table != [] {
      LookupAbsent(table[1..], key);
    }
  }

  /** The Japanese heading for "start" is an alias of the key `start`. */
  lemma AliasExample()
    ensures Lookup(ColumnAliases, "\U{958B}\U{59CB}") == Some("start")
  {
    LookupFirst(ColumnAliases, "\U{958B}\U{59CB}", 1);
  }
}
