/** Parsers for single CSV fields (internal/csvinput/reader.go): durations
    written `Nd`, dependency lists, and the test for a blank row. */
module CsvFields {
  import opened Wrappers
  import opened Text

  // ---------------------------------------------------------------------------
  // parseDuration
  // ---------------------------------------------------------------------------

  /** Why a duration field was refused. */
  datatype DurationError =
    | TooShort            // "duration must be Nd (e.g. 5d)"
    | BadSuffix           // "duration must end with 'd'"
    | NotPositiveInteger  // "duration must be a positive integer followed by 'd'"

  predicate IsDayUnit(c: char)
  {
    c == 'd' || c == 'D'
  }

  /** A number of days written as an integer followed by `d` or `D`. Length is
      measured in UTF-8 bytes, as Go's `len` does. */
  function ParseDuration(raw: string): (r: Result<int, DurationError>)
    ensures Utf8Length(raw) < 2 ==> r == Err(TooShort)
    ensures r.Ok? <==> (|raw| >= 2 && IsDayUnit(raw[|raw| - 1])
      && Atoi(raw[..|raw| - 1]).Some? && Atoi(raw[..|raw| - 1]).value > 0)
    ensures r.Ok? ==> r.value > 0 && Atoi(raw[..|raw| - 1]) == Some(r.value)
    ensures Utf8Length(raw) >= 2 && !IsDayUnit(raw[|raw| - 1]) ==> r == Err(BadSuffix)
  {
    Utf8LengthShort(raw);
    if Utf8Length(raw) < 2 then Err(TooShort)
    else if raw[|raw| - 1] != 'd' && raw[|raw| - 1] != 'D' then Err(BadSuffix)
    else
      match Atoi(raw[..|raw| - 1])
      case None => Err(NotPositiveInteger)
      case Some(days) => if days <= 0 then Err(NotPositiveInteger) else Ok(days)
  }

  /** Every positive `int` written in decimal with a day unit reads back as itself. */
  lemma {:induction false} ParseDurationDecimal(n: int, unit: char)
    requires 0 < n <= MaxInt64 && IsDayUnit(unit)
    ensures ParseDuration(Decimal(n) + [unit]) == Ok(n)
  {
    var raw := Decimal(n) + [unit];
    assert raw[..|raw| - 1] == Decimal(n);
    AtoiDecimal(n);
  }

  /** "5d" and "12D" are accepted; "d" is too short; "5x" has no day unit; "0d"
      and "-3d" are not positive; Atoi's optional plus sign makes "+3d" valid. */
  lemma ParseDurationExamples()
    ensures ParseDuration("5d") == Ok(5)
    ensures ParseDuration("12D") == Ok(12)
    ensures ParseDuration("d") == Err(TooShort)
    ensures ParseDuration("5") == Err(TooShort)
    ensures ParseDuration("5x") == Err(BadSuffix)
    ensures ParseDuration("0d") == Err(NotPositiveInteger)
    ensures ParseDuration("-3d") == Err(NotPositiveInteger)
    ensures ParseDuration("+3d") == Ok(3)
  {
    assert "5d"[..1] == "5" && "12D"[..2] == "12" && "0d"[..1] == "0";
    assert "-3d"[..2] == "-3" && "-3d"[..2][1..] == "3" && "+3d"[..2][1..] == "3";
    assert DigitsValue("12") == 12 by {
      assert "12"[..1] == "1";
    }
    assert Utf8Length("5") == 1 && Utf8Length("d") == 1 by {
      assert "5"[..0] == [] && "d"[..0] == [];
    }
  }

  // ---------------------------------------------------------------------------
  // parseDepends
  // ---------------------------------------------------------------------------

  predicate IsSeparator(c: char)
  {
    c == ',' || c == ';'
  }

  predicate NoSeparator(s: string)
  {
    forall k :: 0 <= k < |s| ==> !IsSeparator(s[k])
  }

  /** The pieces of `s` between separators, empty pieces included. */
  function Pieces(s: string): (ps: seq<string>)
    ensures |ps| >= 1
    ensures forall i :: 0 <= i < |ps| ==> NoSeparator(ps[i])
  {
    if s == [] then [""]
    else
      var init := Pieces(s[..|s| - 1]);
      var c := s[|s| - 1];
      if IsSeparator(c) then init + [""]
      else init[..|init| - 1] + [init[|init| - 1] + [c]]
  }

  /** The non-empty strings of `ps`, in order. */
  function NonEmpty(ps: seq<string>): (r: seq<string>)
    ensures forall i :: 0 <= i < |r| ==> r[i] != "" && r[i] in ps
  {
    if ps == [] then []
    else NonEmpty(ps[..|ps| - 1]) + (if ps[|ps| - 1] == "" then [] else [ps[|ps| - 1]])
  }

  /** `strings.FieldsFunc(raw, IsSeparator)`: the maximal runs of characters
      that are not separators. */
  function Fields(raw: string): (parts: seq<string>)
    ensures forall i :: 0 <= i < |parts| ==> parts[i] != "" && NoSeparator(parts[i])
  {
    NonEmpty(Pieces(raw))
  }

  /** A piece without separators keeps none after trimming. */
  lemma TrimKeepsNoSeparator(p: string)
    ensures NoSeparator(p) ==> NoSeparator(TrimSpace(p))
  {
    TrimSpaceKeepsInfix(p);
    var i := LeadingSpaces(p);
    var t := TrimSpace(p);
    forall k | 0 <= k < |t| && NoSeparator(p) ensures !IsSeparator(t[k]) {
      assert t[k] == p[i + k];
    }
  }

  /** The trimmed parts, with those that trim to nothing dropped. */
  function Kept(parts: seq<string>): (r: seq<string>)
    ensures forall i :: 0 <= i < |r| ==> r[i] != "" && Trimmed(r[i])
  {
    if parts == [] then []
    else
      var last := parts[|parts| - 1];
      Kept(parts[..|parts| - 1]) + (if TrimSpace(last) == "" then [] else [TrimSpace(last)])
  }

  /** Trimming parts without separators leaves none in what is kept. */
  lemma {:induction false} KeptNoSeparator(parts: seq<string>)
    requires forall i :: 0 <= i < |parts| ==> NoSeparator(parts[i])
    ensures forall i :: 0 <= i < |Kept(parts)| ==> NoSeparator(Kept(parts)[i])
  {
    if parts != [] {
      KeptNoSeparator(parts[..|parts| - 1]);
      TrimKeepsNoSeparator(parts[|parts| - 1]);
    }
  }

  /** The dependency names a `depends_on` field lists. */
  function DependsOf(raw: string): seq<string>
  {
    Kept(Fields(raw))
  }

  /** Every dependency name is non-blank, carries no surrounding spaces and
      holds no separator. */
  lemma DependsAreClean(raw: string)
    ensures forall i :: 0 <= i < |DependsOf(raw)| ==>
      DependsOf(raw)[i] != "" && Trimmed(DependsOf(raw)[i]) && NoSeparator(DependsOf(raw)[i])
  {
    KeptNoSeparator(Fields(raw));
  }

  /** Splits a `depends_on` field on `,` and `;`, trims each piece and drops
      the empty ones, keeping their order. */
  method ParseDepends(raw: string) returns (deps: seq<string>)
    ensures raw == "" ==> deps == []
    ensures deps == DependsOf(raw)
    ensures forall i :: 0 <= i < |deps| ==> deps[i] != "" && Trimmed(deps[i]) && NoSeparator(deps[i])
  {
    DependsAreClean(raw);
    if raw == "" {
      assert Pieces(raw) == [""];
      return [];
    }
    var parts := Fields(raw);
    deps := [];
    for i := 0 to |parts|
      invariant deps == Kept(parts[..i])
    {
      assert parts[..i + 1][..i] == parts[..i];
      var trimmed := TrimSpace(parts[i]);
      if trimmed != "" {
        deps := deps + [trimmed];
      }
    }
    assert parts[..|parts|] == parts;
  }

  /** The names joined with the separator `sep`: how a `depends_on` field
      lists them. */
  function Join(names: seq<string>, sep: char): string
  {
    if names == [] then ""
    else if |names| == 1 then names[0]
    else Join(names[..|names| - 1], sep) + [sep] + names[|names| - 1]
  }

  /** A string without separators is a single piece. */
  lemma {:induction false} PiecesOfPlain(x: string)
    requires NoSeparator(x)
    ensures Pieces(x) == [x]
  {
    if x != [] {
      PiecesOfPlain(x[..|x| - 1]);
      assert x[..|x| - 1] + [x[|x| - 1]] == x;
    }
  }

  /** The last piece of `ps` with `e` appended. */
  function Extend(ps: seq<string>, e: char): seq<string>
    requires |ps| >= 1
  {
    ps[..|ps| - 1] + [ps[|ps| - 1] + [e]]
  }

  /** One more character either opens a new piece or extends the last one. */
  lemma PiecesSnoc(s: string, e: char)
    ensures Pieces(s + [e]) == if IsSeparator(e) then Pieces(s) + [""] else Extend(Pieces(s), e)
  {
    assert (s + [e])[..|s|] == s;
  }

  lemma ExtendAppend(ps: seq<string>, qs: seq<string>, e: char)
    requires |qs| >= 1
    ensures Extend(ps + qs, e) == ps + Extend(qs, e)
  {
    var init := ps + qs;
    assert init[..|init| - 1] == ps + qs[..|qs| - 1];
  }

  /** Splitting at a separator: the pieces of `a`, then the pieces of `b`. */
  lemma {:induction false} PiecesConcat(a: string, c: char, b: string)
    requires IsSeparator(c)
    ensures Pieces(a + [c] + b) == Pieces(a) + Pieces(b)
    decreases |b|
  {
    if b == [] {
      PiecesSnoc(a, c);
      assert a + [c] + b == a + [c];
      assert Pieces(b) == [""];
    } else {
      var b' := b[..|b| - 1];
      var e := b[|b| - 1];
      assert a + [c] + b == (a + [c] + b') + [e];
      assert b == b' + [e];
      PiecesConcat(a, c, b');
      PiecesSnoc(a + [c] + b', e);
      PiecesSnoc(b', e);
      if !IsSeparator(e) {
        ExtendAppend(Pieces(a), Pieces(b'), e);
      }
    }
  }

  /** A separator followed by plain text adds that text as one more piece. */
  lemma PiecesAfterSeparator(a: string, c: char, x: string)
    requires IsSeparator(c) && NoSeparator(x)
    ensures Pieces(a + [c] + x) == Pieces(a) + [x]
  {
    PiecesConcat(a, c, x);
    PiecesOfPlain(x);
  }

  /** Keeping the non-empty strings of a concatenation keeps them of each half. */
  lemma {:induction false} NonEmptyAppend(ps: seq<string>, qs: seq<string>)
    ensures NonEmpty(ps + qs) == NonEmpty(ps) + NonEmpty(qs)
    decreases |qs|
  {
    if qs != [] {
      var s := ps + qs;
      var q' := qs[..|qs| - 1];
      assert s[..|s| - 1] == ps + q';
      NonEmptyAppend(ps, q');
    } else {
      assert ps + qs == ps;
    }
  }

  /** A non-empty run without separators is one field. */
  lemma FieldsOfPlain(x: string)
    requires x != "" && NoSeparator(x)
    ensures Fields(x) == [x]
  {
    PiecesOfPlain(x);
    assert [x][..0] == [];
    assert NonEmpty([x]) == NonEmpty([]) + [x];
  }

  /** The fields of text split at any separator are the fields on its left
      followed by the fields on its right. */
  lemma FieldsConcat(a: string, c: char, b: string)
    requires IsSeparator(c)
    ensures Fields(a + [c] + b) == Fields(a) + Fields(b)
  {
    PiecesConcat(a, c, b);
    NonEmptyAppend(Pieces(a), Pieces(b));
  }

  /** Joining plain names with either separator and splitting the result
      gives the names back. */
  lemma {:induction false} PiecesOfJoin(names: seq<string>, sep: char)
    requires names != [] && IsSeparator(sep)
    requires forall i :: 0 <= i < |names| ==> NoSeparator(names[i])
    ensures Pieces(Join(names, sep)) == names
  {
    if |names| == 1 {
      PiecesOfPlain(names[0]);
    } else {
      var init := names[..|names| - 1];
      var last := names[|names| - 1];
      assert names == init + [last];
      PiecesOfJoin(init, sep);
      PiecesAfterSeparator(Join(init, sep), sep, last);
    }
  }

  /** Dropping empty pieces first changes nothing that trimming would keep. */
  lemma {:induction false} KeptNonEmpty(ps: seq<string>)
    ensures Kept(NonEmpty(ps)) == Kept(ps)
  {
    if ps != [] {
      var init := ps[..|ps| - 1];
      var last := ps[|ps| - 1];
      KeptNonEmpty(init);
      assert Kept(ps) == Kept(init) + (if TrimSpace(last) == "" then [] else [TrimSpace(last)]);
      if last == "" {
        assert NonEmpty(ps) == NonEmpty(init);
      } else {
        var ne := NonEmpty(init) + [last];
        assert NonEmpty(ps) == ne;
        assert ne[..|ne| - 1] == NonEmpty(init);
        assert Kept(ne) == Kept(NonEmpty(init)) + (if TrimSpace(last) == "" then [] else [TrimSpace(last)]);
      }
    }
  }

  /** Names that are non-blank and trimmed are kept as they are. */
  lemma {:induction false} KeptClean(names: seq<string>)
    requires forall i :: 0 <= i < |names| ==> names[i] != "" && Trimmed(names[i])
    ensures Kept(names) == names
  {
    if names != [] {
      var init := names[..|names| - 1];
      var last := names[|names| - 1];
      KeptClean(init);
      TrimSpaceOfTrimmed(last);
      assert init + [last] == names;
    }
  }

  /** Listing non-blank, trimmed names without separators in a `depends_on`
      field, separated by `,` or by `;`, and parsing the field gives the same
      names. */
  lemma DependsRoundTrip(names: seq<string>, sep: char)
    requires IsSeparator(sep)
    requires forall i :: 0 <= i < |names| ==> names[i] != "" && Trimmed(names[i]) && NoSeparator(names[i])
    ensures DependsOf(Join(names, sep)) == names
  {
    if names == [] {
      assert Pieces("") == [""];
    } else {
      PiecesOfJoin(names, sep);
      KeptNonEmpty(names);
      KeptClean(names);
    }
  }

  // ---------------------------------------------------------------------------
  // recordAllEmpty
  // ---------------------------------------------------------------------------

  /** A field trims to nothing exactly when it is all spaces. */
  lemma BlankFields(record: seq<string>)
    ensures forall i :: 0 <= i < |record| ==> (TrimSpace(record[i]) == "" <==> Blank(record[i]))
  {
    forall i | 0 <= i < |record| ensures TrimSpace(record[i]) == "" <==> Blank(record[i]) {
      TrimSpaceEmpty(record[i]);
    }
  }

  /** No field of the record holds anything but spaces. */
  predicate RecordAllEmpty(record: seq<string>)
    ensures RecordAllEmpty(record) <==> forall i :: 0 <= i < |record| ==> Blank(record[i])
  {
    BlankFields(record);
    forall i :: 0 <= i < |record| ==> TrimSpace(record[i]) == ""
  }
}
