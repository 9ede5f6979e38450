/** The string primitives the CSV reader relies on, as Go's `strings`,
    `unicode` and `strconv` packages define them. A Go string is a sequence of
    UTF-8 bytes; here it is the sequence of characters those bytes encode. */
module Text {
  import opened Wrappers

  /** The characters Go's `unicode.IsSpace` accepts: the ASCII spaces, NEL,
      NO-BREAK SPACE and the other characters with the Unicode White_Space
      property. */
  const Spaces: set<char> := {
    '\t', '\n', '\U{000B}', '\U{000C}', '\r', ' ', '\U{0085}', '\U{00A0}', '\U{1680}',
    '\U{2000}', '\U{2001}', '\U{2002}', '\U{2003}', '\U{2004}', '\U{2005}',
    '\U{2006}', '\U{2007}', '\U{2008}', '\U{2009}', '\U{200A}',
    '\U{2028}', '\U{2029}', '\U{202F}', '\U{205F}', '\U{3000}'
  }

  predicate IsSpace(c: char)
  {
    c in Spaces
  }

  /** Neither begins nor ends with a space. */
  predicate Trimmed(s: string)
  {
    s == [] || (!IsSpace(s[0]) && !IsSpace(s[|s| - 1]))
  }

  /** Every character is a space (so the empty string is blank). */
  predicate Blank(s: string)
  {
    forall k :: 0 <= k < |s| ==> IsSpace(s[k])
  }

  /** Drops the leading spaces. */
  function TrimLeft(s: string): (r: string)
    ensures |r| <= |s| && r == s[|s| - |r|..]
    ensures forall k :: 0 <= k < |s| - |r| ==> IsSpace(s[k])
    ensures r != [] ==> !IsSpace(r[0])
  {
    if s == [] || !IsSpace(s[0]) then s else TrimLeft(s[1..])
  }

  /** Drops the trailing spaces. */
  function TrimRight(s: string): (r: string)
    ensures |r| <= |s| && r == s[..|r|]
    ensures forall k :: |r| <= k < |s| ==> IsSpace(s[k])
    ensures r != [] ==> !IsSpace(r[|r| - 1])
  {
    if s == [] || !IsSpace(s[|s| - 1]) then s else TrimRight(s[..|s| - 1])
  }

  /** Go's `strings.TrimSpace`: drops the leading and the trailing spaces. */
  function TrimSpace(s: string): (r: string)
    ensures Trimmed(r) && |r| <= |s|
  {
    TrimRight(TrimLeft(s))
  }

  /** The number of spaces TrimSpace cuts from the front of `s`. */
  function LeadingSpaces(s: string): (n: nat)
    ensures n <= |s|
  {
    |s| - |TrimLeft(s)|
  }

  /** What TrimSpace keeps is the infix of `s` after its leading spaces. */
  lemma {:induction false} TrimSpaceKeepsInfix(s: string)
    ensures LeadingSpaces(s) + |TrimSpace(s)| <= |s|
    ensures TrimSpace(s) == s[LeadingSpaces(s)..LeadingSpaces(s) + |TrimSpace(s)|]
  {
    var left := TrimLeft(s);
    var i := |s| - |left|;
    var r := TrimRight(left);
    assert left == s[i..];
    assert r == left[..|r|];
    assert left[..|r|] == s[i..i + |r|];
  }

  /** Everything TrimSpace cuts off, on either side, is a space. */
  lemma {:induction false} TrimSpaceCutsSpaces(s: string)
    ensures forall k :: 0 <= k < LeadingSpaces(s) ==> IsSpace(s[k])
    ensures forall k :: LeadingSpaces(s) + |TrimSpace(s)| <= k < |s| ==> IsSpace(s[k])
  {
    var left := TrimLeft(s);
    var i := |s| - |left|;
    var r := TrimRight(left);
    assert left == s[i..];
    forall k | i + |r| <= k < |s| ensures IsSpace(s[k]) {
      assert s[k] == left[k - i];
    }
  }

  /** Trimming changes nothing in a string that is already trimmed. */
  lemma {:induction false} TrimSpaceOfTrimmed(s: string)
    requires Trimmed(s)
    ensures TrimSpace(s) == s
  {
  }

  /** Trimming twice is trimming once. */
  lemma {:induction false} TrimSpaceIdempotent(s: string)
    ensures TrimSpace(TrimSpace(s)) == TrimSpace(s)
  {
    TrimSpaceOfTrimmed(TrimSpace(s));
  }

  /** A string trims to nothing exactly when it is all spaces. */
  lemma {:induction false} TrimSpaceEmpty(s: string)
    ensures TrimSpace(s) == [] <==> Blank(s)
  {
    if TrimSpace(s) == [] {
      TrimSpaceKeepsInfix(s);
      TrimSpaceCutsSpaces(s);
    }
  }

  /** The lower-case form of an ASCII letter; every other character is kept. */
  function LowerChar(c: char): (r: char)
    ensures 'A' <= c <= 'Z' ==> 'a' <= r <= 'z' && r as int - c as int == 32
    ensures !('A' <= c <= 'Z') ==> r == c
  {
    if 'A' <= c <= 'Z' then (c as int + 32) as char else c
  }

  /** `strings.ToLower`, for the ASCII letters. */
  function ToLower(s: string): (r: string)
    ensures |r| == |s|
    ensures forall k :: 0 <= k < |s| ==> r[k] == LowerChar(s[k])
  {
    seq(|s|, k requires 0 <= k < |s| => LowerChar(s[k]))
  }

  /** Lower-casing twice is lower-casing once, and no ASCII capital survives it. */
  lemma {:induction false} ToLowerIdempotent(s: string)
    ensures ToLower(ToLower(s)) == ToLower(s)
    ensures forall k :: 0 <= k < |s| ==> !('A' <= ToLower(s)[k] <= 'Z')
  {
  }

  /** Bytes in the UTF-8 encoding of one character. */
  function Utf8Width(c: char): (w: nat)
    ensures 1 <= w <= 4
    ensures w == 1 <==> c < '\U{0080}'
  {
    if c < '\U{0080}' then 1 else if c < '\U{0800}' then 2 else if c < '\U{10000}' then 3 else 4
  }

  /** Go's `len` of a string: the number of its UTF-8 bytes. */
  function Utf8Length(s: string): (n: nat)
    ensures |s| <= n <= 4 * |s|
  {
    if s == [] then 0 else Utf8Length(s[..|s| - 1]) + Utf8Width(s[|s| - 1])
  }

  /** Strings of one character or fewer are under two bytes exactly when that
      character is ASCII; two or more characters are at least two bytes. */
  lemma {:induction false} Utf8LengthShort(s: string)
    ensures Utf8Length(s) < 2 <==> s == [] || (|s| == 1 && s[0] < '\U{0080}')
  {
    if |s| == 1 {
      assert s[..0] == [];
    }
  }

  predicate IsDigit(c: char)
  {
    '0' <= c <= '9'
  }

  predicate AllDigits(s: string)
  {
    forall k :: 0 <= k < |s| ==> IsDigit(s[k])
  }

  /** The value of a string of decimal digits, most significant first. */
  function DigitsValue(s: string): nat
    requires AllDigits(s)
  {
    if s == [] then 0 else 10 * DigitsValue(s[..|s| - 1]) + (s[|s| - 1] as int - '0' as int)
  }

  const MinInt64 := -0x8000_0000_0000_0000
  const MaxInt64 := 0x7FFF_FFFF_FFFF_FFFF

  /** Go's `strconv.Atoi` on a 64-bit platform: an optional sign, then one or
      more decimal digits, whose value must fit in an `int`. */
  function Atoi(s: string): (r: Option<int>)
    ensures r.Some? ==> MinInt64 <= r.value <= MaxInt64
    ensures r.Some? ==> s != [] && (s[0] == '-' || s[0] == '+' || IsDigit(s[0]))
    ensures AllDigits(s) && s != [] && DigitsValue(s) <= MaxInt64 ==> r == Some(DigitsValue(s))
  {
    if s == [] then None
    else
      var negative := s[0] == '-';
      var body := if s[0] == '-' || s[0] == '+' then s[1..] else s;
      if body == [] || !AllDigits(body) then None
      else
        var value: int := DigitsValue(body);
        var v := if negative then -value else value;
        if MinInt64 <= v <= MaxInt64 then Some(v) else None
  }

  /** The decimal digits of `n`, without sign or leading zeros. */
  function Decimal(n: nat): (s: string)
    ensures s != [] && AllDigits(s)
  {
    var digit := ('0' as int + n % 10) as char;
    if n < 10 then [digit] else Decimal(n / 10) + [digit]
  }

  /** Reading back the decimal form of a number gives the number. */
  lemma {:induction false} DecimalValue(n: nat)
    ensures DigitsValue(Decimal(n)) == n
  {
    if n >= 10 {
      DecimalValue(n / 10);
      assert Decimal(n)[..|Decimal(n)| - 1] == Decimal(n / 10);
    }
  }

  /** `strconv.Atoi` inverts decimal formatting for every `int` that is not negative. */
  lemma {:induction false} AtoiDecimal(n: nat)
    requires n <= MaxInt64
    ensures Atoi(Decimal(n)) == Some(n)
  {
    DecimalValue(n);
  }
}
