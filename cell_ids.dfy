/** The string ids of the table cells.

    `fillTable` names the cell of category `catIdx` and clue `clueIdx`
    `` `${catIdx}-${clueIdx}` ``; `handleClick` reads the coordinates back with
    `id.split("-")` and `parseInt` on the first two parts. This module models
    the decimal rendering of a non-negative integer, `String.prototype.split`
    on a one-character separator and JavaScript's `parseInt` without a radix,
    and proves that decoding an encoded id gives back its coordinates. */
module CellIds {
  import opened Options

  predicate IsDigit(ch: char) {
    '0' <= ch <= '9'
  }

  predicate IsHexDigit(ch: char) {
    IsDigit(ch) || 'a' <= ch <= 'f' || 'A' <= ch <= 'F'
  }

  /** A digit of the radix `parseInt` settled on: 16 after a `0x` prefix, 10 otherwise. */
  predicate IsRadixDigit(ch: char, hex: bool) {
    if hex then IsHexDigit(ch) else IsDigit(ch)
  }

  function DigitValue(ch: char): (v: nat)
    requires IsHexDigit(ch)
    ensures v < 16
    ensures IsDigit(ch) <==> v < 10
  {
    if IsDigit(ch) then ch as int - '0' as int
    else if 'a' <= ch <= 'f' then ch as int - 'a' as int + 10
    else ch as int - 'A' as int + 10
  }

  function DigitChar(d: nat): (ch: char)
    requires d < 10
    ensures IsDigit(ch) && DigitValue(ch) == d
  {
    ('0' as int + d) as char
  }

  /** `${n}` for a non-negative integer `n`: its decimal digits, most significant first. */
  function NatToDecimal(n: nat): (s: string)
    ensures |s| >= 1
    ensures forall i :: 0 <= i < |s| ==> IsDigit(s[i])
  {
    if n < 10 then [DigitChar(n)] else NatToDecimal(n / 10) + [DigitChar(n % 10)]
  }

  /** The number a string of digits denotes in the given radix. */
  function DigitsValue(s: string, radix: nat): nat
    requires forall i :: 0 <= i < |s| ==> IsHexDigit(s[i])
  {
    if s == [] then 0 else radix * DigitsValue(s[..|s| - 1], radix) + DigitValue(s[|s| - 1])
  }

  lemma {:induction false} DecimalValue(n: nat)
    ensures DigitsValue(NatToDecimal(n), 10) == n
  {
    if n >= 10 {
      var s := NatToDecimal(n);
      assert s[..|s| - 1] == NatToDecimal(n / 10);
      DecimalValue(n / 10);
    }
  }

  /** The characters `parseInt` skips before the number: the ECMAScript
      WhiteSpace and LineTerminator code points. */
  predicate IsJsWhiteSpace(ch: char) {
    || ch == '\t' || ch == '\n' || ch == '\U{000B}' || ch == '\U{000C}' || ch == '\r'
    || ch == ' ' || ch == '\U{00A0}' || ch == '\U{1680}'
    || ('\U{2000}' <= ch <= '\U{200A}')
    || ch == '\U{2028}' || ch == '\U{2029}' || ch == '\U{202F}' || ch == '\U{205F}'
    || ch == '\U{3000}' || ch == '\U{FEFF}'
  }

  /** What is left of `s` once its leading white space is removed. */
  function TrimStart(s: string): (t: string)
    ensures |t| <= |s| && t == s[|s| - |t|..]
    ensures forall i :: 0 <= i < |s| - |t| ==> IsJsWhiteSpace(s[i])
    ensures t == [] || !IsJsWhiteSpace(t[0])
  {
    if s != [] && IsJsWhiteSpace(s[0]) then TrimStart(s[1..]) else s
  }

  /** The longest prefix of `s` made of digits of the radix. */
  function DigitPrefix(s: string, hex: bool): (p: string)
    ensures p <= s
    ensures forall i :: 0 <= i < |p| ==> IsRadixDigit(p[i], hex)
    ensures |p| < |s| ==> !IsRadixDigit(s[|p|], hex)
  {
    if s != [] && IsRadixDigit(s[0], hex) then [s[0]] + DigitPrefix(s[1..], hex) else []
  }

  /** The unsigned part of `parseInt`: a `0x`/`0X` prefix selects radix 16,
      and the longest run of digits that follows is the number; no digits
      at all gives `NaN`. */
  function ParseMagnitude(u: string): (r: Option<nat>)
    ensures r.Some? ==> u != [] && IsDigit(u[0])
  {
    var hex := |u| >= 2 && u[0] == '0' && (u[1] == 'x' || u[1] == 'X');
    var digits := DigitPrefix(if hex then u[2..] else u, hex);
    if digits == [] then None else Some(DigitsValue(digits, if hex then 16 else 10))
  }

  /** JavaScript's `parseInt(s)` with no radix argument; `None` is `NaN`.
      Leading white space is skipped and one sign is read before the
      magnitude. */
  function ParseInt(s: string): (r: Option<int>)
    ensures TrimStart(s) == [] ==> r.None?
    ensures (forall i :: 0 <= i < |s| ==> !IsDigit(s[i])) ==> r.None?
  {
    var t := TrimStart(s);
    var negative := t != [] && t[0] == '-';
    var u := if t != [] && (t[0] == '-' || t[0] == '+') then t[1..] else t;
    assert u == s[|s| - |u|..];
    match ParseMagnitude(u)
    case None => None
    case Some(v) =>
      assert IsDigit(s[|s| - |u|]);
      var n: int := if negative then -(v as int) else v;
      Some(n)
  }

  lemma MagnitudeOfDigits(s: string)
    requires s != [] && forall i :: 0 <= i < |s| ==> IsDigit(s[i])
    ensures ParseMagnitude(s) == Some(DigitsValue(s, 10))
  {
    assert !(|s| >= 2 && s[0] == '0' && (s[1] == 'x' || s[1] == 'X')) by {
      if |s| >= 2 { assert IsDigit(s[1]); }
    }
    assert DigitPrefix(s, false) == s;
  }

  lemma DigitIsNotWhiteSpace(ch: char)
    requires IsDigit(ch)
    ensures !IsJsWhiteSpace(ch)
  {
  }

  /** A string made only of decimal digits parses to its decimal value. */
  lemma ParseIntOfDigits(s: string)
    requires s != [] && forall i :: 0 <= i < |s| ==> IsDigit(s[i])
    ensures ParseInt(s) == Some(DigitsValue(s, 10))
  {
    DigitIsNotWhiteSpace(s[0]);
    assert TrimStart(s) == s;
    MagnitudeOfDigits(s);
  }

  lemma ParseIntOfNat(n: nat)
    ensures ParseInt(NatToDecimal(n)) == Some(n)
  {
    ParseIntOfDigits(NatToDecimal(n));
    DecimalValue(n);
  }

  /** Rejoins the parts with the separator between consecutive parts. */
  function Join(parts: seq<string>, sep: char): string
    requires |parts| >= 1
  {
    if |parts| == 1 then parts[0] else parts[0] + [sep] + Join(parts[1..], sep)
  }

  /** `s.split(sep)` for a one-character separator: the pieces of `s`
      between separators. There is always at least one piece, no piece
      holds the separator, and joining the pieces gives back `s`. */
  function Split(s: string, sep: char): (parts: seq<string>)
    ensures |parts| >= 1
    ensures forall i :: 0 <= i < |parts| ==> sep !in parts[i]
    ensures Join(parts, sep) == s
  {
    if s == [] then [[]]
    else
      var rest := Split(s[1..], sep);
      if s[0] == sep then
        assert Join([[]] + rest, sep) == [sep] + Join(rest, sep);
        [[]] + rest
      else
        var parts := [[s[0]] + rest[0]] + rest[1..];
        assert Join(parts, sep) == [s[0]] + Join(rest, sep) by {
          if |rest| > 1 {
            assert parts[1..] == rest[1..];
            assert Join(rest, sep) == rest[0] + [sep] + Join(rest[1..], sep);
          }
        }
        parts
  }

  lemma SplitNoSeparator(a: string, sep: char)
    requires sep !in a
    ensures Split(a, sep) == [a]
  {
  }

  lemma {:induction false} SplitAtFirstSeparator(a: string, sep: char, b: string)
    requires sep !in a
    ensures Split(a + [sep] + b, sep) == [a] + Split(b, sep)
  {
    if a == [] {
      assert (a + [sep] + b)[1..] == b;
    } else {
      assert (a + [sep] + b)[1..] == a[1..] + [sep] + b;
      SplitAtFirstSeparator(a[1..], sep, b);
      assert [a[0]] + a[1..] == a;
    }
  }

  /** Splitting undoes joining when no part holds the separator. */
  lemma {:induction false} SplitJoin(parts: seq<string>, sep: char)
    requires |parts| >= 1
    requires forall i :: 0 <= i < |parts| ==> sep !in parts[i]
    ensures Split(Join(parts, sep), sep) == parts
  {
    if |parts| == 1 {
      SplitNoSeparator(parts[0], sep);
    } else {
      SplitJoin(parts[1..], sep);
      SplitAtFirstSeparator(parts[0], sep, Join(parts[1..], sep));
    }
  }

  /** The id `fillTable` gives the cell of category `catIdx` and clue
      `clueIdx`: split on `-` it falls into exactly two parts, the decimal
      renderings of the two coordinates. */
  function CellId(catIdx: nat, clueIdx: nat): (id: string)
    ensures Split(id, '-') == [NatToDecimal(catIdx), NatToDecimal(clueIdx)]
  {
    var a, b := NatToDecimal(catIdx), NatToDecimal(clueIdx);
    assert '-' !in a && '-' !in b;
    SplitAtFirstSeparator(a, '-', b);
    SplitNoSeparator(b, '-');
    a + "-" + b
  }

  /** What `handleClick` reads from an id: `parseInt` of the first and second
      `-`-separated parts. A missing second part is `undefined`, which
      `parseInt` turns into `NaN`; `None` if either coordinate is `NaN`. */
  function ParseCellId(id: string): (r: Option<(int, int)>)
    ensures '-' !in id ==> r.None?
    ensures (forall i :: 0 <= i < |id| ==> !IsDigit(id[i])) ==> r.None?
  {
    var parts := Split(id, '-');
    assert '-' !in id ==> |parts| == 1 by {
      if '-' !in id { SplitNoSeparator(id, '-'); }
    }
    assert parts[0] <= id by {
      assert Join(parts, '-') == id;
    }
    var catIdx := ParseInt(parts[0]);
    var clueIdx := if |parts| > 1 then ParseInt(parts[1]) else None;
    if catIdx.Some? && clueIdx.Some? then Some((catIdx.value, clueIdx.value)) else None
  }

  /** Decoding the id of a cell gives back exactly its coordinates. */
  lemma CellIdRoundTrip(catIdx: nat, clueIdx: nat)
    ensures ParseCellId(CellId(catIdx, clueIdx)) == Some((catIdx, clueIdx))
  {
    ParseIntOfNat(catIdx);
    ParseIntOfNat(clueIdx);
  }

  /** Two cells have the same id only if they are the same cell. */
  lemma CellIdInjective(c1: nat, q1: nat, c2: nat, q2: nat)
    requires CellId(c1, q1) == CellId(c2, q2)
    ensures c1 == c2 && q1 == q2
  {
    CellIdRoundTrip(c1, q1);
    CellIdRoundTrip(c2, q2);
  }
}
