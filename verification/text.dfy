/**
 Text helpers the race renders with: decimal rendering of integers (the way a
 JavaScript template literal shows a whole number), the "\n" join and split of
 rows, the en-space substitution applied to the phrase before it is sent, and
 the seconds display of a millisecond completion time.
 */
module Text {

  import opened Wrappers

  predicate IsDigit(c: char) {
    '0' <= c <= '9'
  }

  /** The characters a rendered number is made of. */
  predicate IsNumeral(c: char) {
    IsDigit(c) || c == '-' || c == '.'
  }

  predicate AllDigits(s: string) {
    forall i :: 0 <= i < |s| ==> IsDigit(s[i])
  }

  function DigitChar(d: nat): (c: char)
    requires d < 10
    ensures IsDigit(c)
    ensures DigitValue(c) == d
  {
    "0123456789"[d]
  }

  function DigitValue(c: char): nat
    requires IsDigit(c)
  {
    (c as int - '0' as int) as nat
  }

  /** Decimal digits of `n`, most significant first, with no leading zero. */
  function NatToString(n: nat): (s: string)
    ensures 1 <= |s|
    ensures AllDigits(s)
    ensures |s| > 1 ==> s[0] != '0'
    decreases n
  {
    if n < 10 then [DigitChar(n)] else NatToString(n / 10) + [DigitChar(n % 10)]
  }

  /** `String(i)` for a whole number: a minus sign for negatives, then the digits. */
  function IntToString(i: int): (s: string)
    ensures 1 <= |s|
    ensures i < 0 <==> s[0] == '-'
  {
    if i < 0 then "-" + NatToString(-i) else NatToString(i)
  }

  /** The value of a string of decimal digits (the empty string reads as 0). */
  function ParseNat(s: string): nat
    requires AllDigits(s)
    decreases |s|
  {
    if |s| == 0 then 0 else ParseNat(s[..|s| - 1]) * 10 + DigitValue(s[|s| - 1])
  }

  function ParseInt(s: string): Option<int> {
    if |s| > 1 && s[0] == '-' && AllDigits(s[1..]) then
      var v: int := ParseNat(s[1..]);
      Some(-v)
    else if |s| > 0 && AllDigits(s) then Some(ParseNat(s))
    else None
  }

  lemma {:induction false} ParseNatToString(n: nat)
    ensures ParseNat(NatToString(n)) == n
    decreases n
  {
    if n >= 10 {
      var s := NatToString(n);
      assert s[..|s| - 1] == NatToString(n / 10);
      ParseNatToString(n / 10);
    }
  }

  /** Reading back a rendered whole number gives the number. */
  lemma ParseIntToString(i: int)
    ensures ParseInt(IntToString(i)) == Some(i)
  {
    var s := IntToString(i);
    if i < 0 {
      assert s[1..] == NatToString(-i);
      ParseNatToString(-i);
    } else {
      assert IsDigit(s[0]);
      ParseNatToString(i);
    }
  }

  /** Two whole numbers render alike only when they are equal. */
  lemma IntToStringInjective(i: int, j: int)
    requires IntToString(i) == IntToString(j)
    ensures i == j
  {
    ParseIntToString(i);
    ParseIntToString(j);
  }

  // ---------------------------------------------------------------- lines

  /** `Array.prototype.join("\n")`: no separator after the last row. */
  function JoinLines(rows: seq<string>): (s: string)
    ensures |rows| == 0 ==> s == ""
    ensures 1 <= |rows| ==> |rows[0]| <= |s| && s[..|rows[0]|] == rows[0]
    decreases |rows|
  {
    if |rows| == 0 then ""
    else if |rows| == 1 then rows[0]
    else rows[0] + "\n" + JoinLines(rows[1..])
  }

  /** Index of the first occurrence of `c` in `s`. */
  function IndexOf(s: string, c: char): (i: nat)
    requires c in s
    ensures i < |s| && s[i] == c
    ensures c !in s[..i]
  {
    if s[0] == c then 0 else 1 + IndexOf(s[1..], c)
  }

  /** `String.prototype.split("\n")`: the empty string splits into one empty row. */
  function SplitLines(s: string): (rows: seq<string>)
    ensures 1 <= |rows|
    decreases |s|
  {
    if '\n' !in s then [s]
    else
      var i := IndexOf(s, '\n');
      [s[..i]] + SplitLines(s[i + 1..])
  }

  lemma SplitAtFirstNewline(row: string, rest: string)
    requires '\n' !in row
    ensures SplitLines(row + "\n" + rest) == [row] + SplitLines(rest)
  {
    var s := row + "\n" + rest;
    assert s[|row|] == '\n';
    assert s[..|row|] == row;
    IndexOfPrefix(row, rest);
    assert s[|row| + 1..] == rest;
  }

  lemma IndexOfPrefix(row: string, rest: string)
    requires '\n' !in row
    ensures '\n' in row + "\n" + rest
    ensures IndexOf(row + "\n" + rest, '\n') == |row|
  {
    var s := row + "\n" + rest;
    assert s[|row|] == '\n';
    var i := IndexOf(s, '\n');
    if i < |row| {
      assert false;
    } else if i > |row| {
      assert false;
    }
  }

  /** Splitting the joined rows gives the rows back, when no row holds a newline. */
  lemma {:induction false} SplitJoinLines(rows: seq<string>)
    requires 1 <= |rows|
    requires forall k :: 0 <= k < |rows| ==> '\n' !in rows[k]
    ensures SplitLines(JoinLines(rows)) == rows
    decreases |rows|
  {
    if |rows| > 1 {
      SplitAtFirstNewline(rows[0], JoinLines(rows[1..]));
      SplitJoinLines(rows[1..]);
      assert rows == [rows[0]] + rows[1..];
    }
  }

  // ---------------------------------------------------------------- spaces

  /** U+2002 EN SPACE, the character the phrase's spaces are sent as. */
  const EnSpace: char := '\U{2002}'

  /** `s.replace(/ /g, "\u2002")`: every plain space becomes an en space. */
  function SpreadSpaces(s: string): (r: string)
    ensures |r| == |s|
    ensures forall i :: 0 <= i < |s| && s[i] != ' ' ==> r[i] == s[i]
    ensures forall i :: 0 <= i < |s| && s[i] == ' ' ==> r[i] == EnSpace
    ensures ' ' !in r
    decreases |s|
  {
    if |s| == 0 then ""
    else [if s[0] == ' ' then EnSpace else s[0]] + SpreadSpaces(s[1..])
  }

  /** Turns every en space back into a plain space. */
  function GatherSpaces(s: string): (r: string)
    ensures |r| == |s|
    ensures forall i :: 0 <= i < |s| ==> r[i] == (if s[i] == EnSpace then ' ' else s[i])
    decreases |s|
  {
    if |s| == 0 then ""
    else [if s[0] == EnSpace then ' ' else s[0]] + GatherSpaces(s[1..])
  }

  /** The substitution loses nothing for a phrase that holds no en space of its own. */
  lemma GatherSpreadSpaces(s: string)
    requires EnSpace !in s
    ensures GatherSpaces(SpreadSpaces(s)) == s
  {
    var r := GatherSpaces(SpreadSpaces(s));
    assert forall i :: 0 <= i < |s| ==> r[i] == s[i];
  }

  /** A phrase with a space differs from what is sent, so pasting the sent text back is not an exact match. */
  lemma SpreadSpacesChangesSpacedText(s: string)
    requires ' ' in s
    ensures SpreadSpaces(s) != s
  {
    var i :| 0 <= i < |s| && s[i] == ' ';
    assert SpreadSpaces(s)[i] == EnSpace;
  }

  // ---------------------------------------------------------------- seconds

  /** The fractional part of `f` thousandths: "" for none, else "." and up to three digits with trailing zeros dropped. */
  function Fraction(f: nat): (s: string)
    requires f < 1000
    ensures f == 0 <==> s == ""
    ensures forall i :: 0 <= i < |s| ==> IsNumeral(s[i])
  {
    var a, b, c := f / 100, f / 10 % 10, f % 10;
    if f == 0 then ""
    else if b == 0 && c == 0 then "." + [DigitChar(a)]
    else if c == 0 then "." + [DigitChar(a), DigitChar(b)]
    else "." + [DigitChar(a), DigitChar(b), DigitChar(c)]
  }

  /**
   `String(ms / 1000)` for a whole number of milliseconds: the exact decimal
   value in seconds, no trailing zeros in the fraction, no point when whole.
   */
  function FormatSeconds(ms: int): (s: string)
    ensures 1 <= |s|
    ensures ms < 0 <==> s[0] == '-'
    ensures forall i :: 0 <= i < |s| ==> IsNumeral(s[i])
  {
    if ms < 0 then "-" + UnsignedSeconds(-ms) else UnsignedSeconds(ms)
  }

  function UnsignedSeconds(m: nat): (s: string)
    ensures 1 <= |s| && IsDigit(s[0])
    ensures forall i :: 0 <= i < |s| ==> IsNumeral(s[i])
  {
    NatToString(m / 1000) + Fraction(m % 1000)
  }

  function Pow10(k: nat): nat {
    if k == 0 then 1 else 10 * Pow10(k - 1)
  }

  /** Reads a decimal number of seconds back as a whole number of milliseconds. */
  function ParseSeconds(s: string): Option<int> {
    if |s| > 0 && s[0] == '-' then
      match ParseUnsignedSeconds(s[1..])
      case Some(v) => if v == 0 then None else var n: int := v; Some(-n)
      case None => None
    else ParseUnsignedSeconds(s)
  }

  function ParseUnsignedSeconds(s: string): Option<nat> {
    if '.' in s then
      var i := IndexOf(s, '.');
      ParsePoint(s[..i], s[i + 1..])
    else if 1 <= |s| && AllDigits(s) then Some(ParseNat(s) * 1000)
    else None
  }

  /** Whole seconds and one to three digits of fraction, read as milliseconds. */
  function ParsePoint(whole: string, frac: string): Option<nat> {
    if 1 <= |whole| && AllDigits(whole) && 1 <= |frac| <= 3 && AllDigits(frac)
    then Some(ParseNat(whole) * 1000 + ParseNat(frac) * Pow10(3 - |frac|))
    else None
  }

  lemma IndexOfPoint(w: string, t: string)
    requires AllDigits(w)
    ensures '.' in w + "." + t
    ensures IndexOf(w + "." + t, '.') == |w|
  {
    var s := w + "." + t;
    assert s[|w|] == '.';
    var i := IndexOf(s, '.');
    if i < |w| {
      assert false;
    } else if i > |w| {
      assert false;
    }
  }

  lemma ParseOneDigit(a: nat)
    requires a < 10
    ensures ParseNat([DigitChar(a)]) == a
  {
    assert [DigitChar(a)][..0] == [];
  }

  lemma ParseTwoDigits(a: nat, b: nat)
    requires a < 10 && b < 10
    ensures ParseNat([DigitChar(a), DigitChar(b)]) == a * 10 + b
  {
    assert [DigitChar(a), DigitChar(b)][..1] == [DigitChar(a)];
    ParseOneDigit(a);
  }

  lemma ParseThreeDigits(a: nat, b: nat, c: nat)
    requires a < 10 && b < 10 && c < 10
    ensures ParseNat([DigitChar(a), DigitChar(b), DigitChar(c)]) == a * 100 + b * 10 + c
  {
    assert [DigitChar(a), DigitChar(b), DigitChar(c)][..2] == [DigitChar(a), DigitChar(b)];
    ParseTwoDigits(a, b);
  }

  lemma ThousandthsDigits(f: nat)
    requires f < 1000
    ensures f == f / 100 * 100 + f / 10 % 10 * 10 + f % 10
  {
  }

  lemma ParseFraction(f: nat)
    requires 0 < f < 1000
    ensures var t := Fraction(f)[1..];
      && 1 <= |t| <= 3 && AllDigits(t) && ParseNat(t) * Pow10(3 - |t|) == f
  {
    var t := Fraction(f)[1..];
    var a, b, c := f / 100, f / 10 % 10, f % 10;
    ThousandthsDigits(f);
    if b == 0 && c == 0 {
      assert t == [DigitChar(a)];
      ParseOneDigit(a);
      assert Pow10(2) == 100;
    } else if c == 0 {
      assert t == [DigitChar(a), DigitChar(b)];
      ParseTwoDigits(a, b);
      assert Pow10(1) == 10;
    } else {
      assert t == [DigitChar(a), DigitChar(b), DigitChar(c)];
      ParseThreeDigits(a, b, c);
    }
  }

  lemma ParseWholeSeconds(w: string)
    requires 1 <= |w| && AllDigits(w)
    ensures ParseUnsignedSeconds(w) == Some(ParseNat(w) * 1000)
  {
    assert '.' !in w by {
      forall i | 0 <= i < |w| ensures w[i] != '.' {
        assert IsDigit(w[i]);
      }
    }
  }

  lemma ParsePointSeconds(w: string, t: string)
    requires 1 <= |w| && AllDigits(w) && 1 <= |t| <= 3 && AllDigits(t)
    ensures ParseUnsignedSeconds(w + "." + t) == ParsePoint(w, t)
  {
    var s := w + "." + t;
    IndexOfPoint(w, t);
    assert s[..|w|] == w;
    assert s[|w| + 1..] == t;
  }

  lemma ParseUnsignedParts(q: nat, f: nat)
    requires f < 1000
    ensures ParseUnsignedSeconds(NatToString(q) + Fraction(f)) == Some(q * 1000 + f)
  {
    var w := NatToString(q);
    ParseNatToString(q);
    if f == 0 {
      assert w + Fraction(f) == w;
      ParseWholeSeconds(w);
    } else {
      var point := Fraction(f);
      var t := point[1..];
      assert point == "." + t;
      assert w + point == w + "." + t;
      ParseFraction(f);
      ParsePointSeconds(w, t);
      PointValue(w, t, q, f);
    }
  }

  lemma PointValue(w: string, t: string, q: nat, f: nat)
    requires 1 <= |w| && AllDigits(w) && ParseNat(w) == q
    requires 1 <= |t| <= 3 && AllDigits(t) && ParseNat(t) * Pow10(3 - |t|) == f
    ensures ParsePoint(w, t) == Some(q * 1000 + f)
  {
  }

  lemma ParseUnsignedFormat(m: nat)
    ensures ParseUnsignedSeconds(UnsignedSeconds(m)) == Some(m)
  {
    ParseUnsignedParts(m / 1000, m % 1000);
  }

  lemma ParseSignedSeconds(u: string, m: nat)
    requires 1 <= |u| && IsDigit(u[0])
    requires ParseUnsignedSeconds(u) == Some(m)
    ensures ParseSeconds(u) == Some(m)
    ensures 0 < m ==> ParseSeconds("-" + u) == Some(0 - m)
  {
    assert ("-" + u)[1..] == u;
  }

  /** The seconds display reads back as exactly the milliseconds it was made from. */
  lemma ParseFormatSeconds(ms: int)
    ensures ParseSeconds(FormatSeconds(ms)) == Some(ms)
  {
    var m := if ms < 0 then -ms else ms;
    ParseUnsignedFormat(m);
    ParseSignedSeconds(UnsignedSeconds(m), m);
  }
}
