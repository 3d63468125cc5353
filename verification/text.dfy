/**
  The pieces of Python string behaviour the credential store depends on:
  case-insensitive substring search (as used by the name and degree
  searches) and the conversions `int(text)` and `float(text)` applied to
  the graduation year and the CGPA when a student is added.

  Case folding covers the ASCII letters only, and the numeric grammar is the
  plain decimal one: an optional sign, digits and, for `float`, a point
  followed by at most two digits (a CGPA is held in hundredths).
 */
module Text {
  import opened Wrappers

  // ---------------------------------------------------------------------
  // Case folding and substring search
  // ---------------------------------------------------------------------

  /** Lower-case of one character; only 'A'..'Z' change. */
  function LowerChar(c: char): char {
    if 'A' <= c <= 'Z' then (c as int + 32) as char else c
  }

  function Lower(s: string): (r: string)
    ensures |r| == |s|
    ensures forall i :: 0 <= i < |s| ==> r[i] == LowerChar(s[i])
  {
    if s == [] then [] else [LowerChar(s[0])] + Lower(s[1..])
  }

  /** `needle` occurs in `hay` starting at position `i`. */
  predicate OccursAt(hay: string, needle: string, i: int) {
    0 <= i && i + |needle| <= |hay| && hay[i..i + |needle|] == needle
  }

  /** Dropping the first character of `hay` shifts every occurrence by one. */
  lemma OccursShift(hay: string, needle: string)
    requires hay != []
    ensures forall i :: 0 <= i ==> (OccursAt(hay[1..], needle, i) <==> OccursAt(hay, needle, i + 1))
  {
    forall i | 0 <= i
      ensures OccursAt(hay[1..], needle, i) <==> OccursAt(hay, needle, i + 1)
    {
      if 0 <= i && i + 1 + |needle| <= |hay| {
        assert hay[1..][i..i + |needle|] == hay[i + 1..i + 1 + |needle|];
      }
    }
  }

  /** Literal substring test: `needle in hay` in Python. */
  function Contains(hay: string, needle: string): (r: bool)
    ensures r <==> exists i :: OccursAt(hay, needle, i)
    decreases |hay|
  {
    if |needle| <= |hay| && hay[..|needle|] == needle then
      assert OccursAt(hay, needle, 0);
      true
    else if hay == [] then
      false
    else
      OccursShift(hay, needle);
      assert forall i :: OccursAt(hay, needle, i) ==> i >= 1 && OccursAt(hay[1..], needle, i - 1);
      Contains(hay[1..], needle)
  }

  /** `str.contains(query, case=False)` on one value, with the query read literally. */
  function ContainsIgnoringCase(hay: string, query: string): bool {
    Contains(Lower(hay), Lower(query))
  }

  /** Every string contains itself, ignoring case or not. */
  lemma ContainsItself(s: string)
    ensures ContainsIgnoringCase(s, s)
  {
    assert OccursAt(Lower(s), Lower(s), 0);
  }

  // ---------------------------------------------------------------------
  // Decimal digits
  // ---------------------------------------------------------------------

  predicate IsDigit(c: char) {
    '0' <= c <= '9'
  }

  predicate AllDigits(s: string) {
    forall i :: 0 <= i < |s| ==> IsDigit(s[i])
  }

  /** The value of a string of decimal digits, most significant first. */
  function DigitsValue(s: string): nat
    requires AllDigits(s)
  {
    if s == [] then 0 else 10 * DigitsValue(s[..|s| - 1]) + (s[|s| - 1] as int - '0' as int)
  }

  function DigitChar(d: nat): (c: char)
    requires d < 10
    ensures IsDigit(c) && c as int - '0' as int == d
  {
    ('0' as int + d) as char
  }

  /** Decimal rendering of a natural number, without leading zeros. */
  function ShowNat(n: nat): (r: string)
    ensures r != [] && AllDigits(r)
  {
    if n < 10 then [DigitChar(n)] else ShowNat(n / 10) + [DigitChar(n % 10)]
  }

  lemma {:induction false} ShowNatValue(n: nat)
    ensures DigitsValue(ShowNat(n)) == n
  {
    if n >= 10 {
      ShowNatValue(n / 10);
      var s := ShowNat(n);
      assert s[..|s| - 1] == ShowNat(n / 10);
    }
  }

  // ---------------------------------------------------------------------
  // int(text) and float(text)
  // ---------------------------------------------------------------------

  /** Splits an optional leading '+' or '-' off `s`; the flag says it was '-'. */
  function SplitSign(s: string): (r: (bool, string))
    ensures |r.1| <= |s|
  {
    if s != [] && (s[0] == '-' || s[0] == '+') then (s[0] == '-', s[1..]) else (false, s)
  }

  function Signed(negative: bool, magnitude: int): int {
    if negative then -magnitude else magnitude
  }

  /** Python's `int(text)` for text of the form [sign] digits; anything else fails. */
  function ParseInt(s: string): Option<int> {
    var (negative, body) := SplitSign(s);
    if body != [] && AllDigits(body) then Some(Signed(negative, DigitsValue(body))) else None
  }

  /** Position of the first '.' in `s`, or |s| when there is none. */
  function PointIndex(s: string): (k: nat)
    ensures k <= |s|
    ensures k < |s| ==> s[k] == '.'
    ensures forall i :: 0 <= i < k ==> s[i] != '.'
  {
    if s == [] then 0 else if s[0] == '.' then 0 else 1 + PointIndex(s[1..])
  }

  /** Hundredths denoted by up to two digits after the decimal point. */
  function FractionCents(f: string): nat
    requires AllDigits(f) && |f| <= 2
  {
    if f == [] then 0
    else if |f| == 1 then 10 * DigitsValue(f)
    else DigitsValue(f)
  }

  /** The hundredths denoted by the digits before and after the point, if well formed. */
  function PartsCents(whole: string, fraction: string): Option<nat> {
    if whole != [] && AllDigits(whole) && AllDigits(fraction) && |fraction| <= 2 then
      Some(100 * DigitsValue(whole) + FractionCents(fraction))
    else
      None
  }

  /** `float` of unsigned text: digits [ '.' [digit [digit]] ], in hundredths. */
  function ParseUnsignedCents(body: string): Option<nat> {
    var k := PointIndex(body);
    PartsCents(body[..k], if k < |body| then body[k + 1..] else [])
  }

  /**
    Python's `float(text)` in hundredths, for text of the form
    [sign] digits [ '.' [digit [digit]] ]; anything else fails.
   */
  function ParseCents(s: string): Option<int> {
    var (negative, body) := SplitSign(s);
    match ParseUnsignedCents(body)
    case Some(v) => Some(Signed(negative, v))
    case None => None
  }

  /** Decimal rendering of an integer, with a '-' for negative values. */
  function ShowInt(n: int): (r: string)
    ensures r != []
  {
    if n < 0 then "-" + ShowNat(-n) else ShowNat(n)
  }

  /** Rendering of a hundredths value with exactly two decimals, as "%.2f" does. */
  function ShowCents(c: int): (r: string)
    ensures r != []
  {
    var m := if c < 0 then -c else c;
    (if c < 0 then "-" else "") + ShowNat(m / 100) + "." + [DigitChar(m % 100 / 10), DigitChar(m % 10)]
  }

  lemma PointIndexOfDigits(w: string, rest: string)
    requires AllDigits(w)
    requires rest == [] || rest[0] == '.'
    ensures PointIndex(w + rest) == |w|
  {
    if w != [] {
      assert (w + rest)[0] == w[0] && IsDigit(w[0]);
      assert (w + rest)[1..] == w[1..] + rest;
      PointIndexOfDigits(w[1..], rest);
    }
  }

  lemma DigitsValuePair(a: char, b: char)
    requires IsDigit(a) && IsDigit(b)
    ensures DigitsValue([a, b]) == 10 * (a as int - '0' as int) + (b as int - '0' as int)
  {
    var s := [a, b];
    assert s[..|s| - 1] == [a];
    assert [a][..0] == [];
    assert DigitsValue([a]) == a as int - '0' as int;
  }

  lemma SplitSignOfShowNat(n: nat)
    ensures SplitSign(ShowNat(n)) == (false, ShowNat(n))
  {
    assert IsDigit(ShowNat(n)[0]);
  }

  /** `int` reads back what `ShowInt` writes. */
  lemma ParseShowInt(n: int)
    ensures ParseInt(ShowInt(n)) == Some(n)
  {
    if n < 0 {
      assert ShowInt(n)[1..] == ShowNat(-n);
      ShowNatValue(-n);
    } else {
      SplitSignOfShowNat(n);
      ShowNatValue(n);
    }
  }

  /** `float` of an integer's text is that integer, in hundredths. */
  lemma ParseCentsShowInt(n: int)
    ensures ParseCents(ShowInt(n)) == Some(100 * n)
  {
    var m: nat := if n < 0 then -n else n;
    var w := ShowNat(m);
    assert ShowInt(n) == (if n < 0 then "-" else "") + w;
    SplitSignBeforeDigit(n < 0, w);
    ParseUnsignedWhole(w);
    ShowNatValue(m);
  }

  /** Reading a sign off text that starts with a digit. */
  lemma SplitSignBeforeDigit(negative: bool, body: string)
    requires body != [] && IsDigit(body[0])
    ensures SplitSign((if negative then "-" else "") + body) == (negative, body)
  {
    var s := (if negative then "-" else "") + body;
    if negative {
      assert s[0] == '-' && s[1..] == body;
    } else {
      assert s == body;
    }
  }

  /** How `ParseUnsignedCents` reads digits without a point. */
  lemma ParseUnsignedWhole(whole: string)
    requires whole != [] && AllDigits(whole)
    ensures ParseUnsignedCents(whole) == Some(100 * DigitsValue(whole))
  {
    PointIndexOfDigits(whole, []);
    assert whole + [] == whole;
    assert whole[..|whole|] == whole;
  }

  /** Where the parts of `whole '.' fraction` sit. */
  lemma PartsAroundPoint(whole: string, fraction: string)
    ensures whole + "." + fraction == whole + ("." + fraction)
    ensures (whole + "." + fraction)[..|whole|] == whole
    ensures (whole + "." + fraction)[|whole| + 1..] == fraction
  {
  }

  /** How `ParseUnsignedCents` reads whole '.' fraction. */
  lemma ParseUnsignedParts(whole: string, fraction: string)
    requires whole != [] && AllDigits(whole) && AllDigits(fraction) && |fraction| <= 2
    ensures ParseUnsignedCents(whole + "." + fraction) == Some(100 * DigitsValue(whole) + FractionCents(fraction))
  {
    var body := whole + "." + fraction;
    PartsAroundPoint(whole, fraction);
    PointIndexOfDigits(whole, "." + fraction);
    assert ParseUnsignedCents(body) == PartsCents(body[..|whole|], body[|whole| + 1..]);
  }

  /** A number below 10 after a multiple of ten is the remainder modulo ten. */
  lemma RemainderTen(m: int, a: int, u: int)
    requires m == 10 * a + u && 0 <= u < 10
    ensures m % 10 == u
  {
  }

  lemma HundredthsDigits(m: nat)
    ensures m == 100 * (m / 100) + 10 * (m % 100 / 10) + m % 10
  {
    var q, r := m / 100, m % 100;
    assert m == 100 * q + r;
    var t, u := r / 10, r % 10;
    assert r == 10 * t + u;
    RemainderTen(m, 10 * q + t, u);
  }

  /** `float` reads back what "%.2f" writes: the two-decimal rendering round-trips. */
  lemma ParseShowCents(c: int)
    ensures ParseCents(ShowCents(c)) == Some(c)
  {
    var m: nat := if c < 0 then -c else c;
    var q, t, u := m / 100, m % 100 / 10, m % 10;
    var f := [DigitChar(t), DigitChar(u)];
    var w := ShowNat(q);
    assert ShowCents(c) == (if c < 0 then "-" else "") + (w + "." + f);
    SplitSignBeforeDigit(c < 0, w + "." + f);
    ParseUnsignedParts(w, f);
    ShowNatValue(q);
    DigitsValuePair(f[0], f[1]);
    HundredthsDigits(m);
    assert 100 * DigitsValue(w) + FractionCents(f) == m;
  }
}
