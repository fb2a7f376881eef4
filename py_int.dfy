/** Python's integer conversions used by the core: `int(text)` in base 10, `str(n)`,
    `format(n, '0W')` and `min(...)`. */
module PyInt {
  import opened PyCore
  import opened PyStr

  predicate IsDigit(c: char) {
    '0' <= c <= '9'
  }

  predicate AllDigits(s: string) {
    forall i :: 0 <= i < |s| ==> IsDigit(s[i])
  }

  function DigitValue(c: char): (d: nat)
    requires IsDigit(c)
    ensures d < 10
  {
    c as int - '0' as int
  }

  function DigitChar(d: nat): (c: char)
    requires d < 10
    ensures IsDigit(c) && DigitValue(c) == d
  {
    (d + '0' as int) as char
  }

  /** The value of a string of decimal digits (most significant first). */
  function DecimalValue(ds: string): nat
    requires AllDigits(ds)
  {
    if ds == [] then 0 else DecimalValue(ds[..|ds| - 1]) * 10 + DigitValue(ds[|ds| - 1])
  }

  /** `str(n)` for a non-negative integer: no leading zero unless it is `"0"`. */
  function NatToString(n: nat): (s: string)
    ensures s != [] && AllDigits(s)
    ensures |s| > 1 ==> s[0] != '0'
  {
    if n < 10 then [DigitChar(n)] else NatToString(n / 10) + [DigitChar(n % 10)]
  }

  lemma {:induction false} NatToStringValue(n: nat)
    ensures DecimalValue(NatToString(n)) == n
  {
    if n >= 10 {
      var s := NatToString(n);
      assert s[..|s| - 1] == NatToString(n / 10);
      NatToStringValue(n / 10);
    }
  }

  /** `str(i)` */
  function IntToString(i: int): string {
    if i < 0 then "-" + NatToString(-i) else NatToString(i)
  }

  /** The digits of a literal in Python's grammar: digits, with single underscores allowed
      between two digits (`1_000`). */
  predicate IsDigitGroup(b: string) {
    && |b| > 0 && IsDigit(b[0]) && IsDigit(b[|b| - 1])
    && (forall i :: 0 <= i < |b| ==> IsDigit(b[i]) || b[i] == '_')
    && (forall i :: 0 <= i < |b| - 1 ==> !(b[i] == '_' && b[i + 1] == '_'))
  }

  /** The digits of `b` with the underscores taken out. */
  function Digits(b: string): (ds: string)
    requires forall i :: 0 <= i < |b| ==> IsDigit(b[i]) || b[i] == '_'
    ensures AllDigits(ds)
    ensures AllDigits(b) ==> ds == b
  {
    if b == [] then [] else (if b[0] == '_' then [] else [b[0]]) + Digits(b[1..])
  }

  /** `int(s)` in base 10: surrounding whitespace allowed, an optional sign, then a digit
      group; anything else raises, naming the offending text. */
  function ParseInt(s: string): (r: Outcome<int>)
    ensures r.Raise? ==> r.error == InvalidLiteral(s)
  {
    ParseLiteral(Strip(s), s)
  }

  /** `int()` of the stripped text `t` of `s`. */
  function ParseLiteral(t: string, s: string): (r: Outcome<int>)
    ensures r.Raise? ==> r.error == InvalidLiteral(s)
    ensures r.Ok? ==> t != []
  {
    var signed := |t| > 0 && (t[0] == '-' || t[0] == '+');
    var body := if signed then t[1..] else t;
    if IsDigitGroup(body) then
      var v: int := DecimalValue(Digits(body));
      Ok(if signed && t[0] == '-' then -v else v)
    else
      Raise(InvalidLiteral(s))
  }

  /** Round trip: `int(str(i)) == i`. */
  lemma ParseIntToString(i: int)
    ensures ParseInt(IntToString(i)) == Ok(i)
  {
    var n: nat := if i < 0 then -i else i;
    var d := NatToString(n);
    NatToStringValue(n);
    var s := IntToString(i);
    assert NoOuterSpace(s) by {
      if i < 0 {
        assert s[0] == '-' && s[|s| - 1] == d[|d| - 1];
      }
    }
    StripKeeps(s);
    assert ParseInt(s) == ParseLiteral(s, s);
    if i < 0 {
      ParseNegative(d, s);
    } else {
      ParsePlain(d);
    }
  }

  lemma ParsePlain(d: string)
    requires d != [] && AllDigits(d)
    ensures ParseLiteral(d, d) == Ok(DecimalValue(d))
  {
    assert IsDigitGroup(d);
  }

  lemma ParseNegative(d: string, s: string)
    requires d != [] && AllDigits(d) && s == "-" + d
    ensures ParseLiteral(s, s) == Ok(-(DecimalValue(d) as int))
  {
    assert s[1..] == d;
    assert IsDigitGroup(d);
  }

  /** Python accepts leading zeros in `int()`: they do not change the value. */
  lemma {:induction false} LeadingZeroValue(s: string)
    requires AllDigits(s)
    ensures DecimalValue("0" + s) == DecimalValue(s)
  {
    if s != [] {
      var t := "0" + s;
      assert t[..|t| - 1] == "0" + s[..|s| - 1];
      LeadingZeroValue(s[..|s| - 1]);
    }
  }

  function Zeros(k: nat): (z: string)
    ensures |z| == k && AllDigits(z)
  {
    if k == 0 then "" else "0" + Zeros(k - 1)
  }

  lemma {:induction false} LeadingZerosValue(k: nat, s: string)
    requires AllDigits(s)
    ensures DecimalValue(Zeros(k) + s) == DecimalValue(s)
  {
    if k > 0 {
      var z := Zeros(k - 1) + s;
      assert AllDigits(z);
      assert Zeros(k) + s == "0" + z;
      assert AllDigits("0" + z);
      LeadingZeroValue(z);
      assert DecimalValue("0" + z) == DecimalValue(z);
      LeadingZerosValue(k - 1, s);
      assert DecimalValue(z) == DecimalValue(s);
    } else {
      assert Zeros(k) + s == s;
    }
  }

  /** `format(n, '0W')`: `str(n)` left-padded with zeros to at least `width` characters. */
  function ZeroPad(n: nat, width: nat): (s: string)
    ensures AllDigits(s)
    ensures |s| >= width && |s| >= |NatToString(n)|
  {
    var d := NatToString(n);
    if |d| >= width then d else Zeros(width - |d|) + d
  }

  /** The padded form still denotes `n`; in particular it is injective in `n`. */
  lemma ZeroPadValue(n: nat, width: nat)
    ensures DecimalValue(ZeroPad(n, width)) == n
  {
    NatToStringValue(n);
    var d := NatToString(n);
    if |d| < width {
      var z := Zeros(width - |d|);
      assert ZeroPad(n, width) == z + d;
      LeadingZerosValue(width - |d|, d);
      assert DecimalValue(z + d) == n;
    } else {
      assert ZeroPad(n, width) == d;
    }
  }

  lemma ZeroPadInjective(m: nat, n: nat, width: nat)
    requires ZeroPad(m, width) == ZeroPad(n, width)
    ensures m == n
  {
    ZeroPadValue(m, width);
    ZeroPadValue(n, width);
  }

  /** `map(int, texts)` consumed in order: the first text that is no integer raises. */
  function ParseAll(texts: seq<string>): (r: Outcome<seq<int>>)
    ensures r.Ok? <==> forall i :: 0 <= i < |texts| ==> ParseInt(texts[i]).Ok?
    ensures r.Ok? ==> |r.value| == |texts| && forall i :: 0 <= i < |texts| ==> r.value[i] == ParseInt(texts[i]).value
    ensures r.Raise? ==> r.error.InvalidLiteral? && r.error.text in texts
  {
    MapAll(ParseInt, texts)
  }

  /** `min(xs)`: the least element, or a ValueError for an empty sequence. */
  function Min(xs: seq<int>): (r: Outcome<int>)
    ensures r.Ok? <==> xs != []
    ensures r.Raise? ==> r.error == EmptyMin
    ensures r.Ok? ==> r.value in xs && forall i :: 0 <= i < |xs| ==> r.value <= xs[i]
  {
    if xs == [] then Raise(EmptyMin)
    else if |xs| == 1 then Ok(xs[0])
    else
      var m := Min(xs[1..]).value;
      Ok(if xs[0] <= m then xs[0] else m)
  }
}
