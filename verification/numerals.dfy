/**
 * Positional numerals: digit sequences, Python's zero-padded integer formatting
 * (`'{:0{w}b}'`, `'{:0{w}X}'`, `'{:d}'`) and `int(s, base)` on plain digit strings.
 * Digit sequences are most significant digit first, as they are printed.
 */
module Numerals {

  datatype Option<T> = None | Some(value: T)

  function Pow(base: nat, k: nat): (p: nat)
    ensures base >= 1 ==> p >= 1
  {
    if k == 0 then 1 else base * Pow(base, k - 1)
  }

  /** The digits of n in the given base; 0 is written as the single digit 0. */
  function Digits(n: nat, base: nat): (ds: seq<nat>)
    requires base >= 2
    ensures |ds| >= 1 && AllBelow(ds, base)
    ensures |ds| > 1 ==> ds[0] != 0
    decreases n
  {
    DivMod(n, base);
    if n < base then [n] else Digits(n / base, base) + [n % base]
  }

  lemma DivMod(n: nat, base: nat)
    requires base >= 2
    ensures n == (n / base) * base + n % base && n % base < base
    ensures n >= base ==> 1 <= n / base < n
  {
    var q, r := n / base, n % base;
    assert n == q * base + r;
    if n >= base {
      assert q != 0;
      MulMono(2, base, q);
    }
  }

  lemma MulMono(a: nat, b: nat, c: nat)
    requires a <= b
    ensures a * c <= b * c
  {
    assert b * c == a * c + (b - a) * c;
  }

  lemma DivModUnique(q: nat, r: nat, base: nat)
    requires base >= 2 && r < base
    ensures (q * base + r) / base == q && (q * base + r) % base == r
  {
    var n := q * base + r;
    var q', r' := n / base, n % base;
    assert n == q' * base + r';
    if q' < q {
      MulMono(q' + 1, q, base);
      assert false;
    } else if q' > q {
      MulMono(q + 1, q', base);
      assert false;
    }
  }

  predicate AllBelow(ds: seq<nat>, base: nat) {
    forall i :: 0 <= i < |ds| ==> ds[i] < base
  }

  /** The number a digit sequence denotes (leading zeros allowed). */
  function Value(ds: seq<nat>, base: nat): nat {
    if ds == [] then 0 else Value(ds[..|ds| - 1], base) * base + ds[|ds| - 1]
  }

  /** Left-pads ds with zeros up to the given width; a longer sequence is kept whole. */
  function ZeroPad(ds: seq<nat>, width: int): (r: seq<nat>)
    ensures |r| == if |ds| >= width then |ds| else width
    ensures r[|r| - |ds|..] == ds
    ensures forall i :: 0 <= i < |r| - |ds| ==> r[i] == 0
  {
    if |ds| >= width then ds else seq(width - |ds|, _ => 0) + ds
  }

  function Reverse<T>(s: seq<T>): (r: seq<T>)
    ensures |r| == |s| && forall i :: 0 <= i < |s| ==> r[i] == s[|s| - 1 - i]
  {
    seq(|s|, i requires 0 <= i < |s| => s[|s| - 1 - i])
  }

  lemma PaddedDigitsBelow(ds: seq<nat>, width: int, base: nat)
    requires base >= 1 && AllBelow(ds, base)
    ensures AllBelow(ZeroPad(ds, width), base) && AllBelow(Reverse(ZeroPad(ds, width)), base)
  {
    var r := ZeroPad(ds, width);
    forall i | 0 <= i < |r| ensures r[i] < base {
      if i >= |r| - |ds| {
        assert r[i] == r[|r| - |ds|..][i - (|r| - |ds|)];
      }
    }
  }

  lemma ReverseReverse<T>(s: seq<T>)
    ensures Reverse(Reverse(s)) == s
  {
  }

  lemma {:induction false} ValueOfDigits(n: nat, base: nat)
    requires base >= 2
    ensures Value(Digits(n, base), base) == n
    decreases n
  {
    DivMod(n, base);
    if n >= base {
      var ds := Digits(n / base, base) + [n % base];
      assert ds[..|ds| - 1] == Digits(n / base, base);
      ValueOfDigits(n / base, base);
    }
  }

  lemma {:induction false} ValueOfZeros(z: seq<nat>, base: nat)
    requires forall i :: 0 <= i < |z| ==> z[i] == 0
    ensures Value(z, base) == 0
  {
    if z != [] {
      ValueOfZeros(z[..|z| - 1], base);
    }
  }

  lemma {:induction false} ValueZerosPrefix(z: seq<nat>, ds: seq<nat>, base: nat)
    requires forall i :: 0 <= i < |z| ==> z[i] == 0
    ensures Value(z + ds, base) == Value(ds, base)
  {
    if ds == [] {
      assert z + ds == z;
      ValueOfZeros(z, base);
    } else {
      var front := ds[..|ds| - 1];
      assert (z + ds)[..|z + ds| - 1] == z + front;
      ValueZerosPrefix(z, front, base);
    }
  }

  lemma ValueZeroPad(ds: seq<nat>, width: int, base: nat)
    ensures Value(ZeroPad(ds, width), base) == Value(ds, base)
  {
    if |ds| < width {
      ValueZerosPrefix(seq(width - |ds|, _ => 0), ds, base);
    }
  }

  lemma {:induction false} ValueBound(ds: seq<nat>, base: nat)
    requires base >= 1 && AllBelow(ds, base)
    ensures Value(ds, base) < Pow(base, |ds|)
  {
    if ds != [] {
      var front := ds[..|ds| - 1];
      ValueBound(front, base);
      var p := Pow(base, |front|);
      var v := Value(front, base);
      assert v + 1 <= p;
      assert Value(ds, base) == v * base + ds[|ds| - 1];
      MulMono(v + 1, p, base);
      assert (v + 1) * base == v * base + base;
      assert Pow(base, |ds|) == base * p;
    }
  }

  lemma {:induction false} ZeroValueZeros(ds: seq<nat>, base: nat)
    requires base >= 1 && Value(ds, base) == 0
    ensures forall i :: 0 <= i < |ds| ==> ds[i] == 0
  {
    if ds != [] {
      var front := ds[..|ds| - 1];
      assert Value(front, base) == 0;
      ZeroValueZeros(front, base);
      forall i | 0 <= i < |ds| ensures ds[i] == 0 {
        if i < |front| {
          assert ds[i] == front[i];
        }
      }
    }
  }

  /**
   * Digits are canonical: a non-empty digit string of width w is the zero-padded
   * digit string of the number it denotes.
   */
  lemma {:induction false} DigitsOfValue(ds: seq<nat>, base: nat)
    requires base >= 2 && |ds| >= 1 && AllBelow(ds, base)
    ensures ZeroPad(Digits(Value(ds, base), base), |ds|) == ds
  {
    var front, d := ds[..|ds| - 1], ds[|ds| - 1];
    assert front + [d] == ds;
    var v := Value(front, base);
    if v == 0 {
      ZeroValueZeros(front, base);
      assert Value(ds, base) == d;
      assert seq(|front|, _ => 0) == front;
    } else {
      assert AllBelow(front, base);
      DigitsOfValue(front, base);
      DigitsSnoc(front, d, base);
      PadSnoc(Digits(v, base), d, |front|);
    }
  }

  lemma PadSnoc(dv: seq<nat>, d: nat, width: nat)
    requires |dv| <= width
    ensures ZeroPad(dv + [d], width + 1) == ZeroPad(dv, width) + [d]
  {
  }

  lemma DigitsSnoc(front: seq<nat>, d: nat, base: nat)
    requires base >= 2 && Value(front, base) >= 1 && d < base
    ensures Digits(Value(front + [d], base), base) == Digits(Value(front, base), base) + [d]
  {
    assert (front + [d])[..|front|] == front;
    DigitsStep(Value(front, base), d, base);
  }

  lemma DigitsStep(v: nat, d: nat, base: nat)
    requires base >= 2 && v >= 1 && d < base
    ensures Digits(v * base + d, base) == Digits(v, base) + [d]
  {
    var n := v * base + d;
    DivModUnique(v, d, base);
    MulMono(1, v, base);
    assert n >= base;
  }

  /** A number below base^w has at most w digits (w >= 1). */
  lemma {:induction false} DigitsLength(n: nat, base: nat, w: nat)
    requires base >= 2 && w >= 1 && n < Pow(base, w)
    ensures |Digits(n, base)| <= w
    decreases w
  {
    DivMod(n, base);
    assert Pow(base, 1) == base;
    if n >= base {
      assert w >= 2;
      var p := Pow(base, w - 1);
      assert Pow(base, w) == base * p;
      if n / base >= p {
        MulMono(p, n / base, base);
        assert false;
      }
      DigitsLength(n / base, base, w - 1);
    }
  }

  // Characters.

  /** The upper-case digit character for d: '0'..'9', then 'A'..'F'. */
  function DigitChar(d: nat): char
    requires d < 16
  {
    if d < 10 then '0' + d as char else 'A' + (d - 10) as char
  }

  /** The digit a character stands for, or 16 when it is no digit. */
  function CharDigit(c: char): (d: nat)
    ensures d <= 16
    ensures d < 16 ==> DigitChar(d) == c
  {
    if '0' <= c <= '9' then (c - '0') as nat
    else if 'A' <= c <= 'F' then (c - 'A') as nat + 10
    else 16
  }

  lemma CharDigitOfDigitChar(d: nat)
    requires d < 16
    ensures CharDigit(DigitChar(d)) == d
  {
  }

  predicate IsUpperHexDigit(c: char) {
    '0' <= c <= '9' || 'A' <= c <= 'F'
  }

  function Render(ds: seq<nat>): (s: string)
    requires AllBelow(ds, 16)
    ensures |s| == |ds| && forall i :: 0 <= i < |ds| ==> s[i] == DigitChar(ds[i])
    ensures forall i :: 0 <= i < |s| ==> IsUpperHexDigit(s[i])
  {
    seq(|ds|, i requires 0 <= i < |ds| => DigitChar(ds[i]))
  }

  /**
   * Python's `'{:0{width}<b|d|X>}'.format(n)`: the digits of |n|, zero-padded so that the whole
   * field (sign included) is at least width characters wide, upper-case letters for hex.
   */
  function FormatInt(n: int, base: nat, width: int): (s: string)
    requires 2 <= base <= 16
  {
    if n < 0 then "-" + Render(ZeroPad(Digits(-n, base), width - 1))
    else Render(ZeroPad(Digits(n, base), width))
  }

  /** Python's `int(s, base)` on a string of digits: None where Python raises ValueError. */
  function ParseInt(s: string, base: nat): (r: Option<nat>)
  {
    if s == [] || exists i :: 0 <= i < |s| && CharDigit(s[i]) >= base then None
    else Some(Value(seq(|s|, i requires 0 <= i < |s| => CharDigit(s[i])), base))
  }

  /** Parsing rendered digits gives back the number they denote. */
  lemma ParseRender(ds: seq<nat>, base: nat)
    requires 2 <= base <= 16 && |ds| >= 1 && AllBelow(ds, base)
    ensures ParseInt(Render(ds), base) == Some(Value(ds, base))
  {
    var s := Render(ds);
    forall i | 0 <= i < |s| ensures CharDigit(s[i]) == ds[i] {
      CharDigitOfDigitChar(ds[i]);
    }
    assert seq(|s|, i requires 0 <= i < |s| => CharDigit(s[i])) == ds;
  }

  /** Formatting a non-negative number and parsing it back gives the number. */
  lemma FormatParse(n: nat, base: nat, width: int)
    requires 2 <= base <= 16
    ensures ParseInt(FormatInt(n, base, width), base) == Some(n)
  {
    var ds := ZeroPad(Digits(n, base), width);
    assert FormatInt(n, base, width) == Render(ds);
    ParseRender(ds, base);
    ValueZeroPad(Digits(n, base), width, base);
    ValueOfDigits(n, base);
  }

  /** A formatted number is at least width characters long (and never empty). */
  lemma FormatLength(n: int, base: nat, width: int)
    requires 2 <= base <= 16
    ensures |FormatInt(n, base, width)| >= width && |FormatInt(n, base, width)| >= 1
  {
  }

  /** A non-negative number is formatted as upper-case digits only. */
  lemma FormatDigits(n: nat, base: nat, width: int)
    requires 2 <= base <= 16
    ensures forall i :: 0 <= i < |FormatInt(n, base, width)| ==>
      IsUpperHexDigit(FormatInt(n, base, width)[i])
  {
    PaddedDigitsBelow(Digits(n, base), width, base);
    assert FormatInt(n, base, width) == Render(ZeroPad(Digits(n, base), width));
  }

  /** A negative number is formatted as '-' and the digits of its magnitude, one column fewer. */
  lemma FormatNegative(n: int, base: nat, width: int)
    requires 2 <= base <= 16 && n < 0
    ensures FormatInt(n, base, width) == "-" + FormatInt(-n, base, width - 1)
  {
  }

  /** Python's `'{:d}'.format(n)`. */
  function Decimal(n: int): string {
    FormatInt(n, 10, 0)
  }
}
