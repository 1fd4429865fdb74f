/** Bit sequences as the codec stores them: vectors of bytes, each normally 0 or 1,
    read most significant bit first. */
module Bits {
  import opened Errors

  newtype byte = x: int | 0 <= x < 256

  /** Every element of s is a binary digit. */
  predicate IsBits(s: seq<byte>) {
    forall i :: 0 <= i < |s| ==> s[i] <= 1
  }

  function Pow2(k: nat): (r: nat)
    ensures r >= 1
  {
    if k == 0 then 1 else 2 * Pow2(k - 1)
  }

  function Max(a: nat, b: nat): nat {
    if a < b then b else a
  }

  function Zeros(k: nat): (r: seq<byte>)
    ensures |r| == k && IsBits(r)
  {
    seq(k, _ => 0)
  }

  /** The MSB-first binary value of s. */
  function Value(s: seq<byte>): nat {
    if s == [] then 0 else 2 * Value(s[..|s| - 1]) + s[|s| - 1] as int
  }

  /** The binary digits of n, most significant first, without leading zeros (none for 0). */
  function Digits(n: nat): seq<byte> {
    if n == 0 then [] else Digits(n / 2) + [(n % 2) as byte]
  }

  /** The number of binary digits of n: 0 for 0. */
  function BitLength(n: nat): nat {
    |Digits(n)|
  }

  /** The binary numeral that Rust's `{:b}` formatting produces: "0" for zero. */
  function Numeral(n: nat): seq<byte> {
    if n == 0 then [0] else Digits(n)
  }

  /** s preceded by as many zeros as make it k long (s itself when it is not shorter). */
  function PadLeft(s: seq<byte>, k: nat): (r: seq<byte>)
    ensures |r| == Max(k, |s|)
  {
    if |s| < k then Zeros(k - |s|) + s else s
  }

  /** Parsing a field of bits as a number: a field that is empty or holds a value other than
      0 or 1 is rejected, as `from_str_radix(_, 2)` rejects the empty string and other digits. */
  function ParseBits(s: seq<byte>): (r: Option<nat>)
    ensures r.Some? <==> |s| > 0 && IsBits(s)
    ensures r.Some? ==> r.value == Value(s)
  {
    if |s| > 0 && IsBits(s) then Some(Value(s)) else None
  }

  /** A concatenation is made of binary digits iff both parts are. */
  lemma IsBitsAppend(a: seq<byte>, b: seq<byte>)
    ensures IsBits(a + b) <==> IsBits(a) && IsBits(b)
  {
    if IsBits(a + b) {
      assert forall i :: 0 <= i < |a| ==> a[i] == (a + b)[i];
      assert forall i :: 0 <= i < |b| ==> b[i] == (a + b)[|a| + i];
    }
  }

  /** Padding binary digits with zeros keeps them binary digits. */
  lemma PadLeftBits(s: seq<byte>, k: nat)
    requires IsBits(s)
    ensures IsBits(PadLeft(s, k))
  {
    if |s| < k {
      IsBitsAppend(Zeros(k - |s|), s);
    }
  }

  lemma {:induction false} ValueAppend(a: seq<byte>, b: seq<byte>)
    ensures Value(a + b) == Value(a) * Pow2(|b|) + Value(b)
    decreases |b|
  {
    if b == [] {
      assert a + b == a;
    } else {
      var b' := b[..|b| - 1];
      var x := b[|b| - 1] as int;
      assert (a + b)[..|a + b| - 1] == a + b' && (a + b)[|a + b| - 1] as int == x;
      assert Value(a + b) == 2 * Value(a + b') + x;
      assert Value(b) == 2 * Value(b') + x;
      assert Pow2(|b|) == 2 * Pow2(|b'|);
      ValueAppend(a, b');
      Regroup(Value(a), Pow2(|b'|), Value(b'), x);
    }
  }

  lemma Regroup(va: int, p: int, vb: int, x: int)
    ensures 2 * (va * p + vb) + x == va * (2 * p) + (2 * vb + x)
  { }

  lemma {:induction false} ValueZeros(k: nat)
    ensures Value(Zeros(k)) == 0
  {
    if k > 0 {
      assert Zeros(k)[..k - 1] == Zeros(k - 1);
      ValueZeros(k - 1);
    }
  }

  /** Leading zeros do not change a value. */
  lemma ValuePadLeft(s: seq<byte>, k: nat)
    ensures Value(PadLeft(s, k)) == Value(s)
  {
    if |s| < k {
      ValueAppend(Zeros(k - |s|), s);
      ValueZeros(k - |s|);
    }
  }

  /** k binary digits hold a value below 2^k. */
  lemma {:induction false} ValueBound(s: seq<byte>)
    requires IsBits(s)
    ensures Value(s) < Pow2(|s|)
  {
    if s != [] {
      ValueBound(s[..|s| - 1]);
    }
  }

  /** Digits(n) is a binary numeral for n. */
  lemma {:induction false} DigitsValue(n: nat)
    ensures IsBits(Digits(n)) && Value(Digits(n)) == n
  {
    if n > 0 {
      DigitsValue(n / 2);
      assert Digits(n)[..|Digits(n)| - 1] == Digits(n / 2);
    }
  }

  /** n fits in k bits exactly when it has at most k binary digits. */
  lemma {:induction false} DigitsFit(n: nat, k: nat)
    ensures n < Pow2(k) <==> BitLength(n) <= k
  {
    if n > 0 && k > 0 {
      DigitsFit(n / 2, k - 1);
    }
  }

  /** The number of binary digits never decreases as the number grows. */
  lemma {:induction false} BitLengthMonotone(a: nat, b: nat)
    requires a <= b
    ensures BitLength(a) <= BitLength(b)
  {
    if a > 0 {
      BitLengthMonotone(a / 2, b / 2);
    }
  }

  /** Zero-padded binary numerals are unique: a bit field is the padded numeral of its value. */
  lemma {:induction false} DigitsOfValue(c: seq<byte>)
    requires IsBits(c)
    ensures PadLeft(Digits(Value(c)), |c|) == c
  {
    if c != [] {
      var c' := c[..|c| - 1];
      var x := c[|c| - 1];
      DigitsOfValue(c');
      ValueBound(c');
      DigitsFit(Value(c'), |c'|);
      assert c == c' + [x];
      if Value(c) == 0 {
        assert Value(c') == 0 && x == 0;
        assert c == Zeros(|c|);
      } else {
        assert Digits(Value(c)) == Digits(Value(c')) + [x];
      }
    }
  }

  /** Once padded to at least one bit, the `{:b}` numeral and the minimal digits agree. */
  lemma NumeralPadLeft(n: nat, k: nat)
    requires k >= 1
    ensures PadLeft(Numeral(n), k) == PadLeft(Digits(n), k)
  {
    if n == 0 {
      assert PadLeft([0], k) == Zeros(k);
    }
  }

  /** The digits of a number that fits in k bits, padded to k: exactly k bits with that value. */
  lemma PaddedDigits(n: nat, k: nat)
    requires n < Pow2(k)
    ensures |PadLeft(Digits(n), k)| == k
    ensures IsBits(PadLeft(Digits(n), k)) && Value(PadLeft(Digits(n), k)) == n
  {
    DigitsFit(n, k);
    DigitsValue(n);
    ValuePadLeft(Digits(n), k);
  }
}
