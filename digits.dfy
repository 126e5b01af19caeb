/** Digit strings: the characters `rng.choice('0123456789')` returns, and how
    many distinct random bodies there are, `10 ** remaining_length`. The digit
    strings of length n are counted through their decimal value, which is
    injective and below 10^n, and `Encode` gives one body per value. */
module Digits {

  /** One value returned by `rng.choice('0123456789')`. */
  type Digit = c: char | '0' <= c <= '9' witness '0'

  predicate IsAsciiDigit(c: char) {
    '0' <= c <= '9'
  }

  predicate AllDigits(s: string) {
    forall i :: 0 <= i < |s| ==> IsAsciiDigit(s[i])
  }

  function Pow10(n: nat): (p: nat)
    ensures p >= 1
  {
    if n == 0 then 1 else 10 * Pow10(n - 1)
  }

  function DigitValue(c: char): (d: nat)
    requires IsAsciiDigit(c)
    ensures d < 10
  {
    (c as int) - ('0' as int)
  }

  function DigitChar(d: nat): (c: Digit)
    requires d < 10
    ensures DigitValue(c) == d
  {
    (('0' as int) + d) as char
  }

  /** The decimal value of a digit string, leading zeros allowed. */
  function Value(s: string): (v: nat)
    requires AllDigits(s)
    ensures v < Pow10(|s|)
  {
    if s == [] then 0 else 10 * Value(s[..|s| - 1]) + DigitValue(s[|s| - 1])
  }

  /** A number below 10 times a quotient plus a digit determines both. */
  lemma DigitSplit(a: nat, d: nat, b: nat, e: nat)
    requires d < 10 && e < 10 && 10 * a + d == 10 * b + e
    ensures a == b && d == e
  {
  }

  /** Two digit strings of the same length with the same value are equal. */
  lemma {:induction false} ValueInjective(s: string, t: string)
    requires AllDigits(s) && AllDigits(t) && |s| == |t|
    requires Value(s) == Value(t)
    ensures s == t
  {
    if s != [] {
      var n := |s| - 1;
      var s', t' := s[..n], t[..n];
      assert Value(s) == 10 * Value(s') + DigitValue(s[n]);
      assert Value(t) == 10 * Value(t') + DigitValue(t[n]);
      DigitSplit(Value(s'), DigitValue(s[n]), Value(t'), DigitValue(t[n]));
      ValueInjective(s', t');
      assert s == s' + [s[n]] && t == t' + [t[n]];
    }
  }

  /** `k` written with exactly `n` digits (zero-padded, taken modulo 10^n). */
  function Encode(k: nat, n: nat): (s: seq<Digit>)
    ensures |s| == n
  {
    if n == 0 then [] else Encode(k / 10, n - 1) + [DigitChar(k % 10)]
  }

  /** Encoding below 10^n loses nothing: decoding gives back `k`. */
  lemma {:induction false} EncodeValue(k: nat, n: nat)
    requires k < Pow10(n)
    ensures Value(Encode(k, n)) == k
  {
    if n > 0 {
      var s := Encode(k, n);
      var q, d := k / 10, k % 10;
      assert k == 10 * q + d;
      assert q < Pow10(n - 1) by {
        assert 10 * q <= k < 10 * Pow10(n - 1);
      }
      assert s[..n - 1] == Encode(q, n - 1);
      EncodeValue(q, n - 1);
      assert Value(s) == 10 * Value(s[..n - 1]) + DigitValue(s[n - 1]);
    }
  }

  /** Distinct values below 10^n have distinct encodings. */
  lemma EncodeInjective(j: nat, k: nat, n: nat)
    requires j < Pow10(n) && k < Pow10(n) && j != k
    ensures Encode(j, n) != Encode(k, n)
  {
    EncodeValue(j, n);
    EncodeValue(k, n);
  }

  /** A set of naturals below `m` has at most `m` elements. */
  lemma {:induction false} BelowCard(A: set<nat>, m: nat)
    requires forall x :: x in A ==> x < m
    ensures |A| <= m
  {
    if m > 0 {
      BelowCard(A - {m - 1}, m - 1);
    } else {
      assert A == {};
    }
  }

  /** Every string of `S` is `pre` followed by `n` digits. */
  ghost predicate PrefixedBodies(S: set<string>, pre: string, n: nat) {
    forall s :: s in S ==> |s| == |pre| + n && s[..|pre|] == pre && AllDigits(s[|pre|..])
  }

  ghost function Values(S: set<string>, p: nat): set<nat> {
    set s | s in S && p <= |s| && AllDigits(s[p..]) :: Value(s[p..])
  }

  /** Two different strings that share the prefix `pre` differ in the value of their digits. */
  lemma ValuesDiffer(x: string, y: string, pre: string, n: nat)
    requires |x| == |pre| + n && x[..|pre|] == pre && AllDigits(x[|pre|..])
    requires |y| == |pre| + n && y[..|pre|] == pre && AllDigits(y[|pre|..])
    requires x != y
    ensures Value(x[|pre|..]) != Value(y[|pre|..])
  {
    var p := |pre|;
    assert x == x[..p] + x[p..] && y == y[..p] + y[p..];
    if Value(x[p..]) == Value(y[p..]) {
      ValueInjective(x[p..], y[p..]);
    }
  }

  lemma {:induction false} ValuesCard(S: set<string>, pre: string, n: nat)
    requires PrefixedBodies(S, pre, n)
    ensures |Values(S, |pre|)| == |S|
    decreases S
  {
    var p := |pre|;
    if S != {} {
      var x :| x in S;
      var S' := S - {x};
      ValuesCard(S', pre, n);
      var v := Value(x[p..]);
      forall y | y in S'
        ensures Value(y[p..]) != v
      {
        ValuesDiffer(x, y, pre, n);
      }
      assert Values(S, p) == Values(S', p) + {v};
    } else {
      assert Values(S, p) == {};
    }
  }

  /** There are at most 10^n strings made of a fixed prefix and n digits. */
  lemma PrefixedBodiesBound(S: set<string>, pre: string, n: nat)
    requires PrefixedBodies(S, pre, n)
    ensures |S| <= Pow10(n)
  {
    ValuesCard(S, pre, n);
    BelowCard(Values(S, |pre|), Pow10(n));
  }
}
