/**
 Big-endian byte strings as numbers: the meaning of the loops in base/hosts.c
 that work on the 16 bytes of an IPv6 address.
 */
module Bytes {

  type byte = x: int | 0 <= x < 256

  function Pow2(n: nat): (r: nat)
    ensures r > 0
  {
    if n == 0 then 1 else 2 * Pow2(n - 1)
  }

  /** The number a byte string denotes, most significant byte first. */
  function Value(s: seq<byte>): nat {
    if s == [] then 0 else Value(s[..|s| - 1]) * 256 + s[|s| - 1]
  }

  /** Appending n zero bytes. */
  function Shift(a: nat, n: nat): nat {
    if n == 0 then a else 256 * Shift(a, n - 1)
  }

  lemma {:induction false} Pow2Plus8(n: nat)
    ensures Pow2(n + 8) == 256 * Pow2(n)
  {
    assert Pow2(n + 8) == 2 * Pow2(n + 7) == 4 * Pow2(n + 6) == 8 * Pow2(n + 5) == 16 * Pow2(n + 4);
    assert Pow2(n + 4) == 2 * Pow2(n + 3) == 4 * Pow2(n + 2) == 8 * Pow2(n + 1) == 16 * Pow2(n);
  }

  /** 256^n as a power of two. */
  lemma {:induction false} ShiftOne(n: nat)
    ensures Shift(1, n) == Pow2(8 * n)
  {
    if n > 0 {
      ShiftOne(n - 1);
      Pow2Plus8(8 * (n - 1));
    }
  }

  lemma {:induction false} ShiftSum(a: nat, b: nat, n: nat)
    ensures Shift(a + b, n) == Shift(a, n) + Shift(b, n)
  {
    if n > 0 {
      ShiftSum(a, b, n - 1);
    }
  }

  lemma {:induction false} ValueBound(s: seq<byte>)
    ensures Value(s) < Shift(1, |s|)
  {
    if s != [] {
      ValueBound(s[..|s| - 1]);
    }
  }

  /** The first k bytes and the rest. */
  lemma {:induction false} ValueSplit(s: seq<byte>, k: nat)
    requires k <= |s|
    ensures Value(s) == Shift(Value(s[..k]), |s| - k) + Value(s[k..])
    decreases |s|
  {
    if k == |s| {
      assert s[..k] == s && s[k..] == [];
    } else {
      var t := s[..|s| - 1];
      ValueSplit(t, k);
      assert t[..k] == s[..k];
      assert s[k..][..|s| - k - 1] == t[k..];
    }
  }

  lemma {:induction false} ValueZeros(s: seq<byte>)
    requires forall i :: 0 <= i < |s| ==> s[i] == 0
    ensures Value(s) == 0
  {
    if s != [] {
      ValueZeros(s[..|s| - 1]);
    }
  }

  lemma {:induction false} ValueOnes(s: seq<byte>)
    requires forall i :: 0 <= i < |s| ==> s[i] == 255
    ensures Value(s) == Shift(1, |s|) - 1
  {
    if s != [] {
      ValueOnes(s[..|s| - 1]);
    }
  }

  /** Byte strings of one length are ordered by their first difference. */
  lemma {:induction false} ValueOrder(s: seq<byte>, t: seq<byte>, k: nat)
    requires |s| == |t| && k < |s| && s[..k] == t[..k] && s[k] < t[k]
    ensures Value(s) < Value(t)
  {
    var n := |s| - k - 1;
    ValueSplit(s, k + 1);
    ValueSplit(t, k + 1);
    assert s[..k + 1][..k] == s[..k] && t[..k + 1][..k] == s[..k];
    ValueBound(s[k + 1..]);
    var a, b := Value(s[..k + 1]), Value(t[..k + 1]);
    ShiftSum(a, 1, n);
    ShiftSum(a + 1, b - a - 1, n);
  }

  lemma {:induction false} ValueInjective(s: seq<byte>, t: seq<byte>)
    requires |s| == |t| && Value(s) == Value(t)
    ensures s == t
  {
    if s != [] {
      ValueInjective(s[..|s| - 1], t[..|s| - 1]);
      assert s == s[..|s| - 1] + [s[|s| - 1]] && t == t[..|s| - 1] + [t[|s| - 1]];
    }
  }

  /** All bits are set. */
  predicate AllOnes(s: seq<byte>) {
    forall i :: 0 <= i < |s| ==> s[i] == 255
  }

  /** All ones is the greatest value. */
  lemma {:induction false} OnesIsLast(s: seq<byte>)
    ensures AllOnes(s) <==> Value(s) + 1 == Shift(1, |s|)
    ensures !AllOnes(s) ==> Value(s) + 1 < Shift(1, |s|)
  {
    ValueBound(s);
    var ones := seq(|s|, _ => 255);
    ValueOnes(ones);
    if AllOnes(s) {
      ValueOnes(s);
    } else if Value(s) == Value(ones) {
      ValueInjective(s, ones);
    }
  }

  // ------------------------------------------------------------ In-place loops

  /** memcmp of two buffers of one length. */
  method Memcmp(a: seq<byte>, b: seq<byte>) returns (r: int)
    requires |a| == |b|
    ensures r < 0 <==> Value(a) < Value(b)
    ensures r == 0 <==> a == b
    ensures r > 0 <==> Value(a) > Value(b)
  {
    var i := 0;
    while i < |a|
      invariant 0 <= i <= |a|
      invariant a[..i] == b[..i]
    {
      if a[i] != b[i] {
        if a[i] < b[i] {
          ValueOrder(a, b, i);
        } else {
          ValueOrder(b, a, i);
        }
        var x: int, y: int := a[i], b[i];
        return x - y;
      }
      i := i + 1;
    }
    assert a == a[..i] && b == b[..i];
    r := 0;
  }

  /** The carry loop: adds one, wrapping from all ones to zero. */
  method Increment(a: array<byte>)
    modifies a
    ensures Value(old(a[..])) + 1 < Shift(1, a.Length) ==> Value(a[..]) == Value(old(a[..])) + 1
    ensures Value(old(a[..])) + 1 == Shift(1, a.Length) ==> Value(a[..]) == 0
  {
    var i := a.Length - 1;
    while i >= 0
      invariant -1 <= i < a.Length
      invariant a[..i + 1] == old(a[..i + 1])
      invariant forall k :: i < k < a.Length ==> a[k] == 0 && old(a[k]) == 255
    {
      if a[i] < 255 {
        a[i] := a[i] + 1;
        CarryStops(old(a[..]), a[..], i);
        return;
      }
      a[i] := 0;
      i := i - 1;
    }
    ValueZeros(a[..]);
    ValueOnes(old(a[..]));
  }

  lemma {:induction false} CarryStops(s: seq<byte>, t: seq<byte>, i: nat)
    requires |s| == |t| && i < |s| && s[..i] == t[..i] && t[i] as int == s[i] as int + 1
    requires forall k :: i < k < |s| ==> s[k] == 255 && t[k] == 0
    ensures Value(t) == Value(s) + 1
    ensures Value(t) < Shift(1, |s|)
  {
    ValueSplit(s, i + 1);
    ValueSplit(t, i + 1);
    assert s[..i + 1][..i] == t[..i + 1][..i];
    ValueOnes(s[i + 1..]);
    ValueZeros(t[i + 1..]);
    ShiftSum(Value(s[..i + 1]), 1, |s| - i - 1);
    ValueBound(t);
  }

  /** The borrow loop: subtracts one, wrapping from zero to all ones. */
  method Decrement(a: array<byte>)
    modifies a
    ensures Value(old(a[..])) > 0 ==> Value(a[..]) == Value(old(a[..])) - 1
    ensures Value(old(a[..])) == 0 ==> Value(a[..]) == Shift(1, a.Length) - 1
  {
    var i := a.Length - 1;
    while i >= 0
      invariant -1 <= i < a.Length
      invariant a[..i + 1] == old(a[..i + 1])
      invariant forall k :: i < k < a.Length ==> a[k] == 255 && old(a[k]) == 0
    {
      if a[i] > 0 {
        a[i] := a[i] - 1;
        CarryStops(a[..], old(a[..]), i);
        return;
      }
      a[i] := 255;
      i := i - 1;
    }
    ValueZeros(old(a[..]));
    ValueOnes(a[..]);
  }
}
