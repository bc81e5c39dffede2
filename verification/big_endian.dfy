/**
  Unsigned big-endian byte strings, the representation Go's `big.Int.Bytes()`
  produces: the minimal big-endian form of the magnitude, empty for zero.
 */
module BigEndian {

  /** One octet. */
  type Byte = b: int | 0 <= b < 256

  /** `k` zero bytes, what Go's `make([]byte, k)` yields. */
  function Zeros(k: nat): (r: seq<Byte>)
    ensures |r| == k
    ensures forall i :: 0 <= i < k ==> r[i] == 0
  {
    seq(k, _ => 0)
  }

  /** Every byte of `s` is zero. */
  predicate IsZeros(s: seq<Byte>) {
    forall i :: 0 <= i < |s| ==> s[i] == 0
  }

  /** No redundant leading zero byte: the shape of a `big.Int.Bytes()` result. */
  predicate Minimal(s: seq<Byte>) {
    |s| == 0 || s[0] != 0
  }

  /** 256^k, the number of values that fit in `k` bytes. */
  function Pow256(k: nat): (r: nat)
    ensures r >= 1
  {
    if k == 0 then 1 else 256 * Pow256(k - 1)
  }

  /** The value of a big-endian byte string (leading zeros allowed). */
  function FromBytes(s: seq<Byte>): nat {
    if |s| == 0 then 0 else FromBytes(s[..|s| - 1]) * 256 + s[|s| - 1]
  }

  /**
    The minimal big-endian bytes of `n`, as `big.Int.Bytes()` returns them
    for a non-negative value.
   */
  function ToBytes(n: nat): (r: seq<Byte>)
    ensures FromBytes(r) == n
    ensures Minimal(r)
    ensures n == 0 <==> |r| == 0
  {
    if n == 0 then [] else
      var hi := ToBytes(n / 256);
      var r := hi + [n % 256];
      assert r[..|r| - 1] == hi;
      r
  }

  /** The magnitude of an integer: `big.Int.Bytes()` ignores the sign. */
  function Abs(x: int): nat {
    if x < 0 then -x else x
  }

  /** A byte string of length `k` holds a value below 256^k. */
  lemma {:induction false} FromBytesBound(s: seq<Byte>)
    ensures FromBytes(s) < Pow256(|s|)
  {
    if |s| > 0 {
      FromBytesBound(s[..|s| - 1]);
    }
  }

  /** A minimal non-empty byte string of length `k` holds a value of at least 256^(k-1). */
  lemma {:induction false} MinimalLowerBound(s: seq<Byte>)
    requires |s| > 0 && s[0] != 0
    ensures FromBytes(s) >= Pow256(|s| - 1)
  {
    if |s| > 1 {
      var p := s[..|s| - 1];
      assert p[0] == s[0];
      MinimalLowerBound(p);
    }
  }

  /**
    The minimal form of `n` fits in `k` bytes exactly when `n < 256^k`: this
    is the condition under which the gas-limit field does not overflow.
   */
  lemma ToBytesFits(n: nat, k: nat)
    ensures |ToBytes(n)| <= k <==> n < Pow256(k)
  {
    var r := ToBytes(n);
    FromBytesBound(r);
    if |r| > 0 {
      MinimalLowerBound(r);
    }
    if |r| <= k {
      PowMonotone(|r|, k);
    } else {
      PowMonotone(k, |r| - 1);
    }
  }

  lemma {:induction false} PowMonotone(i: nat, j: nat)
    requires i <= j
    ensures Pow256(i) <= Pow256(j)
  {
    if i < j {
      PowMonotone(i, j - 1);
    }
  }

  /** Left zero-padding does not change the value read back. */
  lemma {:induction false} FromBytesPadded(k: nat, s: seq<Byte>)
    ensures FromBytes(Zeros(k) + s) == FromBytes(s)
  {
    if |s| == 0 {
      assert Zeros(k) + s == Zeros(k);
      FromBytesZeros(k);
    } else {
      var t := Zeros(k) + s;
      assert t[..|t| - 1] == Zeros(k) + s[..|s| - 1];
      FromBytesPadded(k, s[..|s| - 1]);
    }
  }

  lemma {:induction false} FromBytesZeros(k: nat)
    ensures FromBytes(Zeros(k)) == 0
  {
    if k > 0 {
      assert Zeros(k)[..k - 1] == Zeros(k - 1);
      FromBytesZeros(k - 1);
    }
  }

  /** A minimal byte string is the only minimal encoding of its value. */
  lemma {:induction false} ToBytesFromBytes(s: seq<Byte>)
    requires Minimal(s)
    ensures ToBytes(FromBytes(s)) == s
  {
    if |s| > 0 {
      var p := s[..|s| - 1];
      var d := s[|s| - 1];
      var v := FromBytes(s);
      MinimalLowerBound(s);
      assert v > 0;
      assert v / 256 == FromBytes(p) && v % 256 == d by {
        DivModByte(FromBytes(p), d);
      }
      if |p| > 0 {
        assert p[0] == s[0];
      }
      ToBytesFromBytes(p);
      assert s == p + [d];
    }
  }

  lemma DivModByte(q: nat, d: Byte)
    ensures (q * 256 + d) / 256 == q
    ensures (q * 256 + d) % 256 == d
  {
  }

  /**
    Any byte string is its value's minimal form padded on the left with
    zeros back to its own length; so re-encoding a decoded field at the same
    width reproduces it.
   */
  lemma {:induction false} PaddedToBytes(t: seq<Byte>)
    ensures |ToBytes(FromBytes(t))| <= |t|
    ensures Zeros(|t| - |ToBytes(FromBytes(t))|) + ToBytes(FromBytes(t)) == t
  {
    if |t| == 0 {
    } else if t[0] == 0 {
      var u := t[1..];
      assert t == Zeros(1) + u;
      FromBytesPadded(1, u);
      PaddedToBytes(u);
      var m := ToBytes(FromBytes(u));
      assert Zeros(|t| - |m|) == Zeros(1) + Zeros(|u| - |m|);
    } else {
      ToBytesFromBytes(t);
      assert Zeros(0) + t == t;
    }
  }

  /**
    The loop form of `big.Int.Bytes()` on a non-negative value, as Go's
    `nat.bytes` computes it: fill the buffer from its low end one byte at a
    time, leaving no leading zero. Proved equal to the recursive `ToBytes`.
   */
  method MinimalBytes(n: nat) returns (r: seq<Byte>)
    ensures FromBytes(r) == n
    ensures Minimal(r)
    ensures r == ToBytes(n)
  {
    r := [];
    var m := n;
    while m > 0
      invariant ToBytes(m) + r == ToBytes(n)
      decreases m
    {
      var hi := ToBytes(m / 256);
      assert ToBytes(m) == hi + [m % 256];
      r := [m % 256] + r;
      m := m / 256;
    }
    assert ToBytes(m) == [];
    assert r == ToBytes(n);
  }
}
