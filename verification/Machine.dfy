/** Bytes, fixed-width words and little-endian memory layout, shared by every component. */
module Machine {
  type byte = b: int | 0 <= b < 0x100
  type word = w: int | 0 <= w < 0x1_0000
  type u32 = v: int | 0 <= v < 0x1_0000_0000
  type u64 = v: int | 0 <= v < 0x1_0000_0000_0000_0000

  datatype Option<+T> = None | Some(value: T)

  /** What a store of new values from position at on leaves in a sequence. */
  function Patch<T>(s: seq<T>, at: nat, values: seq<T>): (r: seq<T>)
    requires at + |values| <= |s|
    ensures |r| == |s|
  {
    s[..at] + values + s[at + |values|..]
  }

  lemma Associative<T>(a: seq<T>, b: seq<T>, c: seq<T>)
    ensures a + (b + c) == a + b + c
  {
  }

  lemma SliceOfSlice<T>(s: seq<T>, at: nat, n: nat, i: nat, j: nat)
    requires at + n <= |s| && i <= j <= n
    ensures s[at..at + n][i..j] == s[at + i..at + j]
    ensures i < n ==> s[at..at + n][i] == s[at + i]
  {
    var t := s[at..at + n];
    assert forall k :: 0 <= k < n ==> t[k] == s[at + k];
    assert forall k :: 0 <= k < j - i ==> t[i..j][k] == t[i + k] == s[at + i..at + j][k];
  }

  /** The number of values n bytes can hold. */
  function Pow256(n: nat): (p: nat)
    ensures p > 0
  {
    if n == 0 then 1 else 256 * Pow256(n - 1)
  }

  lemma Pow256Values()
    ensures Pow256(2) == 0x1_0000
    ensures Pow256(4) == 0x1_0000_0000
    ensures Pow256(8) == 0x1_0000_0000_0000_0000
  {
    assert Pow256(4) == 0x1_0000_0000;
    assert Pow256(6) == 0x1_0000_0000_0000;
  }

  /** The value of a little-endian byte sequence. */
  function FromBytes(b: seq<byte>): nat {
    if b == [] then 0 else b[0] + 256 * FromBytes(b[1..])
  }

  /** The n low bytes of v, least significant first. */
  function ToBytes(v: nat, n: nat): (b: seq<byte>)
    ensures |b| == n
  {
    if n == 0 then [] else [v % 256] + ToBytes(v / 256, n - 1)
  }

  lemma {:induction false} FromToBytes(v: nat, n: nat)
    ensures FromBytes(ToBytes(v, n)) == v % Pow256(n)
  {
    if n > 0 {
      FromToBytes(v / 256, n - 1);
      var b := ToBytes(v, n);
      assert b[1..] == ToBytes(v / 256, n - 1);
      ModSplit(v, Pow256(n - 1));
    }
  }

  lemma {:induction false} ToFromBytes(b: seq<byte>)
    ensures ToBytes(FromBytes(b), |b|) == b
    ensures FromBytes(b) < Pow256(|b|)
  {
    if b != [] {
      ToFromBytes(b[1..]);
      var v := FromBytes(b);
      assert v % 256 == b[0] && v / 256 == FromBytes(b[1..]);
      assert [b[0]] + b[1..] == b;
    }
  }

  /** Byte i of the layout is digit i of the value, the least significant first. */
  lemma {:induction false} ByteOf(v: nat, n: nat, i: nat)
    requires i < n
    ensures ToBytes(v, n)[i] == v / Pow256(i) % 256
    decreases i
  {
    if i > 0 {
      ByteOf(v / 256, n - 1, i - 1);
      ModSplit(v, Pow256(i - 1));
    }
  }

  lemma ModSplit(v: nat, p: nat)
    requires p > 0
    ensures v % 256 + 256 * ((v / 256) % p) == v % (256 * p)
    ensures v / 256 / p == v / (256 * p)
  {
    var q, r := v / 256 / p, (v / 256) % p;
    assert v / 256 == q * p + r;
    var low := v % 256 + 256 * r;
    assert v == (256 * p) * q + low by {
      assert v == 256 * (v / 256) + v % 256;
      assert 256 * (q * p) == (256 * p) * q;
    }
    assert r <= p - 1;
    assert 0 <= low < 256 * p;
    RemainderUnique(v, 256 * p, q, low);
  }

  lemma RemainderUnique(v: int, d: nat, q: int, r: int)
    requires d > 0 && 0 <= r < d && v == d * q + r
    ensures v % d == r && v / d == q
  {
    DivisionLaw(v, d);
    var k := v / d - q;
    assert d * k == r - v % d by { assert d * k == d * (v / d) - d * q; }
    MultipleIsFar(d, k);
  }

  lemma DivisionLaw(v: int, d: nat)
    requires d > 0
    ensures v == d * (v / d) + v % d && 0 <= v % d < d
  {
  }

  lemma {:induction false} MultipleIsFar(d: int, k: int)
    requires d > 0
    ensures k > 0 ==> d * k >= d
    ensures k < 0 ==> d * k <= -d
    decreases if k < 0 then -k else k
  {
    if k > 1 {
      MultipleIsFar(d, k - 1);
      assert d * k == d * (k - 1) + d;
    } else if k < -1 {
      MultipleIsFar(d, k + 1);
      assert d * k == d * (k + 1) - d;
    }
  }

  /** Single-bit register operations; m is a power of two. */
  predicate TestBit(s: byte, m: byte)
    requires m > 0
  {
    (s / m) % 2 == 1
  }

  function SetBit(s: byte, m: byte): byte
    requires m in {1, 2, 4, 8, 16, 32, 64, 128}
  {
    if TestBit(s, m) then s else s + m
  }

  function ClearBit(s: byte, m: byte): byte
    requires m in {1, 2, 4, 8, 16, 32, 64, 128}
  {
    if TestBit(s, m) then s - m else s
  }
}
