/** Bytes and fixed-width integers, shared by every binary format in the project. */
module Bytes {

  type byte = x: int | 0 <= x < 256

  /** One more than the largest value of a `uint32_t`. */
  const LIMIT32: nat := 0x1_0000_0000

  /** One more than the largest value of a `uint64_t`. */
  const LIMIT64: nat := 0x1_0000_0000_0000_0000

  type uint32 = x: nat | x < LIMIT32
  type uint64 = x: nat | x < LIMIT64

  function Pow256(n: nat): (p: nat)
    ensures p > 0
  {
    if n == 0 then 1 else 256 * Pow256(n - 1)
  }

  /** The low `n` bytes of `v`, least significant first. */
  function LittleEndian(v: nat, n: nat): (s: seq<byte>)
    ensures |s| == n
  {
    if n == 0 then [] else [v % 256] + LittleEndian(v / 256, n - 1)
  }

  /** The number whose bytes are `s`, least significant first. */
  function LittleEndianValue(s: seq<byte>): nat {
    if s == [] then 0 else s[0] + 256 * LittleEndianValue(s[1..])
  }

  function Zeros(n: nat): (s: seq<byte>)
    ensures |s| == n
  {
    seq(n, i => 0)
  }

  lemma {:induction false} ValueOfLittleEndian(v: nat, n: nat)
    requires v < Pow256(n)
    ensures LittleEndianValue(LittleEndian(v, n)) == v
  {
    if n > 0 {
      ValueOfLittleEndian(v / 256, n - 1);
      assert LittleEndian(v, n)[1..] == LittleEndian(v / 256, n - 1);
    }
  }

  lemma {:induction false} ValueBounded(s: seq<byte>)
    ensures LittleEndianValue(s) < Pow256(|s|)
  {
    if s != [] {
      ValueBounded(s[1..]);
    }
  }

  lemma {:induction false} LittleEndianOfValue(s: seq<byte>)
    ensures LittleEndian(LittleEndianValue(s), |s|) == s
  {
    if s != [] {
      LittleEndianOfValue(s[1..]);
      ValueParts(s);
      assert s == [s[0]] + s[1..];
    }
  }

  lemma ValueParts(s: seq<byte>)
    requires s != []
    ensures LittleEndianValue(s) % 256 == s[0] && LittleEndianValue(s) / 256 == LittleEndianValue(s[1..])
  {
  }

  // ----- the bytes themselves

  lemma LittleEndianBytes(v: nat)
    ensures LittleEndian(v, 4) == [v % 0x100, v / 0x100 % 0x100, v / 0x1_0000 % 0x100, v / 0x100_0000 % 0x100]
    ensures LittleEndian(v, 8) == LittleEndian(v, 4) + LittleEndian(v / 0x1_0000_0000, 4)
  {
    hide LittleEndian;
    FourBytes(v, 0);
    FourBytes(v, 4);
    assert LittleEndian(v / 0x1_0000_0000, 0) == [];
  }

  lemma FourBytes(v: nat, n: nat)
    ensures LittleEndian(v, n + 4) ==
      [v % 0x100, v / 0x100 % 0x100, v / 0x1_0000 % 0x100, v / 0x100_0000 % 0x100] + LittleEndian(v / 0x1_0000_0000, n)
  {
    hide LittleEndian;
    OneByte(v, n + 3);
    OneByte(v / 0x100, n + 2);
    OneByte(v / 0x1_0000, n + 1);
    OneByte(v / 0x100_0000, n);
    assert v / 0x100 / 0x100 == v / 0x1_0000 && v / 0x1_0000 / 0x100 == v / 0x100_0000;
    assert v / 0x100_0000 / 0x100 == v / 0x1_0000_0000;
  }

  lemma OneByte(v: nat, n: nat)
    ensures LittleEndian(v, n + 1) == [v % 0x100] + LittleEndian(v / 0x100, n)
  {
  }

  lemma LittleEndianWord(s: seq<byte>)
    requires |s| == 4
    ensures var a: nat, b: nat, c: nat, d: nat := s[0], s[1], s[2], s[3];
      LittleEndianValue(s) == a + 0x100 * b + 0x1_0000 * c + 0x100_0000 * d
  {
    var a: nat, b: nat, c: nat, d: nat := s[0], s[1], s[2], s[3];
    assert s[1..][1..] == s[2..] && s[2..][1..] == s[3..] && s[3..][1..] == [];
    assert LittleEndianValue(s[3..]) == d;
    assert LittleEndianValue(s[2..]) == c + 0x100 * d;
    assert LittleEndianValue(s[1..]) == b + 0x100 * c + 0x1_0000 * d;
  }

  /** The numbers differ as their bytes do in the highest place where these differ. */
  ghost predicate HighestByteLess(a: seq<byte>, b: seq<byte>)
    requires |a| == |b|
  {
    exists k :: 0 <= k < |a| && a[k] < b[k] && forall j :: k < j < |a| ==> a[j] == b[j]
  }

  lemma {:induction false} LittleEndianLess(a: seq<byte>, b: seq<byte>)
    requires |a| == |b|
    ensures LittleEndianValue(a) < LittleEndianValue(b) <==> HighestByteLess(a, b)
    ensures LittleEndianValue(a) == LittleEndianValue(b) <==> a == b
  {
    LittleEndianOfValue(a);
    LittleEndianOfValue(b);
    if a != [] {
      LittleEndianLess(a[1..], b[1..]);
      HighestByteTail(a, b);
    }
  }

  lemma HighestByteTail(a: seq<byte>, b: seq<byte>)
    requires |a| == |b| > 0
    ensures HighestByteLess(a, b) <==> HighestByteLess(a[1..], b[1..]) || (a[1..] == b[1..] && a[0] < b[0])
  {
    var x, y := a[1..], b[1..];
    assert forall j :: 0 < j < |a| ==> a[j] == x[j - 1] && b[j] == y[j - 1];
    if HighestByteLess(x, y) {
      var k :| 0 <= k < |x| && x[k] < y[k] && forall j :: k < j < |x| ==> x[j] == y[j];
      assert a[k + 1] < b[k + 1];
    }
    if HighestByteLess(a, b) {
      var k :| 0 <= k < |a| && a[k] < b[k] && forall j :: k < j < |a| ==> a[j] == b[j];
      if k > 0 {
        assert x[k - 1] < y[k - 1];
      } else {
        assert x == y;
      }
    }
  }

  /** Network order is the reverse. */
  lemma BigEndianWord(v: nat)
    ensures BigEndian(v, 4) == [v / 0x100_0000 % 0x100, v / 0x1_0000 % 0x100, v / 0x100 % 0x100, v % 0x100]
    ensures BigEndian(v, 8) == BigEndian(v / 0x1_0000_0000, 4) + BigEndian(v, 4)
  {
    LittleEndianBytes(v);
    var a: byte, b: byte, c: byte, d: byte := v % 0x100, v / 0x100 % 0x100, v / 0x1_0000 % 0x100, v / 0x100_0000 % 0x100;
    ReverseFour(a, b, c, d);
    ReverseConcat(LittleEndian(v, 4), LittleEndian(v / 0x1_0000_0000, 4));
  }

  lemma BigEndianShort(v: nat)
    ensures BigEndian(v, 0) == [] && BigEndian(v, 1) == [v % 0x100]
    ensures BigEndian(v, 2) == [v / 0x100 % 0x100, v % 0x100]
  {
    OneByte(v, 0);
    OneByte(v, 1);
    OneByte(v / 0x100, 0);
    var a: byte, b: byte := v % 0x100, v / 0x100 % 0x100;
    assert LittleEndian(v, 2) == [a, b] && [a, b][1..] == [b];
    assert Reverse([b]) == [b] && Reverse([a]) == [a];
  }

  lemma ReverseFour(a: byte, b: byte, c: byte, d: byte)
    ensures Reverse([a, b, c, d]) == [d, c, b, a]
  {
    assert [a, b, c, d][1..] == [b, c, d] && [b, c, d][1..] == [c, d] && [c, d][1..] == [d];
    assert Reverse([d]) == [d];
    assert Reverse([c, d]) == [d, c];
    assert Reverse([b, c, d]) == [d, c, b];
  }

  lemma {:induction false} ReverseConcat(s: seq<byte>, t: seq<byte>)
    ensures Reverse(s + t) == Reverse(t) + Reverse(s)
  {
    if s == [] {
      assert s + t == t && Reverse(t) + [] == Reverse(t);
    } else {
      ReverseConcat(s[1..], t);
      assert (s + t)[1..] == s[1..] + t;
    }
  }

  lemma Powers()
    ensures Pow256(1) == 256 && Pow256(2) == 0x1_0000
    ensures Pow256(4) == LIMIT32
    ensures Pow256(8) == LIMIT64
  {
    assert Pow256(3) == 0x100_0000;
    assert Pow256(6) == 0x1_0000_0000_0000;
  }

  /** Reading a `uint32_t` back from its four native bytes. */
  lemma Uint32RoundTrip(v: nat)
    requires v < LIMIT32
    ensures LittleEndianValue(LittleEndian(v, 4)) == v
  {
    Powers();
    ValueOfLittleEndian(v, 4);
  }

  lemma Uint32Bounded(s: seq<byte>)
    requires |s| == 4
    ensures LittleEndianValue(s) < LIMIT32
  {
    Powers();
    ValueBounded(s);
  }

  function Reverse(s: seq<byte>): (r: seq<byte>)
    ensures |r| == |s|
  {
    if s == [] then [] else Reverse(s[1..]) + [s[0]]
  }

  lemma {:induction false} ReverseSnoc(s: seq<byte>, x: byte)
    ensures Reverse(s + [x]) == [x] + Reverse(s)
  {
    if s != [] {
      ReverseSnoc(s[1..], x);
      assert (s + [x])[1..] == s[1..] + [x];
    }
  }

  lemma {:induction false} ReverseTwice(s: seq<byte>)
    ensures Reverse(Reverse(s)) == s
  {
    if s != [] {
      ReverseTwice(s[1..]);
      ReverseSnoc(Reverse(s[1..]), s[0]);
    }
  }

  /** The low `n` bytes of `v`, most significant first: network order. */
  function BigEndian(v: nat, n: nat): (s: seq<byte>)
    ensures |s| == n
  {
    Reverse(LittleEndian(v, n))
  }

  function BigEndianValue(s: seq<byte>): nat {
    LittleEndianValue(Reverse(s))
  }

  lemma ValueOfBigEndian(v: nat, n: nat)
    requires v < Pow256(n)
    ensures BigEndianValue(BigEndian(v, n)) == v
  {
    ReverseTwice(LittleEndian(v, n));
    ValueOfLittleEndian(v, n);
  }

  lemma BigEndianOfValue(s: seq<byte>)
    ensures BigEndian(BigEndianValue(s), |s|) == s
    ensures BigEndianValue(s) < Pow256(|s|)
  {
    ReverseTwice(s);
    LittleEndianOfValue(Reverse(s));
    ValueBounded(Reverse(s));
  }
}
