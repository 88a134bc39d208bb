/**
 * Keymaster key parameters: a 32-bit tag, an eight byte union and a blob.  The tag's top
 * nibble is its type, which says which of the fields carries the value.  The order and the
 * equality used by AuthorizationSet look only at that field.
 */
module KeyParameters {
  import opened Bytes

  datatype TagType =
    | INVALID | ENUM | ENUM_REP | UINT | UINT_REP | ULONG | DATE | BOOL | BIGNUM | BYTES | ULONG_REP
    | UNKNOWN // the nibbles 11 to 15, for which no enumerator exists

  type Tag = t: nat | t < LIMIT32

  const TAG_INVALID: Tag := 0

  function TypeFromTag(tag: Tag): TagType {
    match tag / 0x1000_0000
    case 0 => INVALID
    case 1 => ENUM
    case 2 => ENUM_REP
    case 3 => UINT
    case 4 => UINT_REP
    case 5 => ULONG
    case 6 => DATE
    case 7 => BOOL
    case 8 => BIGNUM
    case 9 => BYTES
    case 10 => ULONG_REP
    case _ => UNKNOWN
  }

  /** The eight bytes of the union; every member starts at its first byte. */
  type UnionBytes = s: seq<byte> | |s| == 8 witness Zeros(8)

  datatype KeyParameter = KeyParameter(tag: Tag, f: UnionBytes, blob: seq<byte>) {
    function Integer(): nat { LittleEndianValue(f[..4]) }
    function LongInteger(): nat { LittleEndianValue(f) }
  }

  /** What `std::vector<KeyParameter>::resize` fills new places with. */
  const DEFAULT_PARAMETER := KeyParameter(TAG_INVALID, Zeros(8), [])

  predicate IsInteger(t: TagType) { t == ENUM || t == ENUM_REP || t == UINT || t == UINT_REP }
  predicate IsLong(t: TagType) { t == ULONG || t == ULONG_REP || t == DATE }
  predicate IsBlob(t: TagType) { t == BIGNUM || t == BYTES }

  /** The sign of `memcmp` over the first `n` bytes. */
  function MemCmp(a: seq<byte>, b: seq<byte>, n: nat): (r: int)
    requires n <= |a| && n <= |b|
    decreases n
  {
    if n == 0 then 0
    else if a[0] != b[0] then (if a[0] < b[0] then -1 else 1)
    else MemCmp(a[1..], b[1..], n - 1)
  }

  predicate BlobLess(a: seq<byte>, b: seq<byte>) {
    if |a| == 0 then |b| != 0
    else if |b| == 0 then false
    else
      var r := MemCmp(a, b, if |a| < |b| then |a| else |b|);
      if r == 0 then |a| < |b| else r < 0
  }

  predicate BlobEqual(a: seq<byte>, b: seq<byte>) {
    |a| == |b| && (|a| == 0 || MemCmp(a, b, |a|) == 0)
  }

  predicate KeyParamLess(a: KeyParameter, b: KeyParameter) {
    if a.tag != b.tag then a.tag < b.tag
    else
      var t := TypeFromTag(a.tag);
      if IsInteger(t) then a.Integer() < b.Integer()
      else if IsLong(t) then a.LongInteger() < b.LongInteger()
      else if IsBlob(t) then BlobLess(a.blob, b.blob)
      else false
  }

  predicate KeyParamEqual(a: KeyParameter, b: KeyParameter) {
    && a.tag == b.tag
    && var t := TypeFromTag(a.tag);
      if t == INVALID || t == BOOL then true
      else if IsInteger(t) then a.Integer() == b.Integer()
      else if IsLong(t) then a.LongInteger() == b.LongInteger()
      else if IsBlob(t) then BlobEqual(a.blob, b.blob)
      else false
  }

  /** Neither parameter is less than the other. */
  predicate Tie(a: KeyParameter, b: KeyParameter) {
    !KeyParamLess(a, b) && !KeyParamLess(b, a)
  }

  predicate KnownType(p: KeyParameter) { TypeFromTag(p.tag) != UNKNOWN }

  lemma {:induction false} MemCmpProperties(a: seq<byte>, b: seq<byte>, n: nat)
    requires n <= |a| && n <= |b|
    ensures MemCmp(a, b, n) == 0 <==> a[..n] == b[..n]
    ensures MemCmp(a, b, n) == -MemCmp(b, a, n)
    decreases n
  {
    if n > 0 {
      MemCmpProperties(a[1..], b[1..], n - 1);
      assert a[..n] == [a[0]] + a[1..][..n - 1];
      assert b[..n] == [b[0]] + b[1..][..n - 1];
    }
  }

  lemma {:induction false} BlobOrder(a: seq<byte>, b: seq<byte>)
    ensures !(BlobLess(a, b) && BlobLess(b, a))
    ensures BlobEqual(a, b) <==> a == b
    ensures !BlobLess(a, b) && !BlobLess(b, a) <==> a == b
  {
    var n := if |a| < |b| then |a| else |b|;
    MemCmpProperties(a, b, n);
    if |a| == |b| {
      assert a[..n] == a && b[..n] == b;
    }
  }

  /** Dropping a shared first byte does not change the comparison. */
  lemma BlobLessTail(a: seq<byte>, b: seq<byte>)
    requires a != [] && b != []
    ensures BlobLess(a, b) <==> a[0] < b[0] || (a[0] == b[0] && BlobLess(a[1..], b[1..]))
  {
    if a[0] == b[0] && (|a| == 1 || |b| == 1) {
      assert MemCmp(a, b, 1) == MemCmp(a[1..], b[1..], 0) == 0;
    }
  }

  lemma {:induction false} BlobLessTransitive(a: seq<byte>, b: seq<byte>, c: seq<byte>)
    requires BlobLess(a, b) && BlobLess(b, c)
    ensures BlobLess(a, c)
  {
    if a != [] {
      BlobLessTail(a, b);
      BlobLessTail(b, c);
      BlobLessTail(a, c);
      if a[0] == b[0] == c[0] {
        BlobLessTransitive(a[1..], b[1..], c[1..]);
      }
    }
  }

  lemma LessTransitive(a: KeyParameter, b: KeyParameter, c: KeyParameter)
    requires KeyParamLess(a, b) && KeyParamLess(b, c)
    ensures KeyParamLess(a, c)
  {
    if a.tag == b.tag == c.tag && IsBlob(TypeFromTag(a.tag)) {
      BlobLessTransitive(a.blob, b.blob, c.blob);
    }
  }

  lemma LessAsymmetric(a: KeyParameter, b: KeyParameter)
    ensures !(KeyParamLess(a, b) && KeyParamLess(b, a))
  {
    BlobOrder(a.blob, b.blob);
  }

  /** On every type that has an enumerator, ties are exactly the equal parameters; on the others
      everything with the same tag ties and nothing is equal, not even to itself. */
  lemma TieIsEqual(a: KeyParameter, b: KeyParameter)
    ensures KnownType(a) ==> (Tie(a, b) <==> KeyParamEqual(a, b))
    ensures !KnownType(a) ==> !KeyParamEqual(a, b) && (Tie(a, b) <==> a.tag == b.tag)
  {
    BlobOrder(a.blob, b.blob);
  }

  // ----- the bytes compared

  /** The two values are the same bytes of the same tag: by the number of the type, none, the first four
      bytes of the union, all eight, or the blob; types without an enumerator never compare equal. */
  predicate SameField(p: KeyParameter, q: KeyParameter) {
    && p.tag == q.tag
    && var number := p.tag / 0x1000_0000;
      if number == 0 || number == 7 then true
      else if 1 <= number <= 4 then p.f[..4] == q.f[..4]
      else if number == 5 || number == 6 || number == 10 then p.f == q.f
      else if number == 8 || number == 9 then p.blob == q.blob
      else false
  }

  lemma EqualExactly(p: KeyParameter, q: KeyParameter)
    ensures KeyParamEqual(p, q) <==> SameField(p, q)
  {
    LittleEndianLess(p.f[..4], q.f[..4]);
    LittleEndianLess(p.f, q.f);
    BlobOrder(p.blob, q.blob);
  }

  /** Lexicographic order of blobs. */
  ghost predicate BlobBelow(a: seq<byte>, b: seq<byte>) {
    exists k :: 0 <= k <= |a| && k < |b| && a[..k] == b[..k] && (k == |a| || a[k] < b[k])
  }

  lemma {:induction false} BlobLessExactly(a: seq<byte>, b: seq<byte>)
    ensures BlobLess(a, b) <==> BlobBelow(a, b)
  {
    if a == [] || b == [] {
      if a == [] && b != [] {
        assert a[..0] == b[..0];
      }
    } else {
      BlobLessTail(a, b);
      BlobLessExactly(a[1..], b[1..]);
      BlobBelowTail(a, b);
    }
  }

  lemma BlobBelowTail(a: seq<byte>, b: seq<byte>)
    requires a != [] && b != []
    ensures BlobBelow(a, b) <==> a[0] < b[0] || (a[0] == b[0] && BlobBelow(a[1..], b[1..]))
  {
    hide BlobBelow;
    if BlobBelow(a, b) {
      TailIsBelow(a, b);
    }
    if a[0] < b[0] || (a[0] == b[0] && BlobBelow(a[1..], b[1..])) {
      BelowByTail(a, b);
    }
  }

  lemma TailIsBelow(a: seq<byte>, b: seq<byte>)
    requires a != [] && b != [] && BlobBelow(a, b)
    ensures a[0] < b[0] || (a[0] == b[0] && BlobBelow(a[1..], b[1..]))
  {
    var k :| 0 <= k <= |a| && k < |b| && a[..k] == b[..k] && (k == |a| || a[k] < b[k]);
    if k > 0 {
      assert a[..k][0] == b[..k][0];
      assert a[1..][..k - 1] == a[..k][1..] == b[..k][1..] == b[1..][..k - 1];
    }
  }

  lemma BelowByTail(a: seq<byte>, b: seq<byte>)
    requires a != [] && b != []
    requires a[0] < b[0] || (a[0] == b[0] && BlobBelow(a[1..], b[1..]))
    ensures BlobBelow(a, b)
  {
    var x, y := a[1..], b[1..];
    assert a[..0] == b[..0];
    if a[0] == b[0] {
      var k :| 0 <= k <= |x| && k < |y| && x[..k] == y[..k] && (k == |x| || x[k] < y[k]);
      assert a[..k + 1] == [a[0]] + x[..k] == [b[0]] + y[..k] == b[..k + 1];
    }
  }

  /** The order is by tag, then by the highest byte in which the values differ, or lexicographic. */
  lemma LessExactly(p: KeyParameter, q: KeyParameter)
    ensures p.tag != q.tag ==> (KeyParamLess(p, q) <==> p.tag < q.tag)
    ensures var number := p.tag / 0x1000_0000;
      p.tag == q.tag ==>
        (KeyParamLess(p, q) <==>
           || (1 <= number <= 4 && HighestByteLess(p.f[..4], q.f[..4]))
           || ((number == 5 || number == 6 || number == 10) && HighestByteLess(p.f, q.f))
           || ((number == 8 || number == 9) && BlobBelow(p.blob, q.blob)))
  {
    hide HighestByteLess, BlobBelow, LittleEndianValue, BlobLess;
    LittleEndianLess(p.f[..4], q.f[..4]);
    LittleEndianLess(p.f, q.f);
    BlobLessExactly(p.blob, q.blob);
  }

  lemma TieTags(a: KeyParameter, b: KeyParameter)
    ensures Tie(a, b) ==> a.tag == b.tag
    ensures a.tag == b.tag == TAG_INVALID ==> Tie(a, b)
    ensures Tie(a, a)
  {
    BlobOrder(a.blob, a.blob);
  }

  lemma TieTransitive(a: KeyParameter, b: KeyParameter, c: KeyParameter)
    requires Tie(a, b) && Tie(b, c)
    ensures Tie(a, c)
  {
    BlobOrder(a.blob, b.blob);
    BlobOrder(b.blob, c.blob);
    BlobOrder(a.blob, c.blob);
  }

  /** The order treats tied parameters alike. */
  lemma LessRespectsTie(a: KeyParameter, b: KeyParameter, c: KeyParameter)
    requires Tie(a, b)
    ensures KeyParamLess(a, c) <==> KeyParamLess(b, c)
    ensures KeyParamLess(c, a) <==> KeyParamLess(c, b)
  {
    BlobOrder(a.blob, b.blob);
    BlobOrder(b.blob, c.blob);
    BlobOrder(a.blob, c.blob);
  }

  /** `keyParamLess` is a strict weak order on all parameters, and on known types its ties are the
      equality that Deduplicate and Subtract test. */
  lemma StrictWeakOrder(a: KeyParameter, b: KeyParameter, c: KeyParameter)
    ensures !KeyParamLess(a, a)
    ensures KeyParamLess(a, b) ==> !KeyParamLess(b, a)
    ensures KeyParamLess(a, b) && KeyParamLess(b, c) ==> KeyParamLess(a, c)
    ensures Tie(a, b) && Tie(b, c) ==> Tie(a, c)
    ensures KnownType(a) ==> (Tie(a, b) <==> KeyParamEqual(a, b))
  {
    LessAsymmetric(a, a);
    LessAsymmetric(a, b);
    TieIsEqual(a, b);
    if KeyParamLess(a, b) && KeyParamLess(b, c) {
      LessTransitive(a, b, c);
    }
    if Tie(a, b) && Tie(b, c) {
      TieTransitive(a, b, c);
    }
  }
}
