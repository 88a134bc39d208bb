/**
 * The persistent format of an AuthorizationSet: a 32-bit size and the bytes of all blobs, then the
 * element count, the size of the elements and the elements themselves.  A blob element holds the
 * length of the blob and its offset in the first region.
 */
module ParamStreams {
  import opened Bytes
  import opened KeyParameters

  /** The tags listed in `all_tags_t`. */
  predicate InAllTags(tag: Tag) {
    || tag == TAG_INVALID
    || tag in {0x1000_0002, 0x1000_000A, 0x1000_012D, 0x1000_0130, 0x1000_01F8, 0x1000_02BE} // ENUM
    || tag in {0x2000_0001, 0x2000_0004, 0x2000_0005, 0x2000_0006} // ENUM_REP
    || tag in {0x3000_0003, 0x3000_0008, 0x3000_0193, 0x3000_0194, 0x3000_01F5, 0x3000_01F9,
               0x3000_02C1, 0x3000_02C2, 0x3000_02CE, 0x3000_02CF, 0x3000_03EB} // UINT
    || tag == 0x5000_00C8 // ULONG
    || tag in {0x6000_0190, 0x6000_0191, 0x6000_0192, 0x6000_02BD} // DATE
    || tag in {0x7000_0007, 0x7000_00CA, 0x7000_012E, 0x7000_012F, 0x7000_01F7, 0x7000_01FA,
               0x7000_01FB, 0x7000_01FC, 0x7000_01FD, 0x7000_03EC} // BOOL
    || tag in {0x9000_0259, 0x9000_02BC, 0x9000_02C0, 0x9000_02C3, 0x9000_02C4, 0x9000_02C5,
               0x9000_03E8, 0x9000_03E9} // BYTES
    || tag == 0xA000_01F6 // ULONG_REP
  }

  /** The size of the union member that the tag selects. */
  function ValueSize(tag: Tag): (n: nat)
    ensures n <= 8
  {
    var t := TypeFromTag(tag);
    if t == BOOL then 1 else if IsInteger(t) then 4 else if IsLong(t) then 8 else 0
  }

  /** The listed tags other than INVALID carry a blob or at least one byte of the union. */
  lemma ListedTagHasValue(tag: Tag)
    requires InAllTags(tag) && tag != TAG_INVALID
    ensures IsBlob(TypeFromTag(tag)) || ValueSize(tag) > 0
  {
  }

  predicate HasBlob(p: KeyParameter) { IsBlob(TypeFromTag(p.tag)) }

  /** Same tag, and same value in the field the tag selects. */
  predicate SameValue(p: KeyParameter, q: KeyParameter) {
    && p.tag == q.tag
    && if HasBlob(p) then p.blob == q.blob else p.f[..ValueSize(p.tag)] == q.f[..ValueSize(p.tag)]
  }

  // ----- the format

  function BlobOf(p: KeyParameter): seq<byte> {
    if HasBlob(p) then p.blob else []
  }

  /** The contents of the indirect region. */
  function Blobs(ps: seq<KeyParameter>): seq<byte> {
    if ps == [] then [] else Blobs(ps[..|ps| - 1]) + BlobOf(ps[|ps| - 1])
  }

  /** One element; `offset` is where its blob lies.  INVALID elements, which only legacy data holds,
      are a bare tag. */
  function Element(p: KeyParameter, offset: nat): seq<byte> {
    LittleEndian(p.tag, 4) +
    if HasBlob(p) then LittleEndian(|p.blob|, 4) + LittleEndian(offset, 4) else p.f[..ValueSize(p.tag)]
  }

  function Elements(ps: seq<KeyParameter>): seq<byte> {
    if ps == [] then []
    else
      var init := ps[..|ps| - 1];
      Elements(init) + Element(ps[|ps| - 1], |Blobs(init)|)
  }

  /** The layout of the whole: sizes and regions. */
  function Frame(indirect: seq<byte>, count: nat, elements: seq<byte>): seq<byte> {
    LittleEndian(|indirect|, 4) + indirect + LittleEndian(count, 4) + LittleEndian(|elements|, 4) + elements
  }

  function Format(ps: seq<KeyParameter>): seq<byte> {
    Frame(Blobs(ps), |ps|, Elements(ps))
  }

  predicate Fits(ps: seq<KeyParameter>) {
    |Blobs(ps)| < LIMIT32 && |Elements(ps)| < LIMIT32
  }

  /** The entries the serializer writes: listed tags other than INVALID. */
  function Writable(ps: seq<KeyParameter>): (r: seq<KeyParameter>)
    ensures |r| <= |ps|
  {
    if ps == [] then []
    else
      var p := ps[|ps| - 1];
      Writable(ps[..|ps| - 1]) + if InAllTags(p.tag) && p.tag != TAG_INVALID then [p] else []
  }

  // ----- writing

  datatype Out = Out(indirect: seq<byte>, elements: seq<byte>, bad: bool, skipped: nat) {
    /** `out.elements.write`: nothing is written once the stream is bad. */
    function Put(s: seq<byte>): Out {
      if bad then this else this.(elements := elements + s)
    }

    function PutBlob(blob: seq<byte>): Out {
      if |blob| >= LIMIT32 then this.(bad := true)
      else
        var o := Put(LittleEndian(|blob|, 4));
        var offset := |o.indirect|;
        if offset >= LIMIT32 || (offset % LIMIT32 + |blob|) % LIMIT32 < offset % LIMIT32 then o.(bad := true)
        else
          var o' := o.Put(LittleEndian(offset, 4));
          o'.(indirect := o'.indirect + blob)
    }

    function PutParam(p: KeyParameter): Out {
      if !InAllTags(p.tag) || p.tag == TAG_INVALID then this.(skipped := skipped + 1)
      else if HasBlob(p) then Put(LittleEndian(p.tag, 4)).PutBlob(p.blob)
      else Put(LittleEndian(p.tag, 4)).Put(p.f[..ValueSize(p.tag)])
    }
  }

  const EMPTY_OUT := Out([], [], false, 0)

  function PutAll(ps: seq<KeyParameter>): Out {
    if ps == [] then EMPTY_OUT else PutAll(ps[..|ps| - 1]).PutParam(ps[|ps| - 1])
  }

  /** The element stream goes bad exactly when the blobs exceed 32 bits in total, and until then the
      two streams hold the two regions of the format. */
  lemma {:induction false} PutAllMeetsFormat(ps: seq<KeyParameter>)
    ensures var o, w := PutAll(ps), Writable(ps);
      && o.skipped == |ps| - |w|
      && (o.bad <==> |Blobs(w)| >= LIMIT32)
      && (!o.bad ==> o.elements == Elements(w) && o.indirect == Blobs(w))
      && |o.indirect| < LIMIT32
  {
    if ps != [] {
      var init, p := ps[..|ps| - 1], ps[|ps| - 1];
      var o := PutAll(init);
      PutAllMeetsFormat(init);
      if InAllTags(p.tag) && p.tag != TAG_INVALID {
        var w := Writable(ps);
        assert w[..|w| - 1] == Writable(init) && w[|w| - 1] == p;
        PutParamMeetsFormat(o, Writable(init), p);
      } else {
        assert Writable(ps) == Writable(init);
      }
    }
  }

  lemma PutParamMeetsFormat(o: Out, w: seq<KeyParameter>, p: KeyParameter)
    requires InAllTags(p.tag) && p.tag != TAG_INVALID
    requires o.bad <==> |Blobs(w)| >= LIMIT32
    requires !o.bad ==> o.elements == Elements(w) && o.indirect == Blobs(w)
    requires |o.indirect| < LIMIT32
    ensures var o' := o.PutParam(p);
      && o'.skipped == o.skipped
      && (o'.bad <==> |Blobs(w) + BlobOf(p)| >= LIMIT32)
      && (!o'.bad ==> o'.elements == Elements(w) + Element(p, |Blobs(w)|) && o'.indirect == Blobs(w) + BlobOf(p))
      && |o'.indirect| < LIMIT32
  {
    hide InAllTags, Blobs, Elements, LittleEndian, TypeFromTag, ValueSize, Out.PutBlob;
    if HasBlob(p) {
      PutBlobMeetsFormat(o.Put(LittleEndian(p.tag, 4)), p.blob);
      Joined(Elements(w), LittleEndian(p.tag, 4), LittleEndian(|p.blob|, 4) + LittleEndian(|Blobs(w)|, 4));
    } else {
      Joined(Elements(w), LittleEndian(p.tag, 4), p.f[..ValueSize(p.tag)]);
      assert Blobs(w) + [] == Blobs(w);
    }
  }

  lemma Joined(a: seq<byte>, b: seq<byte>, c: seq<byte>)
    ensures a + b + c == a + (b + c)
  {
  }

  lemma PutBlobMeetsFormat(o: Out, blob: seq<byte>)
    requires |o.indirect| < LIMIT32
    ensures var o' := o.PutBlob(blob);
      && o'.skipped == o.skipped
      && (o'.bad <==> o.bad || |o.indirect| + |blob| >= LIMIT32)
      && (!o'.bad ==>
            && o'.elements == o.elements + (LittleEndian(|blob|, 4) + LittleEndian(|o.indirect|, 4))
            && o'.indirect == o.indirect + blob)
      && |o'.indirect| < LIMIT32
  {
    hide LittleEndian;
    var offset := |o.indirect|;
    if |blob| < LIMIT32 <= offset + |blob| {
      assert (offset + |blob|) % LIMIT32 == offset + |blob| - LIMIT32;
    }
    Joined(o.elements, LittleEndian(|blob|, 4), LittleEndian(offset, 4));
  }

  datatype Result<T> = Ok(value: T) | Bad

  /** `AuthorizationSet::Serialize` into a good stream: the bytes written, or the badbit. */
  ghost function Serialized(ps: seq<KeyParameter>): Result<seq<byte>> {
    var o := PutAll(ps);
    if o.bad || |o.indirect| >= LIMIT32 || |o.elements| >= LIMIT32 then Bad
    else
      var count := (|ps| - o.skipped) % LIMIT32;
      Ok(Frame(o.indirect, count, o.elements))
  }

  lemma {:induction false} ElementsAreLong(ps: seq<KeyParameter>)
    requires forall i :: 0 <= i < |ps| ==> InAllTags(ps[i].tag) && ps[i].tag != TAG_INVALID
    ensures |Elements(ps)| >= 5 * |ps|
  {
    if ps != [] {
      ElementsAreLong(ps[..|ps| - 1]);
      ListedTagHasValue(ps[|ps| - 1].tag);
    }
  }

  lemma {:induction false} WritableAreListed(ps: seq<KeyParameter>)
    ensures forall i :: 0 <= i < |Writable(ps)| ==>
      InAllTags(Writable(ps)[i].tag) && Writable(ps)[i].tag != TAG_INVALID
  {
    if ps != [] {
      WritableAreListed(ps[..|ps| - 1]);
    }
  }

  /** Serialization succeeds exactly when both regions fit in 32 bits; it then produces the format of
      the writable entries, and the element count, which the code truncates to 32 bits, is exact. */
  lemma SerializedIsFormat(ps: seq<KeyParameter>)
    ensures Serialized(ps) == if Fits(Writable(ps)) then Ok(Format(Writable(ps))) else Bad
    ensures Fits(Writable(ps)) ==> 5 * |Writable(ps)| < LIMIT32
  {
    hide InAllTags, Blobs, Elements, LittleEndian, PutAll, Writable;
    PutAllMeetsFormat(ps);
    WritableAreListed(ps);
    ElementsAreLong(Writable(ps));
  }

  // ----- the indirect region

  datatype Record = Record(length: nat, offset: nat)

  /** The blob records met when walking the element bytes from `pos`. */
  function Records(elements: seq<byte>, pos: nat): seq<Record>
    requires pos <= |elements|
    decreases |elements| - pos
  {
    if |elements| < pos + 4 then []
    else
      Uint32Bounded(elements[pos..pos + 4]);
      var tag := LittleEndianValue(elements[pos..pos + 4]);
      if !IsBlob(TypeFromTag(tag)) then
        if |elements| < pos + 4 + ValueSize(tag) then [] else Records(elements, pos + 4 + ValueSize(tag))
      else if |elements| < pos + 12 then []
      else
        var r := Record(LittleEndianValue(elements[pos + 4..pos + 8]), LittleEndianValue(elements[pos + 8..pos + 12]));
        [r] + Records(elements, pos + 12)
  }

  /** The records cover `start` to `end` one after the other, without gap or overlap. */
  predicate Tile(rs: seq<Record>, start: nat, end: nat) {
    if rs == [] then start == end
    else rs[0].offset == start && start + rs[0].length <= end && Tile(rs[1..], start + rs[0].length, end)
  }

  /** The blobs that the records cut out of the indirect region. */
  function Cut(rs: seq<Record>, indirect: seq<byte>): seq<seq<byte>> {
    if rs == [] || rs[0].offset + rs[0].length > |indirect| then []
    else [indirect[rs[0].offset..rs[0].offset + rs[0].length]] + Cut(rs[1..], indirect)
  }

  function BlobList(ps: seq<KeyParameter>): seq<seq<byte>> {
    if ps == [] then []
    else (if HasBlob(ps[0]) then [ps[0].blob] else []) + BlobList(ps[1..])
  }

  lemma {:induction false} RegionsGrow(ps: seq<KeyParameter>, k: nat)
    requires k <= |ps|
    ensures Blobs(ps[..k]) <= Blobs(ps)
    ensures Elements(ps[..k]) <= Elements(ps)
  {
    if k < |ps| {
      var init := ps[..|ps| - 1];
      RegionsGrow(init, k);
      assert init[..k] == ps[..k];
    } else {
      assert ps[..k] == ps;
    }
  }

  /** Where the k-th element and its blob lie in the two regions. */
  lemma ElementAt(ps: seq<KeyParameter>, k: nat)
    requires k < |ps|
    ensures var e, b := |Elements(ps[..k])|, |Blobs(ps[..k])|;
      var x := Element(ps[k], b);
      && e + |x| == |Elements(ps[..k + 1])| <= |Elements(ps)|
      && Elements(ps)[e..e + |x|] == x
      && b + |BlobOf(ps[k])| == |Blobs(ps[..k + 1])| <= |Blobs(ps)|
      && Blobs(ps)[b..b + |BlobOf(ps[k])|] == BlobOf(ps[k])
  {
    hide InAllTags, LittleEndian, Element, BlobOf, Elements, Blobs;
    RegionsGrow(ps, k + 1);
    LastElement(ps, k);
    Within(Elements(ps), Elements(ps[..k + 1]), Elements(ps[..k]), Element(ps[k], |Blobs(ps[..k])|));
    Within(Blobs(ps), Blobs(ps[..k + 1]), Blobs(ps[..k]), BlobOf(ps[k]));
  }

  lemma LastElement(ps: seq<KeyParameter>, k: nat)
    requires k < |ps|
    ensures Elements(ps[..k + 1]) == Elements(ps[..k]) + Element(ps[k], |Blobs(ps[..k])|)
    ensures Blobs(ps[..k + 1]) == Blobs(ps[..k]) + BlobOf(ps[k])
  {
    hide InAllTags, LittleEndian, Element, BlobOf;
    var next := ps[..k + 1];
    assert next[..k] == ps[..k] && next[k] == ps[k];
  }

  lemma Within(whole: seq<byte>, part: seq<byte>, before: seq<byte>, x: seq<byte>)
    requires part <= whole && part == before + x
    ensures whole[|before|..|before| + |x|] == x
  {
    assert part[|before|..] == x;
    assert whole[..|part|] == part;
  }

  /** The fields of the k-th element, read back from the bytes. */
  lemma ElementFields(ps: seq<KeyParameter>, k: nat)
    requires k < |ps| && Fits(ps)
    ensures var e, b, s := |Elements(ps[..k])|, |Blobs(ps[..k])|, Elements(ps);
      && e + 4 <= |s| && LittleEndianValue(s[e..e + 4]) == ps[k].tag
      && |Elements(ps[..k + 1])| == e + (if HasBlob(ps[k]) then 12 else 4 + ValueSize(ps[k].tag)) <= |s|
      && (HasBlob(ps[k]) ==>
            && LittleEndianValue(s[e + 4..e + 8]) == |ps[k].blob|
            && LittleEndianValue(s[e + 8..e + 12]) == b)
      && (!HasBlob(ps[k]) ==> s[e + 4..e + 4 + ValueSize(ps[k].tag)] == ps[k].f[..ValueSize(ps[k].tag)])
      && |Blobs(ps[..k + 1])| == b + |BlobOf(ps[k])| <= |Blobs(ps)|
      && Blobs(ps)[b..b + |BlobOf(ps[k])|] == BlobOf(ps[k])
  {
    hide InAllTags, LittleEndian, LittleEndianValue, Elements, Blobs, TypeFromTag, Element, ValueSize;
    ElementAt(ps, k);
    var p, e, b, s := ps[k], |Elements(ps[..k])|, |Blobs(ps[..k])|, Elements(ps);
    var x := Element(p, b);
    ElementParts(p, b);
    Part(s, e, x, 0, 4);
    Uint32RoundTrip(p.tag);
    if HasBlob(p) {
      Part(s, e, x, 4, 8);
      Part(s, e, x, 8, 12);
      Uint32RoundTrip(|p.blob|);
      Uint32RoundTrip(b);
    } else {
      Part(s, e, x, 4, 4 + ValueSize(p.tag));
    }
  }

  lemma ElementParts(p: KeyParameter, offset: nat)
    ensures var x := Element(p, offset);
      && |x| == (if HasBlob(p) then 12 else 4 + ValueSize(p.tag))
      && x[0..4] == LittleEndian(p.tag, 4)
      && (HasBlob(p) ==> x[4..8] == LittleEndian(|p.blob|, 4) && x[8..12] == LittleEndian(offset, 4))
      && (!HasBlob(p) ==> x[4..4 + ValueSize(p.tag)] == p.f[..ValueSize(p.tag)])
  {
    hide LittleEndian, TypeFromTag, ValueSize;
  }

  lemma Part(s: seq<byte>, e: nat, x: seq<byte>, from: nat, to: nat)
    requires e + |x| <= |s| && s[e..e + |x|] == x && from <= to <= |x|
    ensures s[e + from..e + to] == x[from..to]
  {
    var y := s[e..e + |x|];
    forall i | 0 <= i < to - from
      ensures s[e + from..e + to][i] == x[from..to][i]
    {
      assert s[e + (from + i)] == y[from + i];
    }
  }

  lemma RecordsStep(ps: seq<KeyParameter>, k: nat)
    requires k < |ps| && Fits(ps)
    ensures |Elements(ps[..k])| <= |Elements(ps[..k + 1])| <= |Elements(ps)|
    ensures Records(Elements(ps), |Elements(ps[..k])|) ==
      (if HasBlob(ps[k]) then [Record(|ps[k].blob|, |Blobs(ps[..k])|)] else [])
      + Records(Elements(ps), |Elements(ps[..k + 1])|)
  {
    hide InAllTags, LittleEndian, LittleEndianValue, Elements, Blobs, TypeFromTag;
    ElementFields(ps, k);
  }

  /** Whenever the format fits, the records in the element bytes tile the indirect region in order
      and cut it into exactly the blobs that were written. */
  lemma {:induction false} RecordsTile(ps: seq<KeyParameter>, k: nat)
    requires k <= |ps| && Fits(ps)
    ensures |Elements(ps[..k])| <= |Elements(ps)|
    ensures var rs := Records(Elements(ps), |Elements(ps[..k])|);
      Tile(rs, |Blobs(ps[..k])|, |Blobs(ps)|) && Cut(rs, Blobs(ps)) == BlobList(ps[k..])
    decreases |ps| - k
  {
    hide InAllTags, LittleEndian, Elements, Blobs, Records, HasBlob;
    if k == |ps| {
      assert ps[..k] == ps;
      assert Records(Elements(ps), |Elements(ps)|) == [] by { NoRecords(Elements(ps)); }
    } else {
      ElementFields(ps, k);
      RecordsStep(ps, k);
      RecordsTile(ps, k + 1);
      assert ps[k..][1..] == ps[k + 1..];
      var rest := Records(Elements(ps), |Elements(ps[..k + 1])|);
      if HasBlob(ps[k]) {
        var r := Record(|ps[k].blob|, |Blobs(ps[..k])|);
        assert ([r] + rest)[1..] == rest;
      } else {
        assert [] + rest == rest;
      }
    }
  }

  lemma NoRecords(elements: seq<byte>)
    ensures Records(elements, |elements|) == []
  {
  }

  // ----- reading

  /** An input stream over a byte string with the three state bits. */
  datatype Stream = Stream(data: seq<byte>, pos: nat, eof: bool, fail: bool, bad: bool) {
    predicate Good() { !eof && !fail && !bad }

    /** `read` into `buffer`: a short read fills what it can and sets eofbit and failbit. */
    function Read(buffer: seq<byte>): (r: (Stream, seq<byte>))
      ensures |r.1| == |buffer|
    {
      if !Good() then (this.(fail := true), buffer)
      else if pos + |buffer| <= |data| then (this.(pos := pos + |buffer|), data[pos..pos + |buffer|])
      else if pos > |data| then (this.(eof := true, fail := true), buffer)
      else (this.(pos := |data|, eof := true, fail := true), data[pos..] + buffer[|data| - pos..])
    }

    /** `seekg` clears eofbit first and fails beyond the end. */
    function Seek(offset: nat): Stream {
      var s := this.(eof := false);
      if !s.Good() then s.(fail := true)
      else if offset <= |data| then s.(pos := offset)
      else s.(fail := true)
    }
  }

  function StreamOn(data: seq<byte>): Stream {
    Stream(data, 0, false, false, false)
  }

  function Resize<T>(s: seq<T>, n: nat, filler: T): (r: seq<T>)
    ensures |r| == n
  {
    if n <= |s| then s[..n] else s + seq(n - |s|, i => filler)
  }

  datatype In = In(indirect: Stream, elements: Stream, invalids: nat)

  function GetBlob(i: In, blob: seq<byte>): (In, seq<byte>) {
    var (e1, lengthBytes) := i.elements.Read(Zeros(4));
    var resized := Resize(blob, LittleEndianValue(lengthBytes), 0);
    var (e2, offsetBytes) := e1.Read(Zeros(4));
    var (ind, bytes) := i.indirect.Seek(LittleEndianValue(offsetBytes)).Read(resized);
    (In(ind, e2, i.invalids), bytes)
  }

  function GetParam(i: In, p: KeyParameter): (In, KeyParameter) {
    var (e, tagBytes) := i.elements.Read(LittleEndian(p.tag, 4));
    Uint32Bounded(tagBytes);
    var q := p.(tag := LittleEndianValue(tagBytes));
    var j := i.(elements := e);
    if q.tag == TAG_INVALID then (j.(invalids := j.invalids + 1), q)
    else if !InAllTags(q.tag) then (j.(elements := e.(bad := true)), q)
    else if HasBlob(q) then
      var (j', blob) := GetBlob(j, q.blob);
      (j', q.(blob := blob))
    else
      var n := ValueSize(q.tag);
      var (e', value) := e.Read(q.f[..n]);
      (j.(elements := e'), q.(f := value + q.f[n..]))
  }

  /** The loop over the elements, after `k` rounds. */
  function GetAll(i: In, params: seq<KeyParameter>, k: nat): (r: (In, seq<KeyParameter>))
    requires k <= |params|
    ensures |r.1| == |params|
  {
    if k == 0 then (i, params)
    else
      var (j, ps) := GetAll(i, params, k - 1);
      var (j', p) := GetParam(j, ps[k - 1]);
      (j', ps[k - 1 := p])
  }

  function CountInvalid(ps: seq<KeyParameter>): nat {
    if ps == [] then 0
    else CountInvalid(ps[..|ps| - 1]) + if ps[|ps| - 1].tag == TAG_INVALID then 1 else 0
  }

  function DropInvalid(ps: seq<KeyParameter>): (r: seq<KeyParameter>)
    ensures |r| == |ps| - CountInvalid(ps)
  {
    if ps == [] then []
    else DropInvalid(ps[..|ps| - 1]) + if ps[|ps| - 1].tag == TAG_INVALID then [] else [ps[|ps| - 1]]
  }

  /** What `deserialize` leaves in the stream and in a vector that held `prior`. */
  ghost function Deserialized(input: Stream, prior: seq<KeyParameter>): (Stream, seq<KeyParameter>) {
    var (in1, indirectSize) := input.Read(Zeros(4));
    var (in2, indirect) := in1.Read(Zeros(LittleEndianValue(indirectSize)));
    var (in3, elementCount) := in2.Read(Zeros(4));
    var (in4, elementsSize) := in3.Read(Zeros(4));
    var (in5, elements) := in4.Read(Zeros(LittleEndianValue(elementsSize)));
    if in5.bad then (in5, prior)
    else
      var count := LittleEndianValue(elementCount);
      var start := In(StreamOn(indirect), StreamOn(elements), 0);
      var (end, ps) := GetAll(start, Resize(prior, count, DEFAULT_PARAMETER), count);
      (in5, if end.invalids > 0 then DropInvalid(ps) else ps)
  }

  /** For any two regions whatsoever, the count kept by the loop is the number of entries that ended
      up INVALID, so the vector sized with it is filled exactly. */
  lemma {:induction false} InvalidsAreCounted(i: In, params: seq<KeyParameter>, k: nat)
    requires k <= |params|
    ensures var (j, ps) := GetAll(i, params, k);
      j.invalids == i.invalids + CountInvalid(ps[..k])
  {
    hide InAllTags, LittleEndian, LittleEndianValue;
    if k > 0 {
      InvalidsAreCounted(i, params, k - 1);
      var (j, ps) := GetAll(i, params, k - 1);
      var (j', p) := GetParam(j, ps[k - 1]);
      var ps' := ps[k - 1 := p];
      assert ps'[..k][..k - 1] == ps[..k - 1];
      assert ps'[..k][k - 1] == p;
    }
  }

  // ----- the parser undoes the writer

  predicate AllListed(ps: seq<KeyParameter>) {
    forall i :: 0 <= i < |ps| ==> InAllTags(ps[i].tag)
  }

  /** The parser stands at the start of element `k` of the two regions of `ps`. */
  predicate Reading(j: In, ps: seq<KeyParameter>, k: nat)
    requires k <= |ps|
  {
    && j.elements == Stream(Elements(ps), |Elements(ps[..k])|, false, false, false)
    && j.indirect.Good() && j.indirect.data == Blobs(ps)
  }

  lemma GetParamReads(ps: seq<KeyParameter>, k: nat, j: In, p: KeyParameter)
    requires k < |ps| && Fits(ps) && InAllTags(ps[k].tag) && Reading(j, ps, k)
    ensures var (j', q) := GetParam(j, p);
      Reading(j', ps, k + 1) && SameValue(ps[k], q)
  {
    hide InAllTags, LittleEndian, LittleEndianValue, Elements, Blobs, TypeFromTag;
    ElementFields(ps, k);
    var e, s := |Elements(ps[..k])|, Elements(ps);
    var (e1, tagBytes) := j.elements.Read(LittleEndian(p.tag, 4));
    assert tagBytes == s[e..e + 4];
    InvalidHasNoValue();
    if ps[k].tag != TAG_INVALID && HasBlob(ps[k]) {
      GetBlobReads(ps, k, j.(elements := e1), p.blob);
    }
  }

  lemma InvalidHasNoValue()
    ensures TypeFromTag(TAG_INVALID) == INVALID
  {
  }

  lemma GetBlobReads(ps: seq<KeyParameter>, k: nat, j: In, blob: seq<byte>)
    requires k < |ps| && Fits(ps) && HasBlob(ps[k])
    requires j.elements == Stream(Elements(ps), |Elements(ps[..k])| + 4, false, false, false)
    requires j.indirect.Good() && j.indirect.data == Blobs(ps)
    ensures var (j', b) := GetBlob(j, blob);
      Reading(j', ps, k + 1) && b == ps[k].blob && j'.invalids == j.invalids
  {
    hide InAllTags, LittleEndian, LittleEndianValue, Elements, Blobs, TypeFromTag;
    ElementFields(ps, k);
    var e, s := |Elements(ps[..k])|, Elements(ps);
    var (e1, lengthBytes) := j.elements.Read(Zeros(4));
    assert lengthBytes == s[e + 4..e + 8];
    var (e2, offsetBytes) := e1.Read(Zeros(4));
    assert offsetBytes == s[e + 8..e + 12];
  }

  lemma {:induction false} GetAllReads(ps: seq<KeyParameter>, params: seq<KeyParameter>, k: nat)
    requires k <= |ps| <= |params| && Fits(ps) && AllListed(ps[..k])
    ensures var (j, out) := GetAll(In(StreamOn(Blobs(ps)), StreamOn(Elements(ps)), 0), params, k);
      Reading(j, ps, k) && forall i :: 0 <= i < k ==> SameValue(ps[i], out[i])
  {
    hide InAllTags, LittleEndian, LittleEndianValue, TypeFromTag, GetParam, SameValue;
    if k > 0 {
      assert ps[..k][..k - 1] == ps[..k - 1] && ps[..k][k - 1] == ps[k - 1];
      GetAllReads(ps, params, k - 1);
      var (j, out) := GetAll(In(StreamOn(Blobs(ps)), StreamOn(Elements(ps)), 0), params, k - 1);
      GetParamReads(ps, k - 1, j, out[k - 1]);
    }
  }

  ghost predicate SameValues(ps: seq<KeyParameter>, qs: seq<KeyParameter>) {
    |ps| == |qs| && forall i :: 0 <= i < |ps| ==> SameValue(ps[i], qs[i])
  }

  lemma {:induction false} DropInvalidPointwise(ps: seq<KeyParameter>, qs: seq<KeyParameter>)
    requires SameValues(ps, qs)
    ensures CountInvalid(ps) == CountInvalid(qs)
    ensures SameValues(DropInvalid(ps), DropInvalid(qs))
  {
    hide TypeFromTag, HasBlob;
    if ps != [] {
      DropInvalidPointwise(ps[..|ps| - 1], qs[..|qs| - 1]);
      assert SameValue(ps[|ps| - 1], qs[|qs| - 1]);
    }
  }

  lemma {:induction false} NothingToDrop(ps: seq<KeyParameter>)
    requires CountInvalid(ps) == 0
    ensures DropInvalid(ps) == ps
  {
    if ps != [] {
      NothingToDrop(ps[..|ps| - 1]);
      assert ps == ps[..|ps| - 1] + [ps[|ps| - 1]];
    }
  }

  lemma {:induction false} ElementsHoldTags(ps: seq<KeyParameter>)
    ensures |Elements(ps)| >= 4 * |ps|
  {
    if ps != [] {
      ElementsHoldTags(ps[..|ps| - 1]);
    }
  }

  /** The element loop on the regions of `ps`, then the legacy filter. */
  lemma GetAllThenDrop(ps: seq<KeyParameter>, params: seq<KeyParameter>)
    requires |ps| == |params| && Fits(ps) && AllListed(ps)
    ensures var (j, out) := GetAll(In(StreamOn(Blobs(ps)), StreamOn(Elements(ps)), 0), params, |ps|);
      SameValues(DropInvalid(ps), if j.invalids > 0 then DropInvalid(out) else out)
  {
    hide InAllTags, TypeFromTag, GetAll, SameValue;
    var start := In(StreamOn(Blobs(ps)), StreamOn(Elements(ps)), 0);
    var (j, out) := GetAll(start, params, |ps|);
    assert ps[..|ps|] == ps;
    GetAllReads(ps, params, |ps|);
    InvalidsAreCounted(start, params, |ps|);
    assert out[..|ps|] == out;
    DropInvalidPointwise(ps, out);
    if j.invalids == 0 {
      NothingToDrop(out);
    }
  }

  /** Five reads take a frame apart and leave the stream good and just behind it, whatever the two
      regions hold: an unknown tag or a truncated element is never reported to the caller. */
  lemma FrameIsNeverRejected(indirect: seq<byte>, count: nat, elements: seq<byte>,
                             input: Stream, prior: seq<KeyParameter>)
    requires |indirect| < LIMIT32 && count < LIMIT32 && |elements| < LIMIT32
    requires input.Good() && input.pos <= |input.data|
    requires Frame(indirect, count, elements) <= input.data[input.pos..]
    ensures var (end, ps) := GetAll(In(StreamOn(indirect), StreamOn(elements), 0),
                                    Resize(prior, count, DEFAULT_PARAMETER), count);
      Deserialized(input, prior) ==
        (input.(pos := input.pos + |Frame(indirect, count, elements)|),
         if end.invalids > 0 then DropInvalid(ps) else ps)
  {
    hide LittleEndian, LittleEndianValue, GetAll, DropInvalid, Frame, Stream.Read;
    Uint32RoundTrip(|indirect|);
    Uint32RoundTrip(count);
    Uint32RoundTrip(|elements|);
    FrameParts(indirect, count, elements);
    var b, e := |indirect|, |elements|;
    var f := Frame(indirect, count, elements);
    ReadPart(input, f, 0, 4);
    ReadPart(input, f, 4, b);
    ReadPart(input, f, 4 + b, 4);
    ReadPart(input, f, 8 + b, 4);
    ReadPart(input, f, 12 + b, e);
  }

  lemma FrameParts(indirect: seq<byte>, count: nat, elements: seq<byte>)
    ensures var f, b := Frame(indirect, count, elements), |indirect|;
      && |f| == 12 + b + |elements|
      && f[0..4] == LittleEndian(b, 4) && f[4..4 + b] == indirect
      && f[4 + b..4 + b + 4] == LittleEndian(count, 4)
      && f[8 + b..8 + b + 4] == LittleEndian(|elements|, 4)
      && f[12 + b..12 + b + |elements|] == elements
  {
    hide LittleEndian;
  }

  /** Reading the next `n` bytes of a stream that goes on with `f` from `input.pos`. */
  lemma ReadPart(input: Stream, f: seq<byte>, at: nat, n: nat)
    requires input.Good() && input.pos <= |input.data| && f <= input.data[input.pos..] && at + n <= |f|
    ensures input.(pos := input.pos + at).Read(Zeros(n)) == (input.(pos := input.pos + at + n), f[at..at + n])
  {
    var p, d := input.pos, input.data;
    assert d[p..p + |f|] == f;
    Part(d, p, f, at, at + n);
  }

  /** Reading a format that may hold legacy INVALID elements drops those and keeps the rest. */
  lemma DeserializedFormat(ps: seq<KeyParameter>, input: Stream, prior: seq<KeyParameter>)
    requires Fits(ps) && AllListed(ps)
    requires input.Good() && input.pos <= |input.data| && Format(ps) <= input.data[input.pos..]
    ensures var (rest, out) := Deserialized(input, prior);
      && rest == input.(pos := input.pos + |Format(ps)|)
      && SameValues(DropInvalid(ps), out)
  {
    hide InAllTags, TypeFromTag, Elements, Blobs, GetAll, SameValues, DropInvalid, Deserialized;
    ElementsHoldTags(ps);
    FrameIsNeverRejected(Blobs(ps), |ps|, Elements(ps), input, prior);
    GetAllThenDrop(ps, Resize(prior, |ps|, DEFAULT_PARAMETER));
  }

  /** Deserializing what was serialized, from anywhere in a stream and into any vector, gives back
      exactly the writable entries, in order and with the value each tag selects. */
  lemma RoundTrip(params: seq<KeyParameter>, input: Stream, prior: seq<KeyParameter>)
    requires Serialized(params).Ok?
    requires input.Good() && input.pos <= |input.data| && Serialized(params).value <= input.data[input.pos..]
    ensures var (rest, out) := Deserialized(input, prior);
      && rest == input.(pos := input.pos + |Serialized(params).value|)
      && SameValues(Writable(params), out)
  {
    hide InAllTags, TypeFromTag, Deserialized, SameValues, Writable, Serialized;
    SerializedIsFormat(params);
    WritableAreListed(params);
    var w := Writable(params);
    DeserializedFormat(w, input, prior);
    NoInvalids(w);
    NothingToDrop(w);
  }

  lemma {:induction false} NoInvalids(ps: seq<KeyParameter>)
    requires forall i :: 0 <= i < |ps| ==> ps[i].tag != TAG_INVALID
    ensures CountInvalid(ps) == 0
  {
    if ps != [] {
      NoInvalids(ps[..|ps| - 1]);
    }
  }

  // ----- the bytes themselves

  /** The listed tags as the interface numbers them, by type. */
  lemma ListedExactly(tag: Tag)
    ensures InAllTags(tag) <==>
      var type_, number := tag / 0x1000_0000, tag % 0x1000_0000;
      || tag == 0
      || (type_ == 1 && number in {2, 10, 301, 304, 504, 702})
      || (type_ == 2 && number in {1, 4, 5, 6})
      || (type_ == 3 && number in {3, 8, 403, 404, 501, 505, 705, 706, 718, 719, 1003})
      || (type_ == 5 && number == 200)
      || (type_ == 6 && number in {400, 401, 402, 701})
      || (type_ == 7 && number in {7, 202, 302, 303, 503, 506, 507, 508, 509, 1004})
      || (type_ == 9 && number in {601, 700, 704, 707, 708, 709, 1000, 1001})
      || (type_ == 10 && number == 502)
  {
    assert tag == 0x1000_0000 * (tag / 0x1000_0000) + tag % 0x1000_0000;
  }

  /** The bytes of one entry behind its tag, by the number of its type; `at` is where its blob lies. */
  function Payload(p: KeyParameter, at: nat): seq<byte> {
    var type_ := p.tag / 0x1000_0000;
    if 1 <= type_ <= 4 then p.f[..4]
    else if type_ == 5 || type_ == 6 || type_ == 10 then p.f
    else if type_ == 7 then p.f[..1]
    else if type_ == 8 || type_ == 9 then LittleEndian(|p.blob|, 4) + LittleEndian(at, 4)
    else []
  }

  lemma ElementIsPayload(p: KeyParameter, at: nat)
    ensures Element(p, at) == LittleEndian(p.tag, 4) + Payload(p, at)
    ensures BlobOf(p) == var type_ := p.tag / 0x1000_0000; if type_ == 8 || type_ == 9 then p.blob else []
  {
    hide LittleEndian;
    assert p.f[..8] == p.f;
  }

  /** The serialization of one entry, byte by byte. */
  lemma SerializedOne(p: KeyParameter)
    requires InAllTags(p.tag) && p.tag != 0
    ensures var type_, n, zero, one, tag :=
      p.tag / 0x1000_0000, LittleEndian(|p.blob|, 4), LittleEndian(0, 4), LittleEndian(1, 4), LittleEndian(p.tag, 4);
      && (1 <= type_ <= 4 ==> Serialized([p]) == Ok(zero + one + LittleEndian(8, 4) + tag + p.f[..4]))
      && (type_ in {5, 6, 10} ==> Serialized([p]) == Ok(zero + one + LittleEndian(12, 4) + tag + p.f))
      && (type_ == 7 ==> Serialized([p]) == Ok(zero + one + LittleEndian(5, 4) + tag + p.f[..1]))
      && (type_ == 9 && |p.blob| >= LIMIT32 ==> Serialized([p]) == Bad)
      && (type_ == 9 && |p.blob| < LIMIT32 ==>
            Serialized([p]) == Ok(n + p.blob + one + LittleEndian(12, 4) + tag + n + zero))
  {
    hide InAllTags, LittleEndian, Serialized;
    SerializedPayload(p);
    ListedType(p.tag);
    var type_ := p.tag / 0x1000_0000;
    if type_ == 9 {
      Joined(LittleEndian(|p.blob|, 4) + p.blob + LittleEndian(1, 4) + LittleEndian(12, 4) + LittleEndian(p.tag, 4),
             LittleEndian(|p.blob|, 4), LittleEndian(0, 4));
    } else {
      assert LittleEndian(0, 4) + [] == LittleEndian(0, 4);
    }
  }

  lemma SerializedPayload(p: KeyParameter)
    requires InAllTags(p.tag) && p.tag != 0
    ensures var blob, payload := if p.tag / 0x1000_0000 == 9 then p.blob else [], Payload(p, 0);
      Serialized([p]) == if |blob| >= LIMIT32 then Bad else
        Ok(LittleEndian(|blob|, 4) + blob + LittleEndian(1, 4) + LittleEndian(4 + |payload|, 4)
           + LittleEndian(p.tag, 4) + payload)
  {
    hide InAllTags, LittleEndian, Serialized, Element, BlobOf, Writable, Elements, Blobs;
    OneEntry(p);
    SerializedIsFormat([p]);
    ElementIsPayload(p, 0);
    ListedType(p.tag);
    var blob, payload := BlobOf(p), Payload(p, 0);
    assert |payload| <= 8;
    Joined(LittleEndian(|blob|, 4) + blob + LittleEndian(1, 4) + LittleEndian(4 + |payload|, 4),
           LittleEndian(p.tag, 4), payload);
  }

  lemma OneEntry(p: KeyParameter)
    requires InAllTags(p.tag) && p.tag != 0
    ensures Writable([p]) == [p] && Blobs([p]) == BlobOf(p) && Elements([p]) == Element(p, 0)
  {
    hide InAllTags, LittleEndian, Element, BlobOf;
    assert [p][..0] == [];
  }

  lemma SerializedNothing()
    ensures Serialized([]) == Ok(LittleEndian(0, 4) + LittleEndian(0, 4) + LittleEndian(0, 4))
  {
    hide LittleEndian, Serialized;
    SerializedIsFormat([]);
    assert Format([]) == LittleEndian(0, 4) + LittleEndian(0, 4) + LittleEndian(0, 4);
  }

  /** What one more entry adds: a listed one its blob to the first region, one to the count, and its tag
      and payload to the second region; any other nothing. */
  lemma SerializedAppended(ps: seq<KeyParameter>, p: KeyParameter)
      returns (indirect: seq<byte>, count: nat, elements: seq<byte>)
    requires Serialized(ps + [p]).Ok?
    ensures Serialized(ps) == Ok(Frame(indirect, count, elements))
    ensures var type_ := p.tag / 0x1000_0000;
      Serialized(ps + [p]) ==
        if InAllTags(p.tag) && p.tag != 0 then
          Ok(Frame(indirect + (if type_ == 9 then p.blob else []), count + 1,
                   elements + LittleEndian(p.tag, 4) + Payload(p, |indirect|)))
        else Serialized(ps)
  {
    hide InAllTags, LittleEndian, Serialized, Element, BlobOf, Payload, Frame;
    var w := Writable(ps);
    indirect, count, elements := Blobs(w), |w|, Elements(w);
    assert (ps + [p])[..|ps|] == ps;
    SerializedIsFormat(ps);
    SerializedIsFormat(ps + [p]);
    if InAllTags(p.tag) && p.tag != 0 {
      assert Writable(ps + [p]) == w + [p] && (w + [p])[..|w|] == w;
      assert Blobs(w + [p]) == Blobs(w) + BlobOf(p) && Elements(w + [p]) == Elements(w) + Element(p, |Blobs(w)|);
      ElementIsPayload(p, |indirect|);
      Joined(elements, LittleEndian(p.tag, 4), Payload(p, |indirect|));
      ListedType(p.tag);
    } else {
      assert Writable(ps + [p]) == w + [] == w;
    }
  }

  lemma ListedType(tag: Tag)
    requires InAllTags(tag) && tag != 0
    ensures tag / 0x1000_0000 in {1, 2, 3, 5, 6, 7, 9, 10}
  {
  }

  /** Which bytes come back: those that the writer puts behind the tag, or the blob. */
  lemma SameValueExactly(p: KeyParameter, q: KeyParameter)
    ensures var type_ := p.tag / 0x1000_0000;
      SameValue(p, q) <==>
        && p.tag == q.tag
        && (1 <= type_ <= 4 ==> p.f[..4] == q.f[..4])
        && (type_ in {5, 6, 10} ==> p.f == q.f)
        && (type_ == 7 ==> p.f[0] == q.f[0])
        && (type_ in {8, 9} ==> p.blob == q.blob)
  {
    assert p.f[..8] == p.f && q.f[..8] == q.f;
    assert p.f[..1] == [p.f[0]] && q.f[..1] == [q.f[0]];
  }

  /** Reading a frame of one entry without blob puts `value` over the first bytes of the union and
      leaves the rest of the place. */
  lemma DeserializedOne(tag: Tag, value: seq<byte>, input: Stream, prior: seq<KeyParameter>)
    requires InAllTags(tag) && tag != 0
    requires var type_ := tag / 0x1000_0000;
      type_ != 9 && |value| == if 1 <= type_ <= 4 then 4 else if type_ == 7 then 1 else 8
    requires input.Good() && input.pos <= |input.data|
    requires LittleEndian(0, 4) + LittleEndian(1, 4) + LittleEndian(4 + |value|, 4) + LittleEndian(tag, 4) + value
             <= input.data[input.pos..]
    ensures var place := if prior == [] then DEFAULT_PARAMETER else prior[0];
      Deserialized(input, prior) ==
        (input.(pos := input.pos + 16 + |value|), [place.(tag := tag, f := value + place.f[|value|..])])
  {
    hide InAllTags, LittleEndian, LittleEndianValue, TypeFromTag, ValueSize, GetAll, Deserialized;
    var elements := LittleEndian(tag, 4) + value;
    var place := if prior == [] then DEFAULT_PARAMETER else prior[0];
    Joined(LittleEndian(0, 4) + LittleEndian(1, 4) + LittleEndian(4 + |value|, 4), LittleEndian(tag, 4), value);
    assert Frame([], 1, elements) ==
      LittleEndian(0, 4) + LittleEndian(1, 4) + LittleEndian(4 + |value|, 4) + LittleEndian(tag, 4) + value;
    FrameIsNeverRejected([], 1, elements, input, prior);
    assert Resize(prior, 1, DEFAULT_PARAMETER) == [place];
    var start := In(StreamOn([]), StreamOn(elements), 0);
    GetAllOne(start, place);
    ReadsElement(start, tag, value, place);
  }

  lemma GetAllOne(start: In, place: KeyParameter)
    ensures var (end, p) := GetParam(start, place);
      GetAll(start, [place], 1) == (end, [p])
  {
    hide GetParam;
    assert GetAll(start, [place], 0) == (start, [place]);
    var (_, p) := GetParam(start, place);
    assert [place][0 := p] == [p];
  }

  lemma ReadsElement(start: In, tag: Tag, value: seq<byte>, place: KeyParameter)
    requires InAllTags(tag) && tag != 0
    requires var type_ := tag / 0x1000_0000;
      type_ != 9 && |value| == if 1 <= type_ <= 4 then 4 else if type_ == 7 then 1 else 8
    requires start == In(StreamOn([]), StreamOn(LittleEndian(tag, 4) + value), 0)
    ensures var (end, p) := GetParam(start, place);
      end.invalids == 0 && p == place.(tag := tag, f := value + place.f[|value|..])
  {
    hide LittleEndian, LittleEndianValue, InAllTags;
    Uint32RoundTrip(tag);
    ListedType(tag);
    var data := LittleEndian(tag, 4) + value;
    assert data[0..4] == LittleEndian(tag, 4) && data[4..4 + |value|] == value;
    assert ValueSize(tag) == |value| && !IsBlob(TypeFromTag(tag));
  }

  /** And a frame of one entry with blob. */
  lemma DeserializedBlob(tag: Tag, blob: seq<byte>, input: Stream, prior: seq<KeyParameter>)
    requires InAllTags(tag) && tag / 0x1000_0000 == 9 && |blob| < LIMIT32
    requires input.Good() && input.pos <= |input.data|
    requires LittleEndian(|blob|, 4) + blob + LittleEndian(1, 4) + LittleEndian(12, 4)
             + LittleEndian(tag, 4) + LittleEndian(|blob|, 4) + LittleEndian(0, 4) <= input.data[input.pos..]
    ensures var (rest, out) := Deserialized(input, prior);
      && rest == input.(pos := input.pos + 24 + |blob|)
      && |out| == 1 && out[0].tag == tag && out[0].blob == blob
  {
    hide InAllTags, LittleEndian, Serialized, Deserialized, Writable;
    var p := KeyParameter(tag, Zeros(8), blob);
    SerializedOne(p);
    OneEntry(p);
    RoundTrip([p], input, prior);
    SameValueExactly(p, Deserialized(input, prior).1[0]);
  }

  // ----- behind an unlisted tag

  /** What the parser leaves in a place once its element stream is not good: everything but the blob
      of a listed tag, which it resizes to the length zero that it failed to read. */
  function Left(p: KeyParameter): (q: KeyParameter)
    ensures q.tag == p.tag && q.f == p.f
  {
    if InAllTags(p.tag) && HasBlob(p) then p.(blob := []) else p
  }

  lemma GetParamFailed(i: In, p: KeyParameter)
    requires !i.elements.Good()
    ensures var (j, q) := GetParam(i, p);
      !j.elements.Good() && q == Left(p)
  {
    hide InAllTags, TypeFromTag, LittleEndian, LittleEndianValue;
    Uint32RoundTrip(p.tag);
    ZeroLength();
    InvalidHasNoValue();
    assert p.f[..ValueSize(p.tag)] + p.f[ValueSize(p.tag)..] == p.f;
  }

  lemma ZeroLength()
    ensures LittleEndianValue(Zeros(4)) == 0
  {
    Uint32RoundTrip(0);
    assert LittleEndian(0, 4) == Zeros(4);
  }

  /** Every later round leaves its place alone. */
  lemma {:induction false} GetAllFailed(i: In, params: seq<KeyParameter>, k: nat, n: nat)
    requires k <= n <= |params|
    requires !GetAll(i, params, k).0.elements.Good()
    ensures var (j, out) := GetAll(i, params, n);
      && !j.elements.Good()
      && out[..k] == GetAll(i, params, k).1[..k]
      && (forall m :: k <= m < n ==> out[m] == Left(params[m]))
      && forall m :: n <= m < |params| ==> out[m] == params[m]
    decreases n
  {
    hide GetParam, Left, Stream.Good;
    LaterUntouched(i, params, n);
    if k < n {
      GetAllFailed(i, params, k, n - 1);
      var (j, out) := GetAll(i, params, n - 1);
      GetParamFailed(j, params[n - 1]);
    }
  }

  /** A round touches no later place. */
  lemma {:induction false} LaterUntouched(i: In, params: seq<KeyParameter>, n: nat)
    requires n <= |params|
    ensures forall m :: n <= m < |params| ==> GetAll(i, params, n).1[m] == params[m]
  {
    hide GetParam;
    if n > 0 {
      LaterUntouched(i, params, n - 1);
    }
  }

  /** An unlisted tag is stored, and turns the stream bad. */
  lemma GetParamUnlisted(ps: seq<KeyParameter>, k: nat, j: In, p: KeyParameter)
    requires k < |ps| && Fits(ps) && !InAllTags(ps[k].tag) && Reading(j, ps, k)
    ensures var (j', q) := GetParam(j, p);
      !j'.elements.Good() && q == p.(tag := ps[k].tag)
  {
    hide InAllTags, LittleEndian, LittleEndianValue, Elements, Blobs, TypeFromTag;
    ElementFields(ps, k);
    var e, s := |Elements(ps[..k])|, Elements(ps);
    assert InAllTags(TAG_INVALID) by { InvalidIsListed(); }
    var (e1, tagBytes) := j.elements.Read(LittleEndian(p.tag, 4));
    assert tagBytes == s[e..e + 4];
  }

  lemma InvalidIsListed()
    ensures InAllTags(TAG_INVALID)
  {
  }

  /** The vector after the loop when `u` is the first place with an unlisted tag: what was written up
      to there, the unlisted tag with what its place held, and the places behind with what they held. */
  function Stale(ps: seq<KeyParameter>, u: nat, places: seq<KeyParameter>): (r: seq<KeyParameter>)
    requires u < |ps| == |places|
    ensures |r| == |ps|
  {
    ps[..u] + [places[u].(tag := ps[u].tag)] + seq(|ps| - u - 1, m requires 0 <= m < |ps| - u - 1 => Left(places[u + 1 + m]))
  }

  /** The loop up to the unlisted tag. */
  lemma GetAllToUnlisted(ps: seq<KeyParameter>, u: nat, places: seq<KeyParameter>)
    requires u < |ps| == |places| && Fits(ps) && AllListed(ps[..u]) && !InAllTags(ps[u].tag)
    ensures var (j, out) := GetAll(In(StreamOn(Blobs(ps)), StreamOn(Elements(ps)), 0), places, u + 1);
      && !j.elements.Good()
      && (forall i :: 0 <= i < u ==> SameValue(ps[i], out[i]))
      && out[u] == places[u].(tag := ps[u].tag)
  {
    hide InAllTags, GetParam, Elements, Blobs, Stream.Good, SameValue;
    var start := In(StreamOn(Blobs(ps)), StreamOn(Elements(ps)), 0);
    GetAllReads(ps, places, u);
    LaterUntouched(start, places, u);
    var (j, out) := GetAll(start, places, u);
    GetParamUnlisted(ps, u, j, out[u]);
  }

  lemma GetAllStale(ps: seq<KeyParameter>, u: nat, places: seq<KeyParameter>)
    requires u < |ps| == |places| && Fits(ps) && AllListed(ps[..u]) && !InAllTags(ps[u].tag)
    ensures var (j, out) := GetAll(In(StreamOn(Blobs(ps)), StreamOn(Elements(ps)), 0), places, |ps|);
      SameValues(Stale(ps, u, places), out)
  {
    hide InAllTags, TypeFromTag, GetAll, Left, Elements, Blobs, Stream.Good, Stale, ValueSize, Fits;
    var start := In(StreamOn(Blobs(ps)), StreamOn(Elements(ps)), 0);
    GetAllToUnlisted(ps, u, places);
    GetAllFailed(start, places, u + 1, |ps|);
    var early, all := GetAll(start, places, u + 1).1, GetAll(start, places, |ps|).1;
    StaleFront(ps, u, places);
    forall i | 0 <= i < |ps|
      ensures SameValue(Stale(ps, u, places)[i], all[i])
    {
      if i <= u {
        assert all[i] == all[..u + 1][i] == early[..u + 1][i] == early[i];
      } else {
        StaleBehind(ps, u, places, i);
      }
    }
  }

  lemma StaleFront(ps: seq<KeyParameter>, u: nat, places: seq<KeyParameter>)
    requires u < |ps| == |places|
    ensures var s := Stale(ps, u, places);
      s[u] == places[u].(tag := ps[u].tag) && forall i :: 0 <= i < u ==> s[i] == ps[i]
  {
  }

  lemma StaleBehind(ps: seq<KeyParameter>, u: nat, places: seq<KeyParameter>, i: nat)
    requires u < i < |ps| == |places|
    ensures Stale(ps, u, places)[i] == Left(places[i])
  {
    hide Left;
    var tail := seq(|ps| - u - 1, m requires 0 <= m < |ps| - u - 1 => Left(places[u + 1 + m]));
    assert Stale(ps, u, places)[i] == tail[i - u - 1];
  }

  /** Reading a frame whose first unlisted tag is at `u`: the stream is good and behind the frame, and
      from `u` on the caller holds what its vector held before. */
  lemma UnlistedTagLeavesStale(ps: seq<KeyParameter>, u: nat, input: Stream, prior: seq<KeyParameter>)
    requires u < |ps| && Fits(ps) && AllListed(ps[..u]) && !InAllTags(ps[u].tag)
    requires input.Good() && input.pos <= |input.data| && Format(ps) <= input.data[input.pos..]
    ensures var (rest, out) := Deserialized(input, prior);
      && rest == input.(pos := input.pos + |Format(ps)|)
      && SameValues(DropInvalid(Stale(ps, u, Resize(prior, |ps|, DEFAULT_PARAMETER))), out)
  {
    hide InAllTags, TypeFromTag, Elements, Blobs, GetAll, SameValue, DropInvalid, CountInvalid, Deserialized, Stale;
    ElementsHoldTags(ps);
    var places := Resize(prior, |ps|, DEFAULT_PARAMETER);
    FrameIsNeverRejected(Blobs(ps), |ps|, Elements(ps), input, prior);
    var start := In(StreamOn(Blobs(ps)), StreamOn(Elements(ps)), 0);
    var (j, out) := GetAll(start, places, |ps|);
    GetAllStale(ps, u, places);
    InvalidsAreCounted(start, places, |ps|);
    assert out[..|ps|] == out;
    DropInvalidPointwise(Stale(ps, u, places), out);
    if j.invalids == 0 {
      NothingToDrop(out);
    }
  }

  /** All tags are listed, except that the last may be an unlisted one that selects no field. */
  predicate Recoverable(ps: seq<KeyParameter>) {
    forall i :: 0 <= i < |ps| ==> InAllTags(ps[i].tag) || (i == |ps| - 1 && !SelectsField(ps[i]))
  }

  predicate SelectsField(p: KeyParameter) { HasBlob(p) || ValueSize(p.tag) > 0 }

  /** A frame is read back whatever the vector held before exactly if it is recoverable. */
  lemma ReadsBackExactly(ps: seq<KeyParameter>, input: Stream)
    requires Fits(ps)
    requires input.Good() && input.pos <= |input.data| && Format(ps) <= input.data[input.pos..]
    ensures Recoverable(ps) <==>
      forall prior :: SameValues(DropInvalid(ps), Deserialized(input, prior).1)
  {
    hide InAllTags, Format, Fits, Deserialized, DropInvalid, SameValues, SelectsField;
    if AllListed(ps) {
      forall prior
        ensures SameValues(DropInvalid(ps), Deserialized(input, prior).1)
      {
        DeserializedFormat(ps, input, prior);
      }
    } else {
      var u := FirstUnlisted(ps);
      if u < |ps| - 1 {
        PlacesBehindMatter(ps, u, input);
      } else if SelectsField(ps[u]) {
        LastPlaceMatters(ps, input);
      } else {
        forall prior
          ensures SameValues(DropInvalid(ps), Deserialized(input, prior).1)
        {
          LastTagSuffices(ps, input, prior);
        }
      }
    }
  }

  ghost function FirstUnlisted(ps: seq<KeyParameter>): (u: nat)
    requires !AllListed(ps)
    ensures u < |ps| && AllListed(ps[..u]) && !InAllTags(ps[u].tag)
  {
    if AllListed(ps[..|ps| - 1]) then |ps| - 1 else FirstUnlisted(ps[..|ps| - 1])
  }

  /** The last place decides whether it is dropped. */
  lemma PlacesBehindMatter(ps: seq<KeyParameter>, u: nat, input: Stream)
    requires u < |ps| - 1 && Fits(ps) && AllListed(ps[..u]) && !InAllTags(ps[u].tag)
    requires input.Good() && input.pos <= |input.data| && Format(ps) <= input.data[input.pos..]
    ensures exists prior :: !SameValues(DropInvalid(ps), Deserialized(input, prior).1)
  {
    hide InAllTags, Format, Fits, Deserialized, DropInvalid, SameValue, Stale, Resize;
    var dropped := seq(|ps|, i => DEFAULT_PARAMETER);
    var kept := dropped[|ps| - 1 := DEFAULT_PARAMETER.(tag := 1)];
    UnlistedTagLeavesStale(ps, u, input, dropped);
    UnlistedTagLeavesStale(ps, u, input, kept);
    ResizeWhole(dropped);
    ResizeWhole(kept);
    LastPlaceDropped(ps, u, dropped, kept);
  }

  lemma ResizeWhole(s: seq<KeyParameter>)
    ensures Resize(s, |s|, DEFAULT_PARAMETER) == s
  {
  }

  lemma LastPlaceDropped(ps: seq<KeyParameter>, u: nat, a: seq<KeyParameter>, b: seq<KeyParameter>)
    requires u < |ps| - 1 && |a| == |b| == |ps| && forall i :: 0 <= i < |ps| - 1 ==> a[i] == b[i]
    requires a[|ps| - 1].tag == TAG_INVALID != b[|ps| - 1].tag
    ensures |DropInvalid(Stale(ps, u, a))| != |DropInvalid(Stale(ps, u, b))|
  {
    hide InAllTags, HasBlob, DropInvalid;
    var n, s, t := |ps|, Stale(ps, u, a), Stale(ps, u, b);
    forall i | 0 <= i < n - 1
      ensures s[i] == t[i]
    {
      assert a[i] == b[i];
    }
    assert s[..n - 1] == t[..n - 1];
    StaleBehind(ps, u, a, n - 1);
    StaleBehind(ps, u, b, n - 1);
  }

  function Other(p: KeyParameter): KeyParameter {
    p.(f := p.f[0 := if p.f[0] == 0 then 1 else 0], blob := p.blob + [0])
  }

  lemma OtherValue(p: KeyParameter)
    requires SelectsField(p)
    ensures !SameValue(p, Other(p))
  {
    hide TypeFromTag;
    var q, n := Other(p), ValueSize(p.tag);
    if HasBlob(p) {
      assert |q.blob| != |p.blob|;
    } else {
      assert p.f[..n][0] != q.f[..n][0];
    }
  }

  lemma LastPlaceMatters(ps: seq<KeyParameter>, input: Stream)
    requires ps != [] && Fits(ps) && AllListed(ps[..|ps| - 1])
    requires var p := ps[|ps| - 1]; !InAllTags(p.tag) && SelectsField(p)
    requires input.Good() && input.pos <= |input.data| && Format(ps) <= input.data[input.pos..]
    ensures exists prior :: !SameValues(DropInvalid(ps), Deserialized(input, prior).1)
  {
    hide *;
    var p, n := ps[|ps| - 1], |ps|;
    var prior := ps[n - 1 := Other(p)];
    UnlistedTagLeavesStale(ps, n - 1, input, prior);
    ResizeWhole(prior);
    StaleEndsOther(ps);
    OtherValue(p);
    var written, stale := DropInvalid(ps), DropInvalid(Stale(ps, n - 1, prior));
    LastDiffers(written, stale, Deserialized(input, prior).1);
  }

  lemma LastDiffers(written: seq<KeyParameter>, stale: seq<KeyParameter>, out: seq<KeyParameter>)
    requires written != [] && stale != [] && !SameValue(written[|written| - 1], stale[|stale| - 1])
    requires SameValues(stale, out)
    ensures !SameValues(written, out)
  {
    hide SameValue;
    if SameValues(written, out) {
      var last := |out| - 1;
      assert SameValue(written[last], out[last]) && SameValue(stale[last], out[last]);
      SameValueJoins(written[last], stale[last], out[last]);
    }
  }

  lemma StaleEndsOther(ps: seq<KeyParameter>)
    requires ps != [] && !InAllTags(ps[|ps| - 1].tag)
    ensures var n := |ps|;
      var p := ps[n - 1];
      var was, stale := DropInvalid(ps), DropInvalid(Stale(ps, n - 1, ps[n - 1 := Other(p)]));
      && was != [] && stale != []
      && was[|was| - 1] == p && stale[|stale| - 1] == Other(p)
  {
    InvalidIsListed();
    hide InAllTags;
  }

  lemma SameValueJoins(p: KeyParameter, q: KeyParameter, r: KeyParameter)
    requires SameValue(p, r) && SameValue(q, r)
    ensures SameValue(p, q)
  {
    hide TypeFromTag, ValueSize;
  }

  lemma LastTagSuffices(ps: seq<KeyParameter>, input: Stream, prior: seq<KeyParameter>)
    requires ps != [] && Fits(ps) && AllListed(ps[..|ps| - 1])
    requires var p := ps[|ps| - 1]; !InAllTags(p.tag) && !SelectsField(p)
    requires input.Good() && input.pos <= |input.data| && Format(ps) <= input.data[input.pos..]
    ensures SameValues(DropInvalid(ps), Deserialized(input, prior).1)
  {
    hide InAllTags, TypeFromTag, Format, Fits, Deserialized, DropInvalid, SelectsField, Stale, Resize, SameValue;
    var u, places := |ps| - 1, Resize(prior, |ps|, DEFAULT_PARAMETER);
    UnlistedTagLeavesStale(ps, u, input, prior);
    StaleIsWritten(ps, places);
    DropInvalidPointwise(ps, Stale(ps, u, places));
    SameValuesJoin(DropInvalid(ps), DropInvalid(Stale(ps, u, places)), Deserialized(input, prior).1);
  }

  lemma StaleIsWritten(ps: seq<KeyParameter>, places: seq<KeyParameter>)
    requires ps != [] && |places| == |ps| && !SelectsField(ps[|ps| - 1])
    ensures SameValues(ps, Stale(ps, |ps| - 1, places))
  {
    hide InAllTags, TypeFromTag;
    var u := |ps| - 1;
    assert SameValue(ps[u], Stale(ps, u, places)[u]);
  }

  lemma SameValuesJoin(ps: seq<KeyParameter>, qs: seq<KeyParameter>, rs: seq<KeyParameter>)
    requires SameValues(ps, qs) && SameValues(qs, rs)
    ensures SameValues(ps, rs)
  {
    hide TypeFromTag, ValueSize;
    forall i | 0 <= i < |ps|
      ensures SameValue(ps[i], rs[i])
    {
      assert SameValue(ps[i], qs[i]) && SameValue(qs[i], rs[i]);
    }
  }

  const CONFIRMATION_TOKEN: Tag := 0x9000_03ED
  const APPLICATION_ID: Tag := 0x9000_0259

  /** One frame: `CONFIRMATION_TOKEN` is not listed, so whatever entry follows it is not read, and the
      caller gets the identifier its vector held before, emptied. */
  lemma TokenHidesNextEntry(token: KeyParameter, next: KeyParameter, first: KeyParameter, second: KeyParameter)
    requires token.tag == CONFIRMATION_TOKEN && second.tag == APPLICATION_ID && Fits([token, next])
    ensures var (rest, out) := Deserialized(StreamOn(Format([token, next])), [first, second]);
      && rest.Good() && |out| == 2
      && out[0].tag == CONFIRMATION_TOKEN && out[0].blob == first.blob
      && out[1].tag == APPLICATION_ID && out[1].blob == []
  {
    hide TypeFromTag, InAllTags, Format, Fits, Deserialized, DropInvalid, Stale, Resize;
    var ps, prior := [token, next], [first, second];
    TokenIsUnlisted();
    UnlistedTagLeavesStale(ps, 0, StreamOn(Format(ps)), prior);
    ResizeWhole(prior);
    TokenStale(ps, prior);
    var stale := Stale(ps, 0, prior);
    NoInvalids(stale);
    NothingToDrop(stale);
    var out := Deserialized(StreamOn(Format(ps)), prior).1;
    assert SameValue(stale[0], out[0]) && SameValue(stale[1], out[1]);
  }

  lemma TokenStale(ps: seq<KeyParameter>, prior: seq<KeyParameter>)
    requires |ps| == |prior| == 2 && ps[0].tag == CONFIRMATION_TOKEN && prior[1].tag == APPLICATION_ID
    ensures Stale(ps, 0, prior) == [prior[0].(tag := CONFIRMATION_TOKEN), prior[1].(blob := [])]
  {
    TokenIsUnlisted();
    hide TypeFromTag, InAllTags;
  }

  lemma TokenIsUnlisted()
    ensures !InAllTags(CONFIRMATION_TOKEN) && InAllTags(APPLICATION_ID)
    ensures IsBlob(TypeFromTag(CONFIRMATION_TOKEN)) && IsBlob(TypeFromTag(APPLICATION_ID))
  {
  }

  // ----- regions that end early

  /** A count larger than the elements there are: the places behind them keep what they held. */
  lemma GetAllMissing(ps: seq<KeyParameter>, places: seq<KeyParameter>)
    requires |ps| < |places| && Fits(ps) && AllListed(ps)
    ensures var (j, out) := GetAll(In(StreamOn(Blobs(ps)), StreamOn(Elements(ps)), 0), places, |places|);
      SameValues(ps + LeftAll(places[|ps|..]), out)
  {
    hide *;
    var start := In(StreamOn(Blobs(ps)), StreamOn(Elements(ps)), 0);
    var all := GetAll(start, places, |places|).1;
    var expected := ps + LeftAll(places[|ps|..]);
    forall i | 0 <= i < |places|
      ensures SameValue(expected[i], all[i])
    {
      GetAllMissingAt(ps, places, i);
    }
    EachSame(expected, all);
  }

  lemma EachSame(ps: seq<KeyParameter>, qs: seq<KeyParameter>)
    requires |ps| == |qs| && forall i :: 0 <= i < |ps| ==> SameValue(ps[i], qs[i])
    ensures SameValues(ps, qs)
  {
    hide SameValue;
  }

  lemma GetAllMissingAt(ps: seq<KeyParameter>, places: seq<KeyParameter>, i: nat)
    requires |ps| < |places| && Fits(ps) && AllListed(ps) && i < |places|
    ensures var (j, out) := GetAll(In(StreamOn(Blobs(ps)), StreamOn(Elements(ps)), 0), places, |places|);
      SameValue((ps + LeftAll(places[|ps|..]))[i], out[i])
  {
    hide *;
    var start := In(StreamOn(Blobs(ps)), StreamOn(Elements(ps)), 0);
    var expected, out := (ps + LeftAll(places[|ps|..]))[i], GetAll(start, places, |places|).1[i];
    GetAllRest(ps, places);
    if i < |ps| {
      assert expected == ps[i];
    } else {
      assert places[|ps|..][i - |ps|] == places[i];
      assert expected == Left(places[i]) == out;
      SameAsItself(out);
    }
  }

  /** The elements there are are read; behind them every round leaves its place. */
  lemma GetAllRest(ps: seq<KeyParameter>, places: seq<KeyParameter>)
    requires |ps| < |places| && Fits(ps) && AllListed(ps)
    ensures var (j, out) := GetAll(In(StreamOn(Blobs(ps)), StreamOn(Elements(ps)), 0), places, |places|);
      && (forall i :: 0 <= i < |ps| ==> SameValue(ps[i], out[i]))
      && (forall i :: |ps| <= i < |places| ==> out[i] == Left(places[i]))
  {
    hide *;
    var n, start := |ps|, In(StreamOn(Blobs(ps)), StreamOn(Elements(ps)), 0);
    GetAllFront(ps, places);
    LeftBehind(start, places, n + 1);
    var next, all := GetAll(start, places, n + 1).1, GetAll(start, places, |places|).1;
    assert all[n] == next[n];
  }

  lemma LeftBehind(i: In, places: seq<KeyParameter>, n: nat)
    requires n <= |places| && !GetAll(i, places, n).0.elements.Good()
    ensures var next, all := GetAll(i, places, n).1, GetAll(i, places, |places|).1;
      && (forall m :: 0 <= m < n ==> all[m] == next[m])
      && (forall m :: n <= m < |places| ==> all[m] == Left(places[m]))
  {
    hide *;
    GetAllFailed(i, places, n, |places|);
    SamePrefix(GetAll(i, places, |places|).1, GetAll(i, places, n).1, n);
  }

  lemma SamePrefix(a: seq<KeyParameter>, b: seq<KeyParameter>, n: nat)
    requires n <= |a| && n <= |b| && a[..n] == b[..n]
    ensures forall i :: 0 <= i < n ==> a[i] == b[i]
  {
    forall i | 0 <= i < n
      ensures a[i] == b[i]
    {
      assert a[i] == a[..n][i] == b[..n][i];
    }
  }

  lemma GetAllFront(ps: seq<KeyParameter>, places: seq<KeyParameter>)
    requires |ps| < |places| && Fits(ps) && AllListed(ps)
    ensures var (j, out) := GetAll(In(StreamOn(Blobs(ps)), StreamOn(Elements(ps)), 0), places, |ps| + 1);
      && !j.elements.Good()
      && (forall i :: 0 <= i < |ps| ==> SameValue(ps[i], out[i]))
      && out[|ps|] == Left(places[|ps|])
  {
    hide InAllTags, GetAll, GetParam, Left, LeftAll, Elements, Blobs, Stream.Good, SameValue, Fits;
    var n, start := |ps|, In(StreamOn(Blobs(ps)), StreamOn(Elements(ps)), 0);
    assert ps[..n] == ps;
    GetAllReads(ps, places, n);
    LaterUntouched(start, places, n);
    GetAllAtEnd(start, places, n, ps);
  }

  lemma SameAsItself(p: KeyParameter)
    ensures SameValue(p, p)
  {
  }

  function LeftAll(places: seq<KeyParameter>): (r: seq<KeyParameter>)
    ensures |r| == |places| && forall i :: 0 <= i < |r| ==> r[i] == Left(places[i])
  {
    seq(|places|, i requires 0 <= i < |places| => Left(places[i]))
  }

  /** The round that meets the end of the elements. */
  lemma GetAllAtEnd(start: In, places: seq<KeyParameter>, n: nat, ps: seq<KeyParameter>)
    requires n < |places|
    requires var (j, early) := GetAll(start, places, n);
      early[n] == places[n] && j.elements == Stream(Elements(ps), |Elements(ps)|, false, false, false)
    ensures var (j, early), (k, next) := GetAll(start, places, n), GetAll(start, places, n + 1);
      && !k.elements.Good()
      && next == early[n := Left(places[n])]
  {
    hide GetParam, Left, Elements;
    var (j, early) := GetAll(start, places, n);
    GetParamAtEnd(j, early[n]);
  }

  lemma GetParamAtEnd(i: In, p: KeyParameter)
    requires i.elements.Good() && i.elements.pos == |i.elements.data|
    ensures var (j, q) := GetParam(i, p);
      !j.elements.Good() && q == Left(p)
  {
    hide InAllTags, TypeFromTag, LittleEndian, LittleEndianValue;
    Uint32RoundTrip(p.tag);
    ZeroLength();
    InvalidHasNoValue();
    assert p.f[..ValueSize(p.tag)] + p.f[ValueSize(p.tag)..] == p.f;
    var (e, tagBytes) := i.elements.Read(LittleEndian(p.tag, 4));
    assert tagBytes == LittleEndian(p.tag, 4);
  }

  lemma MissingElementsLeaveStale(ps: seq<KeyParameter>, count: nat, input: Stream, prior: seq<KeyParameter>)
    requires |ps| < count < LIMIT32 && Fits(ps) && AllListed(ps)
    requires input.Good() && input.pos <= |input.data|
    requires Frame(Blobs(ps), count, Elements(ps)) <= input.data[input.pos..]
    ensures var (rest, out) := Deserialized(input, prior);
      && rest == input.(pos := input.pos + |Frame(Blobs(ps), count, Elements(ps))|)
      && SameValues(DropInvalid(ps + LeftAll(Resize(prior, count, DEFAULT_PARAMETER)[|ps|..])), out)
  {
    hide InAllTags, TypeFromTag, Elements, Blobs, GetAll, SameValue, DropInvalid, CountInvalid, Deserialized, LeftAll,
      Frame;
    var places := Resize(prior, count, DEFAULT_PARAMETER);
    FrameIsNeverRejected(Blobs(ps), count, Elements(ps), input, prior);
    var start := In(StreamOn(Blobs(ps)), StreamOn(Elements(ps)), 0);
    var (j, out) := GetAll(start, places, count);
    GetAllMissing(ps, places);
    InvalidsAreCounted(start, places, count);
    assert out[..count] == out;
    DropInvalidPointwise(ps + LeftAll(places[|ps|..]), out);
    if j.invalids == 0 {
      NothingToDrop(out);
    }
  }

  /** A blob record read from four bytes of length and four of offset: what lies there in the indirect
      region; or, beyond its end, what is left of it in front of what the place held, cut or filled up
      with zeros, and then the region is not read again. */
  lemma BlobExactly(i: In, blob: seq<byte>, length: nat, offset: nat)
    requires length < LIMIT32 && offset < LIMIT32
    requires i.elements.Good() && i.elements.pos <= |i.elements.data|
    requires LittleEndian(length, 4) + LittleEndian(offset, 4) <= i.elements.data[i.elements.pos..]
    ensures var (j, r) := GetBlob(i, blob);
      var held := if length <= |blob| then blob[..length] else blob + Zeros(length - |blob|);
      var region := i.indirect.data;
      && j.elements == i.elements.(pos := i.elements.pos + 8)
      && (i.indirect.Good() && offset + length <= |region| ==>
            r == region[offset..offset + length] && j.indirect == i.indirect.(pos := offset + length))
      && (i.indirect.Good() && offset <= |region| < offset + length ==>
            r == region[offset..] + held[|region| - offset..] && !j.indirect.Good() && j.indirect.fail)
      && (i.indirect.Good() && |region| < offset ==> r == held && !j.indirect.Good() && j.indirect.fail)
      && (i.indirect.fail ==> r == held && j.indirect.fail)
  {
    hide LittleEndian, LittleEndianValue, Stream.Read, Stream.Seek, Resize;
    Uint32RoundTrip(length);
    Uint32RoundTrip(offset);
    var p, f := i.elements.pos, LittleEndian(length, 4) + LittleEndian(offset, 4);
    assert f[0..4] == LittleEndian(length, 4) && f[4..8] == LittleEndian(offset, 4);
    ReadPart(i.elements, f, 0, 4);
    ReadPart(i.elements, f, 4, 4);
    assert i.elements.(pos := p + 0) == i.elements;
    var held := Resize(blob, length, 0);
    ResizeBytes(blob, length);
    SeekThenRead(i.indirect, offset, held);
  }

  lemma ResizeBytes(blob: seq<byte>, n: nat)
    ensures Resize(blob, n, 0) == if n <= |blob| then blob[..n] else blob + Zeros(n - |blob|)
  {
  }

  lemma SeekThenRead(s: Stream, offset: nat, held: seq<byte>)
    ensures var (t, r), n, length := s.Seek(offset).Read(held), |s.data|, |held|;
      && (s.Good() && offset + length <= n ==>
            r == s.data[offset..offset + length] && t == s.(pos := offset + length))
      && (s.Good() && offset <= n < offset + length ==>
            r == s.data[offset..] + held[n - offset..] && !t.Good() && t.fail)
      && (s.Good() && n < offset ==> r == held && !t.Good() && t.fail)
      && (s.fail ==> r == held && t.fail)
  {
  }

  // ----- the code

  class OutStreams {
    var indirect: seq<byte>
    var elements: seq<byte>
    var bad: bool
    var skipped: nat

    constructor ()
      ensures State() == EMPTY_OUT
    {
      indirect, elements, bad, skipped := [], [], false, 0;
    }

    ghost function State(): Out
      reads this
    {
      Out(indirect, elements, bad, skipped)
    }

    method Write(s: seq<byte>)
      modifies this
      ensures State() == old(State()).Put(s)
    {
      if !bad {
        elements := elements + s;
      }
    }

    method SerializeBlob(blob: seq<byte>)
      modifies this
      ensures State() == old(State()).PutBlob(blob)
    {
      if |blob| >= LIMIT32 {
        bad := true;
        return;
      }
      Write(LittleEndian(|blob|, 4));
      var offset := |indirect|;
      if offset >= LIMIT32 || (offset % LIMIT32 + |blob|) % LIMIT32 < offset % LIMIT32 {
        bad := true;
        return;
      }
      Write(LittleEndian(offset, 4));
      indirect := indirect + blob;
    }

    method SerializeParam(p: KeyParameter)
      modifies this
      ensures State() == old(State()).PutParam(p)
    {
      if !InAllTags(p.tag) || p.tag == TAG_INVALID {
        skipped := skipped + 1;
      } else {
        Write(LittleEndian(p.tag, 4));
        if HasBlob(p) {
          SerializeBlob(p.blob);
        } else {
          Write(p.f[..ValueSize(p.tag)]);
        }
      }
    }
  }

  /** Succeeds exactly when both regions fit in 32 bits, and then writes the documented format of
      the listed entries other than INVALID. */
  method Serialize(params: seq<KeyParameter>) returns (r: Result<seq<byte>>)
    ensures r == Serialized(params)
    ensures r == if Fits(Writable(params)) then Ok(Format(Writable(params))) else Bad
  {
    var streams := new OutStreams();
    for i := 0 to |params|
      invariant fresh(streams)
      invariant streams.State() == PutAll(params[..i])
    {
      streams.SerializeParam(params[i]);
      assert params[..i + 1][..i] == params[..i];
    }
    assert params[..|params|] == params;
    SerializedIsFormat(params);
    PutAllMeetsFormat(params);
    if streams.bad || |streams.indirect| >= LIMIT32 || |streams.elements| >= LIMIT32 {
      return Bad;
    }
    var elementCount := (|params| - streams.skipped) % LIMIT32;
    var out := LittleEndian(|streams.indirect|, 4);
    out := out + streams.indirect;
    out := out + LittleEndian(elementCount, 4);
    out := out + LittleEndian(|streams.elements|, 4);
    out := out + streams.elements;
    r := Ok(out);
  }

  class InStreams {
    var indirect: Stream
    var elements: Stream
    var invalids: nat

    constructor (indirectBuffer: seq<byte>, elementsBuffer: seq<byte>)
      ensures State() == In(StreamOn(indirectBuffer), StreamOn(elementsBuffer), 0)
    {
      indirect, elements, invalids := StreamOn(indirectBuffer), StreamOn(elementsBuffer), 0;
    }

    ghost function State(): In
      reads this
    {
      In(indirect, elements, invalids)
    }

    method DeserializeBlob(blob: seq<byte>) returns (r: seq<byte>)
      modifies this
      ensures (State(), r) == GetBlob(old(State()), blob)
    {
      var (e1, lengthBytes) := elements.Read(Zeros(4));
      var resized := Resize(blob, LittleEndianValue(lengthBytes), 0);
      var (e2, offsetBytes) := e1.Read(Zeros(4));
      elements := e2;
      indirect := indirect.Seek(LittleEndianValue(offsetBytes));
      var (i, bytes) := indirect.Read(resized);
      indirect, r := i, bytes;
    }

    method DeserializeParam(p: KeyParameter) returns (q: KeyParameter)
      modifies this
      ensures (State(), q) == GetParam(old(State()), p)
    {
      var (e, tagBytes) := elements.Read(LittleEndian(p.tag, 4));
      Uint32Bounded(tagBytes);
      elements := e;
      q := p.(tag := LittleEndianValue(tagBytes));
      if q.tag == TAG_INVALID {
        invalids := invalids + 1;
      } else if !InAllTags(q.tag) {
        elements := elements.(bad := true);
      } else if HasBlob(q) {
        var blob := DeserializeBlob(q.blob);
        q := q.(blob := blob);
      } else {
        var n := ValueSize(q.tag);
        var (e', value) := elements.Read(q.f[..n]);
        elements := e';
        q := q.(f := value + q.f[n..]);
      }
    }
  }

  /** The legacy filter: moves the other entries into a vector sized by the count of invalids. */
  method Filter(params: seq<KeyParameter>, invalids: nat) returns (filtered: seq<KeyParameter>)
    requires invalids == CountInvalid(params)
    ensures filtered == DropInvalid(params)
  {
    hide DropInvalid, CountInvalid;
    assert |params| - invalids == |DropInvalid(params)|;
    filtered := seq(|params| - invalids, i => DEFAULT_PARAMETER);
    var next := 0;
    DroppedStart(params);
    for i := 0 to |params|
      invariant next == |DropInvalid(params[..i])| <= |filtered| == |params| - invalids
      invariant filtered[..next] == DropInvalid(params[..i])
    {
      DroppedStep(params, i);
      DroppedGrows(params, i + 1);
      if params[i].tag != TAG_INVALID {
        filtered := filtered[next := params[i]];
        next := next + 1;
        assert filtered[..next] == filtered[..next - 1] + [params[i]];
      }
    }
    assert params[..|params|] == params;
    assert filtered[..next] == filtered;
  }

  lemma DroppedStart(ps: seq<KeyParameter>)
    ensures DropInvalid(ps[..0]) == []
  {
  }

  lemma DroppedStep(ps: seq<KeyParameter>, i: nat)
    requires i < |ps|
    ensures DropInvalid(ps[..i + 1]) == DropInvalid(ps[..i]) + if ps[i].tag == TAG_INVALID then [] else [ps[i]]
  {
    assert ps[..i + 1][..i] == ps[..i];
  }

  lemma {:induction false} DroppedGrows(ps: seq<KeyParameter>, k: nat)
    requires k <= |ps|
    ensures |DropInvalid(ps[..k])| <= |DropInvalid(ps)|
  {
    if k < |ps| {
      DroppedGrows(ps[..|ps| - 1], k);
      assert ps[..|ps| - 1][..k] == ps[..k];
    } else {
      assert ps[..k] == ps;
    }
  }

  method Deserialize(input: Stream, prior: seq<KeyParameter>) returns (rest: Stream, params: seq<KeyParameter>)
    ensures (rest, params) == Deserialized(input, prior)
  {
    var (in1, indirectSize) := input.Read(Zeros(4));
    var (in2, indirect) := in1.Read(Zeros(LittleEndianValue(indirectSize)));
    var (in3, elementCount) := in2.Read(Zeros(4));
    var (in4, elementsSize) := in3.Read(Zeros(4));
    var (in5, elements) := in4.Read(Zeros(LittleEndianValue(elementsSize)));
    rest, params := in5, prior;
    if rest.bad {
      return;
    }
    var streams := new InStreams(indirect, elements);
    ghost var start := streams.State();
    var count := LittleEndianValue(elementCount);
    params := Resize(params, count, DEFAULT_PARAMETER);
    ghost var resized := params;
    for i := 0 to count
      invariant fresh(streams)
      invariant |params| == count
      invariant (streams.State(), params) == GetAll(start, resized, i)
    {
      var p := streams.DeserializeParam(params[i]);
      params := params[i := p];
    }
    InvalidsAreCounted(start, resized, count);
    assert params[..count] == params;
    if streams.invalids > 0 {
      params := Filter(params, streams.invalids);
    }
  }
}
