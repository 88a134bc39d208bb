/** The UTF-8 check of the confirmation UI's CBOR writer, which copies while it checks. */
module Utf8 {
  import opened Bytes

  predicate Continuation(b: byte) { 0x80 <= b < 0xC0 }

  /** How many continuation bytes follow a lead byte, or -1 if this cannot be one. */
  function Following(b: byte): int {
    if b < 0x80 then 0
    else if b < 0xC0 then -1
    else if b < 0xE0 then 1
    else if b < 0xF0 then 2
    else if b < 0xF8 then 3
    else -1
  }

  /** The string splits into lead bytes, each followed by its continuation bytes. */
  predicate Structured(s: seq<byte>) {
    s == [] || (Following(s[0]) >= 0 && StructuredAfter(s[1..], Following(s[0])))
  }

  /** As Structured, once `n` continuation bytes have been read. */
  predicate StructuredAfter(s: seq<byte>, n: nat)
    decreases |s|, n
  {
    if n == 0 then s == [] || (Following(s[0]) >= 0 && StructuredAfter(s[1..], Following(s[0])))
    else s != [] && Continuation(s[0]) && StructuredAfter(s[1..], n - 1)
  }

  /** `c <<= 1` on a char. */
  function Shl(c: byte): (r: byte)
    ensures r == if c >= 128 then 2 * c - 256 else 2 * c
  {
    var wide: int := c;
    if c >= 128 then 2 * wide - 256 else 2 * wide
  }

  /** How many ones the code counts before the first zero. */
  function Ones(c: byte): (n: nat)
    decreases c
  {
    if c >= 128 then 1 + Ones(Shl(c)) else 0
  }

  lemma OnesOfLead(b: byte)
    requires b >= 0x80
    ensures var n := Ones(Shl(b));
      if n < 1 || n > 3 then Following(b) == -1 else Following(b) == n
  {
    var c1 := Shl(b);
    if c1 >= 128 {
      var c2 := Shl(c1);
      assert Ones(c1) == 1 + Ones(c2);
      if c2 >= 128 {
        var c3 := Shl(c2);
        assert Ones(c2) == 1 + Ones(c3);
        if c3 >= 128 {
          assert Ones(c3) == 1 + Ones(Shl(c3));
        }
      }
    }
  }

  /** Copies the input into the output while checking it; the output pointer is not null. */
  method CheckUTF8Copy(input: seq<byte>, out: array<byte>, at: nat) returns (ok: bool)
    requires at + |input| <= out.Length
    modifies out
    ensures ok == Structured(input)
    ensures ok ==> out[at..at + |input|] == input
    ensures out[..at] == old(out[..at]) && out[at + |input|..] == old(out[at + |input|..])
  {
    var multiByteLength: nat := 0;
    var i := 0;
    while i != |input|
      invariant 0 <= i <= |input|
      invariant Structured(input) == StructuredAfter(input[i..], multiByteLength)
      invariant out[at..at + i] == input[..i]
      invariant out[..at] == old(out[..at]) && out[at + |input|..] == old(out[at + |input|..])
      decreases |input| - i
    {
      var c := input[i];
      assert input[i..][0] == c && input[i..][1..] == input[i + 1..];
      if multiByteLength > 0 {
        multiByteLength := multiByteLength - 1;
        if !Continuation(c) {
          return false;
        }
      } else if c >= 0x80 {
        OnesOfLead(c);
        multiByteLength := CountOnes(Shl(c));
        if multiByteLength < 1 {
          return false;
        }
        if multiByteLength > 3 {
          return false;
        }
      }
      out[at + i] := c;
      i := i + 1;
    }
    assert input[i..] == [];
    return multiByteLength == 0;
  }

  method CountOnes(lead: byte) returns (n: nat)
    ensures n == Ones(lead)
  {
    n := 0;
    var c := lead;
    while c >= 128
      invariant Ones(lead) == n + Ones(c)
      decreases c
    {
      n := n + 1;
      c := Shl(c);
    }
  }

  lemma {:induction false} StructuredAfterConcat(s: seq<byte>, n: nat, t: seq<byte>)
    requires StructuredAfter(s, n) && Structured(t)
    ensures StructuredAfter(s + t, n)
    decreases |s|
  {
    if s == [] {
      assert s + t == t;
    } else {
      assert (s + t)[1..] == s[1..] + t;
      StructuredAfterConcat(s[1..], if n > 0 then n - 1 else Following(s[0]), t);
    }
  }

  /** Accepted strings may be joined. */
  lemma AcceptedConcat(s: seq<byte>, t: seq<byte>)
    requires Structured(s) && Structured(t)
    ensures Structured(s + t)
  {
    StructuredAfterConcat(s, 0, t);
  }

  // ----- section 4 of RFC 3629

  predicate In(b: byte, low: byte, high: byte) { low <= b <= high }

  /** The length of the UTF-8 character at the front, by the ABNF; 0 if there is none. */
  function CharLength(s: seq<byte>): (n: nat)
    ensures n <= |s|
  {
    if |s| >= 1 && In(s[0], 0x00, 0x7F) then 1
    else if |s| >= 2 && In(s[0], 0xC2, 0xDF) && In(s[1], 0x80, 0xBF) then 2
    else if |s| >= 3 && In(s[2], 0x80, 0xBF) && (
        || (s[0] == 0xE0 && In(s[1], 0xA0, 0xBF))
        || (In(s[0], 0xE1, 0xEC) && In(s[1], 0x80, 0xBF))
        || (s[0] == 0xED && In(s[1], 0x80, 0x9F))
        || (In(s[0], 0xEE, 0xEF) && In(s[1], 0x80, 0xBF))) then 3
    else if |s| >= 4 && In(s[2], 0x80, 0xBF) && In(s[3], 0x80, 0xBF) && (
        || (s[0] == 0xF0 && In(s[1], 0x90, 0xBF))
        || (In(s[0], 0xF1, 0xF3) && In(s[1], 0x80, 0xBF))
        || (s[0] == 0xF4 && In(s[1], 0x80, 0x8F))) then 4
    else 0
  }

  predicate ValidUtf8(s: seq<byte>) {
    s == [] || (CharLength(s) > 0 && ValidUtf8(s[CharLength(s)..]))
  }

  /** Every valid UTF-8 string is accepted. */
  lemma {:induction false} ValidIsAccepted(s: seq<byte>)
    ensures ValidUtf8(s) ==> Structured(s)
  {
    if s != [] && ValidUtf8(s) {
      var n := CharLength(s);
      ValidIsAccepted(s[n..]);
      CharIsStructured(s);
    }
  }

  lemma CharIsStructured(s: seq<byte>)
    requires s != [] && CharLength(s) > 0 && Structured(s[CharLength(s)..])
    ensures Structured(s)
  {
    var n := CharLength(s);
    assert Following(s[0]) == n - 1;
    var t := s[n..];
    assert StructuredAfter(t, 0);
    if n >= 2 {
      assert s[n - 1..][0] == s[n - 1] && s[n - 1..][1..] == t;
      assert StructuredAfter(s[n - 1..], 1);
      if n >= 3 {
        assert s[n - 2..][0] == s[n - 2] && s[n - 2..][1..] == s[n - 1..];
        assert StructuredAfter(s[n - 2..], 2);
        if n >= 4 {
          assert s[n - 3..][0] == s[n - 3] && s[n - 3..][1..] == s[n - 2..];
          assert StructuredAfter(s[n - 3..], 3);
        }
      }
    }
  }

  /** The lead byte at `i` starts no overlong form, no surrogate and nothing above U+10FFFF. */
  predicate NarrowAt(s: seq<byte>, i: nat)
    requires i < |s|
  {
    && !In(s[i], 0xC0, 0xC1) && !In(s[i], 0xF5, 0xF7)
    && (i + 1 < |s| ==>
          && (s[i] == 0xE0 ==> s[i + 1] >= 0xA0)
          && (s[i] == 0xED ==> s[i + 1] < 0xA0)
          && (s[i] == 0xF0 ==> s[i + 1] >= 0x90)
          && (s[i] == 0xF4 ==> s[i + 1] < 0x90))
  }

  predicate Narrow(s: seq<byte>) { forall i :: 0 <= i < |s| ==> NarrowAt(s, i) }

  /** An accepted string is valid UTF-8 exactly if each of its lead bytes is narrow. */
  lemma {:induction false} ValidExactly(s: seq<byte>)
    ensures ValidUtf8(s) <==> Structured(s) && Narrow(s)
  {
    hide CharLength, NarrowAt, Structured;
    if s == [] {
      assert Structured(s) by { EmptyIsStructured(); }
    } else {
      if ValidUtf8(s) {
        var n := CharLength(s);
        ValidIsAccepted(s);
        ValidExactly(s[n..]);
        CharIsNarrow(s);
        NarrowFrom(s, n);
      } else if Structured(s) && Narrow(s) {
        NarrowChar(s);
        NarrowFrom(s, CharLength(s));
        ValidExactly(s[CharLength(s)..]);
      }
    }
  }

  lemma EmptyIsStructured()
    ensures Structured([])
  {
  }

  /** An accepted string whose first lead byte is narrow starts with a valid character. */
  lemma NarrowChar(s: seq<byte>)
    requires s != [] && Structured(s) && NarrowAt(s, 0)
    ensures CharLength(s) == Following(s[0]) + 1 > 0 && Structured(s[CharLength(s)..])
  {
    hide Structured;
    var n := Following(s[0]) + 1;
    assert n > 0 && StructuredAfter(s[1..], n - 1) by { Unfold(s); }
    FirstChar(s[1..], n - 1);
    assert s[n..] == s[1..][n - 1..];
    assert forall k :: 1 <= k < n ==> s[k] == s[1..][k - 1];
    ContinuedChar(s, n);
  }

  lemma Unfold(s: seq<byte>)
    requires s != [] && Structured(s)
    ensures Following(s[0]) >= 0 && StructuredAfter(s[1..], Following(s[0]))
  {
  }

  lemma ContinuedChar(s: seq<byte>, n: nat)
    requires 0 < n <= |s| && n == Following(s[0]) + 1 && NarrowAt(s, 0)
    requires forall k :: 1 <= k < n ==> Continuation(s[k])
    ensures CharLength(s) == n
  {
    if n > 1 {
      assert Continuation(s[1]);
      assert n > 2 ==> Continuation(s[2]);
      assert n > 3 ==> Continuation(s[3]);
    }
  }

  /** The continuation bytes of the first character and what follows them. */
  lemma {:induction false} FirstChar(s: seq<byte>, n: nat)
    requires StructuredAfter(s, n)
    ensures n <= |s| && Structured(s[n..])
    ensures forall k :: 0 <= k < n ==> Continuation(s[k])
    decreases n
  {
    if n > 0 {
      FirstChar(s[1..], n - 1);
      assert s[n..] == s[1..][n - 1..];
      assert forall k :: 1 <= k < n ==> s[k] == s[1..][k - 1];
    } else {
      assert s[0..] == s;
    }
  }

  /** The first character of a valid string is narrow, its continuation bytes included. */
  lemma CharIsNarrow(s: seq<byte>)
    requires CharLength(s) > 0
    ensures forall i :: 0 <= i < CharLength(s) ==> NarrowAt(s, i)
  {
  }

  lemma NarrowFrom(s: seq<byte>, n: nat)
    requires n <= |s|
    ensures Narrow(s[n..]) <==> forall i :: n <= i < |s| ==> NarrowAt(s, i)
  {
    var t := s[n..];
    assert forall i :: 0 <= i < |t| ==> NarrowAt(t, i) == NarrowAt(s, n + i);
    assert forall i :: n <= i < |s| ==> NarrowAt(s, i) == NarrowAt(t, i - n);
  }

  /** Two accepted strings that are not valid: an overlong form of NUL, and a surrogate. */
  lemma AcceptsMoreThanValid()
    ensures Structured([0xC0, 0x80]) && !ValidUtf8([0xC0, 0x80])
    ensures Structured([0xED, 0xA0, 0x80]) && !ValidUtf8([0xED, 0xA0, 0x80])
  {
    ValidExactly([0xC0, 0x80]);
    ValidExactly([0xED, 0xA0, 0x80]);
    assert !NarrowAt([0xC0, 0x80], 0) && !NarrowAt([0xED, 0xA0, 0x80], 0);
    assert [0xC0, 0x80][1..] == [0x80];
    assert StructuredAfter([0x80], 1);
    assert [0xED, 0xA0, 0x80][1..] == [0xA0, 0x80] && [0xA0, 0x80][1..] == [0x80];
    assert StructuredAfter([0xA0, 0x80], 2);
  }
}

/** The CBOR writer: headers, then whole data items, written through a cursor into a buffer. */
module Cbor {
  import opened Bytes
  import Utf8

  datatype Error = OK | OUT_OF_DATA | MALFORMED | MALFORMED_UTF8

  const NUMBER := 0
  const NEGATIVE := 1
  const BYTE_STRING := 2
  const TEXT_STRING := 3
  const ARRAY := 4
  const MAP := 5

  type MajorType = t: nat | t < 8

  // ----- headers, as in section 2.1 of RFC 7049

  function ExtraBytes(value: uint64): nat {
    if value < 24 then 0 else if value < 0x100 then 1 else if value < 0x1_0000 then 2
    else if value < LIMIT32 then 4 else 8
  }

  /** The low five bits of the initial byte. */
  function AdditionalInfo(value: uint64): nat {
    if value < 24 then value else if value < 0x100 then 24 else if value < 0x1_0000 then 25
    else if value < LIMIT32 then 26 else 27
  }

  function Header(t: MajorType, value: uint64): seq<byte> {
    [32 * t + AdditionalInfo(value)] + BigEndian(value, ExtraBytes(value))
  }

  /** The bytes of a header, major type in the high three bits. */
  lemma HeaderExactly(t: MajorType, v: uint64)
    ensures Header(t, v) ==
      if v < 24 then [32 * t + v]
      else if v < 0x100 then [32 * t + 24, v]
      else if v < 0x1_0000 then [32 * t + 25, v / 0x100, v % 0x100]
      else if v < 0x1_0000_0000 then
        [32 * t + 26, v / 0x100_0000, v / 0x1_0000 % 0x100, v / 0x100 % 0x100, v % 0x100]
      else
        [32 * t + 27] + BigEndian(v / 0x1_0000_0000, 4) + BigEndian(v, 4)
  {
    hide BigEndian;
    BigEndianShort(v);
    BigEndianWord(v);
  }

  datatype Decoded = Malformed | Decoded(type_: MajorType, value: uint64, length: nat)

  /** How many bytes follow an initial byte with this additional information; -1 if it is reserved
      or announces an indefinite length. */
  function Followers(info: nat): int {
    if info < 24 then 0 else if info == 24 then 1 else if info == 25 then 2
    else if info == 26 then 4 else if info == 27 then 8 else -1
  }

  /** The reader of the standard: any of the five forms is accepted for any value it can hold. */
  function DecodeHeader(s: seq<byte>): Decoded {
    if s == [] then Malformed
    else
      var initial: nat := s[0];
      var info := initial % 32;
      var n := Followers(info);
      if n < 0 || |s| < 1 + n then Malformed
      else
        BigEndianOfValue(s[1..1 + n]);
        Powers();
        Decoded(initial / 32, if n == 0 then info else BigEndianValue(s[1..1 + n]), 1 + n)
  }

  /** Reading back a header, whatever follows it. */
  lemma HeaderRoundTrip(t: MajorType, value: uint64, rest: seq<byte>)
    ensures DecodeHeader(Header(t, value) + rest) == Decoded(t, value, |Header(t, value)|)
  {
    hide BigEndian, BigEndianValue;
    var h := Header(t, value);
    var n := ExtraBytes(value);
    assert (h + rest)[1..1 + n] == BigEndian(value, n);
    Powers();
    if n > 0 {
      ValueOfBigEndian(value, n);
    }
  }

  /** No header that decodes to the same pair is shorter, and the only one of that length is this:
      the canonical form of section 3.9 of RFC 7049. */
  lemma HeaderIsShortest(s: seq<byte>)
    requires DecodeHeader(s).Decoded?
    ensures var d := DecodeHeader(s);
      && |Header(d.type_, d.value)| <= d.length
      && (|Header(d.type_, d.value)| == d.length ==> s[..d.length] == Header(d.type_, d.value))
  {
    hide BigEndian, BigEndianValue;
    var d := DecodeHeader(s);
    Powers();
    var n := d.length - 1;
    var initial: nat := s[0];
    if n > 0 {
      BigEndianOfValue(s[1..1 + n]);
    } else {
      assert BigEndian(d.value, 0) == [];
    }
    assert s[..d.length] == [s[0]] + s[1..1 + n];
    assert initial == 32 * (initial / 32) + initial % 32;
  }

  /** No header is a proper prefix of another. */
  lemma HeadersArePrefixFree(t: MajorType, v: uint64, t': MajorType, v': uint64)
    requires Header(t, v) <= Header(t', v')
    ensures t == t' && v == v'
  {
    var h, h' := Header(t, v), Header(t', v');
    HeaderRoundTrip(t, v, h'[|h|..]);
    HeaderRoundTrip(t', v', []);
    assert h' == h + h'[|h|..] && h' + [] == h';
  }

  // ----- writing headers

  /** A cursor into a buffer: position, room left, and the error if any. */
  datatype WriteState = WriteState(data: nat, size: nat, error: Error) {
    predicate Ok() { error == OK }

    function Inc(): WriteState {
      if size > 0 then this.(data := data + 1, size := size - 1) else this.(error := OUT_OF_DATA)
    }

    function Advance(offset: nat): WriteState {
      if offset > size then this.(error := OUT_OF_DATA)
      else this.(data := data + offset, size := size - offset)
    }

    function End(): nat { data + size }
  }

  function GetByte(v: uint64, index: nat): byte
    requires index < 8
  {
    v / Pow256(index) % 256
  }

  lemma {:induction false} LittleEndianByte(v: nat, n: nat, i: nat)
    requires i < n
    ensures LittleEndian(v, n)[i] == v / Pow256(i) % 256
  {
    if i > 0 {
      LittleEndianByte(v / 256, n - 1, i - 1);
      DivideTwice(v, Pow256(i - 1));
    }
  }

  lemma DivideTwice(v: nat, p: nat)
    requires p > 0
    ensures v / 256 / p == v / (256 * p)
  {
    var x := v / 256;
    var q, r := x / p, x % p;
    DivMod(x, p);
    Regroup(v, p, q, r);
    QuotientOf(256 * p, q, 256 * r + v % 256);
  }

  lemma DivMod(x: nat, p: nat)
    requires p > 0
    ensures x == p * (x / p) + x % p && x % p < p
  {
  }

  lemma Regroup(v: nat, p: nat, q: nat, r: nat)
    requires v / 256 == p * q + r && r < p
    ensures v == (256 * p) * q + (256 * r + v % 256) && 256 * r + v % 256 < 256 * p
  {
    assert (256 * p) * q == 256 * (p * q);
  }

  lemma QuotientOf(p: nat, q: nat, r: nat)
    requires r < p
    ensures (p * q + r) / p == q
  {
    var a := p * q + r;
    var q' := a / p;
    assert a == p * q' + a % p;
    MultiplesApart(p, q, q');
    MultiplesApart(p, q', q);
  }

  lemma MultiplesApart(p: nat, a: nat, b: nat)
    ensures a < b ==> p * a + p <= p * b
  {
    if a < b {
      assert p * (a + 1) <= p * b;
    }
  }

  lemma {:induction false} ReverseIndex(s: seq<byte>, i: nat)
    requires i < |s|
    ensures Reverse(s)[i] == s[|s| - 1 - i]
  {
    if i < |s| - 1 {
      ReverseIndex(s[1..], i);
    }
  }

  lemma BigEndianBytes(v: uint64, n: nat)
    requires n <= 8
    ensures forall i :: 0 <= i < n ==> BigEndian(v, n)[i] == GetByte(v, n - 1 - i)
  {
    forall i | 0 <= i < n
      ensures BigEndian(v, n)[i] == GetByte(v, n - 1 - i)
    {
      ReverseIndex(LittleEndian(v, n), i);
      LittleEndianByte(v, n, n - 1 - i);
    }
  }

  /** Only the bytes between the two cursors changed. */
  predicate WroteOnly(before: seq<byte>, after: seq<byte>, from: nat, to: nat) {
    from <= to <= |before| == |after| && before[..from] == after[..from] && before[to..] == after[to..]
  }

  /** Stores the low `size` bytes of a value; other sizes than 1, 2, 4 and 8 are malformed and store
      nothing. */
  method WriteBytes(buffer: array<byte>, state: WriteState, value: uint64, size: nat) returns (r: WriteState)
    requires state.Ok() && state.End() <= buffer.Length
    modifies buffer
    ensures size in {1, 2, 4, 8} ==> r == state.Advance(size)
    ensures size !in {1, 2, 4, 8} ==> !r.Ok() && buffer[..] == old(buffer[..])
    ensures r.Ok() ==> buffer[state.data..r.data] == BigEndian(value, size)
    ensures WroteOnly(old(buffer[..]), buffer[..], state.data, r.data)
  {
    hide BigEndian, GetByte;
    var pos := state.data;
    r := state.Advance(size);
    if !r.Ok() {
      return;
    }
    if size !in {1, 2, 4, 8} {
      r := r.(error := MALFORMED);
      return;
    }
    BigEndianBytes(value, size);
    for i := 0 to size
      invariant buffer[pos..pos + i] == BigEndian(value, size)[..i]
      invariant buffer[..pos] == old(buffer[..pos]) && buffer[pos + size..] == old(buffer[pos + size..])
    {
      buffer[pos + i] := GetByte(value, size - 1 - i);
    }
  }

  /** Writes the shortest header if there is room for all of it; else reports an error and touches
      nothing but the room it was given. */
  method WriteHeader(buffer: array<byte>, state: WriteState, t: MajorType, value: uint64) returns (r: WriteState)
    requires state.End() <= buffer.Length
    modifies buffer
    ensures r.End() == state.End() && r.data >= state.data
    ensures r.Ok() <==> state.Ok() && |Header(t, value)| <= state.size
    ensures r.Ok() ==> r == state.Advance(|Header(t, value)|) && buffer[state.data..r.data] == Header(t, value)
    ensures WroteOnly(old(buffer[..]), buffer[..], state.data, r.data)
  {
    r := state;
    if !r.Ok() {
      return;
    }
    var header := state.data;
    r := r.Inc();
    if !r.Ok() {
      return;
    }
    buffer[header] := 32 * t + AdditionalInfo(value);
    var n := ExtraBytes(value);
    ghost var first := buffer[..];
    if n > 0 {
      r := WriteBytes(buffer, r, value, n);
    }
    if r.Ok() {
      assert buffer[..header + 1] == first[..header + 1];
      assert buffer[state.data..r.data] == [buffer[header]] + buffer[header + 1..r.data];
      assert n == 0 ==> BigEndian(value, n) == [];
    }
  }

  // ----- data items

  /** What the writer can be given.  Numbers range over all the integer types of the source. */
  datatype Item =
    | Number(n: int)
    | Bytes(bytes: seq<byte>)
    | Text(text: seq<byte>)
    | Array(items: seq<Item>)
    | Map(entries: seq<Entry>)

  datatype Entry = Entry(key: Item, value: Item)

  const MIN_INT64 := -0x8000_0000_0000_0000

  /** Integers in range, lengths that a header can hold. */
  predicate Writable(item: Item) {
    match item
    case Number(n) => MIN_INT64 <= n < LIMIT64
    case Bytes(s) => |s| < LIMIT64
    case Text(s) => |s| < LIMIT64
    case Array(items) => |items| < LIMIT64 && forall i :: i in items ==> Writable(i)
    case Map(entries) => |entries| < LIMIT64 && forall e :: e in entries ==> Writable(e.key) && Writable(e.value)
  }

  /** Every text in the item passes the UTF-8 check. */
  predicate TextsAccepted(item: Item) {
    match item
    case Number(_) => true
    case Bytes(_) => true
    case Text(s) => Utf8.Structured(s)
    case Array(items) => forall i :: i in items ==> TextsAccepted(i)
    case Map(entries) => forall e :: e in entries ==> TextsAccepted(e.key) && TextsAccepted(e.value)
  }

  function Encode(item: Item): (s: seq<byte>)
    requires Writable(item)
    ensures |s| > 0
    decreases item, 0
  {
    match item
    case Number(n) => if n >= 0 then Header(NUMBER, n) else Header(NEGATIVE, -1 - n)
    case Bytes(s) => Header(BYTE_STRING, |s|) + s
    case Text(s) => Header(TEXT_STRING, |s|) + s
    case Array(items) => Header(ARRAY, |items|) + EncodeItems(items)
    case Map(entries) => Header(MAP, |entries|) + EncodeEntries(entries)
  }

  function EncodeItems(items: seq<Item>): seq<byte>
    requires forall i :: i in items ==> Writable(i)
    decreases items, 0
  {
    if items == [] then [] else Encode(items[0]) + EncodeItems(items[1..])
  }

  function EncodeEntries(entries: seq<Entry>): seq<byte>
    requires forall e :: e in entries ==> Writable(e.key) && Writable(e.value)
    decreases entries, 0
  {
    if entries == [] then []
    else
      assert entries[0] in entries;
      EncodeEntry(entries[0]) + EncodeEntries(entries[1..])
  }

  function EncodeEntry(e: Entry): seq<byte>
    requires Writable(e.key) && Writable(e.value)
    decreases e, 0
  {
    Encode(e.key) + Encode(e.value)
  }

  /** The major type of each kind of item. */
  lemma EncodeExactly(item: Item)
    requires Writable(item)
    ensures Encode(item) ==
      match item
      case Number(n) => if n < 0 then Header(1, -n - 1) else Header(0, n)
      case Bytes(s) => Header(2, |s|) + s
      case Text(s) => Header(3, |s|) + s
      case Array(items) => Header(4, |items|) + EncodeItems(items)
      case Map(entries) => Header(5, |entries|) + EncodeEntries(entries)
  {
  }

  /** The numbers of the signed and unsigned 64-bit types of the source. */
  lemma NumbersExactly(n: int)
    ensures Writable(Number(n)) <==> -9223372036854775808 <= n <= 18446744073709551615
  {
  }

  /** Examples of appendix A of RFC 7049: 1000000 and -100, h'01020304' and "IETF", [1, [2, 3]], and
      {1: 2}. */
  lemma NumberExamples()
    ensures Encode(Number(1000000)) == [0x1A, 0x00, 0x0F, 0x42, 0x40]
    ensures Encode(Number(-100)) == [0x38, 0x63]
  {
    hide Header;
    HeaderExactly(0, 1000000);
    HeaderExactly(1, 99);
  }

  lemma StringExamples()
    ensures Encode(Bytes([1, 2, 3, 4])) == [0x44, 1, 2, 3, 4]
    ensures Encode(Text([0x49, 0x45, 0x54, 0x46])) == [0x64, 0x49, 0x45, 0x54, 0x46]
  {
    hide Header;
    HeaderExactly(2, 4);
    HeaderExactly(3, 4);
  }

  lemma ArrayExample()
    ensures var inner := Array([Number(2), Number(3)]);
      && Writable(inner) && Writable(Array([Number(1), inner]))
      && Encode(Array([Number(1), inner])) == [0x82, 0x01, 0x82, 0x02, 0x03]
  {
    hide Header;
    HeaderExactly(4, 2);
    SmallNumber(1);
    SmallNumber(2);
    SmallNumber(3);
    hide Encode, Writable;
    EncodeTwo(Number(2), Number(3));
    EncodeTwo(Number(1), Array([Number(2), Number(3)]));
  }

  lemma MapExample()
    ensures var m := Map([Entry(Number(1), Number(2))]);
      Writable(m) && Encode(m) == [0xA1, 0x01, 0x02]
  {
    hide Header;
    HeaderExactly(5, 1);
    SmallNumber(1);
    SmallNumber(2);
    hide Encode, Writable;
    EncodeOne(Number(1), Number(2));
  }

  lemma SmallNumber(n: nat)
    requires n < 24
    ensures Writable(Number(n)) && Encode(Number(n)) == [n]
  {
    hide Header;
    HeaderExactly(0, n);
  }

  lemma EncodeTwo(a: Item, b: Item)
    requires Writable(a) && Writable(b)
    ensures Writable(Array([a, b])) && Encode(Array([a, b])) == Header(4, 2) + (Encode(a) + Encode(b))
  {
    hide Header;
    assert [a, b][1..] == [b] && [b][1..] == [];
    assert EncodeItems([b]) == Encode(b);
    assert EncodeItems([a, b]) == Encode(a) + EncodeItems([b]);
  }

  lemma EncodeOne(a: Item, b: Item)
    requires Writable(a) && Writable(b)
    ensures Writable(Map([Entry(a, b)])) && Encode(Map([Entry(a, b)])) == Header(5, 1) + (Encode(a) + Encode(b))
  {
    hide Header;
    var e := Entry(a, b);
    assert [e][1..] == [];
    assert EncodeEntries([e]) == EncodeEntry(e);
  }

  datatype Parsed<T> = Failed | Parsed(value: T, length: nat)

  /** A reader for the same subset of the standard, independent of the writer. */
  function DecodeItem(s: seq<byte>): (r: Parsed<Item>)
    ensures r.Parsed? ==> 0 < r.length <= |s|
    decreases |s|, 0
  {
    match DecodeHeader(s)
    case Malformed => Failed
    case Decoded(t, v, n) =>
      if t == NUMBER then Parsed(Number(v), n)
      else if t == NEGATIVE then Parsed(Number(-1 - v), n)
      else if t == BYTE_STRING then if |s| < n + v then Failed else Parsed(Bytes(s[n..n + v]), n + v)
      else if t == TEXT_STRING then if |s| < n + v then Failed else Parsed(Text(s[n..n + v]), n + v)
      else if t == ARRAY then
        match DecodeItems(s[n..], v) case Failed => Failed case Parsed(items, k) => Parsed(Array(items), n + k)
      else if t == MAP then
        match DecodeEntries(s[n..], v) case Failed => Failed case Parsed(entries, k) => Parsed(Map(entries), n + k)
      else Failed
  }

  function DecodeItems(s: seq<byte>, count: nat): (r: Parsed<seq<Item>>)
    ensures r.Parsed? ==> r.length <= |s|
    decreases |s|, 1
  {
    if count == 0 then Parsed([], 0)
    else match DecodeItem(s)
      case Failed => Failed
      case Parsed(item, n) =>
        match DecodeItems(s[n..], count - 1)
        case Failed => Failed
        case Parsed(items, k) => Parsed([item] + items, n + k)
  }

  function DecodeEntries(s: seq<byte>, count: nat): (r: Parsed<seq<Entry>>)
    ensures r.Parsed? ==> r.length <= |s|
    decreases |s|, 1
  {
    if count == 0 then Parsed([], 0)
    else match DecodeItem(s)
      case Failed => Failed
      case Parsed(key, n) =>
        match DecodeItem(s[n..])
        case Failed => Failed
        case Parsed(value, m) =>
          match DecodeEntries(s[n + m..], count - 1)
          case Failed => Failed
          case Parsed(entries, k) => Parsed([Entry(key, value)] + entries, n + m + k)
  }

  /** Any item, however nested, is read back from its encoding, whatever follows it. */
  lemma {:induction false} ItemRoundTrip(item: Item, rest: seq<byte>)
    requires Writable(item)
    ensures DecodeItem(Encode(item) + rest) == Parsed(item, |Encode(item)|)
    decreases item, 0
  {
    hide DecodeHeader, Header;
    match item
    case Number(n) =>
      if n >= 0 { HeaderRoundTrip(NUMBER, n, rest); } else { HeaderRoundTrip(NEGATIVE, -1 - n, rest); }
    case Bytes(s) => StringRoundTrip(BYTE_STRING, s, rest);
    case Text(s) => StringRoundTrip(TEXT_STRING, s, rest);
    case Array(items) =>
      ItemsRoundTrip(items, rest);
      AfterHeader(ARRAY, |items|, EncodeItems(items), rest);
    case Map(entries) =>
      EntriesRoundTrip(entries, rest);
      AfterHeader(MAP, |entries|, EncodeEntries(entries), rest);
  }

  lemma AfterHeader(t: MajorType, value: uint64, body: seq<byte>, rest: seq<byte>)
    ensures var h := Header(t, value);
      var s := h + body + rest;
      DecodeHeader(s) == Decoded(t, value, |h|) && s[|h|..] == body + rest
  {
    hide Header, DecodeHeader;
    HeaderRoundTrip(t, value, body + rest);
    var h := Header(t, value);
    assert h + body + rest == h + (body + rest);
  }

  lemma StringRoundTrip(t: MajorType, body: seq<byte>, rest: seq<byte>)
    requires |body| < LIMIT64
    ensures var h := Header(t, |body|);
      var s := h + body + rest;
      DecodeHeader(s) == Decoded(t, |body|, |h|) && s[|h|..|h| + |body|] == body
  {
    hide Header, DecodeHeader;
    AfterHeader(t, |body|, body, rest);
  }

  lemma {:induction false} ItemsRoundTrip(items: seq<Item>, rest: seq<byte>)
    requires forall i :: i in items ==> Writable(i)
    ensures DecodeItems(EncodeItems(items) + rest, |items|) == Parsed(items, |EncodeItems(items)|)
    decreases items, 0
  {
    hide Encode, DecodeItem, Writable;
    if items != [] {
      var s := EncodeItems(items) + rest;
      var after := EncodeItems(items[1..]) + rest;
      assert s == Encode(items[0]) + after;
      ItemRoundTrip(items[0], after);
      ItemsRoundTrip(items[1..], rest);
      assert s[|Encode(items[0])|..] == after;
      DecodeItemsStep(s, items[0], |Encode(items[0])|, items[1..], |EncodeItems(items[1..])|);
      assert [items[0]] + items[1..] == items;
    }
  }

  lemma DecodeItemsStep(s: seq<byte>, item: Item, n: nat, items: seq<Item>, k: nat)
    requires DecodeItem(s) == Parsed(item, n)
    requires DecodeItems(s[n..], |items|) == Parsed(items, k)
    ensures DecodeItems(s, |items| + 1) == Parsed([item] + items, n + k)
  {
    hide DecodeItem;
  }

  lemma {:induction false} EntriesRoundTrip(entries: seq<Entry>, rest: seq<byte>)
    requires forall e :: e in entries ==> Writable(e.key) && Writable(e.value)
    ensures DecodeEntries(EncodeEntries(entries) + rest, |entries|) == Parsed(entries, |EncodeEntries(entries)|)
    decreases entries, 0
  {
    hide Encode, EncodeEntry, EncodeEntries, DecodeItem, DecodeEntries, Writable;
    EntriesStart(entries, rest);
    if entries != [] {
      var e := entries[0];
      assert e in entries;
      var after := EncodeEntries(entries[1..]) + rest;
      assert EncodeEntries(entries) + rest == EncodeEntry(e) + after;
      EntryRoundTrip(e, after);
      EntryLength(e);
      EntriesRoundTrip(entries[1..], rest);
      var s := EncodeEntry(e) + after;
      assert s[|EncodeEntry(e)|..] == after;
      DecodeEntriesStep(s, |entries|, e.key, |Encode(e.key)|, e.value, |Encode(e.value)|,
                        Parsed(entries[1..], |EncodeEntries(entries[1..])|));
      assert [e] + entries[1..] == entries;
    }
  }

  lemma EntriesStart(entries: seq<Entry>, rest: seq<byte>)
    requires forall e :: e in entries ==> Writable(e.key) && Writable(e.value)
    ensures entries == [] ==> EncodeEntries(entries) == [] && DecodeEntries([] + rest, 0) == Parsed([], 0)
    ensures entries != [] ==>
              && entries[0] in entries
              && EncodeEntries(entries) == EncodeEntry(entries[0]) + EncodeEntries(entries[1..])
  {
  }

  lemma DecodeEntriesStep(s: seq<byte>, count: nat, key: Item, n: nat, value: Item, m: nat, rest: Parsed<seq<Entry>>)
    requires count > 0
    requires DecodeItem(s) == Parsed(key, n) && DecodeItem(s[n..]) == Parsed(value, m)
    requires rest == DecodeEntries(s[n + m..], count - 1) && rest.Parsed?
    ensures DecodeEntries(s, count) == Parsed([Entry(key, value)] + rest.value, n + m + rest.length)
  {
    hide DecodeItem;
  }

  lemma EntryLength(e: Entry)
    requires Writable(e.key) && Writable(e.value)
    ensures |EncodeEntry(e)| == |Encode(e.key)| + |Encode(e.value)|
  {
  }

  lemma {:induction false} EntryRoundTrip(e: Entry, rest: seq<byte>)
    requires Writable(e.key) && Writable(e.value)
    ensures var s := EncodeEntry(e) + rest;
      && DecodeItem(s) == Parsed(e.key, |Encode(e.key)|)
      && DecodeItem(s[|Encode(e.key)|..]) == Parsed(e.value, |Encode(e.value)|)
    decreases e, 0
  {
    hide Encode, DecodeItem, Writable;
    var s := EncodeEntry(e) + rest;
    ItemRoundTrip(e.key, Encode(e.value) + rest);
    ItemRoundTrip(e.value, rest);
    assert s == Encode(e.key) + (Encode(e.value) + rest);
    assert s[|Encode(e.key)|..] == Encode(e.value) + rest;
  }

  /** Different items have different encodings, and none is a prefix of another. */
  lemma EncodingsArePrefixFree(a: Item, b: Item)
    requires Writable(a) && Writable(b) && Encode(a) <= Encode(b)
    ensures a == b
  {
    hide Encode, DecodeItem;
    ItemRoundTrip(a, Encode(b)[|Encode(a)|..]);
    ItemRoundTrip(b, []);
    assert Encode(a) + Encode(b)[|Encode(a)|..] == Encode(b) == Encode(b) + [];
  }

  // ----- writing items

  /** What one write promises: errors stick, the cursor stays in its room, nothing else is touched, and
      the bytes `s` are written exactly if there was no error, they fit and `acceptable` holds. */
  predicate Wrote(before: seq<byte>, after: seq<byte>, state: WriteState, r: WriteState, s: seq<byte>, acceptable: bool) {
    && r.End() == state.End() && r.data >= state.data
    && WroteOnly(before, after, state.data, state.End())
    && (r.Ok() <==> state.Ok() && |s| <= state.size && acceptable)
    && (r.Ok() ==> r.data == state.data + |s| && after[state.data..r.data] == s)
  }

  lemma WidenFrame(before: seq<byte>, after: seq<byte>, from: nat, to: nat, end: nat)
    requires WroteOnly(before, after, from, to) && to <= end <= |before|
    ensures WroteOnly(before, after, from, end)
  {
    assert before[end..] == before[to..][end - to..];
    assert after[end..] == after[to..][end - to..];
  }

  method WriteNumber(buffer: array<byte>, state: WriteState, n: int) returns (r: WriteState)
    requires state.End() <= buffer.Length && MIN_INT64 <= n < LIMIT64
    modifies buffer
    ensures Wrote(old(buffer[..]), buffer[..], state, r,
                  if n >= 0 then Header(NUMBER, n) else Header(NEGATIVE, -1 - n), true)
  {
    hide Header, NegativeArgument;
    r := state;
    if !state.Ok() {
      return;
    }
    if n >= 0 {
      r := WriteHeader(buffer, state, NUMBER, n);
    } else {
      r := WriteHeader(buffer, state, NEGATIVE, NegativeArgument(n));
    }
    WidenFrame(old(buffer[..]), buffer[..], state.data, r.data, state.End());
  }

  /** The source subtracts the number, converted to 64 bits, from 2^64 - 1. */
  function NegativeArgument(n: int): (v: uint64)
    requires MIN_INT64 <= n < 0
    ensures v == -1 - n
  {
    (LIMIT64 - 1 - (LIMIT64 + n)) % LIMIT64
  }

  method WriteText(buffer: array<byte>, state: WriteState, text: seq<byte>) returns (r: WriteState)
    requires state.End() <= buffer.Length && |text| < LIMIT64
    modifies buffer
    ensures Wrote(old(buffer[..]), buffer[..], state, r, Header(TEXT_STRING, |text|) + text, Utf8.Structured(text))
  {
    hide Header, Utf8.Structured;
    r := WriteHeader(buffer, state, TEXT_STRING, |text|);
    ghost var between := buffer[..];
    var at := r.data;
    WidenFrame(old(buffer[..]), between, state.data, at, state.End());
    r := r.Advance(|text|);
    if !r.Ok() {
      return;
    }
    var accepted := Utf8.CheckUTF8Copy(text, buffer, at);
    ghost var after := buffer[..];
    assert after[..at] == between[..at] && after[at + |text|..] == between[at + |text|..];
    WidenFrame(between, after, at, at + |text|, state.End());
    FramesCompose(old(buffer[..]), between, after, state.data, at, state.End());
    if !accepted {
      r := r.(error := MALFORMED_UTF8);
    } else {
      Adjacent(after, between, state.data, at, r.data);
    }
  }

  lemma FramesCompose(before: seq<byte>, between: seq<byte>, after: seq<byte>, from: nat, mid: nat, end: nat)
    requires WroteOnly(before, between, from, end) && from <= mid && WroteOnly(between, after, mid, end)
    ensures WroteOnly(before, after, from, end)
  {
    assert between[..from] == between[..mid][..from];
    assert after[..from] == after[..mid][..from];
  }

  lemma Adjacent(after: seq<byte>, between: seq<byte>, from: nat, mid: nat, to: nat)
    requires from <= mid <= to <= |after| == |between| && after[..mid] == between[..mid]
    ensures after[from..to] == between[from..mid] + after[mid..to]
  {
    assert between[from..mid] == between[..mid][from..] == after[..mid][from..] == after[from..mid];
  }

  /** The copy template. */
  method Copy(input: seq<byte>, out: array<byte>, at: nat)
    requires at + |input| <= out.Length
    modifies out
    ensures out[at..at + |input|] == input
    ensures out[..at] == old(out[..at]) && out[at + |input|..] == old(out[at + |input|..])
  {
    for i := 0 to |input|
      invariant out[at..at + i] == input[..i]
      invariant out[..at] == old(out[..at]) && out[at + |input|..] == old(out[at + |input|..])
    {
      out[at + i] := input[i];
    }
  }

  method WriteByteString(buffer: array<byte>, state: WriteState, bytes: seq<byte>) returns (r: WriteState)
    requires state.End() <= buffer.Length && |bytes| < LIMIT64
    modifies buffer
    ensures Wrote(old(buffer[..]), buffer[..], state, r, Header(BYTE_STRING, |bytes|) + bytes, true)
  {
    hide Header;
    r := WriteHeader(buffer, state, BYTE_STRING, |bytes|);
    ghost var between := buffer[..];
    var at := r.data;
    WidenFrame(old(buffer[..]), between, state.data, at, state.End());
    r := r.Advance(|bytes|);
    if !r.Ok() {
      return;
    }
    Copy(bytes, buffer, at);
    ghost var after := buffer[..];
    assert after[..at] == between[..at] && after[at + |bytes|..] == between[at + |bytes|..];
    WidenFrame(between, after, at, at + |bytes|, state.End());
    FramesCompose(old(buffer[..]), between, after, state.data, at, state.End());
    Adjacent(after, between, state.data, at, r.data);
  }

  predicate AllTextsAccepted(items: seq<Item>) { forall i :: i in items ==> TextsAccepted(i) }

  predicate EntryTextsAccepted(entries: seq<Entry>) {
    forall e :: e in entries ==> TextsAccepted(e.key) && TextsAccepted(e.value)
  }

  /** Two writes after each other are one write of both. */
  lemma WritesCompose(before: seq<byte>, between: seq<byte>, after: seq<byte>, state: WriteState, middle: WriteState,
                      r: WriteState, s: seq<byte>, t: seq<byte>, p: bool, q: bool)
    requires Wrote(before, between, state, middle, s, p) && Wrote(between, after, middle, r, t, q)
    ensures Wrote(before, after, state, r, s + t, p && q)
  {
    FramesCompose(before, between, after, state.data, middle.data, state.End());
    if r.Ok() {
      Adjacent(after, between, state.data, middle.data, r.data);
    }
  }

  /** Writing an item succeeds exactly if its encoding fits and its texts are accepted, and leaves
      that encoding in the buffer and everything outside the room untouched. */
  method Write(buffer: array<byte>, state: WriteState, item: Item) returns (r: WriteState)
    requires state.End() <= buffer.Length && Writable(item)
    modifies buffer
    ensures Wrote(old(buffer[..]), buffer[..], state, r, Encode(item), TextsAccepted(item))
    decreases item, 0
  {
    hide Header, Utf8.Structured;
    match item
    case Number(n) => r := WriteNumber(buffer, state, n);
    case Bytes(s) => r := WriteByteString(buffer, state, s);
    case Text(s) => r := WriteText(buffer, state, s);
    case Array(items) =>
      var middle := WriteContainerHeader(buffer, state, ARRAY, |items|);
      ghost var between := buffer[..];
      r := WriteItems(buffer, middle, items);
      WritesCompose(old(buffer[..]), between, buffer[..], state, middle, r, Header(ARRAY, |items|), EncodeItems(items), true, AllTextsAccepted(items));
    case Map(entries) =>
      var middle := WriteContainerHeader(buffer, state, MAP, |entries|);
      ghost var between := buffer[..];
      r := WriteEntries(buffer, middle, entries);
      WritesCompose(old(buffer[..]), between, buffer[..], state, middle, r, Header(MAP, |entries|), EncodeEntries(entries), true, EntryTextsAccepted(entries));
  }

  method WriteContainerHeader(buffer: array<byte>, state: WriteState, t: MajorType, size: uint64) returns (r: WriteState)
    requires state.End() <= buffer.Length
    modifies buffer
    ensures Wrote(old(buffer[..]), buffer[..], state, r, Header(t, size), true)
  {
    hide Header;
    r := WriteHeader(buffer, state, t, size);
    WidenFrame(old(buffer[..]), buffer[..], state.data, r.data, state.End());
  }

  method WriteItems(buffer: array<byte>, state: WriteState, items: seq<Item>) returns (r: WriteState)
    requires state.End() <= buffer.Length && forall i :: i in items ==> Writable(i)
    modifies buffer
    ensures Wrote(old(buffer[..]), buffer[..], state, r, EncodeItems(items), AllTextsAccepted(items))
    decreases items, 0
  {
    hide Encode, Writable, TextsAccepted;
    if |items| == 0 {
      return state;
    }
    var middle := Write(buffer, state, items[0]);
    ghost var between := buffer[..];
    r := WriteItems(buffer, middle, items[1..]);
    WritesCompose(old(buffer[..]), between, buffer[..], state, middle, r, Encode(items[0]), EncodeItems(items[1..]),
                  TextsAccepted(items[0]), AllTextsAccepted(items[1..]));
    assert items == [items[0]] + items[1..];
  }

  method WriteEntries(buffer: array<byte>, state: WriteState, entries: seq<Entry>) returns (r: WriteState)
    requires state.End() <= buffer.Length && forall e :: e in entries ==> Writable(e.key) && Writable(e.value)
    modifies buffer
    ensures Wrote(old(buffer[..]), buffer[..], state, r, EncodeEntries(entries), EntryTextsAccepted(entries))
    decreases entries, 0
  {
    hide EncodeEntry, Writable, TextsAccepted;
    if |entries| == 0 {
      return state;
    }
    assert entries[0] in entries;
    var middle := WriteEntry(buffer, state, entries[0]);
    ghost var between := buffer[..];
    r := WriteEntries(buffer, middle, entries[1..]);
    WritesCompose(old(buffer[..]), between, buffer[..], state, middle, r, EncodeEntry(entries[0]), EncodeEntries(entries[1..]),
                  TextsAccepted(entries[0].key) && TextsAccepted(entries[0].value), EntryTextsAccepted(entries[1..]));
    assert entries == [entries[0]] + entries[1..];
  }

  method WriteEntry(buffer: array<byte>, state: WriteState, e: Entry) returns (r: WriteState)
    requires state.End() <= buffer.Length && Writable(e.key) && Writable(e.value)
    modifies buffer
    ensures Wrote(old(buffer[..]), buffer[..], state, r, EncodeEntry(e), TextsAccepted(e.key) && TextsAccepted(e.value))
    decreases e, 0
  {
    hide Encode, Writable, TextsAccepted;
    var middle := Write(buffer, state, e.key);
    ghost var between := buffer[..];
    r := Write(buffer, middle, e.value);
    WritesCompose(old(buffer[..]), between, buffer[..], state, middle, r, Encode(e.key), Encode(e.value),
                  TextsAccepted(e.key), TextsAccepted(e.value));
  }
}
