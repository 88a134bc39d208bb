/**
 * The Bluetooth HCI receive path over a UART.  `HciPacketizer` collects a packet from whatever short
 * reads the driver returns, `H4Protocol` reads the packet type byte before it and hands complete
 * packets on by type.  Both are shown to refine a parser that sees the whole byte stream at once.
 */
module Hci {
  import opened Bytes

  const UNKNOWN: byte := 0
  const COMMAND: byte := 1
  const ACL_DATA: byte := 2
  const SCO_DATA: byte := 3
  const EVENT: byte := 4

  predicate Receivable(t: byte) { t == ACL_DATA || t == SCO_DATA || t == EVENT }

  const PREAMBLE_SIZE_MAX := 4

  function PreambleSize(t: byte): (n: nat)
    ensures n <= PREAMBLE_SIZE_MAX
  {
    if t == COMMAND then 3 else if t == ACL_DATA then 4 else if t == SCO_DATA then 3
    else if t == EVENT then 2 else 0
  }

  function LengthOffset(t: byte): nat {
    if t == COMMAND || t == ACL_DATA || t == SCO_DATA then 2 else if t == EVENT then 1 else 0
  }

  /** The payload length that a preamble declares: two bytes for ACL data, one otherwise. */
  function PayloadLength(t: byte, preamble: seq<byte>): nat
    requires Receivable(t) && PreambleSize(t) <= |preamble|
  {
    var offset := LengthOffset(t);
    var low: nat := preamble[offset];
    if t != ACL_DATA then low else
      var high: nat := preamble[offset + 1];
      256 * high + low
  }

  /** The declared length depends on nothing behind the preamble. */
  lemma SameLength(t: byte, a: seq<byte>, b: seq<byte>)
    requires Receivable(t) && PreambleSize(t) <= |a| && PreambleSize(t) <= |b|
    requires a[..PreambleSize(t)] == b[..PreambleSize(t)]
    ensures PayloadLength(t, a) == PayloadLength(t, b)
  {
    var n := PreambleSize(t);
    assert forall i :: 0 <= i < n ==> a[i] == a[..n][i] == b[..n][i] == b[i];
  }

  // ----- the whole-stream parser

  datatype Packet = Packet(type_: byte, bytes: seq<byte>) {
    predicate WellFormed() {
      && Receivable(type_)
      && PreambleSize(type_) <= |bytes|
      && |bytes| == PreambleSize(type_) + PayloadLength(type_, bytes)
    }

    predicate Empty() { |bytes| == PreambleSize(type_) }

    /** The frame on the wire, as `H4Protocol::Send` writes it. */
    function Frame(): seq<byte> { [type_] + bytes }
  }

  function Wire(ps: seq<Packet>): seq<byte> {
    if ps == [] then [] else ps[0].Frame() + Wire(ps[1..])
  }

  /** All complete packets at the front of a stream, up to the first unknown type byte. */
  function Parse(s: seq<byte>): seq<Packet> {
    if |s| == 0 || !Receivable(s[0]) then []
    else
      var pre := PreambleSize(s[0]);
      if |s| < 1 + pre then []
      else
        var end := 1 + pre + PayloadLength(s[0], s[1..]);
        if |s| < end then [] else [Packet(s[0], s[1..end])] + Parse(s[end..])
  }

  /** Well-formed packets with payload. */
  predicate Whole(ps: seq<Packet>) {
    forall p :: p in ps ==> p.WellFormed() && !p.Empty()
  }

  /** The packets before the first one without payload. */
  function BeforeEmpty(ps: seq<Packet>): seq<Packet> {
    if ps == [] || ps[0].Empty() then [] else [ps[0]] + BeforeEmpty(ps[1..])
  }

  lemma ParseFrame(p: Packet, rest: seq<byte>)
    requires p.WellFormed()
    ensures Parse(p.Frame() + rest) == [p] + Parse(rest)
  {
    var s := p.Frame() + rest;
    var n, end := PreambleSize(p.type_), 1 + |p.bytes|;
    assert s[0] == p.type_;
    assert s[1..][..n] == p.bytes[..n];
    SameLength(p.type_, s[1..], p.bytes);
    assert s[1..end] == p.bytes;
    assert s[end..] == rest;
  }

  lemma {:induction false} ParseAfterWire(ps: seq<Packet>, tail: seq<byte>)
    requires forall p :: p in ps ==> p.WellFormed()
    ensures Parse(Wire(ps) + tail) == ps + Parse(tail)
  {
    hide Parse, Packet.WellFormed;
    if ps == [] {
      assert Wire(ps) + tail == tail;
    } else {
      assert ps[0] in ps && forall p :: p in ps[1..] ==> p in ps;
      ParseAfterWire(ps[1..], tail);
      ParseFrame(ps[0], Wire(ps[1..]) + tail);
      assert Wire(ps) + tail == ps[0].Frame() + (Wire(ps[1..]) + tail);
    }
  }

  lemma {:induction false} WireConcat(ps: seq<Packet>, qs: seq<Packet>)
    ensures Wire(ps + qs) == Wire(ps) + Wire(qs)
  {
    if ps == [] {
      assert ps + qs == qs;
    } else {
      WireConcat(ps[1..], qs);
      assert (ps + qs)[1..] == ps[1..] + qs;
    }
  }

  lemma {:induction false} BeforeEmptyConcat(ps: seq<Packet>, qs: seq<Packet>)
    requires forall p :: p in ps ==> !p.Empty()
    ensures BeforeEmpty(ps + qs) == ps + BeforeEmpty(qs)
  {
    if ps == [] {
      assert ps + qs == qs;
    } else {
      hide BeforeEmpty, Packet.Empty;
      assert ps[0] in ps && forall p :: p in ps[1..] ==> p in ps;
      BeforeEmptyConcat(ps[1..], qs);
      BeforeEmptyFirst(ps[0], ps[1..] + qs);
      assert ps + qs == [ps[0]] + (ps[1..] + qs);
    }
  }

  lemma BeforeEmptyFirst(p: Packet, ps: seq<Packet>)
    requires !p.Empty()
    ensures BeforeEmpty([p] + ps) == [p] + BeforeEmpty(ps)
  {
    assert ([p] + ps)[1..] == ps;
  }

  predicate NoneEmpty(ps: seq<Packet>) {
    forall p :: p in ps ==> !p.Empty()
  }

  lemma {:induction false} BeforeEmptyIsAll(ps: seq<Packet>)
    ensures BeforeEmpty(ps) == ps <==> NoneEmpty(ps)
  {
    hide Packet.Empty;
    if ps != [] {
      BeforeEmptyIsAll(ps[1..]);
      assert ps == [ps[0]] + ps[1..];
      assert NoneEmpty(ps) <==> !ps[0].Empty() && NoneEmpty(ps[1..]);
    }
  }

  // ----- the bytes themselves

  /** ACL data: two bytes of handle and flags, then the length, its low byte first. */
  lemma ParseAcl(h0: byte, h1: byte, low: byte, high: byte, payload: seq<byte>, rest: seq<byte>)
    requires var l: nat, h: nat := low, high; |payload| == l + 256 * h
    ensures Parse([2, h0, h1, low, high] + payload + rest) == [Packet(2, [h0, h1, low, high] + payload)] + Parse(rest)
    ensures Packet(2, [h0, h1, low, high] + payload).Empty() <==> payload == []
  {
    var p := Packet(2, [h0, h1, low, high] + payload);
    assert p.WellFormed();
    ParseFrame(p, rest);
    assert p.Frame() + rest == [2, h0, h1, low, high] + payload + rest;
  }

  /** SCO data: two bytes of handle and flags, then one of length. */
  lemma ParseSco(h0: byte, h1: byte, length: byte, payload: seq<byte>, rest: seq<byte>)
    requires |payload| == length as int
    ensures Parse([3, h0, h1, length] + payload + rest) == [Packet(3, [h0, h1, length] + payload)] + Parse(rest)
    ensures Packet(3, [h0, h1, length] + payload).Empty() <==> payload == []
  {
    var p := Packet(3, [h0, h1, length] + payload);
    assert p.WellFormed();
    ParseFrame(p, rest);
    assert p.Frame() + rest == [3, h0, h1, length] + payload + rest;
  }

  /** An event: its code, then one byte of length. */
  lemma ParseEvent(code: byte, length: byte, payload: seq<byte>, rest: seq<byte>)
    requires |payload| == length as int
    ensures Parse([4, code, length] + payload + rest) == [Packet(4, [code, length] + payload)] + Parse(rest)
    ensures Packet(4, [code, length] + payload).Empty() <==> payload == []
  {
    var p := Packet(4, [code, length] + payload);
    assert p.WellFormed();
    ParseFrame(p, rest);
    assert p.Frame() + rest == [4, code, length] + payload + rest;
  }

  /** Anything else ends the parse, and so does a packet that is not complete. */
  lemma ParseStops(s: seq<byte>)
    ensures s == [] || s[0] !in {2, 3, 4} ==> Parse(s) == []
    ensures |s| < 3 || (|s| < 5 && s[0] == 2) || (|s| < 4 && s[0] == 3) ==> Parse(s) == []
    ensures |s| >= 5 && s[0] == 2 && (var l: nat, h: nat := s[3], s[4]; |s| < 5 + l + 256 * h) ==> Parse(s) == []
    ensures |s| >= 4 && s[0] == 3 && |s| < 4 + s[3] as int ==> Parse(s) == []
    ensures |s| >= 3 && s[0] == 4 && |s| < 3 + s[2] as int ==> Parse(s) == []
  {
  }

  // ----- the incremental machine

  datatype Phase = PREAMBLE | PAYLOAD

  /** The fields of the two objects, with the packets handed on so far and whether an unknown packet
      type has aborted the process. */
  datatype Machine = Machine(type_: byte, phase: Phase, preamble: seq<byte>, packet: seq<byte>,
                             bytesRead: nat, bytesRemaining: nat, delivered: seq<Packet>, aborted: bool)
  {
    predicate Inv() {
      && |preamble| == PREAMBLE_SIZE_MAX
      && Whole(delivered)
      && (aborted ==> !Receivable(type_) && phase == PREAMBLE && bytesRead == 0)
      && (!aborted ==> type_ == UNKNOWN || Receivable(type_))
      && (type_ == UNKNOWN ==> phase == PREAMBLE && bytesRead == 0)
      && (Receivable(type_) && phase == PREAMBLE ==> bytesRead < PreambleSize(type_))
      && (phase == PAYLOAD ==>
            && |packet| == PreambleSize(type_) + bytesRead + bytesRemaining
            && bytesRead + bytesRemaining == PayloadLength(type_, packet)
            && (bytesRemaining == 0 ==> bytesRead == 0))
    }

    /** A preamble that declares no payload leaves nothing to ask the driver for. */
    predicate Stuck() { phase == PAYLOAD && bytesRemaining == 0 }

    /** How many bytes the next read asks for. */
    function Wanted(): nat
      requires Inv()
    {
      if aborted then 0
      else if type_ == UNKNOWN then 1
      else if phase == PREAMBLE then PreambleSize(type_) - bytesRead
      else bytesRemaining
    }

    /** The bytes of the packet being collected, its type byte first. */
    function Tail(): seq<byte>
      requires Inv()
    {
      if aborted then [type_]
      else if type_ == UNKNOWN then []
      else if phase == PREAMBLE then [type_] + preamble[..bytesRead]
      else [type_] + packet[..PreambleSize(type_) + bytesRead]
    }

    function Consumed(): seq<byte>
      requires Inv()
    {
      Wire(delivered) + Tail()
    }

    /** One `OnDataReady` whose read returned `chunk`; an empty chunk is the end of the file. */
    function OnDataReady(chunk: seq<byte>): Machine
      requires Inv() && |chunk| <= Wanted()
    {
      if chunk == [] then this
      else if type_ == UNKNOWN then this.(type_ := chunk[0], aborted := !Receivable(chunk[0]))
      else if phase == PREAMBLE then OnPreamble(chunk)
      else OnPayload(chunk)
    }

    function OnPreamble(chunk: seq<byte>): Machine
      requires Inv() && 0 < |chunk| <= Wanted() && type_ != UNKNOWN && phase == PREAMBLE
    {
      var preamble' := Overwrite(preamble, bytesRead, chunk);
      var read := bytesRead + |chunk|;
      var size := PreambleSize(type_);
      if read != size then this.(preamble := preamble', bytesRead := read)
      else
        var length := PayloadLength(type_, preamble');
        this.(preamble := preamble', packet := Overwrite(Resize(packet, size + length), 0, preamble'[..size]),
              bytesRemaining := length, phase := PAYLOAD, bytesRead := 0)
    }

    function OnPayload(chunk: seq<byte>): Machine
      requires Inv() && 0 < |chunk| <= Wanted() && phase == PAYLOAD
    {
      var packet' := Overwrite(packet, PreambleSize(type_) + bytesRead, chunk);
      if bytesRemaining != |chunk| then
        this.(packet := packet', bytesRemaining := bytesRemaining - |chunk|, bytesRead := bytesRead + |chunk|)
      else
        this.(packet := packet', bytesRemaining := 0, bytesRead := 0, phase := PREAMBLE,
              type_ := UNKNOWN, delivered := delivered + [Packet(type_, packet')])
    }
  }

  function Overwrite(s: seq<byte>, at: nat, chunk: seq<byte>): (r: seq<byte>)
    requires at + |chunk| <= |s|
    ensures |r| == |s| && r[..at] == s[..at] && r[at..at + |chunk|] == chunk
    ensures r[..at + |chunk|] == s[..at] + chunk
    ensures at == 0 ==> r[..|chunk|] == chunk
  {
    s[..at] + chunk + s[at + |chunk|..]
  }

  function Resize(s: seq<byte>, n: nat): (r: seq<byte>)
    ensures |r| == n
  {
    if n <= |s| then s[..n] else s + Zeros(n - |s|)
  }

  const START := Machine(UNKNOWN, PREAMBLE, Zeros(4), [], 0, 0, [], false)

  lemma StartConsumesNothing()
    ensures START.Consumed() == []
  {
  }

  /** Only two states ask for nothing: after an unknown type, and after a preamble without payload. */
  lemma OnlyStuckOrAborted(m: Machine)
    requires m.Inv()
    ensures m.Wanted() == 0 <==> m.aborted || m.Stuck()
  {
  }

  lemma StepKeepsInv(m: Machine, chunk: seq<byte>)
    requires m.Inv() && |chunk| <= m.Wanted()
    ensures m.OnDataReady(chunk).Inv()
  {
    hide Machine.OnPreamble, Machine.OnPayload, PayloadLength;
    if chunk != [] && m.type_ != UNKNOWN {
      if m.phase == PREAMBLE {
        PreambleKeepsInv(m, chunk);
      } else {
        PayloadKeepsInv(m, chunk);
      }
    }
  }

  lemma PreambleKeepsInv(m: Machine, chunk: seq<byte>)
    requires m.Inv() && 0 < |chunk| <= m.Wanted() && m.type_ != UNKNOWN && m.phase == PREAMBLE
    ensures m.OnPreamble(chunk).Inv()
  {
    hide Overwrite, Resize, PayloadLength, Whole;
    var m' := m.OnPreamble(chunk);
    if m'.phase == PAYLOAD {
      SameLength(m.type_, m'.packet, m'.preamble);
    }
  }

  lemma PayloadKeepsInv(m: Machine, chunk: seq<byte>)
    requires m.Inv() && 0 < |chunk| <= m.Wanted() && m.phase == PAYLOAD
    ensures m.OnPayload(chunk).Inv()
  {
    hide Overwrite, Resize, PayloadLength;
    var size := PreambleSize(m.type_);
    var packet' := Overwrite(m.packet, size + m.bytesRead, chunk);
    assert packet'[..size] == packet'[..size + m.bytesRead][..size] == m.packet[..size];
    SameLength(m.type_, packet', m.packet);
  }

  /** Each step consumes exactly the chunk it was given. */
  lemma StepConsumes(m: Machine, chunk: seq<byte>)
    requires m.Inv() && |chunk| <= m.Wanted()
    ensures m.OnDataReady(chunk).Inv()
    ensures m.OnDataReady(chunk).Consumed() == m.Consumed() + chunk
  {
    hide Wire, PayloadLength, Machine.Inv, Machine.OnDataReady, Machine.Tail, Machine.Wanted;
    StepKeepsInv(m, chunk);
    var m' := m.OnDataReady(chunk);
    if chunk == [] {
      EndOfFile(m);
      assert m.Consumed() + chunk == m.Consumed();
    } else {
      TailGrows(m, chunk);
      if m'.delivered == m.delivered {
        assert Wire(m.delivered) + (m.Tail() + chunk) == m.Consumed() + chunk;
      } else {
        WireSnoc(m.delivered, Packet(m.type_, m'.packet));
        assert Wire(m.delivered) + (m.Tail() + chunk) == m.Consumed() + chunk;
      }
    }
  }

  lemma EndOfFile(m: Machine)
    requires m.Inv()
    ensures m.OnDataReady([]) == m
  {
  }

  lemma WireSnoc(ps: seq<Packet>, p: Packet)
    ensures Wire(ps + [p]) == Wire(ps) + p.Frame()
  {
    WireConcat(ps, [p]);
    assert [p][1..] == [];
  }

  lemma TailGrows(m: Machine, chunk: seq<byte>)
    requires m.Inv() && 0 < |chunk| <= m.Wanted() && m.OnDataReady(chunk).Inv()
    ensures var m', p := m.OnDataReady(chunk), Packet(m.type_, m.OnDataReady(chunk).packet);
      || (m'.delivered == m.delivered && m'.Tail() == m.Tail() + chunk)
      || (m'.delivered == m.delivered + [p] && m'.Tail() == [] && p.Frame() == m.Tail() + chunk)
  {
    hide PayloadLength, Machine.OnPreamble, Machine.OnPayload, Whole;
    if m.type_ == UNKNOWN {
      assert m.OnDataReady(chunk).Tail() == [chunk[0]] == chunk;
    } else if m.phase == PREAMBLE {
      PreambleTail(m, chunk);
    } else {
      PayloadTail(m, chunk);
    }
  }

  lemma PayloadTail(m: Machine, chunk: seq<byte>)
    requires m.Inv() && 0 < |chunk| <= m.Wanted() && m.phase == PAYLOAD && m.OnPayload(chunk).Inv()
    ensures var m', p := m.OnPayload(chunk), Packet(m.type_, m.OnPayload(chunk).packet);
      || (m'.delivered == m.delivered && m'.Tail() == m.Tail() + chunk)
      || (m'.delivered == m.delivered + [p] && m'.Tail() == [] && p.Frame() == m.Tail() + chunk)
  {
    hide PayloadLength, Overwrite, Whole, PreambleSize;
    var at := PreambleSize(m.type_) + m.bytesRead;
    var packet' := Overwrite(m.packet, at, chunk);
    Grown(m.type_, m.packet, packet', at, chunk);
    assert m.Tail() == [m.type_] + m.packet[..at];
    assert m.OnPayload(chunk).packet == packet';
  }

  /** Filling in behind the first `at` bytes appends to them. */
  lemma Grown(t: byte, s: seq<byte>, s': seq<byte>, at: nat, chunk: seq<byte>)
    requires at + |chunk| <= |s| == |s'| && s'[..at + |chunk|] == s[..at] + chunk
    ensures [t] + s'[..at + |chunk|] == [t] + s[..at] + chunk
    ensures at + |chunk| == |s| ==> [t] + s' == [t] + s[..at] + chunk
  {
    assert s'[..|s'|] == s';
    assert [t] + (s[..at] + chunk) == [t] + s[..at] + chunk;
  }

  lemma PreambleTail(m: Machine, chunk: seq<byte>)
    requires m.Inv() && 0 < |chunk| <= m.Wanted() && m.type_ != UNKNOWN && m.phase == PREAMBLE
    requires m.OnPreamble(chunk).Inv()
    ensures m.OnPreamble(chunk).Tail() == m.Tail() + chunk && m.OnPreamble(chunk).delivered == m.delivered
  {
    hide PayloadLength, Overwrite, Resize, Whole, PreambleSize;
    var n := m.bytesRead + |chunk|;
    var preamble' := Overwrite(m.preamble, m.bytesRead, chunk);
    Grown(m.type_, m.preamble, preamble', m.bytesRead, chunk);
    assert m.Tail() == [m.type_] + m.preamble[..m.bytesRead];
  }

  /** What the whole-stream parser makes of the unfinished packet: nothing, unless the machine is
      stuck on a packet without payload. */
  lemma ParseTail(m: Machine)
    requires m.Inv()
    ensures Parse(m.Tail()) == if m.Stuck() then [Packet(m.type_, m.packet)] else []
    ensures m.Stuck() ==> Packet(m.type_, m.packet).Empty()
  {
    hide PayloadLength, Whole;
    if m.phase == PAYLOAD {
      var n := PreambleSize(m.type_);
      var read := m.packet[..n + m.bytesRead];
      var s := [m.type_] + read;
      assert m.Tail() == s && s[0] == m.type_ && s[1..] == read;
      assert read[..n] == m.packet[..n];
      SameLength(m.type_, read, m.packet);
      if m.Stuck() {
        assert read == m.packet && s[1..n + 1] == read;
        assert s[n + 1..] == [];
      }
    }
  }

  /** A run is a list of chunks, one for each `OnDataReady`. */
  predicate Legal(m: Machine, chunks: seq<seq<byte>>)
    requires m.Inv()
    decreases |chunks|
  {
    chunks == [] ||
    (|chunks[0]| <= m.Wanted() && (StepKeepsInv(m, chunks[0]); Legal(m.OnDataReady(chunks[0]), chunks[1..])))
  }

  function Run(m: Machine, chunks: seq<seq<byte>>): (r: Machine)
    requires m.Inv() && Legal(m, chunks)
    ensures r.Inv()
    decreases |chunks|
  {
    if chunks == [] then m
    else
      StepKeepsInv(m, chunks[0]);
      Run(m.OnDataReady(chunks[0]), chunks[1..])
  }

  function Flatten(chunks: seq<seq<byte>>): seq<byte> {
    if chunks == [] then [] else chunks[0] + Flatten(chunks[1..])
  }

  lemma {:induction false} RunConsumes(m: Machine, chunks: seq<seq<byte>>)
    requires m.Inv() && Legal(m, chunks)
    ensures Run(m, chunks).Consumed() == m.Consumed() + Flatten(chunks)
    decreases |chunks|
  {
    hide Wire, PayloadLength, Machine.Inv, Machine.OnDataReady, Machine.Consumed, Machine.Wanted;
    if chunks == [] {
      assert m.Consumed() + [] == m.Consumed();
    } else {
      StepConsumes(m, chunks[0]);
      var m' := m.OnDataReady(chunks[0]);
      RunConsumes(m', chunks[1..]);
      assert Run(m, chunks) == Run(m', chunks[1..]);
      assert m.Consumed() + chunks[0] + Flatten(chunks[1..]) == m.Consumed() + Flatten(chunks);
    }
  }

  lemma MachineRefinesParse(m: Machine)
    requires m.Inv()
    ensures m.delivered == BeforeEmpty(Parse(m.Consumed()))
    ensures m.delivered == Parse(m.Consumed()) <==> !m.Stuck()
  {
    ParseAfterWire(m.delivered, m.Tail());
    ParseTail(m);
    var rest := Parse(m.Tail());
    BeforeEmptyConcat(m.delivered, rest);
    assert BeforeEmpty(rest) == [];
    assert m.delivered + [] == m.delivered;
  }

  /** However the reads split the stream, the packets handed on are those the whole-stream parser
      finds in the bytes read so far, up to the first one without payload.  The two agree completely
      exactly if the stream holds no such packet; otherwise the machine is stuck on it. */
  lemma RunRefinesParse(chunks: seq<seq<byte>>)
    requires Legal(START, chunks)
    ensures var m, s := Run(START, chunks), Flatten(chunks);
      && m.delivered == BeforeEmpty(Parse(s))
      && (m.delivered == Parse(s) <==> NoneEmpty(Parse(s)))
      && (m.Stuck() <==> !NoneEmpty(Parse(s)))
  {
    hide Parse, NoneEmpty, BeforeEmpty, Run, Legal;
    RunConsumes(START, chunks);
    StartConsumesNothing();
    assert Run(START, chunks).Consumed() == Flatten(chunks);
    MachineRefinesParse(Run(START, chunks));
    BeforeEmptyIsAll(Parse(Flatten(chunks)));
  }

  /** And it is stuck for good. */
  lemma {:induction false} StuckForGood(m: Machine, chunks: seq<seq<byte>>)
    requires m.Inv() && m.Stuck() && Legal(m, chunks)
    ensures Run(m, chunks) == m
    decreases |chunks|
  {
    hide Machine.Inv, PayloadLength;
    if chunks != [] {
      OnlyStuckOrAborted(m);
      assert chunks[0] == [];
      StuckForGood(m, chunks[1..]);
    }
  }

  /** An event that declares no parameters, in two reads. */
  const EMPTY_EVENT: seq<seq<byte>> := [[EVENT], [0x10, 0]]

  lemma EmptyEventIsLegal()
    ensures START.Inv() && Legal(START, EMPTY_EVENT)
  {
    hide Machine.OnPreamble, Machine.OnPayload;
    var m := START.OnDataReady([EVENT]);
    assert m == START.(type_ := EVENT) && m.Inv() && m.Wanted() == 2;
    LegalIfWanted(m, [0x10, 0]);
    assert EMPTY_EVENT[1..] == [[0x10, 0]];
  }

  lemma LegalIfWanted(m: Machine, chunk: seq<byte>)
    requires m.Inv() && |chunk| <= m.Wanted()
    ensures Legal(m, [chunk])
  {
    hide Machine.Inv, Machine.Wanted, Machine.OnDataReady;
    StepKeepsInv(m, chunk);
  }

  lemma ParseOfEmptyEvent()
    ensures Flatten(EMPTY_EVENT) == [4, 0x10, 0]
    ensures Parse([4, 0x10, 0]) == [Packet(EVENT, [0x10, 0])]
  {
    var p := Packet(EVENT, [0x10, 0]);
    ParseFrame(p, []);
    assert p.Frame() + [] == [4, 0x10, 0];
    assert EMPTY_EVENT[1..] == [[0x10, 0]] && [[0x10 as byte, 0]][1..] == [];
  }

  /** It is a packet of the stream, and its client never gets it. */
  lemma EmptyEventIsHeldBack()
    ensures START.Inv() && Legal(START, EMPTY_EVENT)
    ensures var m := Run(START, EMPTY_EVENT);
      Parse(Flatten(EMPTY_EVENT)) == [Packet(EVENT, [0x10, 0])] && m.delivered == [] && m.Stuck()
  {
    hide Parse, Run, Legal, Flatten, Machine.Inv, EMPTY_EVENT;
    EmptyEventIsLegal();
    ParseOfEmptyEvent();
    RunRefinesParse(EMPTY_EVENT);
    assert Packet(EVENT, [0x10, 0]).Empty();
  }

  /** Runs over the bytes of one packet with payload and whatever follows deliver it first, and go on
      as the rest demands. */
  lemma RunDeliversAcl(chunks: seq<seq<byte>>, h0: byte, h1: byte, low: byte, high: byte,
                       payload: seq<byte>, rest: seq<byte>)
    requires START.Inv() && Legal(START, chunks) && payload != []
    requires var l: nat, h: nat := low, high; |payload| == l + 256 * h
    requires Flatten(chunks) == [2, h0, h1, low, high] + payload + rest
    ensures Run(START, chunks).delivered == [Packet(2, [h0, h1, low, high] + payload)] + BeforeEmpty(Parse(rest))
  {
    hide Parse, Run, Legal, Packet.Empty, Machine.Inv, Flatten;
    ParseAcl(h0, h1, low, high, payload, rest);
    RunRefinesParse(chunks);
    BeforeEmptyFirst(Packet(2, [h0, h1, low, high] + payload), Parse(rest));
  }

  lemma RunDeliversSco(chunks: seq<seq<byte>>, h0: byte, h1: byte, length: byte, payload: seq<byte>, rest: seq<byte>)
    requires START.Inv() && Legal(START, chunks) && payload != [] && |payload| == length as int
    requires Flatten(chunks) == [3, h0, h1, length] + payload + rest
    ensures Run(START, chunks).delivered == [Packet(3, [h0, h1, length] + payload)] + BeforeEmpty(Parse(rest))
  {
    hide Parse, Run, Legal, Packet.Empty, Machine.Inv, Flatten;
    ParseSco(h0, h1, length, payload, rest);
    RunRefinesParse(chunks);
    BeforeEmptyFirst(Packet(3, [h0, h1, length] + payload), Parse(rest));
  }

  lemma RunDeliversEvent(chunks: seq<seq<byte>>, code: byte, length: byte, payload: seq<byte>, rest: seq<byte>)
    requires START.Inv() && Legal(START, chunks) && payload != [] && |payload| == length as int
    requires Flatten(chunks) == [4, code, length] + payload + rest
    ensures Run(START, chunks).delivered == [Packet(4, [code, length] + payload)] + BeforeEmpty(Parse(rest))
  {
    hide Parse, Run, Legal, Packet.Empty, Machine.Inv, Flatten;
    ParseEvent(code, length, payload, rest);
    RunRefinesParse(chunks);
    BeforeEmptyFirst(Packet(4, [code, length] + payload), Parse(rest));
  }

  lemma ParseOfWire(ps: seq<Packet>)
    requires Whole(ps)
    ensures Parse(Wire(ps)) == ps && BeforeEmpty(ps) == ps
  {
    hide Wire, Packet.WellFormed;
    assert Wire(ps) + [] == Wire(ps);
    ParseAfterWire(ps, []);
    assert ps + Parse([]) == ps;
    assert ps + [] == ps;
    BeforeEmptyConcat(ps, []);
  }

  /** Sending packets with payload and reading the wire back in any pieces gives the same packets. */
  lemma SentIsReceived(ps: seq<Packet>, chunks: seq<seq<byte>>)
    requires Whole(ps)
    requires Legal(START, chunks) && Flatten(chunks) == Wire(ps)
    ensures Run(START, chunks).delivered == ps && Run(START, chunks).type_ == UNKNOWN
  {
    hide Run, Parse, BeforeEmpty, Wire, Packet.WellFormed, Machine.OnDataReady;
    ParseOfWire(ps);
    RunRefinesParse(chunks);
    RunConsumes(START, chunks);
    var m := Run(START, chunks);
    StartConsumesNothing();
    NothingLeft(m, Wire(ps));
  }

  lemma NothingLeft(m: Machine, wire: seq<byte>)
    requires m.Inv() && m.Consumed() == wire == Wire(m.delivered)
    ensures m.type_ == UNKNOWN
  {
    hide Wire;
    assert |m.Tail()| == 0;
  }

  // ----- the code

  /** The serial line: what the controller has sent and not yet been read, and what was written. */
  class Uart {
    var incoming: seq<byte>
    var written: seq<byte>

    constructor (bytes: seq<byte>)
      ensures incoming == bytes && written == []
    {
      incoming, written := bytes, [];
    }

    /** A read returns any number of the next bytes, at most as many as asked for. */
    method Read(n: nat) returns (chunk: seq<byte>)
      modifies this`incoming
      ensures |chunk| <= n && old(incoming) == chunk + incoming
    {
      var k: nat :| k <= n && k <= |incoming|;
      chunk, incoming := incoming[..k], incoming[k..];
    }
  }

  class HciPacketizer {
    var phase: Phase
    const preamble: array<byte>
    var packet: seq<byte>
    var bytesRead: nat
    var bytesRemaining: nat

    constructor ()
      ensures fresh(preamble) && preamble.Length == PREAMBLE_SIZE_MAX
      ensures phase == PREAMBLE && bytesRead == 0 && bytesRemaining == 0 && packet == []
      ensures preamble[..] == Zeros(4)
    {
      preamble := new byte[PREAMBLE_SIZE_MAX](i => 0);
      phase, packet, bytesRead, bytesRemaining := PREAMBLE, [], 0, 0;
    }

    /** The machine these fields stand for, given what the protocol object knows. */
    ghost function State(t: byte, delivered: seq<Packet>, aborted: bool): Machine
      reads this, preamble
    {
      Machine(t, phase, preamble[..], packet, bytesRead, bytesRemaining, delivered, aborted)
    }

    /** Returns whether the packet is complete, in place of the source's callback. */
    method OnDataReady(fd: Uart, t: byte, ghost delivered: seq<Packet>) returns (ready: bool, ghost chunk: seq<byte>)
      requires State(t, delivered, false).Inv() && t != UNKNOWN
      modifies this, preamble, fd`incoming
      ensures |chunk| <= old(State(t, delivered, false)).Wanted() && old(fd.incoming) == chunk + fd.incoming
      ensures old(State(t, delivered, false)).OnDataReady(chunk) ==
        if ready then State(UNKNOWN, delivered + [Packet(t, packet)], false) else State(t, delivered, false)
    {
      hide Machine.OnPreamble, Machine.OnPayload, PayloadLength;
      ready := false;
      var bytes: seq<byte>;
      match phase
      case PREAMBLE =>
        bytes := fd.Read(PreambleSize(t) - bytesRead);
        chunk := bytes;
        if |bytes| == 0 {
          return;
        }
        FillPreamble(bytes, t, delivered);
      case PAYLOAD =>
        bytes := fd.Read(bytesRemaining);
        chunk := bytes;
        if |bytes| == 0 {
          return;
        }
        ready := FillPayload(bytes, t, delivered);
    }

    method CopyIn(bytes: seq<byte>)
      requires bytesRead + |bytes| <= preamble.Length
      modifies preamble
      ensures preamble[..] == Overwrite(old(preamble[..]), bytesRead, bytes)
    {
      forall i | 0 <= i < |bytes| {
        preamble[bytesRead + i] := bytes[i];
      }
    }

    method FillPreamble(bytes: seq<byte>, t: byte, ghost delivered: seq<Packet>)
      requires State(t, delivered, false).Inv() && t != UNKNOWN && phase == PREAMBLE
      requires 0 < |bytes| <= State(t, delivered, false).Wanted()
      modifies this, preamble
      ensures State(t, delivered, false) == old(State(t, delivered, false)).OnPreamble(bytes)
    {
      hide PayloadLength, Resize, Overwrite, PreambleSize, Whole;
      CopyIn(bytes);
      bytesRead := bytesRead + |bytes|;
      if bytesRead == PreambleSize(t) {
        var filled := preamble[..];
        var length := PayloadLength(t, filled);
        packet := Overwrite(Resize(packet, PreambleSize(t) + length), 0, filled[..PreambleSize(t)]);
        bytesRemaining, phase, bytesRead := length, PAYLOAD, 0;
      }
    }

    method FillPayload(bytes: seq<byte>, t: byte, ghost delivered: seq<Packet>) returns (ready: bool)
      requires State(t, delivered, false).Inv() && t != UNKNOWN && phase == PAYLOAD
      requires 0 < |bytes| <= State(t, delivered, false).Wanted()
      modifies this
      ensures old(State(t, delivered, false)).OnPayload(bytes) ==
        if ready then State(UNKNOWN, delivered + [Packet(t, packet)], false) else State(t, delivered, false)
    {
      packet := Overwrite(packet, PreambleSize(t) + bytesRead, bytes);
      bytesRemaining, bytesRead := bytesRemaining - |bytes|, bytesRead + |bytes|;
      ready := bytesRemaining == 0;
      if ready {
        phase, bytesRead := PREAMBLE, 0;
      }
    }
  }

  lemma Regroup(a: seq<byte>, b: seq<byte>, c: seq<byte>)
    ensures a + (b + c) == (a + b) + c
  {
  }

  /** The packets of one type, as the callback for that type received them. */
  function Routed(ps: seq<Packet>, t: byte): seq<seq<byte>> {
    if ps == [] then []
    else Routed(ps[..|ps| - 1], t) + if ps[|ps| - 1].type_ == t then [ps[|ps| - 1].bytes] else []
  }

  datatype WriteOutcome = Wrote(count: nat) | Again | Failed

  class H4Protocol {
    const uart: Uart
    const packetizer: HciPacketizer
    var packetType: byte
    var aborted: bool
    var events: seq<seq<byte>>
    var acls: seq<seq<byte>>
    var scos: seq<seq<byte>>
    ghost var delivered: seq<Packet>
    ghost var consumed: seq<byte>

    ghost predicate Valid()
      reads this, packetizer, packetizer.preamble
    {
      && State().Inv() && State().Consumed() == consumed
      && events == Routed(delivered, EVENT) && acls == Routed(delivered, ACL_DATA) && scos == Routed(delivered, SCO_DATA)
    }

    ghost function State(): Machine
      reads this, packetizer, packetizer.preamble
    {
      packetizer.State(packetType, delivered, aborted)
    }

    constructor (fd: Uart)
      ensures Valid() && State() == START && consumed == [] && uart == fd
      ensures fresh(packetizer) && fresh(packetizer.preamble)
    {
      packetizer := new HciPacketizer();
      uart, packetType, aborted := fd, UNKNOWN, false;
      events, acls, scos, delivered, consumed := [], [], [], [], [];
    }

    /** One readiness notification: reads some chunk of the line and takes the machine's step. */
    method OnDataReady() returns (ghost chunk: seq<byte>)
      requires Valid() && !aborted
      modifies this, packetizer, packetizer.preamble, uart`incoming
      ensures Valid()
      ensures |chunk| <= old(State()).Wanted() && old(uart.incoming) == chunk + uart.incoming
      ensures State() == old(State()).OnDataReady(chunk) && consumed == old(consumed) + chunk
    {
      hide Wire, PayloadLength, Routed, Machine.Consumed;
      if packetType == UNKNOWN {
        var bytes := uart.Read(1);
        chunk := bytes;
        StepConsumes(old(State()), chunk);
        if |bytes| == 0 {
          assert consumed == consumed + chunk;
          return;
        }
        packetType := bytes[0];
        if !Receivable(packetType) {
          aborted := true;
        }
      } else {
        var ready;
        ready, chunk := packetizer.OnDataReady(uart, packetType, delivered);
        StepConsumes(old(State()), chunk);
        if ready {
          OnPacketReady();
        }
      }
      consumed := consumed + chunk;
    }

    /** Hands the packet to the callback for its type and gets ready for the next type byte. */
    method OnPacketReady()
      requires Receivable(packetType)
      modifies this
      ensures delivered == old(delivered) + [Packet(old(packetType), packetizer.packet)]
      ensures packetType == UNKNOWN && aborted == old(aborted) && consumed == old(consumed)
      ensures forall t :: Routed(delivered, t) ==
                          Routed(old(delivered), t) + if t == old(packetType) then [packetizer.packet] else []
      ensures events == old(events) + if old(packetType) == EVENT then [packetizer.packet] else []
      ensures acls == old(acls) + if old(packetType) == ACL_DATA then [packetizer.packet] else []
      ensures scos == old(scos) + if old(packetType) == SCO_DATA then [packetizer.packet] else []
    {
      var packet := packetizer.packet;
      delivered := delivered + [Packet(packetType, packet)];
      assert delivered[..|delivered| - 1] == old(delivered);
      if packetType == EVENT {
        events := events + [packet];
      } else if packetType == ACL_DATA {
        acls := acls + [packet];
      } else {
        scos := scos + [packet];
      }
      packetType := UNKNOWN;
    }

    /** Any number of notifications: the callbacks have received, by type and in order, what the
        whole-stream parser finds in the bytes taken from the line, up to a packet without payload. */
    method Pump(notifications: nat)
      requires Valid() && State() == START && consumed == []
      modifies this, packetizer, packetizer.preamble, uart`incoming
      ensures old(uart.incoming) == consumed + uart.incoming
      ensures events == Routed(BeforeEmpty(Parse(consumed)), EVENT)
      ensures acls == Routed(BeforeEmpty(Parse(consumed)), ACL_DATA)
      ensures scos == Routed(BeforeEmpty(Parse(consumed)), SCO_DATA)
    {
      hide Wire, Parse, BeforeEmpty, Routed, Machine.Inv, Machine.OnDataReady, Machine.Tail, Machine.Wanted, Machine.Consumed;
      var i := 0;
      while i < notifications && !aborted
        invariant Valid() && old(uart.incoming) == consumed + uart.incoming
      {
        ghost var before := consumed;
        ghost var chunk := OnDataReady();
        Regroup(before, chunk, uart.incoming);
        i := i + 1;
      }
      MachineRefinesParse(State());
    }

    /** Writes a frame; EAGAIN and EINTR are retried.  Returns the count of the last attempt, or -1.
        `outcomes` is what the driver answers to the successive attempts. */
    method Send(t: byte, data: seq<byte>, outcomes: seq<WriteOutcome>) returns (ret: int)
      requires exists k :: 0 <= k < |outcomes| && !outcomes[k].Again?
      requires forall o :: o in outcomes && o.Wrote? ==> o.count <= |data| + 1
      modifies uart`written
      ensures ret == -1 ==> uart.written == old(uart.written)
      ensures ret != -1 ==> 0 <= ret <= |data| + 1 && uart.written == old(uart.written) + ([t] + data)[..ret]
      ensures ret == |data| + 1 ==> uart.written == old(uart.written) + Packet(t, data).Frame()
    {
      var k := 0;
      while outcomes[k].Again?
        invariant 0 <= k < |outcomes|
        invariant exists j :: k <= j < |outcomes| && !outcomes[j].Again?
        invariant uart.written == old(uart.written)
        decreases |outcomes| - k
      {
        k := k + 1;
      }
      match outcomes[k]
      case Failed => ret := -1;
      case Wrote(count) =>
        assert outcomes[k] in outcomes;
        uart.written := uart.written + ([t] + data)[..count];
        ret := count;
    }
  }
}
