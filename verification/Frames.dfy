/** The incremental WebSocket frame parser (example/websocket.go:180-199, 422-581), on
    values: one call of `onFrame` consumes the frames a chunk completes and carries the
    rest over to the next call. */
module Frames {
  import opened Basics
  import opened Masking
  import opened Incremental

  const CONTINUE: Byte := 0
  const TEXT: Byte := 1
  const BINARY: Byte := 2
  const CLOSE: Byte := 8
  const PING: Byte := 9
  const PONG: Byte := 10

  const MAX_PAYLOAD := 4 * 1024 * 1024
  const MAX_CONTROL := 125

  predicate IsControlFrame(op: Byte) { op == CLOSE || op == PING || op == PONG }

  predicate IsMessageFrame(op: Byte) { op == BINARY || op == TEXT || op == CONTINUE }

  // ----- The header -----

  predicate Fin(b1: Byte) { b1 & 0x80 != 0 }

  /** Any of the three reserved bits. */
  predicate Rsv(b1: Byte) { b1 & 0x70 != 0 }

  function Opcode(b1: Byte): Byte { b1 & 0xf }

  predicate MaskBit(b2: Byte) { b2 & 0x80 != 0 }

  function Len7(b2: Byte): nat { (b2 & 0x7f) as nat }

  function BigEndian(s: seq<Byte>): nat {
    if s == [] then 0 else BigEndian(s[..|s| - 1]) * 256 + s[|s| - 1] as nat
  }

  /** The conversion of an unsigned 64-bit value to a signed one. */
  function AsInt64(n: nat): int { if n < 0x8000_0000_0000_0000 then n else n - 0x1_0000_0000_0000_0000 }

  /** What the first octets of a buffer say: too few to tell, a violation, or a frame. */
  datatype Header = Partial | Bad | Complete(fin: bool, opcode: Byte, payload: nat, key: Key, hlen: nat)

  /** The checks on the length, and the masking key behind it (`at` is where the key starts). */
  function ParseKey(buf: seq<Byte>, at: nat, payload: int): (h: Header)
    requires 2 <= at && |buf| >= 2
    ensures h.Complete? ==> h.hlen == at + 4 <= |buf| && h.payload == payload <= MAX_PAYLOAD
  {
    var op := Opcode(buf[0]);
    if payload < 0 then Bad
    else if payload > MAX_PAYLOAD then Bad
    else if IsControlFrame(op) && payload > MAX_CONTROL then Bad
    else if at + 4 > |buf| then Partial
    else Complete(Fin(buf[0]), op, payload, buf[at..at + 4], at + 4)
  }

  /** parseFrameHeader; `compress` is whether permessage-deflate has been negotiated. */
  function ParseHeader(buf: seq<Byte>, compress: bool): (h: Header)
    ensures h.Complete? ==> 6 <= h.hlen <= 14 && h.hlen <= |buf|
  {
    if |buf| < 2 then Partial
    else
      var op := Opcode(buf[0]);
      if !compress && Rsv(buf[0]) then Bad
      else if !IsControlFrame(op) && !IsMessageFrame(op) then Bad
      else if IsControlFrame(op) && !Fin(buf[0]) then Bad
      else if !MaskBit(buf[1]) then Bad
      else if Len7(buf[1]) == 126 then
        if 4 > |buf| then Partial else ParseKey(buf, 4, BigEndian(buf[2..4]))
      else if Len7(buf[1]) == 127 then
        if 10 > |buf| then Partial else ParseKey(buf, 10, AsInt64(BigEndian(buf[2..10])))
      else ParseKey(buf, 2, Len7(buf[1]))
  }

  // ----- The header against RFC 6455 -----

  /** The octets with the payload length have arrived. */
  predicate LengthKnown(buf: seq<Byte>) {
    |buf| >= 2 && (Len7(buf[1]) == 126 ==> |buf| >= 4) && (Len7(buf[1]) == 127 ==> |buf| >= 10)
  }

  /** The payload length as written: 7, 16 or 64 bits (section 5.2 of RFC 6455). */
  function Announced(buf: seq<Byte>): nat
    requires LengthKnown(buf)
  {
    if Len7(buf[1]) == 126 then BigEndian(buf[2..4])
    else if Len7(buf[1]) == 127 then BigEndian(buf[2..10])
    else Len7(buf[1])
  }

  /** The rules of RFC 6455 that the header of a client's frame can break by itself: reserved bits
      and opcodes, the minimal form of the length and its most significant bit (section 5.2),
      masking (section 5.1), control frames whole and short (section 5.5), the body of a close frame
      empty or long enough for a status code (section 5.5.1). */
  datatype Rule =
    | ReservedBits | ReservedOpcodes | MinimalLength | LengthSign | ClientMasks | ControlWhole | ControlShort | CloseBody

  /** RSV1 belongs to permessage-deflate, where that is negotiated. */
  predicate Breaks(buf: seq<Byte>, deflate: bool, rule: Rule)
    requires LengthKnown(buf)
  {
    match rule
    case ReservedBits => buf[0] & 0x30 != 0 || (buf[0] & 0x40 != 0 && !deflate)
    case ReservedOpcodes => Opcode(buf[0]) !in {0, 1, 2, 8, 9, 10}
    case MinimalLength =>
      (Len7(buf[1]) == 126 && Announced(buf) < 126) || (Len7(buf[1]) == 127 && Announced(buf) < 0x1_0000)
    case LengthSign => Announced(buf) >= 0x8000_0000_0000_0000
    case ClientMasks => !MaskBit(buf[1])
    case ControlWhole => Opcode(buf[0]) in {8, 9, 10} && !Fin(buf[0])
    case ControlShort => Opcode(buf[0]) in {8, 9, 10} && Announced(buf) > 125
    case CloseBody => Opcode(buf[0]) == 8 && Announced(buf) == 1
  }

  /** The rules the parser does not enforce: the form of the length, the body of a close frame, and
      with permessage-deflate the reserved bits. */
  predicate Unchecked(rule: Rule, deflate: bool) {
    rule == MinimalLength || rule == CloseBody || (rule == ReservedBits && deflate)
  }

  lemma ReservedBitsChecked(b1: Byte)
    ensures Rsv(b1) <==> b1 & 0x30 != 0 || b1 & 0x40 != 0
  {
  }

  /** The header breaks one of the rules the parser enforces. */
  predicate BreaksChecked(buf: seq<Byte>, deflate: bool)
    requires LengthKnown(buf)
  {
    || (!deflate && Breaks(buf, deflate, ReservedBits))
    || Breaks(buf, deflate, ReservedOpcodes)
    || Breaks(buf, deflate, LengthSign)
    || Breaks(buf, deflate, ClientMasks)
    || Breaks(buf, deflate, ControlWhole)
    || Breaks(buf, deflate, ControlShort)
  }

  lemma CheckedRules(buf: seq<Byte>, deflate: bool)
    requires LengthKnown(buf)
    ensures BreaksChecked(buf, deflate) <==> exists r :: Breaks(buf, deflate, r) && !Unchecked(r, deflate)
  {
  }

  lemma RejectedIff(buf: seq<Byte>, compress: bool)
    requires LengthKnown(buf)
    ensures ParseHeader(buf, compress) == Bad <==> Announced(buf) > MAX_PAYLOAD || BreaksChecked(buf, compress)
  {
    OpcodeSets(Opcode(buf[0]));
    ReservedBitsChecked(buf[0]);
    if Len7(buf[1]) == 127 {
      BigEndianBound(buf[2..10]);
    }
  }

  /** Once the length is known, the parser rejects a header exactly when the payload is too long
      for the server or a rule other than the unchecked ones is broken; with the key there, too,
      it reads every other frame off and never waits. */
  lemma HeaderVerdict(buf: seq<Byte>, compress: bool)
    requires LengthKnown(buf)
    ensures ParseHeader(buf, compress) == Bad
            <==> Announced(buf) > 4 * 1024 * 1024 || exists r :: Breaks(buf, compress, r) && !Unchecked(r, compress)
    ensures var h := ParseHeader(buf, compress);
            var hlen := if Len7(buf[1]) == 126 then 8 else if Len7(buf[1]) == 127 then 14 else 6;
            && (h == Partial ==> |buf| < hlen)
            && (h.Complete? ==>
                  && h.hlen == hlen <= |buf| && h.key == buf[hlen - 4..hlen]
                  && h.fin == Fin(buf[0]) && h.opcode == Opcode(buf[0]) && h.payload == Announced(buf))
  {
    RejectedIff(buf, compress);
    CheckedRules(buf, compress);
    if Len7(buf[1]) == 127 {
      BigEndianBound(buf[2..10]);
    }
  }

  /** Before that, two octets are enough to reject a frame for its reserved bits, its opcode, a control
      frame that is not whole, or a missing mask; otherwise, and with less, the parser waits. */
  lemma EarlyVerdict(buf: seq<Byte>, compress: bool)
    requires !LengthKnown(buf)
    ensures ParseHeader(buf, compress) == Partial || ParseHeader(buf, compress) == Bad
    ensures ParseHeader(buf, compress) == Bad
            <==> && |buf| >= 2
                 && (|| (buf[0] & 0x70 != 0 && !compress)
                     || Opcode(buf[0]) !in {0, 1, 2, 8, 9, 10}
                     || (Opcode(buf[0]) in {8, 9, 10} && buf[0] & 0x80 == 0)
                     || buf[1] & 0x80 == 0)
  {
    if |buf| >= 2 {
      OpcodeSets(Opcode(buf[0]));
    }
  }

  /** A header that breaks a rule gets through exactly when the length suits the server and every
      rule it breaks is an unchecked one. */
  lemma PassesViolationIff(buf: seq<Byte>, compress: bool)
    requires LengthKnown(buf)
    ensures (ParseHeader(buf, compress) != Bad && exists r :: Breaks(buf, compress, r))
            <==> && Announced(buf) <= 4 * 1024 * 1024 && (exists r :: Breaks(buf, compress, r))
                 && forall r :: Breaks(buf, compress, r) ==> Unchecked(r, compress)
  {
    HeaderVerdict(buf, compress);
  }

  /** Such a header: 5 octets of BINARY announced in the 16-bit form. */
  lemma LongFormPasses(key: Key)
    ensures var buf := [0x82, 0xfe, 0, 5] + key;
            && LengthKnown(buf) && Breaks(buf, false, MinimalLength)
            && ParseHeader(buf, false) == Complete(true, BINARY, 5, key, 8)
  {
    var buf: seq<Byte> := [0x82, 0xfe, 0, 5] + key;
    LongFormBits();
    assert buf[2..4] == [0, 5] && [0 as Byte, 5][..1] == [0] && [0 as Byte][..0] == [];
    assert BigEndian([0, 5]) == 5;
    assert buf[4..8] == key;
  }

  /** And another: a close frame of one octet. */
  lemma OneOctetClosePasses(key: Key)
    ensures var buf := [0x88, 0x81] + key;
            && LengthKnown(buf) && Breaks(buf, false, CloseBody) && !Breaks(buf, false, MinimalLength)
            && ParseHeader(buf, false) == Complete(true, CLOSE, 1, key, 6)
  {
    var buf: seq<Byte> := [0x88, 0x81] + key;
    OneOctetCloseBits();
    assert buf[2..6] == key;
  }

  lemma OneOctetCloseBits()
    ensures Fin(0x88) && !Rsv(0x88) && Opcode(0x88) == CLOSE && MaskBit(0x81) && Len7(0x81) == 1
  {
    assert 0x81 & 0x7f == 1 as Byte;
  }

  lemma LongFormBits()
    ensures Fin(0x82) && !Rsv(0x82) && Opcode(0x82) == BINARY && MaskBit(0xfe) && Len7(0xfe) == 126
  {
    assert 0xfe & 0x7f == 126 as Byte;
  }

  lemma OpcodeSets(op: Byte)
    ensures op in {8, 9, 10} <==> IsControlFrame(op)
    ensures op in {0, 1, 2, 8, 9, 10} <==> IsControlFrame(op) || IsMessageFrame(op)
  {
  }

  lemma BigEndianBound(s: seq<Byte>)
    requires |s| == 8
    ensures BigEndian(s) < 0x1_0000_0000_0000_0000
  {
    BigEndianPower(s, 8);
    assert Power256(8) == 0x1_0000_0000_0000_0000 by {
      assert Power256(4) == 0x1_0000_0000;
    }
  }

  function Power256(k: nat): nat {
    if k == 0 then 1 else 256 * Power256(k - 1)
  }

  lemma {:induction false} BigEndianPower(s: seq<Byte>, k: nat)
    requires |s| == k
    ensures BigEndian(s) < Power256(k)
  {
    if k > 0 {
      BigEndianPower(s[..k - 1], k - 1);
      OctetBound(s[k - 1]);
    }
  }

  lemma OctetBound(b: Byte)
    ensures b as nat < 256
  {
  }

  // ----- One frame -----

  datatype Event =
    | Message(opcode: Byte, data: seq<Byte>)
    | Ping(data: seq<Byte>)
    | Pong(data: seq<Byte>)
    | Close(code: nat, info: seq<Byte>)

  const NO_CLOSE_RCVD := 1005

  /** The fragments collected so far, if a fragmented message has started. */
  datatype Fragments = Fragments(start: bool, buf: seq<Byte>)

  function CloseEvent(data: seq<Byte>): Event {
    if |data| > 1 then Close(BigEndian(data[..2]), data[2..]) else Close(NO_CLOSE_RCVD, [])
  }

  /** websocket.go:457-505; a frame of `n` octets with payload `raw`, as received. */
  function HandleFrame(cont: Fragments, h: Header, raw: seq<Byte>, n: nat): Front<Fragments, Event>
    requires h.Complete?
  {
    if h.fin then
      var data := if |raw| > 0 then Masked(raw, h.key) else [];
      if IsControlFrame(h.opcode) then
        if h.opcode == PING then Took(n, cont, [Ping(data)], false)
        else if h.opcode == PONG then Took(n, cont, [Pong(data)], false)
        else Took(n, cont, [CloseEvent(data)], true)
      else if h.opcode == CONTINUE then
        if !cont.start then Reject
        else Took(n, Fragments(false, []), [Message(TEXT, cont.buf + data)], false)
      else Took(n, cont, if IsMessageFrame(h.opcode) then [Message(h.opcode, data)] else [], false)
    else if h.opcode != CONTINUE then Took(n, Fragments(true, raw), [], false)
    else if !cont.start then Reject
    else Took(n, Fragments(true, cont.buf + raw), [], false)
  }

  /** The frame that `h` announces, if the buffer holds all of it. */
  function TakeWhole(h: Header, buf: seq<Byte>, cont: Fragments): Front<Fragments, Event> {
    if h.Bad? then Reject
    else if h.Partial? || |buf| - h.hlen < h.payload then Wait
    else HandleFrame(cont, h, buf[h.hlen..h.hlen + h.payload], h.hlen + h.payload)
  }

  /** One round of the loop of `onFrame`: the frame at the front of the buffer, if it is whole. */
  function TakeFrame(buf: seq<Byte>, cont: Fragments, compress: bool): Front<Fragments, Event> {
    TakeWhole(ParseHeader(buf, compress), buf, cont)
  }

  // ----- Fragmentation against RFC 6455 -----

  /** Section 5.4 of RFC 6455: while a fragmented message is open every data frame continues it,
      and while none is no frame does. */
  predicate OutOfTurn(opcode: Byte, open: bool) {
    IsMessageFrame(opcode) && (open <==> opcode != CONTINUE)
  }

  /** What becomes of a frame that starts a message inside another: a final one is delivered in its
      midst, one that is not final drops what was collected. */
  function TakenInside(h: Header, raw: seq<Byte>, cont: Fragments, n: nat): Front<Fragments, Event>
    requires h.Complete?
  {
    if h.fin then Took(n, cont, [Message(h.opcode, Masked(raw, h.key))], false)
    else Took(n, Fragments(true, raw), [], false)
  }

  lemma OutOfTurnHandledIff(cont: Fragments, h: Header, raw: seq<Byte>, n: nat)
    requires h.Complete? && (IsControlFrame(h.opcode) || IsMessageFrame(h.opcode))
    ensures var t := HandleFrame(cont, h, raw, n);
            && (OutOfTurn(h.opcode, cont.start) && t.Took? <==> cont.start && (h.opcode == TEXT || h.opcode == BINARY))
            && (!OutOfTurn(h.opcode, cont.start) ==> t.Took?)
            && (OutOfTurn(h.opcode, cont.start) && t.Took? ==> t == TakenInside(h, raw, cont, n))
  {
    if h.opcode == TEXT {
    } else if h.opcode == BINARY {
    } else if h.opcode == CONTINUE {
    }
  }

  /** A whole frame out of turn is taken exactly when a message is open and the frame starts another. */
  lemma OutOfTurnTakenIff(buf: seq<Byte>, cont: Fragments, compress: bool)
    requires var h := ParseHeader(buf, compress); h.Complete? && h.hlen + h.payload <= |buf|
    ensures var h, t := ParseHeader(buf, compress), TakeFrame(buf, cont, compress);
            var n := h.hlen + h.payload;
            && (OutOfTurn(h.opcode, cont.start) && t.Took? <==> cont.start && (h.opcode == TEXT || h.opcode == BINARY))
            && (!OutOfTurn(h.opcode, cont.start) ==> t.Took?)
            && (OutOfTurn(h.opcode, cont.start) && t.Took? ==> t == TakenInside(h, buf[h.hlen..n], cont, n))
  {
    MessageOpcodes(buf, compress);
    var h := ParseHeader(buf, compress);
    OutOfTurnHandledIff(cont, h, buf[h.hlen..h.hlen + h.payload], h.hlen + h.payload);
  }

  /** An empty final TEXT frame in the midst of a fragmented message is delivered. */
  lemma TextInsideMessage(key: Key, text: seq<Byte>)
    ensures TakeFrame([0x81, 0x80] + key, Fragments(true, text), false)
            == Took(6, Fragments(true, text), [Message(TEXT, [])], false)
    ensures OutOfTurn(TEXT, true)
  {
    var buf: seq<Byte> := [0x81, 0x80] + key;
    EmptyTextBits();
    assert buf[2..6] == key;
  }

  lemma EmptyTextBits()
    ensures Fin(0x81) && !Rsv(0x81) && Opcode(0x81) == TEXT && MaskBit(0x80) && Len7(0x80) == 0
  {
    assert 0x80 & 0x7f == 0 as Byte;
  }

  type WsResult = Result<Byte, Fragments, Event>

  function FrameParser(compress: bool): Parser<Byte, Fragments, Event> {
    (buf, cont) => TakeFrame(buf, cont, compress)
  }

  lemma FrameProgress(compress: bool)
    ensures Progress(FrameParser(compress))
  {
    forall buf: seq<Byte>, cont: Fragments | TakeFrame(buf, cont, compress).Took?
      ensures 0 < TakeFrame(buf, cont, compress).n <= |buf|
    {
      TakeWholeProgress(ParseHeader(buf, compress), buf, cont);
    }
  }

  lemma TakeWholeProgress(h: Header, buf: seq<Byte>, cont: Fragments)
    requires (h.Complete? ==> h.hlen >= 6) && TakeWhole(h, buf, cont).Took?
    ensures 0 < TakeWhole(h, buf, cont).n <= |buf|
  {
  }

  // ----- A verdict on the first octets of a buffer does not change when more arrive -----

  lemma HeaderStable(a: seq<Byte>, b: seq<Byte>, compress: bool)
    requires ParseHeader(a, compress) != Partial
    ensures ParseHeader(a + b, compress) == ParseHeader(a, compress)
  {
    var ab := a + b;
    assert ab[0] == a[0] && ab[1] == a[1];
    if Len7(a[1]) == 126 {
      if |a| >= 4 {
        assert ab[2..4] == a[2..4];
        KeyStable(a, b, 4, BigEndian(a[2..4]));
      }
    } else if Len7(a[1]) == 127 {
      if |a| >= 10 {
        assert ab[2..10] == a[2..10];
        KeyStable(a, b, 10, AsInt64(BigEndian(a[2..10])));
      }
    } else {
      KeyStable(a, b, 2, Len7(a[1]));
    }
  }

  lemma KeyStable(a: seq<Byte>, b: seq<Byte>, at: nat, payload: int)
    requires 2 <= at && |a| >= 2
    ensures ParseKey(a, at, payload) != Partial ==> ParseKey(a + b, at, payload) == ParseKey(a, at, payload)
  {
    assert (a + b)[0] == a[0];
    if at + 4 <= |a| {
      assert (a + b)[at..at + 4] == a[at..at + 4];
    }
  }

  lemma FrameStable(compress: bool)
    ensures Stable(FrameParser(compress))
  {
    forall a: seq<Byte>, b: seq<Byte>, cont: Fragments | TakeFrame(a, cont, compress) != Wait
      ensures TakeFrame(a + b, cont, compress) == TakeFrame(a, cont, compress)
    {
      TakeFrameStable(a, b, cont, compress);
    }
  }

  lemma TakeFrameStable(a: seq<Byte>, b: seq<Byte>, cont: Fragments, compress: bool)
    requires TakeFrame(a, cont, compress) != Wait
    ensures TakeFrame(a + b, cont, compress) == TakeFrame(a, cont, compress)
  {
    HeaderStable(a, b, compress);
    TakeWholeStable(ParseHeader(a, compress), a, b, cont);
  }

  lemma TakeWholeStable(h: Header, a: seq<Byte>, b: seq<Byte>, cont: Fragments)
    requires TakeWhole(h, a, cont) != Wait
    ensures TakeWhole(h, a + b, cont) == TakeWhole(h, a, cont)
  {
    if h.Complete? {
      assert (a + b)[h.hlen..h.hlen + h.payload] == a[h.hlen..h.hlen + h.payload];
    }
  }

  // ----- The connection -----

  datatype Conn = Conn(partialBuf: seq<Byte>, cont: Fragments)

  const FRESH := Conn([], Fragments(false, []))

  /** The loop of `onFrame` over a buffer. */
  function Loop(buf: seq<Byte>, cont: Fragments, compress: bool): WsResult {
    FrameProgress(compress);
    Consume(FrameParser(compress), buf, cont)
  }

  /** One call of `onFrame`: the chunk goes behind the partial data. */
  function OnFrame(c: Conn, chunk: seq<Byte>, compress: bool): WsResult {
    Loop(c.partialBuf + chunk, c.cont, compress)
  }

  function After(r: WsResult): Conn { Conn(r.carry, r.state) }

  /** The read loop of the connection: a rejected chunk ends it. */
  function OnReads(c: Conn, chunks: seq<seq<Byte>>, compress: bool): WsResult {
    FrameProgress(compress);
    Feed(FrameParser(compress), c.partialBuf, c.cont, chunks)
  }

  /** Between calls, nothing the connection carries over can be consumed yet. */
  predicate Ready(c: Conn, compress: bool) {
    FrameProgress(compress);
    Settled(FrameParser(compress), c.partialBuf, c.cont)
  }

  lemma ReadyAlways(c: Conn, chunk: seq<Byte>, compress: bool)
    ensures Ready(FRESH, compress)
    ensures OnFrame(c, chunk, compress).ok ==> Ready(After(OnFrame(c, chunk, compress)), compress)
  {
    FrameProgress(compress);
    ConsumeSettles(FrameParser(compress), c.partialBuf + chunk, c.cont);
  }

  /** Without a close frame, however the stream is cut into chunks, the calls of `onFrame` make
      the same callbacks, give the same verdict, and leave the same fragments and the same
      partial data as one call on the whole stream. */
  lemma ChunksDoNotMatter(c: Conn, chunks: seq<seq<Byte>>, compress: bool)
    requires Ready(c, compress)
    requires !OnFrame(c, Flatten(chunks), compress).stopped
    ensures OnReads(c, chunks, compress) == OnFrame(c, Flatten(chunks), compress)
  {
    FrameProgress(compress);
    FrameStable(compress);
    SegmentationIrrelevant(FrameParser(compress), c.partialBuf, c.cont, chunks);
  }

  // ----- After a close frame -----

  /** A whole frame that is not final stands at the front. */
  predicate FragmentFirst(b: seq<Byte>, compress: bool) {
    var h := ParseHeader(b, compress);
    h.Complete? && !h.fin && h.hlen + h.payload <= |b|
  }

  /** The octets are whole frames, none of them final: they make no callback. */
  predicate Fragmentary(b: seq<Byte>, compress: bool)
    decreases |b|
  {
    b == [] ||
    (FragmentFirst(b, compress) &&
     var h := ParseHeader(b, compress);
     Fragmentary(b[h.hlen + h.payload..], compress))
  }

  /** One of these frames starts a new message. */
  predicate Restarts(b: seq<Byte>, compress: bool)
    requires Fragmentary(b, compress)
    decreases |b|
  {
    b != [] &&
    var h := ParseHeader(b, compress);
    h.opcode != CONTINUE || Restarts(b[h.hlen + h.payload..], compress)
  }

  /** The payloads since the last such frame, as received. */
  function Payloads(b: seq<Byte>, compress: bool): seq<Byte>
    requires Fragmentary(b, compress)
    decreases |b|
  {
    if b == [] then []
    else
      var h := ParseHeader(b, compress);
      var rest := b[h.hlen + h.payload..];
      (if Restarts(rest, compress) then [] else b[h.hlen..h.hlen + h.payload]) + Payloads(rest, compress)
  }

  /** The octets have no effect on a connection that has collected `cont`: there are none, or
      they are fragments of an open message that add nothing to it, or that start it anew and end
      up with the same text. */
  predicate NoEffect(b: seq<Byte>, cont: Fragments, compress: bool) {
    if !cont.start then b == []
    else Fragmentary(b, compress) && Payloads(b, compress) == if Restarts(b, compress) then cont.buf else []
  }

  lemma FragmentTaken(b: seq<Byte>, cont: Fragments, compress: bool)
    ensures var t, h := TakeFrame(b, cont, compress), ParseHeader(b, compress);
            (t.Took? && t.events == [])
            <==> FragmentFirst(b, compress) && (cont.start || h.opcode != CONTINUE)
    ensures var t, h := TakeFrame(b, cont, compress), ParseHeader(b, compress);
            t.Took? && t.events == [] ==>
              && t.n == h.hlen + h.payload && !t.stop
              && t.state == Fragments(true, (if h.opcode == CONTINUE then cont.buf else []) + b[h.hlen..t.n])
  {
    var h := ParseHeader(b, compress);
    if h.Complete? {
      MessageOpcodes(b, compress);
      if h.hlen + h.payload <= |b| {
        assert [] + b[h.hlen..h.hlen + h.payload] == b[h.hlen..h.hlen + h.payload];
      }
    }
  }

  lemma MessageOpcodes(b: seq<Byte>, compress: bool)
    requires ParseHeader(b, compress).Complete?
    ensures var h := ParseHeader(b, compress); IsControlFrame(h.opcode) || IsMessageFrame(h.opcode)
  {
  }

  /** What came of a buffer was no callback, and nothing is left of it. */
  predicate Quiet(r: WsResult) { r.ok && r.carry == [] && r.events == [] }

  lemma QuietStep(b: seq<Byte>, cont: Fragments, compress: bool)
    requires b != []
    ensures var t := TakeFrame(b, cont, compress);
            if t.Took? && t.events == [] then t.n <= |b| && Loop(b, cont, compress) == Loop(b[t.n..], t.state, compress)
            else !Quiet(Loop(b, cont, compress))
  {
    FrameProgress(compress);
    var t := TakeFrame(b, cont, compress);
    if t.Took? {
      TookEvents(b, cont, compress);
      if t.events == [] {
        NoEvents(Loop(b[t.n..], t.state, compress));
      }
    }
  }

  /** A fragment's payload joins the text; anything else makes a callback or is left over. */
  lemma FragmentStep(b: seq<Byte>, cont: Fragments, compress: bool)
    requires b != []
    ensures var h := ParseHeader(b, compress);
            if FragmentFirst(b, compress) && (cont.start || h.opcode != CONTINUE) then
              var n := h.hlen + h.payload;
              Loop(b, cont, compress)
              == Loop(b[n..], Fragments(true, (if h.opcode == CONTINUE then cont.buf else []) + b[h.hlen..n]), compress)
            else !Quiet(Loop(b, cont, compress))
  {
    FragmentTaken(b, cont, compress);
    QuietStep(b, cont, compress);
  }

  /** No callback, nothing left over: exactly for fragments. */
  lemma {:induction false} FragmentsQuiet(b: seq<Byte>, text: seq<Byte>, compress: bool)
    ensures Quiet(Loop(b, Fragments(true, text), compress)) <==> Fragmentary(b, compress)
    decreases |b|
  {
    if b != [] {
      var h := ParseHeader(b, compress);
      FragmentStep(b, Fragments(true, text), compress);
      if FragmentFirst(b, compress) {
        var n := h.hlen + h.payload;
        FragmentsQuiet(b[n..], (if h.opcode == CONTINUE then text else []) + b[h.hlen..n], compress);
      }
    }
  }

  /** The text of an open message behind these fragments. */
  function Joined(b: seq<Byte>, text: seq<Byte>, compress: bool): seq<Byte>
    requires Fragmentary(b, compress)
  {
    (if Restarts(b, compress) then [] else text) + Payloads(b, compress)
  }

  lemma JoinText(text: seq<Byte>, raw: seq<Byte>, more: seq<Byte>, first: bool, later: bool)
    ensures (if first || later then [] else text) + ((if later then [] else raw) + more)
            == (if later then [] else (if first then [] else text) + raw) + more
  {
    assert text + (raw + more) == (text + raw) + more;
    assert [] + (raw + more) == ([] + raw) + more;
    assert [] + ([] + more) == [] + more;
  }

  lemma JoinedStep(b: seq<Byte>, text: seq<Byte>, compress: bool, h: Header, n: nat)
    requires b != [] && Fragmentary(b, compress) && h == ParseHeader(b, compress) && n == h.hlen + h.payload
    ensures Joined(b, text, compress)
            == (if Restarts(b[n..], compress) then [] else (if h.opcode == CONTINUE then text else []) + b[h.hlen..n])
               + Payloads(b[n..], compress)
  {
    JoinText(text, b[h.hlen..n], Payloads(b[n..], compress), h.opcode != CONTINUE, Restarts(b[n..], compress));
  }

  /** And then the text is this. */
  lemma {:induction false} FragmentsJoined(b: seq<Byte>, text: seq<Byte>, compress: bool)
    requires Fragmentary(b, compress)
    ensures Loop(b, Fragments(true, text), compress).state == Fragments(true, Joined(b, text, compress))
    decreases |b|
  {
    if b == [] {
      assert text + [] == text;
    } else {
      var h := ParseHeader(b, compress);
      var n := h.hlen + h.payload;
      FragmentStep(b, Fragments(true, text), compress);
      JoinedStep(b, text, compress, h, n);
      FragmentsJoined(b[n..], (if h.opcode == CONTINUE then text else []) + b[h.hlen..n], compress);
    }
  }

  lemma NoEffectIff(b: seq<Byte>, cont: Fragments, compress: bool)
    ensures var r := Loop(b, cont, compress);
            (Quiet(r) && r.state == cont) <==> NoEffect(b, cont, compress)
  {
    if cont.start {
      FragmentsQuiet(b, cont.buf, compress);
      if Fragmentary(b, compress) {
        FragmentsJoined(b, cont.buf, compress);
        SameTextIff(cont.buf, Payloads(b, compress));
      }
    } else if b != [] {
      NeverUnstarted(b, cont, compress);
    }
  }

  /** A message that was not open before is afterwards, if no callback was made. */
  lemma NeverUnstarted(b: seq<Byte>, cont: Fragments, compress: bool)
    requires b != [] && !cont.start
    ensures var r := Loop(b, cont, compress); Quiet(r) ==> r.state.start
  {
    FragmentStep(b, cont, compress);
    var h := ParseHeader(b, compress);
    if FragmentFirst(b, compress) && h.opcode != CONTINUE {
      var n := h.hlen + h.payload;
      var text := [] + b[h.hlen..n];
      FragmentsQuiet(b[n..], text, compress);
      if Fragmentary(b[n..], compress) {
        FragmentsJoined(b[n..], text, compress);
      }
    }
  }

  lemma SameTextIff(text: seq<Byte>, more: seq<Byte>)
    ensures text + more == text <==> more == []
    ensures [] + more == more
  {
    assert |text + more| == |text| + |more|;
  }

  /** A close frame makes the cut matter: what follows it in the same chunk is dropped, what
      comes in a later chunk is still parsed.  Two chunks agree with one exactly when the first
      raises no close frame, or the second has no effect: with no fragmented message open, when
      it is empty. */
  lemma CutMattersOnlyAfterClose(c: Conn, a: seq<Byte>, b: seq<Byte>, compress: bool)
    requires OnFrame(c, a, compress).ok
    ensures var r := OnFrame(c, a, compress);
            var two, one := OnReads(c, [a, b], compress), OnFrame(c, a + b, compress);
            (two.ok == one.ok && After(two) == After(one) && two.events == one.events)
            <==> (!r.stopped || NoEffect(b, r.state, compress))
  {
    FrameProgress(compress);
    FrameStable(compress);
    CutAgreesIff(FrameParser(compress), c.partialBuf, c.cont, a, b);
    var r := OnFrame(c, a, compress);
    if r.stopped {
      StoppedCarriesNothing(c.partialBuf + a, c.cont, compress);
      assert [] + b == b;
      NoEffectIff(b, r.state, compress);
    }
  }

  lemma {:induction false} StoppedCarriesNothing(buf: seq<Byte>, cont: Fragments, compress: bool)
    ensures Loop(buf, cont, compress).stopped ==> Loop(buf, cont, compress).carry == []
    decreases |buf|
  {
    FrameProgress(compress);
    var t := TakeFrame(buf, cont, compress);
    if buf != [] && t.Took? && !t.stop {
      StoppedCarriesNothing(buf[t.n..], t.state, compress);
    }
  }

  /** `stopped` is what its name in the source is: a close frame was handled. */
  lemma {:induction false} StoppedIsClose(buf: seq<Byte>, cont: Fragments, compress: bool)
    ensures var r := Loop(buf, cont, compress); r.stopped <==> exists e :: e in r.events && e.Close?
    decreases |buf|
  {
    FrameProgress(compress);
    var front := TakeFrame(buf, cont, compress);
    if buf != [] && front.Took? {
      TookEvents(buf, cont, compress);
      if !front.stop {
        StoppedIsClose(buf[front.n..], front.state, compress);
        var rest := Loop(buf[front.n..], front.state, compress).events;
        forall e ensures e in front.events + rest && e.Close? <==> e in rest && e.Close? {
        }
      } else {
        assert front.events[0] in front.events;
      }
    }
  }

  /** Over any chunks, too. */
  lemma {:induction false} ReadsStoppedIsClose(c: Conn, chunks: seq<seq<Byte>>, compress: bool)
    ensures var r := OnReads(c, chunks, compress); r.stopped <==> exists e :: e in r.events && e.Close?
    decreases |chunks|
  {
    FrameProgress(compress);
    if chunks != [] {
      var r := OnFrame(c, chunks[0], compress);
      StoppedIsClose(c.partialBuf + chunks[0], c.cont, compress);
      if r.ok {
        ReadsStoppedIsClose(After(r), chunks[1..], compress);
        var next := OnReads(After(r), chunks[1..], compress);
        forall e ensures e in r.events + next.events && e.Close? <==> (e in r.events && e.Close?) || (e in next.events && e.Close?) {
        }
      }
    }
  }

  lemma TookEvents(buf: seq<Byte>, cont: Fragments, compress: bool)
    requires TakeFrame(buf, cont, compress).Took?
    ensures var t := TakeFrame(buf, cont, compress);
            if t.stop then |t.events| == 1 && t.events[0].Close? else forall e :: e in t.events ==> !e.Close?
  {
  }
}
