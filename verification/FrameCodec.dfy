/** A number below 256 survives the conversion to an octet and back. */
module OctetConversion {
  lemma ByteRoundTrip(n: nat)
    requires n < 256
    ensures (n as bv8) as nat == n
  {
  }
}

/** The frames a client sends (sections 5.2 to 5.5 of RFC 6455), and their decoding by `onFrame`:
    a stream of any frames comes out as an interpreter of unencoded frames has it.  So a stream of
    unfragmented messages, cut up in any way, comes out as exactly those messages, and what
    becomes of a fragmented message is known. */
module FrameCodec {
  import opened Basics
  import opened Masking
  import opened Incremental
  import opened Frames
  import opened OctetConversion

  /** The three ways of writing a payload length. */
  datatype Form = Len7Bits | Len16Bits | Len64Bits

  /** A frame, the key its sender picked, and the length form it used. */
  datatype Sent = Sent(fin: bool, opcode: Byte, payload: seq<Byte>, key: Key, form: Form)

  /** Within the limits of the server, and of the length form. */
  predicate Acceptable(m: Sent) {
    && (IsControlFrame(m.opcode) || IsMessageFrame(m.opcode))
    && (IsControlFrame(m.opcode) ==> m.fin)
    && |m.payload| <= (if IsControlFrame(m.opcode) then MAX_CONTROL else MAX_PAYLOAD)
    && (m.form == Len7Bits ==> |m.payload| < 126)
    && (m.form == Len16Bits ==> |m.payload| < 0x1_0000)
  }

  predicate AllAcceptable(ms: seq<Sent>) { forall i :: 0 <= i < |ms| ==> Acceptable(ms[i]) }

  /** `n` in `k` octets, most significant first. */
  function ToBigEndian(n: nat, k: nat): (s: seq<Byte>)
    ensures |s| == k
  {
    if k == 0 then [] else ToBigEndian(n / 256, k - 1) + [(n % 256) as Byte]
  }

  lemma {:induction false} BigEndianRoundTrip(n: nat, k: nat)
    requires n < Power256(k)
    ensures BigEndian(ToBigEndian(n, k)) == n
  {
    if k > 0 {
      BigEndianRoundTrip(n / 256, k - 1);
      ByteRoundTrip(n % 256);
      var s := ToBigEndian(n, k);
      assert s[..|s| - 1] == ToBigEndian(n / 256, k - 1);
    }
  }

  // ----- The encoder -----

  function FirstByte(fin: bool, opcode: Byte): Byte { if fin then opcode | 0x80 else opcode }

  function SecondByte(n: nat): Byte
    requires n < 128
  {
    (n as Byte) | 0x80
  }

  function LengthBytes(n: nat, form: Form): (s: seq<Byte>)
    requires form == Len7Bits ==> n < 126
    ensures |s| == match form case Len7Bits => 1 case Len16Bits => 3 case Len64Bits => 9
  {
    match form
    case Len7Bits => [SecondByte(n)]
    case Len16Bits => [SecondByte(126)] + ToBigEndian(n, 2)
    case Len64Bits => [SecondByte(127)] + ToBigEndian(n, 8)
  }

  function HeaderBytes(m: Sent): seq<Byte>
    requires Acceptable(m)
  {
    [FirstByte(m.fin, m.opcode)] + LengthBytes(|m.payload|, m.form)
  }

  function Encode(m: Sent): seq<Byte>
    requires Acceptable(m)
  {
    HeaderBytes(m) + m.key + Masked(m.payload, m.key)
  }

  function EncodeAll(ms: seq<Sent>): seq<Byte>
    requires AllAcceptable(ms)
  {
    if ms == [] then [] else Encode(ms[0]) + EncodeAll(ms[1..])
  }

  // ----- The interpreter -----

  /** What the handler gets to see of a frame's payload: only final frames are unmasked. */
  function Seen(m: Sent): seq<Byte> { if m.fin then m.payload else Masked(m.payload, m.key) }

  /** The effect of a frame on the fragments collected so far, and the callback for it. */
  function Effect(m: Sent, cont: Fragments): Front<Fragments, Event>
    requires Acceptable(m)
  {
    var n := |Encode(m)|;
    if m.opcode == PING then Took(n, cont, [Ping(m.payload)], false)
    else if m.opcode == PONG then Took(n, cont, [Pong(m.payload)], false)
    else if m.opcode == CLOSE then Took(n, cont, [CloseEvent(m.payload)], true)
    else if m.opcode == CONTINUE && !cont.start then Reject
    else if !m.fin then Took(n, Fragments(true, (if m.opcode == CONTINUE then cont.buf else []) + Seen(m)), [], false)
    else if m.opcode == CONTINUE then Took(n, Fragments(false, []), [Message(TEXT, cont.buf + Seen(m))], false)
    else Took(n, cont, [Message(m.opcode, Seen(m))], false)
  }

  /** A stream of frames, up to the first that is rejected or closes. */
  function Interpret(ms: seq<Sent>, cont: Fragments): WsResult
    requires AllAcceptable(ms)
  {
    if ms == [] then Result(true, false, [], cont, [])
    else
      match Effect(ms[0], cont)
      case Took(_, cont', events, stop) =>
        if stop then Result(true, true, [], cont', events)
        else
          var r := Interpret(ms[1..], cont');
          r.(events := events + r.events)
      case _ => Result(false, false, [], cont, [])
  }

  // ----- Decoding -----

  lemma FirstByteBits(fin: bool, opcode: Byte)
    requires opcode < 16
    ensures var b1 := FirstByte(fin, opcode); Fin(b1) == fin && !Rsv(b1) && Opcode(b1) == opcode
  {
  }

  lemma SecondByteBits(b: Byte)
    requires b < 128
    ensures MaskBit(b | 0x80) && (b | 0x80) & 0x7f == b
  {
  }

  lemma SmallByte(n: nat)
    requires n < 128
    ensures (n as Byte) < 128
  {
    ByteRoundTrip(n);
  }

  lemma SecondByteLen(n: nat)
    requires n < 128
    ensures MaskBit(SecondByte(n)) && Len7(SecondByte(n)) == n
  {
    SmallByte(n);
    SecondByteBits((n as Byte));
    ByteRoundTrip(n);
  }

  lemma Lengths(n: nat)
    requires n <= MAX_PAYLOAD
    ensures n < 0x1_0000 ==> BigEndian(ToBigEndian(n, 2)) == n
    ensures AsInt64(BigEndian(ToBigEndian(n, 8))) == n
  {
    assert Power256(2) == 0x1_0000;
    assert Power256(4) == 0x1_0000_0000;
    assert Power256(8) == 0x1_0000_0000_0000_0000;
    if n < 0x1_0000 {
      BigEndianRoundTrip(n, 2);
    }
    BigEndianRoundTrip(n, 8);
  }

  /** `b2` and `ext` announce a payload of `n` octets. */
  ghost predicate Announces(b2: Byte, ext: seq<Byte>, n: nat) {
    && MaskBit(b2)
    && (if Len7(b2) == 126 then |ext| == 2 && BigEndian(ext) == n
        else if Len7(b2) == 127 then |ext| == 8 && AsInt64(BigEndian(ext)) == n
        else ext == [] && Len7(b2) == n)
  }

  lemma LengthAnnounced(n: nat, form: Form)
    requires n <= MAX_PAYLOAD && (form == Len7Bits ==> n < 126) && (form == Len16Bits ==> n < 0x1_0000)
    ensures Announces(LengthBytes(n, form)[0], LengthBytes(n, form)[1..], n)
  {
    Lengths(n);
    SecondByteLen(126);
    SecondByteLen(127);
    match form
    case Len7Bits => SecondByteLen(n);
    case Len16Bits => assert LengthBytes(n, form)[1..] == ToBigEndian(n, 2);
    case Len64Bits => assert LengthBytes(n, form)[1..] == ToBigEndian(n, 8);
  }

  lemma HeaderParsed(b1: Byte, b2: Byte, ext: seq<Byte>, n: nat, key: Key, rest: seq<Byte>, compress: bool)
    requires !Rsv(b1) && (IsControlFrame(Opcode(b1)) || IsMessageFrame(Opcode(b1))) && (IsControlFrame(Opcode(b1)) ==> Fin(b1))
    requires Announces(b2, ext, n) && n <= (if IsControlFrame(Opcode(b1)) then MAX_CONTROL else MAX_PAYLOAD)
    ensures ParseHeader([b1, b2] + ext + key + rest, compress) == Complete(Fin(b1), Opcode(b1), n, key, 2 + |ext| + 4)
  {
    var buf := [b1, b2] + ext + key + rest;
    var at := 2 + |ext|;
    assert buf[2..at] == ext && buf[at..at + 4] == key;
  }

  /** The first octet of an acceptable frame. */
  lemma FirstByteParsed(m: Sent)
    requires Acceptable(m)
    ensures var b1 := FirstByte(m.fin, m.opcode); Fin(b1) == m.fin && !Rsv(b1) && Opcode(b1) == m.opcode
  {
    FirstByteBits(m.fin, m.opcode);
  }

  /** The parser reads the header of an acceptable frame back. */
  lemma HeaderRoundTrip(m: Sent, rest: seq<Byte>, compress: bool)
    requires Acceptable(m)
    ensures ParseHeader(HeaderBytes(m) + m.key + rest, compress)
            == Complete(m.fin, m.opcode, |m.payload|, m.key, |HeaderBytes(m)| + 4)
  {
    var n := |m.payload|;
    var b1, len := FirstByte(m.fin, m.opcode), LengthBytes(n, m.form);
    FirstByteParsed(m);
    LengthAnnounced(n, m.form);
    HeaderParsed(b1, len[0], len[1..], n, m.key, rest, compress);
    assert HeaderBytes(m) == [b1, len[0]] + len[1..];
  }

  lemma FrameHandled(m: Sent, cont: Fragments, hlen: nat)
    requires Acceptable(m)
    ensures HandleFrame(cont, Complete(m.fin, m.opcode, |m.payload|, m.key, hlen), Masked(m.payload, m.key), |Encode(m)|)
            == Effect(m, cont)
  {
    MaskedTwice(m.payload, m.key);
    assert [] + Masked(m.payload, m.key) == Masked(m.payload, m.key);
  }

  lemma FrameTaken(head: seq<Byte>, m: Sent, rest: seq<Byte>, cont: Fragments)
    requires Acceptable(m) && head == HeaderBytes(m)
    ensures TakeWhole(Complete(m.fin, m.opcode, |m.payload|, m.key, |head| + 4),
                      head + m.key + Masked(m.payload, m.key) + rest, cont)
            == Effect(m, cont)
  {
    var data := Masked(m.payload, m.key);
    var hlen := |head| + 4;
    assert (head + m.key + data + rest)[hlen..hlen + |data|] == data;
    FrameHandled(m, cont, hlen);
  }

  /** One frame at the front of the buffer is taken off whole and has its effect. */
  lemma FrameRoundTrip(m: Sent, rest: seq<Byte>, cont: Fragments, compress: bool)
    requires Acceptable(m)
    ensures TakeFrame(Encode(m) + rest, cont, compress) == Effect(m, cont)
  {
    var head, data := HeaderBytes(m), Masked(m.payload, m.key);
    HeaderRoundTrip(m, data + rest, compress);
    assert head + m.key + (data + rest) == head + m.key + data + rest;
    FrameTaken(head, m, rest, cont);
  }

  /** The parser on the encoded frames does what the interpreter does on the frames, whatever
      they are. */
  lemma {:induction false} StreamRoundTrip(ms: seq<Sent>, cont: Fragments, compress: bool)
    requires AllAcceptable(ms)
    ensures Loop(EncodeAll(ms), cont, compress) == Interpret(ms, cont)
  {
    FrameProgress(compress);
    if ms != [] {
      FrameRoundTrip(ms[0], EncodeAll(ms[1..]), cont, compress);
      assert EncodeAll(ms)[|Encode(ms[0])|..] == EncodeAll(ms[1..]);
      if Effect(ms[0], cont).Took? && !Effect(ms[0], cont).stop {
        StreamRoundTrip(ms[1..], Effect(ms[0], cont).state, compress);
      }
    }
  }

  /** And so it does in any chunks, if no close frame comes. */
  lemma ChunksDecoded(ms: seq<Sent>, chunks: seq<seq<Byte>>, cont: Fragments, compress: bool)
    requires AllAcceptable(ms)
    requires Flatten(chunks) == EncodeAll(ms) && !Interpret(ms, cont).stopped
    ensures OnReads(Conn([], cont), chunks, compress) == Interpret(ms, cont)
  {
    assert [] + Flatten(chunks) == EncodeAll(ms);
    StreamRoundTrip(ms, cont, compress);
    ReadyEmpty(cont, compress);
    ChunksDoNotMatter(Conn([], cont), chunks, compress);
  }

  lemma ReadyEmpty(cont: Fragments, compress: bool)
    ensures Ready(Conn([], cont), compress)
  {
    FrameProgress(compress);
  }

  // ----- Fragmentation out of turn -----

  /** Whether a fragmented message is open after a frame. */
  predicate OpenAfter(m: Sent, open: bool) {
    if IsMessageFrame(m.opcode) then !m.fin || (open && m.opcode != CONTINUE) else open
  }

  /** Up to a close frame, no frame continues a message that is not open. */
  predicate NoStray(ms: seq<Sent>, open: bool) {
    ms == [] || ms[0].opcode == CLOSE
    || ((ms[0].opcode == CONTINUE ==> open) && NoStray(ms[1..], OpenAfter(ms[0], open)))
  }

  /** Up to a close frame, every frame is in turn (section 5.4 of RFC 6455). */
  predicate AllInTurn(ms: seq<Sent>, open: bool) {
    ms == [] || ms[0].opcode == CLOSE
    || (!OutOfTurn(ms[0].opcode, open) && AllInTurn(ms[1..], OpenAfter(ms[0], open)))
  }

  /** A message is begun while another is open, before any stray continuation or close frame. */
  predicate BegunInside(ms: seq<Sent>, open: bool) {
    ms != [] && ms[0].opcode != CLOSE && (ms[0].opcode == CONTINUE ==> open)
    && ((open && (ms[0].opcode == TEXT || ms[0].opcode == BINARY)) || BegunInside(ms[1..], OpenAfter(ms[0], open)))
  }

  /** A stream is accepted exactly when no frame continues a message that is not open. */
  lemma {:induction false} AcceptedIff(ms: seq<Sent>, cont: Fragments)
    requires AllAcceptable(ms)
    ensures Interpret(ms, cont).ok <==> NoStray(ms, cont.start)
  {
    if ms != [] {
      EffectState(ms[0], cont);
      if Effect(ms[0], cont).Took? && !Effect(ms[0], cont).stop {
        AcceptedIff(ms[1..], Effect(ms[0], cont).state);
      }
    }
  }

  lemma EffectState(m: Sent, cont: Fragments)
    requires Acceptable(m)
    ensures var t := Effect(m, cont);
            && (t.Took? <==> (m.opcode == CONTINUE ==> cont.start))
            && (t.Took? ==> (t.stop <==> m.opcode == CLOSE))
            && (t.Took? && !t.stop ==> t.state.start == OpenAfter(m, cont.start))
  {
  }

  /** So a stream that breaks section 5.4 is accepted exactly when it does so by beginning a message
      inside another, and in no other way. */
  lemma AcceptedOutOfTurnIff(ms: seq<Sent>, cont: Fragments)
    requires AllAcceptable(ms)
    ensures Interpret(ms, cont).ok && !AllInTurn(ms, cont.start)
            <==> NoStray(ms, cont.start) && BegunInside(ms, cont.start)
  {
    AcceptedIff(ms, cont);
    TurnsIff(ms, cont.start);
  }

  lemma {:induction false} TurnsIff(ms: seq<Sent>, open: bool)
    ensures NoStray(ms, open) ==> (AllInTurn(ms, open) <==> !BegunInside(ms, open))
  {
    if ms != [] {
      TurnsIff(ms[1..], OpenAfter(ms[0], open));
    }
  }

  // ----- Unfragmented messages -----

  /** A message in one frame, a ping or a pong. */
  predicate Unfragmented(m: Sent) { m.fin && m.opcode != CONTINUE && m.opcode != CLOSE }

  predicate AllUnfragmented(ms: seq<Sent>) { AllAcceptable(ms) && forall i :: 0 <= i < |ms| ==> Unfragmented(ms[i]) }

  /** The callback such a frame deserves. */
  function Delivered(m: Sent): Event {
    if m.opcode == PING then Ping(m.payload)
    else if m.opcode == PONG then Pong(m.payload)
    else Message(m.opcode, m.payload)
  }

  function DeliveredAll(ms: seq<Sent>): seq<Event> {
    if ms == [] then [] else [Delivered(ms[0])] + DeliveredAll(ms[1..])
  }

  lemma {:induction false} UnfragmentedDelivered(ms: seq<Sent>, cont: Fragments)
    requires AllUnfragmented(ms)
    ensures Interpret(ms, cont) == Result(true, false, [], cont, DeliveredAll(ms))
  {
    if ms != [] {
      UnfragmentedDelivered(ms[1..], cont);
    }
  }

  /** Any sequence of unfragmented messages, delivered in any chunks to a connection without
      partial data, is decoded into exactly those messages, in order, with nothing left over. */
  lemma MessagesArriveIntact(ms: seq<Sent>, chunks: seq<seq<Byte>>, cont: Fragments, compress: bool)
    requires AllUnfragmented(ms)
    requires Flatten(chunks) == EncodeAll(ms)
    ensures OnReads(Conn([], cont), chunks, compress) == Result(true, false, [], cont, DeliveredAll(ms))
  {
    UnfragmentedDelivered(ms, cont);
    ChunksDecoded(ms, chunks, cont, compress);
  }

  // ----- Close frames -----

  /** What the handler is told of the payload of a close frame: a status code and a reason, or, for
      a payload too short for a code, that there was none.  Section 5.5.1 of RFC 6455 allows the
      empty payload for that, not the single octet this server takes for the same. */
  predicate ClosePayload(payload: seq<Byte>, code: nat, reason: seq<Byte>) {
    if |payload| < 2 then code == 1005 && reason == []
    else code < 0x1_0000 && payload == ToBigEndian(code, 2) + reason
  }

  /** A close frame behind any unfragmented messages ends the call of `onFrame` with its status
      code and its reason; what follows it in the chunk is not looked at. */
  lemma CloseArrives(ms: seq<Sent>, m: Sent, code: nat, reason: seq<Byte>, rest: seq<Byte>, cont: Fragments, compress: bool)
    requires AllUnfragmented(ms)
    requires Acceptable(m) && m.opcode == CLOSE && ClosePayload(m.payload, code, reason)
    ensures OnFrame(Conn([], cont), EncodeAll(ms) + (Encode(m) + rest), compress)
            == Result(true, true, [], cont, DeliveredAll(ms) + [Close(code, reason)])
  {
    FrameProgress(compress);
    FrameStable(compress);
    var front := FrameParser(compress);
    UnfragmentedDelivered(ms, cont);
    StreamRoundTrip(ms, cont, compress);
    FrameRoundTrip(m, rest, cont, compress);
    CloseDecoded(m.payload, code, reason);
    var a, b := EncodeAll(ms), Encode(m) + rest;
    assert [] + (a + b) == a + b && [] + b == b;
    ConsumeSplit(front, a, b, cont);
  }

  lemma CloseDecoded(payload: seq<Byte>, code: nat, reason: seq<Byte>)
    requires ClosePayload(payload, code, reason)
    ensures CloseEvent(payload) == Close(code, reason)
  {
    if |payload| >= 2 {
      assert payload[..2] == ToBigEndian(code, 2) && payload[2..] == reason;
      assert Power256(2) == 0x1_0000;
      BigEndianRoundTrip(code, 2);
    }
  }

  // ----- Fragmented messages -----

  /** What may stand between the first and the last fragment: further fragments, pings, pongs. */
  predicate Between(m: Sent) {
    if m.opcode == CONTINUE then !m.fin else m.opcode == PING || m.opcode == PONG
  }

  predicate AllBetween(ms: seq<Sent>) { forall i :: 0 <= i < |ms| ==> Between(ms[i]) }

  /** A fragmented message with its interleaved control frames (section 5.4 of RFC 6455). */
  predicate Fragmented(first: Sent, middle: seq<Sent>, last: Sent) {
    && AllAcceptable([first] + (middle + [last]))
    && !first.fin && first.opcode != CONTINUE
    && AllBetween(middle)
    && last.fin && last.opcode == CONTINUE
  }

  /** The text of the fragments among `ms`: as sent, and as the handler gets to see it. */
  function SentText(ms: seq<Sent>): seq<Byte> {
    if ms == [] then [] else (if ms[0].opcode == CONTINUE then ms[0].payload else []) + SentText(ms[1..])
  }

  function SeenText(ms: seq<Sent>): seq<Byte> {
    if ms == [] then [] else (if ms[0].opcode == CONTINUE then Seen(ms[0]) else []) + SeenText(ms[1..])
  }

  /** The callbacks of the control frames among `ms`. */
  function Controls(ms: seq<Sent>): seq<Event> {
    if ms == [] then [] else (if ms[0].opcode == CONTINUE then [] else [Delivered(ms[0])]) + Controls(ms[1..])
  }

  /** One of these frames, as the interpreter has it. */
  lemma BetweenEffect(m: Sent, text: seq<Byte>)
    requires Acceptable(m) && Between(m)
    ensures Effect(m, Fragments(true, text))
            == Took(|Encode(m)|,
                    Fragments(true, text + if m.opcode == CONTINUE then Seen(m) else []),
                    if m.opcode == CONTINUE then [] else [Delivered(m)],
                    false)
  {
    assert text + [] == text;
  }

  lemma {:induction false} FragmentsInterpreted(ms: seq<Sent>, last: Sent, text: seq<Byte>)
    requires AllAcceptable(ms + [last]) && AllBetween(ms) && last.fin && last.opcode == CONTINUE
    ensures Interpret(ms + [last], Fragments(true, text))
            == Result(true, false, [], Fragments(false, []),
                      Controls(ms) + [Message(TEXT, text + SeenText(ms) + last.payload)])
    decreases |ms|
  {
    var all := ms + [last];
    if ms == [] {
      assert all == [last] && text + [] == text;
    } else {
      var m := ms[0];
      assert all[0] == m && all[1..] == ms[1..] + [last] && Acceptable(all[0]);
      BetweenEffect(m, text);
      var more := if m.opcode == CONTINUE then Seen(m) else [];
      FragmentsInterpreted(ms[1..], last, text + more);
      TextMoves(text, more, SeenText(ms[1..]));
      EventsMove(if m.opcode == CONTINUE then [] else [Delivered(m)], Controls(ms[1..]),
                 [Message(TEXT, text + SeenText(ms) + last.payload)]);
    }
  }

  lemma EventsMove(events: seq<Event>, more: seq<Event>, rest: seq<Event>)
    ensures events + (more + rest) == (events + more) + rest
  {
  }

  lemma TextMoves(text: seq<Byte>, more: seq<Byte>, rest: seq<Byte>)
    ensures (text + more) + rest == text + (more + rest) && (more == [] ==> text + more == text)
  {
  }

  /** A fragmented message, with control frames in between, in any chunks: the control frames get
      their callbacks, and then one message is delivered, always as text, made of the fragments
      before the last still masked and the last unmasked. */
  lemma FragmentsStayMasked(first: Sent, middle: seq<Sent>, last: Sent, chunks: seq<seq<Byte>>, cont: Fragments, compress: bool)
    requires Fragmented(first, middle, last)
    requires Flatten(chunks) == EncodeAll([first] + (middle + [last]))
    ensures OnReads(Conn([], cont), chunks, compress)
            == Result(true, false, [], Fragments(false, []),
                      Controls(middle) + [Message(TEXT, Masked(first.payload, first.key) + SeenText(middle) + last.payload)])
  {
    var text := Masked(first.payload, first.key);
    var ms := [first] + (middle + [last]);
    assert ms[0] == first && ms[1..] == middle + [last] && [] + text == text;
    assert AllAcceptable(ms[1..]);
    FragmentsInterpreted(middle, last, text);
    NoEvents(Interpret(middle + [last], Fragments(true, text)));
    ChunksDecoded(ms, chunks, cont, compress);
  }

  /** The mask leaves these octets as they are: the key is 0 wherever it is used. */
  predicate Harmless(key: Key, n: nat) { forall i :: 0 <= i < 4 && i < n ==> key[i] == 0 }

  lemma XorSameIff(b: Byte, k: Byte)
    ensures Xor(b, k) == b <==> k == 0
  {
  }

  lemma OctetKeptIff(payload: seq<Byte>, key: Key, i: nat)
    requires i < |payload|
    ensures Masked(payload, key)[i] == payload[i] <==> key[i % 4] == 0
  {
    MaskedAt(payload, key, i);
    XorSameIff(payload[i], key[i % 4]);
  }

  lemma AllKeptIff(masked: seq<Byte>, payload: seq<Byte>, key: Key)
    requires |masked| == |payload|
    requires forall i :: 0 <= i < |payload| ==> (masked[i] == payload[i] <==> key[i % 4] == 0)
    ensures masked == payload <==> Harmless(key, |payload|)
  {
    if masked == payload {
      forall i | 0 <= i < 4 && i < |payload| ensures key[i] == 0 {
        assert masked[i] == payload[i] && i % 4 == i;
      }
    }
  }

  lemma MaskHarmlessIff(payload: seq<Byte>, key: Key)
    ensures Masked(payload, key) == payload <==> Harmless(key, |payload|)
  {
    forall i | 0 <= i < |payload| ensures Masked(payload, key)[i] == payload[i] <==> key[i % 4] == 0 {
      OctetKeptIff(payload, key, i);
    }
    AllKeptIff(Masked(payload, key), payload, key);
  }

  /** Every fragment among `ms` has a harmless key. */
  predicate AllHarmless(ms: seq<Sent>) {
    forall i :: 0 <= i < |ms| && ms[i].opcode == CONTINUE ==> Harmless(ms[i].key, |ms[i].payload|)
  }

  lemma SplitEqual(a: seq<Byte>, b: seq<Byte>, a': seq<Byte>, b': seq<Byte>)
    requires |a| == |a'|
    ensures a + b == a' + b' <==> a == a' && b == b'
  {
    if a + b == a' + b' {
      assert (a + b)[..|a|] == a && (a' + b')[..|a|] == a';
      assert (a + b)[|a|..] == b && (a' + b')[|a|..] == b';
    }
  }

  lemma HarmlessFirst(ms: seq<Sent>)
    requires ms != []
    ensures AllHarmless(ms)
            <==> (ms[0].opcode == CONTINUE ==> Harmless(ms[0].key, |ms[0].payload|)) && AllHarmless(ms[1..])
  {
    if AllHarmless(ms[1..]) && (ms[0].opcode == CONTINUE ==> Harmless(ms[0].key, |ms[0].payload|)) {
      forall i | 0 <= i < |ms| && ms[i].opcode == CONTINUE ensures Harmless(ms[i].key, |ms[i].payload|) {
        if i > 0 {
          assert ms[i] == ms[1..][i - 1];
        }
      }
    }
  }

  lemma MaskedPieceIff(payload: seq<Byte>, key: Key, seen: seq<Byte>, sent: seq<Byte>)
    ensures Masked(payload, key) + seen == payload + sent <==> Harmless(key, |payload|) && seen == sent
  {
    MaskHarmlessIff(payload, key);
    SplitEqual(Masked(payload, key), seen, payload, sent);
  }

  lemma {:induction false} SeenAsSentIff(ms: seq<Sent>)
    requires AllBetween(ms)
    ensures |SeenText(ms)| == |SentText(ms)| && (SeenText(ms) == SentText(ms) <==> AllHarmless(ms))
  {
    if ms != [] {
      var m := ms[0];
      SeenAsSentIff(ms[1..]);
      HarmlessFirst(ms);
      if m.opcode == CONTINUE {
        MaskedPieceIff(m.payload, m.key, SeenText(ms[1..]), SentText(ms[1..]));
      } else {
        assert SeenText(ms) == SeenText(ms[1..]) && SentText(ms) == SentText(ms[1..]);
      }
    }
  }

  lemma TextIntactIff(first: Sent, middle: seq<Sent>, last: Sent)
    requires Fragmented(first, middle, last)
    ensures Masked(first.payload, first.key) + SeenText(middle) + last.payload
            == first.payload + SentText(middle) + last.payload
            <==> Harmless(first.key, |first.payload|) && AllHarmless(middle)
  {
    SeenAsSentIff(middle);
    MaskedPieceIff(first.payload, first.key, SeenText(middle), SentText(middle));
    SplitEqual(Masked(first.payload, first.key) + SeenText(middle), last.payload,
               first.payload + SentText(middle), last.payload);
  }

  /** So a fragmented message is delivered as it was sent (section 5.4 of RFC 6455) exactly when it
      is text and the key of every fragment but the last is 0 wherever it is used. */
  lemma FragmentsIntactIff(first: Sent, middle: seq<Sent>, last: Sent, chunks: seq<seq<Byte>>, cont: Fragments, compress: bool)
    requires Fragmented(first, middle, last)
    requires Flatten(chunks) == EncodeAll([first] + (middle + [last]))
    ensures OnReads(Conn([], cont), chunks, compress).events
            == Controls(middle) + [Message(first.opcode, first.payload + SentText(middle) + last.payload)]
            <==> first.opcode == TEXT && Harmless(first.key, |first.payload|) && AllHarmless(middle)
  {
    FragmentsStayMasked(first, middle, last, chunks, cont, compress);
    TextIntactIff(first, middle, last);
    LastEventIff(Controls(middle),
                 Message(TEXT, Masked(first.payload, first.key) + SeenText(middle) + last.payload),
                 Message(first.opcode, first.payload + SentText(middle) + last.payload));
  }

  lemma LastEventIff(events: seq<Event>, e: Event, f: Event)
    ensures events + [e] == events + [f] <==> e == f
  {
    assert (events + [e])[|events|] == e && (events + [f])[|events|] == f;
  }
}
