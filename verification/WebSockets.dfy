/** The WebSocket connection of example/websocket.go as it runs: `onFrame` loops over the
    read buffer, unmasks payloads in place and keeps partial data in its own field. */
module WebSockets {
  import opened Basics
  import opened Masking
  import opened Incremental
  import opened Frames

  class WsConn {
    const compressEnabled: bool
    var partialBuf: seq<Byte>
    var start: bool
    var fragments: seq<Byte>
    ghost var callbacks: seq<Event>

    constructor (compressEnabled: bool)
      ensures AsConn() == FRESH && callbacks == [] && this.compressEnabled == compressEnabled
    {
      this.compressEnabled := compressEnabled;
      partialBuf, start, fragments, callbacks := [], false, [], [];
    }

    ghost function AsConn(): Conn
      reads this
    {
      Conn(partialBuf, Fragments(start, fragments))
    }

    /** The callbacks only count by being made. */
    method Call(e: Event)
      modifies this`callbacks
      ensures callbacks == old(callbacks) + [e]
    {
      callbacks := callbacks + [e];
    }

    /** A complete frame, its payload at `buf[lo..hi]` (websocket.go:457-505).  `stop` is the
        `break` after a close frame. */
    method OnWholeFrame(buf: array<Byte>, h: Header, lo: nat, hi: nat, ghost n: nat) returns (ok: bool, stop: bool, ghost f: Front<Fragments, Event>)
      requires h.Complete? && lo <= hi <= buf.Length && hi - lo == h.payload
      modifies this`start, this`fragments, this`callbacks, buf
      ensures buf[hi..] == old(buf[hi..])
      ensures f == HandleFrame(old(AsConn()).cont, h, old(buf[lo..hi]), n)
      ensures ok == f.Took? && !f.Wait?
      ensures f.Took? ==> AsConn() == Conn(partialBuf, f.state) && callbacks == old(callbacks) + f.events && stop == f.stop
      ensures !f.Took? ==> !stop && AsConn() == old(AsConn()) && callbacks == old(callbacks)
    {
      f := HandleFrame(AsConn().cont, h, buf[lo..hi], n);
      ok, stop := true, false;
      if h.fin {
        if hi > lo {
          ghost var b0 := buf[..];
          MaskBytes(buf, lo, hi, h.key);
          assert buf[hi..] == b0[hi..];
        }
        var payloadBuf := buf[lo..hi];
        assert payloadBuf == if old(buf[lo..hi]) == [] then [] else Masked(old(buf[lo..hi]), h.key);
        if IsControlFrame(h.opcode) {
          if h.opcode == PING {
            Call(Ping(payloadBuf));
          } else if h.opcode == PONG {
            Call(Pong(payloadBuf));
          } else {
            Call(CloseEvent(payloadBuf));
            stop := true;
          }
        } else if h.opcode == CONTINUE {
          if !start {
            return false, false, f;
          }
          payloadBuf := fragments + payloadBuf;
          fragments := [];
          start := false;
          Call(Message(TEXT, payloadBuf));
        } else if IsMessageFrame(h.opcode) {
          Call(Message(h.opcode, payloadBuf));
        }
      } else if h.opcode != CONTINUE {
        start := true;
        fragments := buf[lo..hi];
      } else {
        if !start {
          return false, false, f;
        }
        fragments := fragments + buf[lo..hi];
      }
    }

    method OnFrame(chunk: array<Byte>) returns (ok: bool)
      modifies this`partialBuf, this`start, this`fragments, this`callbacks, chunk
      ensures var r := Frames.OnFrame(old(AsConn()), old(chunk[..]), compressEnabled);
              ok == r.ok && AsConn() == After(r) && callbacks == old(callbacks) + r.events
    {
      var buf := chunk;
      if |partialBuf| > 0 {
        var joined := partialBuf + chunk[..];
        buf := new Byte[|joined|](i requires 0 <= i < |joined| => joined[i]);
        assert buf[..] == joined;
        partialBuf := [];
      }
      assert buf[..] == old(partialBuf) + old(chunk[..]);
      ok := Drain(buf);
    }

    /** One round of the loop of `onFrame`, on the octets from `at` on. */
    method Round(buf: array<Byte>, at: nat) returns (ok: bool, go: bool, next: nat, ghost f: Front<Fragments, Event>)
      requires at < buf.Length && partialBuf == []
      modifies this`partialBuf, this`start, this`fragments, this`callbacks, buf
      ensures f == TakeFrame(old(buf[at..]), old(AsConn()).cont, compressEnabled)
      ensures ok == !f.Reject? && go == (f.Took? && !f.stop) && next <= buf.Length
      ensures f.Took? ==> at < next == at + f.n <= buf.Length && buf[next..] == old(buf[at..])[f.n..]
      ensures f.Took? ==> AsConn() == Conn([], f.state) && callbacks == old(callbacks) + f.events
      ensures !f.Took? ==> AsConn() == Conn(if f.Wait? then old(buf[at..]) else [], old(AsConn()).cont) && callbacks == old(callbacks)
    {
      ghost var rest, cont := buf[at..], AsConn().cont;
      var h := ParseHeader(buf[at..], compressEnabled);
      next := at;
      if h.Bad? {
        return false, false, at, Reject;
      }
      if h.Partial? || buf.Length - at - h.hlen < h.payload {
        partialBuf := buf[at..];
        return true, false, at, Wait;
      }
      var lo := at + h.hlen;
      next := lo + h.payload;
      assert buf[lo..next] == rest[h.hlen..h.hlen + h.payload];
      assert buf[next..] == rest[next - at..];
      WholeFrame(rest, cont, compressEnabled, h);
      var stop;
      ok, stop, f := OnWholeFrame(buf, h, lo, next, next - at);
      go := ok && !stop;
    }

    /** The loop of `onFrame` over a buffer of its own. */
    method Drain(buf: array<Byte>) returns (ok: bool)
      requires partialBuf == []
      modifies this`partialBuf, this`start, this`fragments, this`callbacks, buf
      ensures Finished(Loop(old(buf[..]), old(AsConn()).cont, compressEnabled), ok, AsConn(), old(callbacks), callbacks)
    {
      ghost var whole := Loop(buf[..], AsConn().cont, compressEnabled);
      assert buf[0..] == buf[..];
      LoopNil(AsConn().cont, compressEnabled);
      var bufOffset := 0;
      var go := true;
      ok := true;
      while go && bufOffset < buf.Length
        invariant bufOffset <= buf.Length
        invariant go ==> ok && partialBuf == []
                         && ResumesAs(whole, Loop(buf[bufOffset..], AsConn().cont, compressEnabled), old(callbacks), callbacks)
        invariant !go ==> Finished(whole, ok, AsConn(), old(callbacks), callbacks)
        decreases go, buf.Length - bufOffset
      {
        ghost var rest, cont, before := buf[bufOffset..], AsConn().cont, callbacks;
        ghost var f;
        ok, go, bufOffset, f := Round(buf, bufOffset);
        ResumeStep(whole, rest, cont, compressEnabled, f, old(callbacks), before);
      }
      if go {
        assert buf[bufOffset..] == [];
        LoopNil(AsConn().cont, compressEnabled);
      }
    }
  }

  /** When the frame at the front is whole, `TakeFrame` hands it to `HandleFrame`. */
  lemma WholeFrame(rest: seq<Byte>, cont: Fragments, compress: bool, h: Header)
    requires h == ParseHeader(rest, compress) && h.Complete? && h.hlen + h.payload <= |rest|
    ensures TakeFrame(rest, cont, compress) == HandleFrame(cont, h, rest[h.hlen..h.hlen + h.payload], h.hlen + h.payload)
    ensures !TakeFrame(rest, cont, compress).Wait?
    ensures TakeFrame(rest, cont, compress).Took? ==> TakeFrame(rest, cont, compress).n == h.hlen + h.payload
  {
  }

  lemma LoopNil(cont: Fragments, compress: bool)
    ensures Loop([], cont, compress) == Result(true, false, [], cont, [])
  {
  }

  /** A loop over a buffer that has made the callbacks up to `now` goes on as `left`. */
  ghost predicate ResumesAs(whole: WsResult, left: WsResult, start: seq<Event>, now: seq<Event>) {
    && whole.ok == left.ok && After(whole) == After(left)
    && start + whole.events == now + left.events
  }

  /** The loop is over, with this verdict, this connection and these callbacks. */
  ghost predicate Finished(whole: WsResult, ok: bool, c: Conn, start: seq<Event>, now: seq<Event>) {
    ok == whole.ok && c == After(whole) && now == start + whole.events
  }

  /** One round further. */
  lemma ResumeStep(whole: WsResult, rest: seq<Byte>, cont: Fragments, compress: bool, f: Front<Fragments, Event>,
                   start: seq<Event>, before: seq<Event>)
    requires rest != [] && f == TakeFrame(rest, cont, compress)
    requires ResumesAs(whole, Loop(rest, cont, compress), start, before)
    ensures f.Wait? ==> Finished(whole, true, Conn(rest, cont), start, before)
    ensures f.Reject? ==> Finished(whole, false, Conn([], cont), start, before)
    ensures f.Took? && f.stop ==> Finished(whole, true, Conn([], f.state), start, before + f.events)
    ensures f.Took? ==> f.n <= |rest|
    ensures f.Took? && !f.stop ==> ResumesAs(whole, Loop(rest[f.n..], f.state, compress), start, before + f.events)
  {
    LoopUnroll(rest, cont, compress, f);
    if f.Took? && !f.stop {
      var left := Loop(rest[f.n..], f.state, compress);
      assert before + (f.events + left.events) == (before + f.events) + left.events;
    } else {
      assert before + [] == before;
    }
  }

  /** The first round of the loop, then the others. */
  lemma LoopUnroll(rest: seq<Byte>, cont: Fragments, compress: bool, f: Front<Fragments, Event>)
    requires rest != [] && f == TakeFrame(rest, cont, compress)
    ensures f.Wait? ==> Loop(rest, cont, compress) == Result(true, false, rest, cont, [])
    ensures f.Reject? ==> Loop(rest, cont, compress) == Result(false, false, [], cont, [])
    ensures f.Took? ==> f.n <= |rest|
    ensures f.Took? && f.stop ==> Loop(rest, cont, compress) == Result(true, true, [], f.state, f.events)
    ensures f.Took? && !f.stop ==>
              Loop(rest, cont, compress)
              == Loop(rest[f.n..], f.state, compress).(events := f.events + Loop(rest[f.n..], f.state, compress).events)
  {
    FrameProgress(compress);
  }
}
