/** Incremental parsing in general: a buffer is consumed item by item, an incomplete item is
    carried over to the next chunk.  The shape of `onFrame` (example/websocket.go:422-508),
    for any way `front` of taking an item off the front of a buffer. */
module Incremental {

  /** What the front of a buffer amounts to: more octets are needed, the stream is violated,
      or an item of `n` octets was taken, with its effect on the parser's state, the
      callbacks it makes, and whether it ends the consumption of the buffer. */
  datatype Front<S, E> = Wait | Reject | Took(n: nat, state: S, events: seq<E>, stop: bool)

  /** The outcome of consuming a buffer: whether the stream may go on, whether an item stopped
      the consumption, what is carried over, the parser's state, the callbacks made. */
  datatype Result<B, S, E> = Result(ok: bool, stopped: bool, carry: seq<B>, state: S, events: seq<E>)

  type Parser<!B, !S, !E> = (seq<B>, S) -> Front<S, E>

  /** An item has at least one octet and lies within the buffer. */
  ghost predicate Progress<B(!new), S(!new), E>(front: Parser<B, S, E>) {
    forall buf, s :: front(buf, s).Took? ==> 0 < front(buf, s).n <= |buf|
  }

  /** A verdict on a buffer does not change when more octets arrive. */
  ghost predicate Stable<B(!new), S(!new), E>(front: Parser<B, S, E>) {
    forall a, b, s :: front(a, s) != Wait ==> front(a + b, s) == front(a, s)
  }

  function Consume<B(!new), S(!new), E>(front: Parser<B, S, E>, buf: seq<B>, s: S): Result<B, S, E>
    requires Progress(front)
    decreases |buf|
  {
    if buf == [] then Result(true, false, [], s, [])
    else
      match front(buf, s)
      case Reject => Result(false, false, [], s, [])
      case Wait => Result(true, false, buf, s, [])
      case Took(n, s', events, stop) =>
        if stop then Result(true, true, [], s', events)
        else
          var r := Consume(front, buf[n..], s');
          r.(events := events + r.events)
  }

  /** What a buffer followed by more octets amounts to. */
  function ThenConsume<B(!new), S(!new), E>(front: Parser<B, S, E>, r: Result<B, S, E>, b: seq<B>): Result<B, S, E>
    requires Progress(front)
  {
    if !r.ok || r.stopped then r
    else
      var next := Consume(front, r.carry + b, r.state);
      next.(events := r.events + next.events)
  }

  /** The central step: consuming `a + b` is consuming `a`, then what it left over followed by
      `b`; after a violation or a stop `b` is not looked at. */
  lemma {:induction false} ConsumeSplit<B(!new), S(!new), E>(front: Parser<B, S, E>, a: seq<B>, b: seq<B>, s: S)
    requires Progress(front) && Stable(front)
    ensures Consume(front, a + b, s) == ThenConsume(front, Consume(front, a, s), b)
    decreases |a|
  {
    if a == [] {
      assert a + b == b && [] + b == b;
      NoEvents(Consume(front, b, s));
    } else if front(a, s).Wait? {
      NoEvents(Consume(front, a + b, s));
    } else {
      assert front(a + b, s) == front(a, s);
      if front(a, s).Took? && !front(a, s).stop {
        var n := front(a, s).n;
        assert (a + b)[n..] == a[n..] + b;
        ConsumeSplit(front, a[n..], b, front(a, s).state);
        SplitEvents(front, front(a, s).events, Consume(front, a[n..], front(a, s).state), b);
      }
    }
  }

  lemma NoEvents<B, S, E>(r: Result<B, S, E>)
    ensures r.(events := [] + r.events) == r
  {
    assert [] + r.events == r.events;
  }

  lemma SplitEvents<B(!new), S(!new), E>(front: Parser<B, S, E>, events: seq<E>, r: Result<B, S, E>, b: seq<B>)
    requires Progress(front)
    ensures ThenConsume(front, r.(events := events + r.events), b)
            == ThenConsume(front, r, b).(events := events + ThenConsume(front, r, b).events)
  {
    if r.ok && !r.stopped {
      var next := Consume(front, r.carry + b, r.state);
      assert (events + r.events) + next.events == events + (r.events + next.events);
    }
  }

  /** Nothing in what is carried over can be consumed yet. */
  predicate Settled<B(==, !new), S(==, !new), E(==)>(front: Parser<B, S, E>, carry: seq<B>, s: S)
    requires Progress(front)
  {
    Consume(front, carry, s) == Result(true, false, carry, s, [])
  }

  lemma {:induction false} ConsumeSettles<B(!new), S(!new), E>(front: Parser<B, S, E>, buf: seq<B>, s: S)
    requires Progress(front)
    ensures var r := Consume(front, buf, s); r.ok ==> Settled(front, r.carry, r.state)
    decreases |buf|
  {
    if buf != [] && front(buf, s).Took? && !front(buf, s).stop {
      ConsumeSettles(front, buf[front(buf, s).n..], front(buf, s).state);
    }
  }

  /** One chunk after the other, until one is rejected. */
  function Feed<B(!new), S(!new), E>(front: Parser<B, S, E>, carry: seq<B>, s: S, chunks: seq<seq<B>>): Result<B, S, E>
    requires Progress(front)
    decreases |chunks|
  {
    if chunks == [] then Result(true, false, carry, s, [])
    else
      var r := Consume(front, carry + chunks[0], s);
      if !r.ok then r
      else
        var next := Feed(front, r.carry, r.state, chunks[1..]);
        next.(events := r.events + next.events, stopped := r.stopped || next.stopped)
  }

  function Flatten<B>(chunks: seq<seq<B>>): seq<B> {
    if chunks == [] then [] else chunks[0] + Flatten(chunks[1..])
  }

  /** Segmentation does not matter: as long as nothing stops the consumption, any way of cutting
      the stream gives the same callbacks, verdict, state and carry-over as one call. */
  lemma {:induction false} SegmentationIrrelevant<B(!new), S(!new), E>(
    front: Parser<B, S, E>, carry: seq<B>, s: S, chunks: seq<seq<B>>)
    requires Progress(front) && Stable(front) && Settled(front, carry, s)
    requires !Consume(front, carry + Flatten(chunks), s).stopped
    ensures Feed(front, carry, s, chunks) == Consume(front, carry + Flatten(chunks), s)
    decreases |chunks|
  {
    if chunks == [] {
      assert carry + [] == carry;
    } else {
      var a, rest := carry + chunks[0], Flatten(chunks[1..]);
      var r := Consume(front, a, s);
      assert carry + (chunks[0] + rest) == a + rest;
      ConsumeSplit(front, a, rest, s);
      if r.ok {
        ConsumeSettles(front, a, s);
        SegmentationIrrelevant(front, r.carry, r.state, chunks[1..]);
      }
    }
  }

  lemma FeedOne<B(!new), S(!new), E>(front: Parser<B, S, E>, carry: seq<B>, s: S, b: seq<B>)
    requires Progress(front)
    ensures Feed(front, carry, s, [b]) == Consume(front, carry + b, s)
  {
    var r := Consume(front, carry + b, s);
    assert [b][1..] == [];
    assert r.events + [] == r.events;
  }

  /** Two chunks against one: they agree exactly when the first is not stopped, or the second
      changes nothing. */
  lemma CutAgreesIff<B(!new), S(!new), E>(front: Parser<B, S, E>, carry: seq<B>, s: S, a: seq<B>, b: seq<B>)
    requires Progress(front) && Stable(front) && Consume(front, carry + a, s).ok
    ensures var r := Consume(front, carry + a, s);
            var second := Consume(front, r.carry + b, r.state);
            var two := Feed(front, carry, s, [a, b]);
            var one := Consume(front, carry + (a + b), s);
            (two.ok == one.ok && two.carry == one.carry && two.state == one.state && two.events == one.events)
            <==> (!r.stopped
                  || (second.ok && second.carry == r.carry && second.state == r.state && second.events == []))
  {
    var r := Consume(front, carry + a, s);
    var second := Consume(front, r.carry + b, r.state);
    assert [a, b][1..] == [b];
    FeedOne(front, r.carry, r.state, b);
    assert carry + (a + b) == (carry + a) + b;
    ConsumeSplit(front, carry + a, b, s);
    assert Feed(front, carry, s, [a, b]).events == r.events + second.events;
    assert |r.events + second.events| == |r.events| + |second.events|;
    assert second.events == [] ==> r.events + second.events == r.events;
  }
}
