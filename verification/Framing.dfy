/** The read side of a connection as a function of the bytes read: `handlerProtocol` calls the protocol's `UnPacket`
    until it returns neither a context nor data, and every read appends to the bytes left over from the last one. */
module Framing {
  import opened Bytes

  /** What one `UnPacket` call does to a protocol in state s over a buffer: the next protocol state, the frame handed
      to the loop (None when both results are empty, which ends the loop) and the number of bytes consumed. */
  datatype Taken<S, F> = Taken(next: S, frame: Option<F>, used: nat)

  /** The outcome of the loop: protocol state, frames delivered in order, bytes left in the buffer. */
  datatype Outcome<S, F> = Outcome(state: S, frames: seq<F>, rest: bytes)

  type UnPacket<!S, !F> = (S, bytes) -> Taken<S, F>

  /** The call consumed something or produced a frame. */
  predicate Fires<S, F>(u: UnPacket<S, F>, s: S, b: bytes)
  {
    u(s, b).frame.Some? || u(s, b).used > 0
  }

  /** No call consumes more than there is, and a frame always costs at least one byte. */
  ghost predicate Progress<S(!new), F(!new)>(u: UnPacket<S, F>)
  {
    forall s, b :: u(s, b).used <= |b| && (u(s, b).frame.Some? ==> u(s, b).used > 0)
  }

  /** The part of the protocol state that decides what it delivers (scratch space is left out of it). */
  type View<!S, !V> = S -> V

  /** The streams, with the viewed state they are read in, for which the protocol's promise is claimed. */
  type Domain<!V> = (V, bytes) -> bool

  /** Two calls produce the same frame, consume the same bytes and end in states with the same view. */
  ghost predicate Agree<S(!new), V(!new), F(!new)>(u: UnPacket<S, F>, view: View<S, V>, s: S, b: bytes, t: S, c: bytes)
  {
    u(s, b).frame == u(t, c).frame && u(s, b).used == u(t, c).used && view(u(s, b).next) == view(u(t, c).next)
  }

  /** The domain is closed under taking prefixes and under consuming a frame. */
  ghost predicate Closed<S(!new), V(!new), F(!new)>(u: UnPacket<S, F>, view: View<S, V>, dom: Domain<V>)
    requires Progress(u)
  {
    && (forall v, b, x :: dom(v, b + x) ==> dom(v, b))
    && (forall s, b {:trigger Fires(u, s, b)} :: dom(view(s), b) && Fires(u, s, b) ==> dom(view(u(s, b).next), b[u(s, b).used..]))
  }

  /** Stability under appending bytes: a call that fires does the same with more bytes behind it,
      and a call that does not fire leaves the view of the protocol as it was. */
  ghost predicate Stable<S(!new), V(!new), F(!new)>(u: UnPacket<S, F>, view: View<S, V>, dom: Domain<V>)
  {
    && Progress(u) && Closed(u, view, dom)
    && (forall s, t, b, x {:trigger Agree(u, view, s, b, t, b + x)} ::
          dom(view(s), b + x) && view(s) == view(t) && Fires(u, s, b) ==> Agree(u, view, s, b, t, b + x))
    && (forall s, b {:trigger Fires(u, s, b)} :: dom(view(s), b) && !Fires(u, s, b) ==> view(u(s, b).next) == view(s))
  }

  /** `handlerProtocol`: unpack until nothing comes out. */
  function Drain<S(!new), F(!new)>(u: UnPacket<S, F>, s: S, b: bytes): (o: Outcome<S, F>)
    requires Progress(u)
    ensures |o.rest| <= |b| && o.rest == b[|b| - |o.rest|..]
    decreases |b|
  {
    var k := u(s, b);
    if k.frame.None? then Outcome(k.next, [], b[k.used..])
    else
      var o := Drain(u, k.next, b[k.used..]);
      Outcome(o.state, [k.frame.value] + o.frames, o.rest)
  }

  /** The outcome still to come after one call returned k and left `rest`. */
  function Resume<S(!new), F(!new)>(u: UnPacket<S, F>, k: Taken<S, F>, rest: bytes): Outcome<S, F>
    requires Progress(u)
  {
    if k.frame.None? then Outcome(k.next, [], rest)
    else
      var o := Drain(u, k.next, rest);
      Outcome(o.state, [k.frame.value] + o.frames, o.rest)
  }

  /** A connection fed a list of reads, starting with `b` left over. */
  function Feed<S(!new), F(!new)>(u: UnPacket<S, F>, s: S, b: bytes, parts: seq<bytes>): (o: Outcome<S, F>)
    requires Progress(u)
    decreases |parts|
  {
    if parts == [] then Outcome(s, [], b)
    else
      var first := Drain(u, s, b + parts[0]);
      var later := Feed(u, first.state, first.rest, parts[1..]);
      Outcome(later.state, first.frames + later.frames, later.rest)
  }

  lemma FeedFirst<S(!new), F(!new)>(u: UnPacket<S, F>, s: S, b: bytes, parts: seq<bytes>, o: Outcome<S, F>)
    requires Progress(u) && parts != [] && o == Drain(u, s, b + parts[0])
    ensures var later := Feed(u, o.state, o.rest, parts[1..]);
            Feed(u, s, b, parts) == Outcome(later.state, o.frames + later.frames, later.rest)
  {}

  /** One more read. */
  lemma {:induction false} FeedSnoc<S(!new), F(!new)>(u: UnPacket<S, F>, s: S, b: bytes, parts: seq<bytes>, x: bytes)
    requires Progress(u)
    ensures var o := Feed(u, s, b, parts);
            var p := Drain(u, o.state, o.rest + x);
            Feed(u, s, b, parts + [x]) == Outcome(p.state, o.frames + p.frames, p.rest)
    decreases |parts|
  {
    var all := parts + [x];
    FeedFirst(u, s, b, all, Drain(u, s, b + all[0]));
    if parts == [] {
      assert all[1..] == [];
      var p := Drain(u, s, b + x);
      assert [] + p.frames == p.frames && p.frames + [] == p.frames;
    } else {
      var first := Drain(u, s, b + parts[0]);
      assert all[1..] == parts[1..] + [x];
      FeedSnoc(u, first.state, first.rest, parts[1..], x);
      var later := Feed(u, first.state, first.rest, parts[1..]);
      var p := Drain(u, later.state, later.rest + x);
      assert first.frames + (later.frames + p.frames) == (first.frames + later.frames) + p.frames;
    }
  }

  /** The loop left nothing behind that another call would consume. It can only be false when `UnPacket` consumed
      bytes without producing a frame, which ends the loop early. */
  predicate Drained<S(!new), F(!new)>(u: UnPacket<S, F>, s: S, b: bytes)
    requires Progress(u)
  {
    var o := Drain(u, s, b);
    !Fires(u, o.state, o.rest)
  }

  ghost predicate Alike<S(!new), V(!new), F(!new)>(view: View<S, V>, o: Outcome<S, F>, p: Outcome<S, F>)
  {
    view(o.state) == view(p.state) && o.frames == p.frames && o.rest == p.rest
  }

  /** A read that brings nothing closes the connection instead. */
  predicate Reads(parts: seq<bytes>)
  {
    forall i :: 0 <= i < |parts| ==> |parts[i]| > 0
  }

  /** Every way of cutting the stream into reads gives the outcome of one single read. */
  ghost predicate SegmentationIndependent<S(!new), V(!new), F(!new)>(u: UnPacket<S, F>, view: View<S, V>, s: S, b: bytes)
    requires Progress(u)
  {
    forall parts {:trigger Reads(parts)} :: |parts| > 0 && Reads(parts) && Concat(parts) == b ==>
      Alike(view, Feed(u, s, [], parts), Drain(u, s, b))
  }

  lemma CallCarries<S(!new), V(!new), F(!new)>(u: UnPacket<S, F>, view: View<S, V>, dom: Domain<V>, s: S, t: S, b: bytes)
    requires Stable(u, view, dom) && dom(view(s), b) && view(s) == view(t) && Fires(u, s, b)
    ensures Agree(u, view, s, b, t, b)
  {
    assert b + [] == b;
    assert Agree(u, view, s, b, t, b + []);
  }

  /** One call in states with the same view over the same bytes. */
  lemma SameCall<S(!new), V(!new), F(!new)>(u: UnPacket<S, F>, view: View<S, V>, dom: Domain<V>, s: S, t: S, b: bytes)
    requires Stable(u, view, dom) && dom(view(s), b) && view(s) == view(t)
    ensures Fires(u, s, b) <==> Fires(u, t, b)
    ensures Agree(u, view, s, b, t, b)
  {
    if Fires(u, s, b) {
      CallCarries(u, view, dom, s, t, b);
    }
    if Fires(u, t, b) {
      CallCarries(u, view, dom, t, s, b);
    }
  }

  lemma {:induction false} SameDrain<S(!new), V(!new), F(!new)>(
      u: UnPacket<S, F>, view: View<S, V>, dom: Domain<V>, s: S, t: S, b: bytes)
    requires Stable(u, view, dom) && dom(view(s), b) && view(s) == view(t)
    ensures Alike(view, Drain(u, s, b), Drain(u, t, b))
    decreases |b|
  {
    SameCall(u, view, dom, s, t, b);
    if u(s, b).frame.Some? {
      SameDrain(u, view, dom, u(s, b).next, u(t, b).next, b[u(s, b).used..]);
    }
  }

  lemma {:induction false} DrainStays<S(!new), V(!new), F(!new)>(
      u: UnPacket<S, F>, view: View<S, V>, dom: Domain<V>, s: S, b: bytes)
    requires Stable(u, view, dom) && dom(view(s), b)
    ensures dom(view(Drain(u, s, b).state), Drain(u, s, b).rest)
    decreases |b|
  {
    var k := u(s, b);
    if k.frame.Some? {
      assert Fires(u, s, b);
      DrainStays(u, view, dom, k.next, b[k.used..]);
    } else if !Fires(u, s, b) {
      assert b[0..] == b;
    }
  }

  lemma SameDrained<S(!new), V(!new), F(!new)>(u: UnPacket<S, F>, view: View<S, V>, dom: Domain<V>, s: S, t: S, b: bytes)
    requires Stable(u, view, dom) && dom(view(s), b) && view(s) == view(t)
    ensures Alike(view, Drain(u, s, b), Drain(u, t, b))
    ensures Drained(u, s, b) <==> Drained(u, t, b)
  {
    SameDrain(u, view, dom, s, t, b);
    DrainStays(u, view, dom, s, b);
    SameCall(u, view, dom, Drain(u, s, b).state, Drain(u, t, b).state, Drain(u, s, b).rest);
  }

  /** Reading b and then x does what reading b + x does. */
  ghost predicate Splits<S(!new), V(!new), F(!new)>(u: UnPacket<S, F>, view: View<S, V>, dom: Domain<V>, s: S, b: bytes, x: bytes)
    requires Progress(u)
  {
    var o := Drain(u, s, b);
    var p := Drain(u, o.state, o.rest + x);
    && dom(view(o.state), o.rest + x) && Drained(u, o.state, o.rest + x)
    && Alike(view, Outcome(p.state, o.frames + p.frames, p.rest), Drain(u, s, b + x))
  }

  lemma QuietDrain<S(!new), V(!new), F(!new)>(u: UnPacket<S, F>, view: View<S, V>, dom: Domain<V>, s: S, b: bytes)
    requires Stable(u, view, dom) && dom(view(s), b) && !Fires(u, s, b)
    ensures Drain(u, s, b) == Outcome(u(s, b).next, [], b) && view(u(s, b).next) == view(s) && Drained(u, s, b)
  {
    assert b[0..] == b;
    SameCall(u, view, dom, s, u(s, b).next, b);
  }

  lemma SplitQuiet<S(!new), V(!new), F(!new)>(u: UnPacket<S, F>, view: View<S, V>, dom: Domain<V>, s: S, b: bytes, x: bytes)
    requires Stable(u, view, dom) && dom(view(s), b + x) && Drained(u, s, b + x) && !Fires(u, s, b)
    ensures Splits(u, view, dom, s, b, x)
  {
    assert dom(view(s), b);
    QuietDrain(u, view, dom, s, b);
    SameDrained(u, view, dom, s, u(s, b).next, b + x);
    assert forall f: seq<F> :: [] + f == f;
  }

  lemma SplitSilent<S(!new), V(!new), F(!new)>(u: UnPacket<S, F>, view: View<S, V>, dom: Domain<V>, s: S, b: bytes, x: bytes)
    requires Stable(u, view, dom) && dom(view(s), b + x) && Drained(u, s, b + x) && Fires(u, s, b) && u(s, b).frame.None?
    ensures Splits(u, view, dom, s, b, x)
  {
    var k, l := u(s, b), u(s, b + x);
    assert Agree(u, view, s, b, s, b + x);
    var c := b[k.used..] + x;
    assert (b + x)[k.used..] == c;
    assert Drain(u, s, b) == Outcome(k.next, [], b[k.used..]) && Drain(u, s, b + x) == Outcome(l.next, [], c);
    assert Fires(u, s, b + x) && dom(view(l.next), c);
    SameCall(u, view, dom, l.next, k.next, c);
    QuietDrain(u, view, dom, k.next, c);
  }

  /** A first frame that is complete in b comes off b + x in the same way. */
  lemma SplitFrame<S(!new), V(!new), F(!new)>(u: UnPacket<S, F>, view: View<S, V>, dom: Domain<V>, s: S, b: bytes, x: bytes)
    requires Stable(u, view, dom) && dom(view(s), b + x) && u(s, b).frame.Some?
    ensures var k := u(s, b);
            var c := b[k.used..];
            var d := Drain(u, k.next, c + x);
            && dom(view(k.next), c + x) && (Drained(u, s, b + x) ==> Drained(u, k.next, c + x))
            && Alike(view, Outcome(d.state, [k.frame.value] + d.frames, d.rest), Drain(u, s, b + x))
  {
    var k, l := u(s, b), u(s, b + x);
    assert Fires(u, s, b) && Agree(u, view, s, b, s, b + x);
    var c := b[k.used..];
    assert (b + x)[k.used..] == c + x;
    assert Fires(u, s, b + x) && dom(view(l.next), c + x);
    SameDrained(u, view, dom, l.next, k.next, c + x);
  }

  lemma SplitBehind<S(!new), V(!new), F(!new)>(u: UnPacket<S, F>, view: View<S, V>, dom: Domain<V>, s: S, b: bytes, x: bytes)
    requires Stable(u, view, dom) && dom(view(s), b + x) && u(s, b).frame.Some?
    requires Splits(u, view, dom, u(s, b).next, b[u(s, b).used..], x)
    ensures Splits(u, view, dom, s, b, x)
  {
    SplitFrame(u, view, dom, s, b, x);
    var k := u(s, b);
    var o := Drain(u, k.next, b[k.used..]);
    var p := Drain(u, o.state, o.rest + x);
    assert ([k.frame.value] + o.frames) + p.frames == [k.frame.value] + (o.frames + p.frames);
  }

  /** The heart of the theorem: reading b and then x is reading b + x, provided the one big read drains. */
  lemma {:induction false} SplitRead<S(!new), V(!new), F(!new)>(
      u: UnPacket<S, F>, view: View<S, V>, dom: Domain<V>, s: S, b: bytes, x: bytes)
    requires Stable(u, view, dom) && dom(view(s), b + x) && Drained(u, s, b + x)
    ensures Splits(u, view, dom, s, b, x)
    decreases |b|
  {
    var k := u(s, b);
    if !Fires(u, s, b) {
      SplitQuiet(u, view, dom, s, b, x);
    } else if k.frame.None? {
      SplitSilent(u, view, dom, s, b, x);
    } else {
      SplitFrame(u, view, dom, s, b, x);
      SplitRead(u, view, dom, k.next, b[k.used..], x);
      SplitBehind(u, view, dom, s, b, x);
    }
  }

  lemma {:induction false} FeedIsDrain<S(!new), V(!new), F(!new)>(
      u: UnPacket<S, F>, view: View<S, V>, dom: Domain<V>, s: S, b: bytes, parts: seq<bytes>)
    requires Stable(u, view, dom) && parts != []
    requires dom(view(s), b + Concat(parts)) && Drained(u, s, b + Concat(parts))
    ensures Alike(view, Feed(u, s, b, parts), Drain(u, s, b + Concat(parts)))
    decreases |parts|
  {
    var x, y := parts[0], Concat(parts[1..]);
    assert b + Concat(parts) == (b + x) + y;
    var o := Drain(u, s, b + x);
    if |parts| == 1 {
      assert Concat(parts) == x && o.frames + [] == o.frames;
    } else {
      SplitRead(u, view, dom, s, b + x, y);
      FeedIsDrain(u, view, dom, o.state, o.rest, parts[1..]);
    }
  }

  /** A frame is recognised before the last byte of a following frame arrives. */
  ghost predicate Lookahead<S(!new), V(!new), F(!new)>(u: UnPacket<S, F>, view: View<S, V>, dom: Domain<V>)
    requires Progress(u)
  {
    forall s, b {:trigger Fires(u, s, b)} ::
      dom(view(s), b) && Fires(u, s, b) && Fires(u, u(s, b).next, b[u(s, b).used..])
      ==> Agree(u, view, s, b, s, b[..|b| - 1])
  }

  /** A call with a frame behind it does not need the last byte. */
  lemma ShorterCall<S(!new), V(!new), F(!new)>(u: UnPacket<S, F>, view: View<S, V>, dom: Domain<V>, s: S, b: bytes)
    requires Stable(u, view, dom) && Lookahead(u, view, dom) && dom(view(s), b)
    requires Fires(u, s, b) && Fires(u, u(s, b).next, b[u(s, b).used..])
    ensures var a, c := b[..|b| - 1], b[u(s, b).used..];
            && c != [] && u(s, b).used <= |a| && a[u(s, b).used..] == c[..|c| - 1]
            && Agree(u, view, s, b, s, a) && dom(view(u(s, b).next), c) && dom(view(u(s, b).next), c[..|c| - 1])
  {
    var c := b[u(s, b).used..];
    assert c == c[..|c| - 1] + c[|c| - 1..];
  }

  lemma FiresUnlessDrained<S(!new), V(!new), F(!new)>(u: UnPacket<S, F>, view: View<S, V>, dom: Domain<V>, s: S, b: bytes)
    requires Stable(u, view, dom) && dom(view(s), b) && !Drained(u, s, b)
    ensures Fires(u, s, b) && Fires(u, u(s, b).next, b[u(s, b).used..])
  {
    if !Fires(u, s, b) {
      QuietDrain(u, view, dom, s, b);
    }
    var k := u(s, b);
    if k.frame.Some? && !Fires(u, k.next, b[k.used..]) {
      QuietDrain(u, view, dom, k.next, b[k.used..]);
    }
  }

  lemma DrainFrame<S(!new), F(!new)>(u: UnPacket<S, F>, s: S, b: bytes)
    requires Progress(u) && u(s, b).frame.Some?
    ensures var k := u(s, b);
            var o := Drain(u, k.next, b[k.used..]);
            && Drain(u, s, b) == Outcome(o.state, [k.frame.value] + o.frames, o.rest)
            && (Drained(u, s, b) <==> Drained(u, k.next, b[k.used..]))
  {}

  lemma DrainStops<S(!new), F(!new)>(u: UnPacket<S, F>, s: S, b: bytes)
    requires Progress(u) && u(s, b).frame.None?
    ensures Drain(u, s, b) == Outcome(u(s, b).next, [], b[u(s, b).used..])
  {}

  lemma DrainNothing<S(!new), F(!new)>(u: UnPacket<S, F>, s: S, b: bytes)
    requires Progress(u) && u(s, b).frame.None? && u(s, b).used == 0
    ensures Drain(u, s, b) == Outcome(u(s, b).next, [], b)
  {}

  lemma DrainLast<S(!new), F(!new)>(u: UnPacket<S, F>, s: S, b: bytes)
    requires Progress(u) && u(s, b).frame.Some? && u(s, b).used == |b| && u(u(s, b).next, []).frame.None?
    ensures Drain(u, s, b) == Outcome(u(u(s, b).next, []).next, [u(s, b).frame.value], [])
  {
    var k := u(s, b);
    assert b[|b|..] == [];
    DrainNothing(u, k.next, []);
    DrainFrame(u, s, b);
  }

  /** The outcome over b is the outcome over all but its last byte, with that byte at the end of the rest. */
  ghost predicate OneShort<S(!new), V(!new), F(!new)>(u: UnPacket<S, F>, view: View<S, V>, s: S, b: bytes)
    requires Progress(u) && b != []
  {
    var o := Drain(u, s, b);
    o.rest != [] && Alike(view, Drain(u, s, b[..|b| - 1]), Outcome(o.state, o.frames, o.rest[..|o.rest| - 1]))
  }

  lemma OneShortFrame<S(!new), V(!new), F(!new)>(u: UnPacket<S, F>, view: View<S, V>, dom: Domain<V>, s: S, b: bytes)
    requires Stable(u, view, dom) && Lookahead(u, view, dom) && dom(view(s), b) && !Drained(u, s, b) && u(s, b).frame.Some?
    requires var k := u(s, b); b[k.used..] != [] && OneShort(u, view, k.next, b[k.used..])
    ensures b != [] && OneShort(u, view, s, b)
  {
    FiresUnlessDrained(u, view, dom, s, b);
    ShorterCall(u, view, dom, s, b);
    var a, k := b[..|b| - 1], u(s, b);
    var c := b[k.used..];
    SameDrain(u, view, dom, k.next, u(s, a).next, c[..|c| - 1]);
    DrainFrame(u, s, b);
    DrainFrame(u, s, a);
  }

  /** When the loop stops early, it does so one byte sooner as well. */
  lemma {:induction false} StopsEarly<S(!new), V(!new), F(!new)>(
      u: UnPacket<S, F>, view: View<S, V>, dom: Domain<V>, s: S, b: bytes)
    requires Stable(u, view, dom) && Lookahead(u, view, dom) && dom(view(s), b) && !Drained(u, s, b)
    ensures b != [] && OneShort(u, view, s, b)
    decreases |b|
  {
    FiresUnlessDrained(u, view, dom, s, b);
    ShorterCall(u, view, dom, s, b);
    var k := u(s, b);
    if k.frame.Some? {
      DrainFrame(u, s, b);
      StopsEarly(u, view, dom, k.next, b[k.used..]);
      OneShortFrame(u, view, dom, s, b);
    }
  }

  lemma TwoReads<S(!new), F(!new)>(u: UnPacket<S, F>, s: S, a: bytes, x: bytes)
    requires Progress(u)
    ensures Concat([a, x]) == a + x
    ensures var p := Drain(u, s, a);
            var q := Drain(u, p.state, p.rest + x);
            Feed(u, s, [], [a, x]) == Outcome(q.state, p.frames + q.frames, q.rest)
  {
    assert [a, x][1..] == [x] && [x][1..] == [] && [] + a == a && x + [] == x;
    assert Concat([x]) == x;
    var p := Drain(u, s, a);
    var q := Drain(u, p.state, p.rest + x);
    assert Feed(u, p.state, p.rest, [x]) == Outcome(q.state, q.frames + [], q.rest);
    assert q.frames + [] == q.frames;
  }

  lemma DrainConsumes<S(!new), F(!new)>(u: UnPacket<S, F>, s: S, b: bytes)
    requires Progress(u) && Fires(u, s, b)
    ensures |Drain(u, s, b).rest| < |b|
  {}

  lemma LastByteApart<S(!new), V(!new), F(!new)>(u: UnPacket<S, F>, view: View<S, V>, dom: Domain<V>, s: S, b: bytes)
    requires Stable(u, view, dom) && Lookahead(u, view, dom) && dom(view(s), b) && !Drained(u, s, b)
    ensures b != [] && Feed(u, s, [], [b[..|b| - 1], b[|b| - 1..]]).rest != Drain(u, s, b).rest
  {
    StopsEarly(u, view, dom, s, b);
    var a, x := b[..|b| - 1], b[|b| - 1..];
    var o, p := Drain(u, s, b), Drain(u, s, a);
    assert p.rest + x == o.rest by {
      assert o.rest == b[|b| - |o.rest|..];
      assert o.rest[..|o.rest| - 1] + [o.rest[|o.rest| - 1]] == o.rest;
    }
    assert Fires(u, p.state, o.rest) by {
      DrainStays(u, view, dom, s, b);
      SameCall(u, view, dom, o.state, p.state, o.rest);
    }
    DrainConsumes(u, p.state, o.rest);
    TwoReads(u, s, a, x);
  }

  lemma CutInTwo(b: bytes, k: nat)
    requires 0 < k < |b|
    ensures Concat([b[..k], b[k..]]) == b && Reads([b[..k], b[k..]])
  {
    assert [b[..k], b[k..]][1..] == [b[k..]] && Concat([b[k..]]) == b[k..] + [];
  }

  /** Reads with another outcome. */
  lemma ReadsDiffer<S(!new), V(!new), F(!new)>(u: UnPacket<S, F>, view: View<S, V>, s: S, b: bytes, parts: seq<bytes>)
    requires Progress(u) && |parts| > 0 && Reads(parts) && Concat(parts) == b
    requires !Alike(view, Feed(u, s, [], parts), Drain(u, s, b))
    ensures !SegmentationIndependent(u, view, s, b)
  {}

  lemma UndrainedIsLong<S(!new), V(!new), F(!new)>(u: UnPacket<S, F>, view: View<S, V>, dom: Domain<V>, s: S, b: bytes)
    requires Stable(u, view, dom) && dom(view(s), b) && !Drained(u, s, b)
    ensures |b| >= 2
  {
    FiresUnlessDrained(u, view, dom, s, b);
  }

  lemma UndrainedDepends<S(!new), V(!new), F(!new)>(u: UnPacket<S, F>, view: View<S, V>, dom: Domain<V>, s: S, b: bytes)
    requires Stable(u, view, dom) && Lookahead(u, view, dom) && dom(view(s), b) && !Drained(u, s, b)
    ensures !SegmentationIndependent(u, view, s, b)
  {
    LastByteApart(u, view, dom, s, b);
    UndrainedIsLong(u, view, dom, s, b);
    CutInTwo(b, |b| - 1);
    ReadsDiffer(u, view, s, b, [b[..|b| - 1], b[|b| - 1..]]);
  }

  /** Segmentation independence, exactly: the outcome does not depend on how the stream is cut into reads
      if and only if reading it in one piece leaves nothing that another `UnPacket` call would consume. */
  lemma SegmentationTheorem<S(!new), V(!new), F(!new)>(u: UnPacket<S, F>, view: View<S, V>, dom: Domain<V>, s: S, b: bytes)
    requires Stable(u, view, dom) && Lookahead(u, view, dom) && dom(view(s), b)
    ensures SegmentationIndependent(u, view, s, b) <==> Drained(u, s, b)
  {
    if Drained(u, s, b) {
      DrainedIsIndependent(u, view, dom, s, b);
    } else {
      UndrainedDepends(u, view, dom, s, b);
    }
  }

  /** The sufficient half needs no lookahead. */
  lemma DrainedIsIndependent<S(!new), V(!new), F(!new)>(u: UnPacket<S, F>, view: View<S, V>, dom: Domain<V>, s: S, b: bytes)
    requires Stable(u, view, dom) && dom(view(s), b) && Drained(u, s, b)
    ensures SegmentationIndependent(u, view, s, b)
  {
    forall parts | |parts| > 0 && Reads(parts) && Concat(parts) == b
      ensures Alike(view, Feed(u, s, [], parts), Drain(u, s, b))
    {
      assert [] + b == b;
      FeedIsDrain(u, view, dom, s, [], parts);
    }
  }

  lemma FirstOfDrain<S(!new), F(!new)>(u: UnPacket<S, F>, s: S, b: bytes)
    requires Progress(u)
    ensures var o, k := Drain(u, s, b), u(s, b);
            if k.frame.None? then o.frames == [] else o.frames != [] && o.frames[0] == k.frame.value
  {}

  /** A stream whose first k bytes make a frame that the whole stream does not begin with. */
  lemma EarlyFrame<S(!new), V(!new), F(!new)>(u: UnPacket<S, F>, view: View<S, V>, s: S, b: bytes, k: nat)
    requires Progress(u) && k <= |b| && u(s, b[..k]).frame.Some? && u(s, b).frame != u(s, b[..k]).frame
    ensures !SegmentationIndependent(u, view, s, b)
  {
    assert b[..|b|] == b;
    TwoReads(u, s, b[..k], b[k..]);
    FirstOfDrain(u, s, b);
    FirstOfDrain(u, s, b[..k]);
    CutInTwo(b, k);
    ReadsDiffer(u, view, s, b, [b[..k], b[k..]]);
  }

  /** The stream a peer produces by encoding a list of frames. */
  function Stream<F>(enc: F -> bytes, frames: seq<F>): bytes
  {
    if frames == [] then [] else enc(frames[0]) + Stream(enc, frames[1..])
  }

  lemma {:induction false} StreamSnoc<F>(enc: F -> bytes, frames: seq<F>, last: F)
    ensures Stream(enc, frames + [last]) == Stream(enc, frames) + enc(last)
  {
    if frames == [] {
      assert frames + [last] == [last] && Stream(enc, [last]) == enc(last) + [];
    } else {
      StreamSnoc(enc, frames[1..], last);
      assert (frames + [last])[1..] == frames[1..] + [last];
    }
  }

  /** `UnPacket` undoes the encoding of every listed frame whatever follows it, as soon as `need` bytes are there. */
  ghost predicate Undoes<S(!new), V(!new), F(!new)>(
      u: UnPacket<S, F>, view: View<S, V>, v: V, enc: F -> bytes, frames: seq<F>, need: nat)
  {
    forall s, f, x {:trigger u(s, enc(f) + x)} :: view(s) == v && f in frames && |enc(f) + x| >= need ==>
      var k := u(s, enc(f) + x);
      k.frame == Some(f) && k.used == |enc(f)| && view(k.next) == v
  }

  /** The last frame and the tail behind it reach the number of bytes the protocol wants to see. */
  predicate Enough<F>(enc: F -> bytes, frames: seq<F>, tail: bytes, need: nat)
  {
    frames != [] ==> |enc(frames[|frames| - 1])| + |tail| >= need
  }

  lemma {:induction false} StreamLength<F>(enc: F -> bytes, frames: seq<F>, tail: bytes, need: nat)
    requires Enough(enc, frames, tail, need) && frames != []
    ensures |Stream(enc, frames) + tail| >= need
  {
    if |frames| > 1 {
      StreamLength(enc, frames[1..], tail, need);
    }
  }

  /** In every state with view v the protocol waits for more than this. */
  ghost predicate Waits<S(!new), V(!new), F(!new)>(u: UnPacket<S, F>, view: View<S, V>, v: V, tail: bytes)
  {
    forall s {:trigger Fires(u, s, tail)} :: view(s) == v ==> !Fires(u, s, tail) && view(u(s, tail).next) == v
  }

  lemma FirstFrame<S(!new), V(!new), F(!new)>(
      u: UnPacket<S, F>, view: View<S, V>, enc: F -> bytes, s: S, frames: seq<F>, tail: bytes, need: nat)
    requires frames != [] && Undoes(u, view, view(s), enc, frames, need) && Enough(enc, frames, tail, need)
    ensures var b := Stream(enc, frames) + tail;
            var k := u(s, b);
            && k.frame == Some(frames[0]) && k.used <= |b| && view(k.next) == view(s)
            && b[k.used..] == Stream(enc, frames[1..]) + tail
  {
    var f, x := frames[0], Stream(enc, frames[1..]) + tail;
    assert Stream(enc, frames) + tail == enc(f) + x;
    StreamLength(enc, frames, tail, need);
    assert (enc(f) + x)[|enc(f)|..] == x;
  }

  /** One big read of an encoded list of frames and an incomplete tail delivers the list and keeps the tail. */
  lemma {:induction false} DrainStream<S(!new), V(!new), F(!new)>(
      u: UnPacket<S, F>, view: View<S, V>, enc: F -> bytes, s: S, frames: seq<F>, tail: bytes, need: nat)
    requires Progress(u) && Undoes(u, view, view(s), enc, frames, need) && Waits(u, view, view(s), tail)
    requires Enough(enc, frames, tail, need)
    ensures var o := Drain(u, s, Stream(enc, frames) + tail);
            o.frames == frames && o.rest == tail && view(o.state) == view(s)
    ensures Drained(u, s, Stream(enc, frames) + tail)
    decreases |frames|
  {
    if frames == [] {
      assert [] + tail == tail && tail[0..] == tail;
      assert !Fires(u, s, tail) && !Fires(u, u(s, tail).next, tail);
    } else {
      FirstFrame(u, view, enc, s, frames, tail, need);
      DrainStream(u, view, enc, u(s, Stream(enc, frames) + tail).next, frames[1..], tail, need);
    }
  }

  /** Every segmentation of an encoded list of frames and an incomplete tail delivers exactly that list. */
  lemma StreamDelivered<S(!new), V(!new), F(!new)>(
      u: UnPacket<S, F>, view: View<S, V>, dom: Domain<V>, enc: F -> bytes, s: S, frames: seq<F>, tail: bytes, need: nat,
      parts: seq<bytes>)
    requires Stable(u, view, dom) && Undoes(u, view, view(s), enc, frames, need) && Waits(u, view, view(s), tail)
    requires Enough(enc, frames, tail, need)
    requires parts != [] && Concat(parts) == Stream(enc, frames) + tail && dom(view(s), Concat(parts))
    ensures var o := Feed(u, s, [], parts);
            o.frames == frames && o.rest == tail && view(o.state) == view(s)
  {
    DrainStream(u, view, enc, s, frames, tail, need);
    assert [] + Concat(parts) == Concat(parts);
    FeedIsDrain(u, view, dom, s, [], parts);
  }

  // ---- What is still to come of a stream, call by call ----

  /** Deliveries to come, the text of each, and what stays behind them. */
  datatype Coming<D> = Coming(deliveries: seq<D>, texts: seq<bytes>, tail: bytes)

  /** Whether a text makes this delivery in an opened connection, or, as the first of all, opens one. */
  type Texts<!D> = (bool, D, bytes) -> bool

  ghost predicate ItemAt<D(!new)>(p: Texts<D>, e: bytes -> bool, open: bool, c: Coming<D>, i: nat)
    requires i <= |c.deliveries| == |c.texts|
  {
    if i == |c.deliveries| then e(c.tail) else p(open || i > 0, c.deliveries[i], c.texts[i])
  }

  ghost predicate Lawful<D(!new)>(p: Texts<D>, e: bytes -> bool, open: bool, c: Coming<D>)
  {
    && |c.deliveries| == |c.texts| && (open || c.deliveries != [])
    && forall i: nat :: i <= |c.deliveries| ==> ItemAt(p, e, open, c, i)
  }

  /** Of the text of what is to come, b is here and `ahead` has yet to be read. */
  ghost predicate Arriving<D(!new)>(p: Texts<D>, e: bytes -> bool, open: bool, c: Coming<D>, b: bytes, ahead: bytes)
  {
    Lawful(p, e, open, c) && b + ahead == Concat(c.texts) + c.tail
  }

  /** The first of the deliveries to come is here in full. */
  predicate Due<D>(c: Coming<D>, b: bytes)
    requires |c.deliveries| == |c.texts|
  {
    |c.deliveries| > 0 && |b| >= |c.texts[0]|
  }

  function Later<D>(c: Coming<D>): Coming<D>
    requires 0 < |c.deliveries| == |c.texts|
  {
    Coming(c.deliveries[1..], c.texts[1..], c.tail)
  }

  lemma LaterLawful<D(!new)>(p: Texts<D>, e: bytes -> bool, open: bool, c: Coming<D>)
    requires Lawful(p, e, open, c) && c.deliveries != []
    ensures Lawful(p, e, true, Later(c))
  {
    forall i: nat | i <= |Later(c).deliveries|
      ensures ItemAt(p, e, true, Later(c), i)
    {
      assert ItemAt(p, e, open, c, i + 1);
    }
  }

  lemma LaterArrives<D(!new)>(p: Texts<D>, e: bytes -> bool, open: bool, c: Coming<D>, b: bytes, ahead: bytes)
    requires Arriving(p, e, open, c, b, ahead) && Due(c, b)
    ensures Arriving(p, e, true, Later(c), b[|c.texts[0]|..], ahead)
  {
    LaterLawful(p, e, open, c);
    var n := |c.texts[0]|;
    assert (b + ahead)[n..] == b[n..] + ahead;
    assert (Concat(c.texts) + c.tail)[n..] == Concat(c.texts[1..]) + c.tail;
  }

  lemma FirstText<D(!new)>(p: Texts<D>, e: bytes -> bool, open: bool, c: Coming<D>, b: bytes, ahead: bytes)
    requires Arriving(p, e, open, c, b, ahead)
    ensures if c.deliveries == [] then b <= c.tail else b <= c.texts[0] + (Concat(c.texts[1..]) + c.tail)
  {
    assert b <= b + ahead;
    if c.deliveries != [] {
      assert Concat(c.texts) + c.tail == c.texts[0] + (Concat(c.texts[1..]) + c.tail);
    }
  }

  /** With nothing left to read and nothing due, everything was delivered. */
  lemma AllArrived<D(!new)>(p: Texts<D>, e: bytes -> bool, open: bool, c: Coming<D>, b: bytes)
    requires Arriving(p, e, open, c, b, []) && !Due(c, b)
    ensures c.deliveries == [] && b == c.tail && open
  {
    assert b + [] == b;
  }

  lemma LawfulEnd<D(!new)>(p: Texts<D>, e: bytes -> bool, tail: bytes)
    requires e(tail)
    ensures Lawful(p, e, true, Coming([], [], tail))
  {}

  function Sooner<D>(d: D, text: bytes, c: Coming<D>): Coming<D>
  {
    Coming([d] + c.deliveries, [text] + c.texts, c.tail)
  }

  lemma LawfulCons<D(!new)>(p: Texts<D>, e: bytes -> bool, open: bool, d: D, text: bytes, c: Coming<D>)
    requires p(open, d, text) && Lawful(p, e, true, c)
    ensures Lawful(p, e, open, Sooner(d, text, c)) && Concat(Sooner(d, text, c).texts) == text + Concat(c.texts)
  {
    assert ([text] + c.texts)[1..] == c.texts;
    forall i: nat | i <= |c.deliveries| + 1
      ensures ItemAt(p, e, open, Sooner(d, text, c), i)
    {
      if i > 0 {
        assert ItemAt(p, e, true, c, i - 1);
      }
    }
  }

  lemma SoonerText<D>(d: D, text: bytes, c: Coming<D>)
    ensures [] + (text + (Concat(c.texts) + c.tail)) == Concat(Sooner(d, text, c).texts) + c.tail
  {
    assert ([text] + c.texts)[1..] == c.texts;
  }

  // ---- What is sent back ----

  /** `OnMessage` followed by `Packet`: the bytes, if any, sent in answer to the last of the frames delivered so far. */
  type Handler<!F> = seq<F> -> Option<bytes>

  function Answer<F>(h: Handler<F>, frames: seq<F>): bytes
  {
    if h(frames).None? then [] else h(frames).value
  }

  /** The bytes `handlerProtocol` collects while delivering `frames` to a connection that was given `past` before. */
  function Answers<F>(h: Handler<F>, past: seq<F>, frames: seq<F>): bytes
    decreases |frames|
  {
    if frames == [] then [] else Answer(h, past + [frames[0]]) + Answers(h, past + [frames[0]], frames[1..])
  }

  lemma {:induction false} AnswersSplit<F>(h: Handler<F>, past: seq<F>, a: seq<F>, b: seq<F>)
    ensures Answers(h, past, a + b) == Answers(h, past, a) + Answers(h, past + a, b)
    decreases |a|
  {
    if a == [] {
      assert a + b == b && past + a == past;
    } else {
      assert (a + b)[1..] == a[1..] + b && past + a == (past + [a[0]]) + a[1..];
      AnswersSplit(h, past + [a[0]], a[1..], b);
    }
  }

  lemma AnswersSnoc<F>(h: Handler<F>, past: seq<F>, frames: seq<F>, f: F)
    ensures Answers(h, past, frames + [f]) == Answers(h, past, frames) + Answer(h, past + frames + [f])
  {
    AnswersSplit(h, past, frames, [f]);
    assert [f][1..] == [] && Answer(h, past + frames + [f]) + [] == Answer(h, past + frames + [f]);
  }

  /** What the handler answers to each frame, given everything delivered up to it; nothing where it gives no answer. */
  function Replies<F>(h: Handler<F>, past: seq<F>, frames: seq<F>): seq<bytes>
  {
    seq(|frames|, i requires 0 <= i < |frames| =>
      match h(past + frames[..i + 1])
      case Some(x) => x
      case None => [])
  }

  lemma RepliesSnoc<F>(h: Handler<F>, past: seq<F>, frames: seq<F>, f: F)
    ensures Replies(h, past, frames + [f]) == Replies(h, past, frames) + [Answer(h, past + frames + [f])]
  {
    var all := frames + [f];
    forall i | 0 <= i < |frames|
      ensures Replies(h, past, all)[i] == Replies(h, past, frames)[i]
    {
      assert all[..i + 1] == frames[..i + 1];
    }
    assert past + all[..|all|] == past + frames + [f];
  }

  /** The bytes collected are these answers, one behind the other. */
  lemma {:induction false} AnswersExactly<F>(h: Handler<F>, past: seq<F>, frames: seq<F>)
    ensures Answers(h, past, frames) == Concat(Replies(h, past, frames))
    decreases |frames|
  {
    if frames != [] {
      var n := |frames| - 1;
      var init, last := frames[..n], frames[n];
      assert frames == init + [last];
      AnswersSnoc(h, past, init, last);
      RepliesSnoc(h, past, init, last);
      AnswersExactly(h, past, init);
      var x := Answer(h, past + init + [last]);
      ConcatAppend(Replies(h, past, init), [x]);
      assert [x][1..] == [] && Concat([x]) == x + [];
    }
  }

  /** All bytes answered over a list of reads. */
  function AnswersFed<S(!new), F(!new)>(u: UnPacket<S, F>, h: Handler<F>, s: S, b: bytes, past: seq<F>, parts: seq<bytes>): bytes
    requires Progress(u)
    decreases |parts|
  {
    if parts == [] then []
    else
      var o := Drain(u, s, b + parts[0]);
      Answers(h, past, o.frames) + AnswersFed(u, h, o.state, o.rest, past + o.frames, parts[1..])
  }

  lemma {:induction false} AnswersFedIsAnswers<S(!new), F(!new)>(
      u: UnPacket<S, F>, h: Handler<F>, s: S, b: bytes, past: seq<F>, parts: seq<bytes>)
    requires Progress(u)
    ensures AnswersFed(u, h, s, b, past, parts) == Answers(h, past, Feed(u, s, b, parts).frames)
    decreases |parts|
  {
    if parts != [] {
      var o := Drain(u, s, b + parts[0]);
      AnswersFedIsAnswers(u, h, o.state, o.rest, past + o.frames, parts[1..]);
      AnswersSplit(h, past, o.frames, Feed(u, o.state, o.rest, parts[1..]).frames);
    }
  }

  /** The answers to one more read. */
  lemma AnswersFedSnoc<S(!new), F(!new)>(u: UnPacket<S, F>, h: Handler<F>, s: S, parts: seq<bytes>, x: bytes)
    requires Progress(u)
    ensures var o := Feed(u, s, [], parts);
            var p := Drain(u, o.state, o.rest + x);
            AnswersFed(u, h, s, [], [], parts + [x]) == AnswersFed(u, h, s, [], [], parts) + Answers(h, o.frames, p.frames)
  {
    var o := Feed(u, s, [], parts);
    var p := Drain(u, o.state, o.rest + x);
    FeedSnoc(u, s, [], parts, x);
    AnswersFedIsAnswers(u, h, s, [], [], parts);
    AnswersFedIsAnswers(u, h, s, [], [], parts + [x]);
    AnswersSplit(h, [], o.frames, p.frames);
    assert [] + o.frames == o.frames;
  }

  /** What a connection sends back does not depend on how its input was cut into reads either,
      even if the handler's answers depend on everything delivered before. */
  lemma AnswersIndependent<S(!new), V(!new), F(!new)>(u: UnPacket<S, F>, view: View<S, V>, h: Handler<F>, s: S, parts: seq<bytes>)
    requires Progress(u) && parts != [] && Reads(parts)
    ensures SegmentationIndependent(u, view, s, Concat(parts)) ==>
              AnswersFed(u, h, s, [], [], parts) == Answers(h, [], Drain(u, s, Concat(parts)).frames)
  {
    AnswersFedIsAnswers(u, h, s, [], [], parts);
    if SegmentationIndependent(u, view, s, Concat(parts)) {
      assert Alike(view, Feed(u, s, [], parts), Drain(u, s, Concat(parts)));
    }
  }

  // ---- The loop of `handlerProtocol`, half way through ----

  /** Having delivered `got` and collected `replies`, call k has just returned and left `rest`. */
  ghost predicate Partway<S(!new), F(!new)>(
      u: UnPacket<S, F>, h: Handler<F>, o: Outcome<S, F>, past: seq<F>, got: seq<F>, k: Taken<S, F>, rest: bytes, replies: bytes)
    requires Progress(u)
  {
    var p := Resume(u, k, rest);
    o == Outcome(p.state, got + p.frames, p.rest) && replies == Answers(h, past, got)
  }

  lemma PartwayStart<S(!new), F(!new)>(u: UnPacket<S, F>, h: Handler<F>, s: S, b: bytes, past: seq<F>)
    requires Progress(u)
    ensures Partway(u, h, Drain(u, s, b), past, [], u(s, b), b[u(s, b).used..], [])
  {
    var p := Resume(u, u(s, b), b[u(s, b).used..]);
    assert [] + p.frames == p.frames;
  }

  lemma PartwayStep<S(!new), F(!new)>(
      u: UnPacket<S, F>, h: Handler<F>, o: Outcome<S, F>, past: seq<F>, got: seq<F>, k: Taken<S, F>, rest: bytes, replies: bytes)
    requires Progress(u) && Partway(u, h, o, past, got, k, rest, replies) && k.frame.Some?
    ensures var f, l := k.frame.value, u(k.next, rest);
            Partway(u, h, o, past, got + [f], l, rest[l.used..], replies + Answer(h, past + got + [f]))
  {
    var f := k.frame.value;
    AnswersSnoc(h, past, got, f);
    var p := Drain(u, k.next, rest);
    assert got + ([f] + p.frames) == (got + [f]) + p.frames;
  }

  lemma PartwayEnd<S(!new), F(!new)>(
      u: UnPacket<S, F>, h: Handler<F>, o: Outcome<S, F>, past: seq<F>, got: seq<F>, k: Taken<S, F>, rest: bytes, replies: bytes)
    requires Progress(u) && Partway(u, h, o, past, got, k, rest, replies) && k.frame.None?
    ensures o == Outcome(k.next, got, rest) && replies == Answers(h, past, o.frames)
  {
    assert got + [] == got;
  }
}
