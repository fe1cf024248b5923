/** protocol.go: the protocol that hands out whatever is there. */
module DefaultProtocols {
  import opened Bytes
  import opened RingBuffers
  import opened Framing

  /** Where an event loop keeps its user buffer. */
  class UserSpace {
    var buffer: array<byte>

    constructor (size: nat)
      ensures fresh(buffer) && buffer.Length == size
    {
      buffer := new byte[size];
    }
  }

  function Take(s: (), b: bytes): Taken<(), bytes>
  {
    Taken((), if b == [] then None else Some(b), |b|)
  }

  /** Both segments of a wrapped buffer are put together in the user buffer, which grows if it has to. */
  method UnPacket(c: UserSpace, buffer: RingBuffer) returns (out: bytes)
    requires buffer.Valid()
    modifies c, c.buffer, buffer
    ensures buffer.Valid() && buffer.data == [] && buffer.virtual == 0
    ensures Take((), old(buffer.data)) == Taken((), if out == [] then None else Some(out), |out|)
    ensures c.buffer.Length >= old(c.buffer.Length) && (c.buffer == old(c.buffer) || fresh(c.buffer))
  {
    ghost var b := buffer.data;
    var s, e := buffer.PeekAll();
    assert s + e == b;
    if |e| > 0 {
      var size := |s| + |e|;
      if size > c.buffer.Length {
        c.buffer := new byte[size];
      }
      var n := Copy(c.buffer, 0, s);
      var m := Copy(c.buffer, |s|, e);
      assert c.buffer[..size] == s + e == b;
      buffer.Retrieve(size);
      out := c.buffer[..size];
    } else {
      assert s == b;
      buffer.Retrieve(|s|);
      out := s;
    }
  }

  lemma OneRead(b: bytes)
    ensures Progress(Take) && Drain(Take, (), b) == Outcome((), if b == [] then [] else [b], [])
  {
    assert b[|b|..] == [];
    assert Drain(Take, (), []) == Outcome((), [], []);
  }

  lemma FirstRead(parts: seq<bytes>)
    requires parts != []
    ensures Progress(Take)
    ensures var later := Feed(Take, (), [], parts[1..]);
            Feed(Take, (), [], parts) == Outcome((), (if parts[0] == [] then [] else [parts[0]]) + later.frames, later.rest)
  {
    OneRead(parts[0]);
    assert [] + parts[0] == parts[0];
    FeedFirst(Take, (), [], parts, Outcome((), if parts[0] == [] then [] else [parts[0]], []));
  }

  /** Every read is handed out at once: nothing is lost, repeated or reordered, and nothing stays behind. */
  lemma {:induction false} NothingLost(parts: seq<bytes>)
    ensures Progress(Take)
    ensures Concat(Feed(Take, (), [], parts).frames) == Concat(parts) && Feed(Take, (), [], parts).rest == []
    decreases |parts|
  {
    assert Progress(Take);
    if parts != [] {
      FirstRead(parts);
      NothingLost(parts[1..]);
      ConcatAppend(if parts[0] == [] then [] else [parts[0]], Feed(Take, (), [], parts[1..]).frames);
      assert Concat([parts[0]]) == parts[0] + [];
    }
  }
}
