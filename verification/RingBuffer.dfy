/** The ring buffer library, as the contract its callers rely on: a queue of bytes with a read cursor and a virtual
    read cursor that can be committed or taken back. Its storage may wrap, so a peek returns two segments; where it wraps
    is up to the library, but only a write makes it wrap, and only after something was taken from a new or reset buffer. */
module RingBuffers {
  import opened Bytes

  class RingBuffer {
    var data: bytes
    /** Bytes the virtual cursor is ahead of the read cursor. */
    var virtual: nat
    /** The length of the first of the two segments: everything, unless the storage wraps inside the contents. */
    var cut: nat
    /** Something may have been taken since the buffer was new or reset. */
    var taken: bool
    /** The buffer has been handed back to the pool and belongs to someone else. */
    var pooled: bool

    ghost predicate Valid()
      reads this
    {
      virtual <= |data| && !pooled && cut <= |data| && (data != [] ==> cut > 0) && (!taken ==> cut == |data|)
    }

    constructor ()
      ensures Valid() && data == [] && virtual == 0 && !taken
    {
      data, virtual, cut, taken, pooled := [], 0, 0, false, false;
    }

    method Reset()
      requires Valid()
      modifies this
      ensures Valid() && data == [] && virtual == 0 && !taken
    {
      data, virtual, cut, taken := [], 0, 0, false;
    }

    /** The contents changed; where they wrap now is arbitrary unless they lie in one piece. */
    method Wrap(flat: bool)
      modifies `cut
      ensures cut <= |data| && (data != [] ==> cut > 0) && (flat ==> cut == |data|)
    {
      var c: nat :| c <= |data| && (data != [] ==> c > 0);
      cut := if flat then |data| else c;
    }

    method Write(d: bytes)
      requires Valid()
      modifies this
      ensures Valid() && data == old(data) + d && virtual == old(virtual) && taken == old(taken)
    {
      data := data + d;
      Wrap(!taken);
    }

    method PeekAll() returns (first: bytes, end: bytes)
      requires Valid()
      ensures first == data[..cut] && end == data[cut..]
    {
      first, end := data[..cut], data[cut..];
    }

    method Retrieve(n: nat)
      requires Valid()
      modifies this
      ensures Valid() && data == old(data)[Min(n, |old(data)|)..] && virtual == 0
      ensures old(cut) == |old(data)| ==> cut == |data|
    {
      var flat := cut == |data|;
      data, virtual, taken := data[Min(n, |data|)..], 0, true;
      Wrap(flat);
    }

    method Read(n: nat) returns (p: bytes)
      requires Valid()
      modifies this
      ensures Valid() && virtual == 0
      ensures p == old(data)[..Min(n, |old(data)|)] && data == old(data)[|p|..]
      ensures old(cut) == |old(data)| ==> cut == |data|
    {
      var flat := cut == |data|;
      p := data[..Min(n, |data|)];
      data, virtual, taken := data[|p|..], 0, true;
      Wrap(flat);
    }

    method VirtualRead(n: nat) returns (p: bytes)
      requires Valid()
      modifies this
      ensures Valid() && data == old(data) && cut == old(cut) && taken == old(taken)
      ensures p == data[old(virtual)..][..Min(n, |data| - old(virtual))] && virtual == old(virtual) + |p|
    {
      var k := Min(n, |data| - virtual);
      p := data[virtual..][..k];
      virtual := virtual + k;
    }

    method VirtualFlush()
      requires Valid()
      modifies this
      ensures Valid() && data == old(data)[old(virtual)..] && virtual == 0
      ensures old(cut) == |old(data)| ==> cut == |data|
    {
      var flat := cut == |data|;
      data, virtual, taken := data[virtual..], 0, true;
      Wrap(flat);
    }

    method VirtualRevert()
      requires Valid()
      modifies this
      ensures Valid() && data == old(data) && virtual == 0 && cut == old(cut) && taken == old(taken)
    {
      virtual := 0;
    }

    method PutInPool()
      requires Valid()
      modifies this
      ensures pooled && data == []
    {
      data, virtual, cut, pooled := [], 0, 0, true;
    }
  }

  /** Go's built-in `copy` into dst[at..]: as many bytes as fit. */
  method Copy(dst: array<byte>, at: nat, src: bytes) returns (n: nat)
    requires at <= dst.Length
    modifies dst
    ensures n == Min(|src|, dst.Length - at)
    ensures dst[..] == old(dst[..at]) + src[..n] + old(dst[at + n..])
    ensures dst[..at + n] == old(dst[..at]) + src[..n]
  {
    n := Min(|src|, dst.Length - at);
    forall i | 0 <= i < n {
      dst[at + i] := src[i];
    }
  }

  /** A Go slice: a window into an array, with room to grow up to the array's end. */
  datatype Slice = Slice(arr: array<byte>, off: nat, len: nat)
  {
    predicate Fits()
    {
      off + len <= arr.Length
    }

    function Contents(): bytes
      requires Fits()
      reads arr
    {
      arr[off..off + len]
    }
  }

  /** Go's `append`: in place while there is room, else into a new array. Nothing in front of the appended bytes changes. */
  method Append(s: Slice, data: bytes) returns (r: Slice)
    requires s.Fits()
    modifies s.arr
    ensures r.Fits() && r.Contents() == old(s.Contents()) + data
    ensures fresh(r.arr) || (r.arr == s.arr && r.off == s.off)
    ensures s.arr[..s.off + s.len] == old(s.arr[..s.off + s.len])
  {
    if s.off + s.len + |data| <= s.arr.Length {
      var n := Copy(s.arr, s.off + s.len, data);
      r := Slice(s.arr, s.off, s.len + |data|);
    } else {
      var bigger := new byte[2 * (s.len + |data|)];
      var n := Copy(bigger, 0, s.Contents() + data);
      r := Slice(bigger, 0, s.len + |data|);
    }
  }
}
