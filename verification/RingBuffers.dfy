/** The ring buffer: a queue of at most size - 1 bytes. */
module RingBuffers {
  import opened ByteStrings

  // Position i of a buffer of that size, i going on past its end once.
  function Wrap(size: nat, i: nat): (p: nat)
    requires i < 2 * size
    ensures p < size
  {
    if i < size then i else i - size
  }

  // The bytes from index r up to index w, around the end where need be.
  function Content(buf: Bytes, r: nat, w: nat): Bytes
    requires r < |buf| && w < |buf|
  {
    if r <= w then buf[r..w] else buf[r..] + buf[..w]
  }

  lemma ContentAt(buf: Bytes, r: nat, w: nat)
    requires r < |buf| && w < |buf|
    ensures |Content(buf, r, w)| < |buf| && Wrap(|buf|, r + |Content(buf, r, w)|) == w
    ensures forall i :: 0 <= i < |Content(buf, r, w)| ==> Content(buf, r, w)[i] == buf[Wrap(|buf|, r + i)]
  {
  }

  // b is a with x written from index w on.
  ghost predicate Put(a: Bytes, b: Bytes, w: nat, x: Bytes)
    requires w < |a| && |x| < |a| == |b|
  {
    && (forall i :: 0 <= i < |x| ==> b[Wrap(|a|, w + i)] == x[i])
    && (forall p :: 0 <= p < |a| && !Written(|a|, w, |x|, p) ==> b[p] == a[p])
  }

  predicate Written(size: nat, w: nat, n: nat, p: nat) {
    w <= p < w + n || p + size < w + n
  }

  lemma Appended(a: Bytes, b: Bytes, r: nat, w: nat, x: Bytes)
    requires r < |a| && w < |a| == |b| && |x| <= |a| - 1 - |Content(a, r, w)| && Put(a, b, w, x)
    ensures Content(b, r, Wrap(|a|, w + |x|)) == Content(a, r, w) + x
  {
    var was, now := Content(a, r, w), Content(b, r, Wrap(|a|, w + |x|));
    ContentAt(a, r, w);
    ContentAt(b, r, Wrap(|a|, w + |x|));
    hide Content;
    assert |now| == |was| + |x|;
    forall i | 0 <= i < |now| ensures now[i] == (was + x)[i] {
      if i < |was| {
        assert !Written(|a|, w, |x|, Wrap(|a|, r + i));
      } else {
        var k := i - |was|;
        assert Wrap(|a|, r + i) == Wrap(|a|, w + k);
      }
    }
  }

  // A memcpy of x to index at.
  ghost predicate Copied(a: Bytes, b: Bytes, at: nat, x: Bytes) {
    && |a| == |b| && at + |x| <= |a|
    && forall p :: 0 <= p < |a| ==> b[p] == if at <= p < at + |x| then x[p - at] else a[p]
  }

  lemma OneCopy(a: Bytes, b: Bytes, w: nat, x: Bytes)
    requires w < |a| && w + |x| < |a| && Copied(a, b, w, x)
    ensures Put(a, b, w, x)
  {
  }

  // Up to the end of the buffer, and on from its start.
  lemma TwoCopies(a: Bytes, m: Bytes, b: Bytes, w: nat, x: Bytes)
    requires w < |a| && |x| < |a| <= w + |x| && Copied(a, m, w, x[..|a| - w]) && Copied(m, b, 0, x[|a| - w..])
    ensures Put(a, b, w, x)
  {
    forall i | 0 <= i < |x| ensures b[Wrap(|a|, w + i)] == x[i] {
      var p := Wrap(|a|, w + i);
      assert m[p] == if w <= p then x[p - w] else a[p];
    }
  }

  lemma Consumed(buf: Bytes, r: nat, w: nat, k: nat)
    requires r < |buf| && w < |buf| && k <= |Content(buf, r, w)|
    ensures Content(buf, Wrap(|buf|, r + k), w) == Content(buf, r, w)[k..]
    ensures Content(buf, r, w)[..k] == if r + k < |buf| then buf[r..r + k] else buf[r..] + buf[..r + k - |buf|]
  {
  }

  class RingBuffer {
    const buffer: array<Byte>
    const size: nat
    var ridx: nat
    var widx: nat

    // Everything ever accepted, and everything ever delivered.
    ghost var accepted: Bytes
    ghost var delivered: Bytes

    ghost predicate Shaped()
      reads this
    {
      1 <= size == buffer.Length && ridx < size && widx < size
    }

    // The bytes written and not yet read, oldest first.
    ghost function Stored(): Bytes
      requires Shaped()
      reads this, buffer
    {
      Content(buffer[..], ridx, widx)
    }

    // First in, first out.
    ghost predicate Valid()
      reads this, buffer
    {
      Shaped() && accepted == delivered + Stored() && |Stored()| <= size - 1
    }

    // ringbuffer_alloc
    constructor (s: nat)
      requires 1 <= s
      ensures Valid() && Stored() == [] && accepted == [] && size == s && fresh(buffer)
    {
      buffer := new Byte[s](_ => 0);
      size, ridx, widx, accepted, delivered := s, 0, 0, [], [];
    }

    method Avail() returns (n: nat)
      requires Shaped()
      ensures n == size - 1 - |Stored()|
    {
      if ridx == widx {
        return size - 1;
      }
      if ridx > widx {
        return ridx - widx - 1;
      } else {
        return (size - widx) + ridx - 1;
      }
    }

    method Readable() returns (n: nat)
      requires Shaped()
      ensures n == |Stored()|
    {
      if ridx == widx {
        return 0;
      }
      if ridx > widx {
        return (size - ridx) + widx;
      } else {
        return widx - ridx;
      }
    }

    // memcpy into the buffer
    method Copy(at: nat, bytes: Bytes)
      requires at + |bytes| <= buffer.Length
      modifies buffer
      ensures Copied(old(buffer[..]), buffer[..], at, bytes)
    {
      forall i | 0 <= i < |bytes| {
        buffer[at + i] := bytes[i];
      }
    }

    // ringbuffer_write: as much as fits.
    method Write(bytes: Bytes) returns (written: nat)
      requires Valid()
      modifies this`widx, this`accepted, buffer
      ensures Valid() && ridx == old(ridx)
      ensures written == if |bytes| <= size - 1 - |old(Stored())| then |bytes| else size - 1 - |old(Stored())|
      ensures Stored() == old(Stored()) + bytes[..written] && accepted == old(accepted) + bytes[..written]
    {
      hide Content;
      written := |bytes|;
      var avail := Avail();
      if avail < written {
        written := avail;
      }
      Fill(bytes[..written]);
      accepted := accepted + bytes[..written];
    }

    // Its one or two memcpys.
    method Fill(bytes: Bytes)
      requires Shaped() && |bytes| <= size - 1 - |Stored()|
      modifies this`widx, buffer
      ensures Shaped() && Stored() == old(Stored()) + bytes
    {
      hide Content, Copied, Put;
      ghost var was, w := buffer[..], widx;
      var from := 0;
      var toWrite := |bytes|;
      if widx + |bytes| >= size {
        var writeToEnd := size - widx;
        if writeToEnd != 0 {
          Copy(widx, bytes[..writeToEnd]);
          from := writeToEnd;
          toWrite := toWrite - writeToEnd;
        }
        widx := 0;
      }
      ghost var mid := buffer[..];
      assert bytes[from..from + toWrite] == bytes[from..];
      Copy(widx, bytes[from..from + toWrite]);
      widx := widx + toWrite;
      if w + |bytes| >= size {
        TwoCopies(was, mid, buffer[..], w, bytes);
      } else {
        OneCopy(was, buffer[..], w, bytes);
      }
      Appended(was, buffer[..], ridx, w, bytes);
    }

    // ringbuffer_read: as much as there is.
    method Read(n: nat) returns (bytes: Bytes)
      requires Valid()
      modifies this`ridx, this`delivered
      ensures Valid() && widx == old(widx)
      ensures var k := if n <= |old(Stored())| then n else |old(Stored())|;
        bytes == old(Stored())[..k] && Stored() == old(Stored())[k..]
      ensures delivered == old(delivered) + bytes
    {
      hide Content;
      var toRead := n;
      var readable := Readable();
      if readable < toRead {
        toRead := readable;
      }
      ghost var stored := Stored();
      assert stored == stored[..toRead] + stored[toRead..];
      bytes := Take(toRead);
      delivered := delivered + bytes;
    }

    // Its one or two memcpys.
    method Take(n: nat) returns (bytes: Bytes)
      requires Shaped() && n <= |Stored()|
      modifies this`ridx
      ensures Shaped() && bytes == old(Stored())[..n] && Stored() == old(Stored())[n..]
    {
      hide Content;
      var toRead := n;
      bytes := [];
      ghost var all := buffer[..];
      Consumed(all, ridx, widx, n);
      if ridx + toRead >= size {
        var readToEnd := size - ridx;
        if readToEnd != 0 {
          bytes := buffer[ridx..ridx + readToEnd];
          assert bytes == all[ridx..];
          toRead := toRead - readToEnd;
        }
        ridx := 0;
      }
      bytes := bytes + buffer[ridx..ridx + toRead];
      assert buffer[ridx..ridx + toRead] == all[ridx..ridx + toRead];
      ridx := ridx + toRead;
    }
  }
}
