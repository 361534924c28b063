/** libc's FILE: a read buffer with one pushed-back character, a line-buffered write buffer. */
module Stdio {
  import opened ByteStrings

  const EOF := -1
  const NEWLINE: Byte := '\n' as int
  const INT_LIMIT := 0x8000_0000
  const SIZE_LIMIT := 0x1_0000_0000_0000_0000

  // (int) n, for a size_t n
  function ToInt(n: nat): (r: int)
    ensures -INT_LIMIT <= r < INT_LIMIT && (n < INT_LIMIT ==> r == n)
  {
    (n + INT_LIMIT) % (2 * INT_LIMIT) - INT_LIMIT
  }

  // What fread and fwrite make of the bytes moved for one item.
  datatype Verdict = Failed | Short | Whole

  function Judged(size: nat, moved: nat): Verdict {
    if ToInt(moved) < 0 then Failed else if ToInt(moved) < ToInt(size) then Short else Whole
  }

  // The judgement is right for every number of bytes moved exactly for sizes below 2 GiB.
  lemma JudgedRightly(size: nat)
    ensures (forall n :: 0 <= n <= size ==> Judged(size, n) == if n < size then Short else Whole) <==> size < INT_LIMIT
  {
    if size >= INT_LIMIT {
      var n := if ToInt(size) < 0 then size else ToInt(size);
      assert 0 <= n <= size && Judged(size, n) != if n < size then Short else Whole;
    }
  }

  // Five bytes left of an item of 2 GiB count as the item.
  lemma ShortCountsAsWhole()
    ensures Judged(0x8000_0000, 5) == Whole && Judged(0x8000_0000, 0x8000_0000) == Failed
  {
  }

  function Min(a: nat, b: nat): nat {
    if a < b then a else b
  }

  // What lies behind a file descriptor: the bytes still to come, the bytes written so far.
  class Device {
    var input: Bytes
    var output: Bytes
    const prompt: bool  // never fails, and has something to give as long as input is left

    // How often a read that asked for something got nothing, and how often of those not by an error.
    ghost var dry: nat
    ghost var ends: nat

    constructor (bytes: Bytes, good: bool)
      ensures input == bytes && output == [] && prompt == good
    {
      input, output, prompt := bytes, [], good;
    }

    // read(2): an error, or any number of bytes up to n, none at all included.
    method Read(n: nat) returns (r: int, bytes: Bytes)
      modifies this`input, this`dry, this`ends
      ensures r < 0 ==> bytes == [] && input == old(input)
      ensures r >= 0 ==> r == |bytes| <= n && old(input) == bytes + input
      ensures prompt && n > 0 ==> r >= 0 && (old(input) != [] ==> r > 0)
      ensures dry == old(dry) + (if n > 0 && r <= 0 then 1 else 0)
      ensures ends == old(ends) + (if n > 0 && r == 0 then 1 else 0)
    {
      if prompt {
        r :| 0 <= r <= n && r <= |input| && (n > 0 && input != [] ==> r > 0);
      } else {
        r :| -1 <= r <= n && r <= |input|;
      }
      dry := dry + (if n > 0 && r <= 0 then 1 else 0);
      ends := ends + (if n > 0 && r == 0 then 1 else 0);
      if r < 0 {
        return r, [];
      }
      bytes, input := input[..r], input[r..];
    }

    method Write(bytes: Bytes)
      modifies this`output
      ensures output == old(output) + bytes
    {
      output := output + bytes;
    }
  }

  class File {
    const device: Device
    const readBuf: array<Byte>
    const writeBuf: array<Byte>
    const writable: bool  // whether write_buf is not null
    const bufsiz: nat
    const wbufsiz: nat
    var available: nat
    var offset: nat
    var readFrom: nat
    var pushed: int  // the field ungetc
    var eof: bool
    var written: nat

    ghost predicate Shaped()
      reads this
    {
      && 1 <= bufsiz == readBuf.Length && readBuf != writeBuf
      && 1 <= wbufsiz <= writeBuf.Length && written < wbufsiz
      && offset <= bufsiz && (available > 0 ==> readFrom + available == offset)
    }

    // Line buffering: no newline stays behind.
    ghost predicate Valid()
      reads this, writeBuf
    {
      Shaped() && NEWLINE !in writeBuf[..written]
    }

    constructor (fd: Device, toWrite: bool, size: nat)
      requires size >= 1
      ensures Valid() && device == fd && writable == toWrite && pushed == EOF && !eof
      ensures available == 0 && written == 0 && bufsiz == wbufsiz == size && fresh(readBuf) && fresh(writeBuf)
    {
      device, writable, bufsiz, wbufsiz := fd, toWrite, size, size;
      readBuf, writeBuf := new Byte[size](_ => 0), new Byte[size](_ => 0);
      available, offset, readFrom, pushed, eof, written := 0, 0, 0, EOF, false, 0;
    }

    // ---- Reading ----

    ghost function Pushback(): Bytes
      reads this
    {
      if pushed >= 0 then [pushed % 256] else []
    }

    // All that reads are still to deliver.
    ghost function Ahead(): Bytes
      requires Shaped()
      reads this, device, readBuf
    {
      Pushback() + (if available > 0 then readBuf[readFrom..offset] else []) + device.input
    }

    // The refill of an empty buffer; false on a read error.
    method Refill() returns (ok: bool)
      requires Valid() && available == 0 && pushed < 0
      modifies this`offset, this`readFrom, this`available, device`input, device`dry, device`ends, readBuf
      ensures Valid() && Ahead() == old(Ahead()) && (available > 0 ==> readFrom < offset)
      ensures !ok ==> available == 0 && !device.prompt
      ensures available == 0 ==> device.dry > old(device.dry) && (device.prompt ==> device.input == [])
      ensures available > 0 ==> device.dry == old(device.dry)
      ensures device.ends == old(device.ends) + (if available == 0 && ok then 1 else 0)
      ensures device.dry >= old(device.dry)
    {
      assert Ahead() == device.input;
      if offset == bufsiz {
        offset := 0;
      }
      var r, bytes := device.Read(bufsiz - offset);
      if r < 0 {
        return false;
      }
      var from := offset;
      Fill(from, bytes);
      readFrom := offset;
      available := r;
      offset := offset + available;
      assert Ahead() == bytes + device.input;
      ok := true;
    }

    method Fill(at: nat, bytes: Bytes)
      requires at + |bytes| <= readBuf.Length
      modifies readBuf
      ensures readBuf[at..at + |bytes|] == bytes
    {
      forall i | 0 <= i < |bytes| {
        readBuf[at + i] := bytes[i];
      }
    }

    // _read_bytes. Fewer bytes than asked for only at end of file or on an error.
    method ReadBytes(len: nat) returns (out: Bytes)
      requires Valid()
      modifies this`offset, this`readFrom, this`available, this`pushed, this`eof, readBuf
      modifies device`input, device`dry, device`ends
      ensures Valid() && |out| <= len && old(Ahead()) == out + Ahead()
      ensures |out| < len ==> available == 0 && pushed < 0 && device.dry > old(device.dry)
      ensures |out| == len ==> device.dry == old(device.dry)
      ensures eof == (old(eof) || device.ends > old(device.ends))
      ensures device.dry >= old(device.dry) && device.ends >= old(device.ends)
      ensures device.prompt ==> |out| == Min(len, old(|Ahead()|))
    {
      out := [];
      ghost var all := Ahead();
      while |out| < len
        invariant Valid() && |out| <= len && all == out + Ahead()
        invariant eof == (old(eof) || device.ends > old(device.ends))
        invariant device.dry == old(device.dry) && device.ends >= old(device.ends)
        decreases len - |out|
      {
        ghost var was := Ahead();
        var more := ReadSome(len - |out|);
        MovedOver(all, out, was, more, Ahead());
        out := out + more;
        if more == [] {
          return;
        }
      }
    }

    // One iteration: the pushed-back character, or what the buffer has after a refill.
    method ReadSome(len: nat) returns (more: Bytes)
      requires Valid() && len > 0
      modifies this`offset, this`readFrom, this`available, this`pushed, this`eof, readBuf
      modifies device`input, device`dry, device`ends
      ensures Valid() && |more| <= len && old(Ahead()) == more + Ahead()
      ensures more == [] ==> available == 0 && pushed < 0 && device.dry > old(device.dry)
      ensures more != [] ==> device.dry == old(device.dry)
      ensures more == [] && device.prompt ==> Ahead() == []
      ensures eof == (old(eof) || device.ends > old(device.ends))
      ensures device.dry >= old(device.dry) && device.ends >= old(device.ends)
    {
      if pushed >= 0 {
        more := [pushed % 256];
        pushed := -1;
        return;
      }
      if available == 0 {
        var ok := Refill();
        if !ok {
          return [];
        }
      }
      if available == 0 {
        eof := true;
        return [];
      }
      more := TakeBuffered(len);
    }

    method TakeBuffered(len: nat) returns (out: Bytes)
      requires Valid() && pushed < 0 && len > 0 && available > 0
      modifies this`readFrom, this`available
      ensures Valid() && 0 < |out| <= len && old(Ahead()) == out + Ahead()
    {
      out := CopyBuffered(len);
      Regrouped(out, readBuf[readFrom..offset], device.input);
    }

    // The inner loop: byte by byte out of the buffer.
    method CopyBuffered(len: nat) returns (out: Bytes)
      requires Shaped() && len > 0 && available > 0
      modifies this`readFrom, this`available
      ensures Shaped() && 0 < |out| <= len && readFrom + available == offset
      ensures old(readBuf[readFrom..offset]) == out + readBuf[readFrom..offset]
    {
      out := [];
      ghost var buffered := readBuf[readFrom..offset];
      while readFrom < offset && |out| < len && available > 0
        invariant Shaped() && |out| <= len && readFrom + available == offset && readFrom == old(readFrom) + |out|
        invariant buffered == out + readBuf[readFrom..offset]
        decreases available
      {
        assert readBuf[readFrom..offset] == [readBuf[readFrom]] + readBuf[readFrom + 1..offset];
        Regrouped(out, [readBuf[readFrom]], readBuf[readFrom + 1..offset]);
        out := out + [readBuf[readFrom]];
        readFrom := readFrom + 1;
        available := available - 1;
      }
    }

    // fread: whole items, and the bytes of a last, partial one. moved lists the bytes read for
    // each item tried. The counts are converted to int, and only below 2 GiB are they right.
    method Fread(size: nat, nmemb: nat) returns (items: nat, out: Bytes, ghost moved: seq<nat>)
      requires Valid() && size < SIZE_LIMIT
      modifies this`offset, this`readFrom, this`available, this`pushed, this`eof, readBuf
      modifies device`input, device`dry, device`ends
      ensures Valid() && old(Ahead()) == out + Ahead()
      ensures Tried(size, nmemb, moved) && |out| == Sum(moved) && items == Answer(size, nmemb, moved)
      ensures FellShort(size, moved) ==> available == 0 && pushed < 0 && device.dry > old(device.dry)
      ensures eof == (old(eof) || device.ends > old(device.ends))
      ensures device.dry >= old(device.dry) && device.ends >= old(device.ends)
      ensures device.prompt && FellShort(size, moved) ==> Ahead() == []
      ensures size < INT_LIMIT ==> items <= nmemb && items * size <= |out|
      ensures size < INT_LIMIT && items < nmemb ==>
        |out| < items * size + size && available == 0 && pushed < 0 && device.dry > old(device.dry)
      ensures size < INT_LIMIT && items == nmemb ==> |out| == nmemb * size && device.dry == old(device.dry)
      ensures size < INT_LIMIT && device.prompt ==> |out| == Min(nmemb * size, old(|Ahead()|))
    {
      hide Tried, Sum, Answer, ToInt;
      items, out, moved := ReadItems(size, nmemb);
      if size < INT_LIMIT {
        CountedItems(size, nmemb, moved);
        AllOrWhatIsLeft(size, nmemb, items, |out|);
      }
    }

    method ReadItems(size: nat, nmemb: nat) returns (items: nat, out: Bytes, ghost moved: seq<nat>)
      requires Valid() && size < SIZE_LIMIT
      modifies this`offset, this`readFrom, this`available, this`pushed, this`eof, readBuf
      modifies device`input, device`dry, device`ends
      ensures Valid() && old(Ahead()) == out + Ahead()
      ensures Tried(size, nmemb, moved) && |out| == Sum(moved) && items == Answer(size, nmemb, moved)
      ensures FellShort(size, moved) ==> available == 0 && pushed < 0 && device.dry > old(device.dry)
      ensures eof == (old(eof) || device.ends > old(device.ends))
      ensures device.dry >= old(device.dry) && device.ends >= old(device.ends)
      ensures device.prompt && FellShort(size, moved) ==> Ahead() == []
      ensures size < INT_LIMIT && device.dry > old(device.dry) ==> FellShort(size, moved)
    {
      hide ToInt, Sum, Tried, AllWhole, Answer, FellShort;
      out, moved := [], [];
      NoneTried(size);
      var i := 0;
      while i < nmemb
        invariant Valid() && old(Ahead()) == out + Ahead()
        invariant i <= nmemb && i == |moved| && |out| == Sum(moved)
        invariant AllWhole(size, moved)
        invariant FellShort(size, moved) ==>
          available == 0 && pushed < 0 && device.dry > old(device.dry)
        invariant eof == (old(eof) || device.ends > old(device.ends))
        invariant device.dry >= old(device.dry) && device.ends >= old(device.ends)
        invariant device.prompt && FellShort(size, moved) ==> Ahead() == []
        invariant size < INT_LIMIT ==> device.dry == old(device.dry)
      {
        ghost var was := Ahead();
        var p := ReadBytes(size);
        MovedOver(old(Ahead()), out, was, p, Ahead());
        out := out + p;
        OneTried(size, nmemb, moved, |p|);
        moved := moved + [|p|];
        var r := ToInt(|p|);
        if r < 0 {
          return SIZE_LIMIT - 1, out, moved;
        }
        if r < ToInt(size) {
          return i, out, moved;
        }
        i := i + 1;
      }
      AllTried(size, nmemb, moved);
      items := nmemb;
    }

    method Fgetc() returns (c: int)
      requires Valid()
      modifies this`offset, this`readFrom, this`available, this`pushed, this`eof, readBuf
      modifies device`input, device`dry, device`ends
      ensures Valid()
      ensures c >= 0 ==> old(Ahead()) == [c] + Ahead()
      ensures c < 0 ==> c == EOF && eof && Ahead() == old(Ahead()) && device.dry > old(device.dry)
      ensures c >= 0 ==> device.dry == old(device.dry) && eof == (old(eof) || device.ends > old(device.ends))
      ensures device.prompt ==> (c < 0 <==> old(Ahead()) == [])
    {
      hide Tried, Sum, Answer, FellShort, ToInt;
      var r, bytes, _ := Fread(1, 1);
      if r <= 0 {
        eof := true;
        return EOF;
      }
      return bytes[0];
    }

    // ungetc. Only a pushed-back character above zero counts as one: pushing onto a pushed-back
    // NUL succeeds, and the NUL is lost.
    method Ungetc(c: int) returns (r: int)
      requires Valid() && EOF <= c < 256
      modifies this`pushed
      ensures Valid() && r == (if old(pushed) > 0 then EOF else c)
      ensures pushed == if old(pushed) > 0 then old(pushed) else c
      ensures old(pushed) > 0 ==> Ahead() == old(Ahead())
      ensures old(pushed) <= 0 && c >= 0 ==> (Ahead() == [c] + old(Ahead()) <==> old(pushed) != 0)
      ensures old(pushed) == 0 && c >= 0 ==> Ahead() == [c] + old(Ahead())[1..]
      ensures old(pushed) <= 0 && c == EOF ==> (Ahead() == old(Ahead()) <==> old(pushed) != 0)
      ensures old(pushed) == 0 && c == EOF ==> Ahead() == old(Ahead())[1..]
    {
      if pushed > 0 {
        return EOF;
      }
      ghost var before := Pushback();
      ghost var rest := Push(c);
      PushedInFront(before, Pushback(), rest);
      return c;
    }

    method Push(c: int) returns (ghost rest: Bytes)
      requires Valid()
      modifies this`pushed
      ensures Valid() && pushed == c && Ahead() == Pushback() + rest && old(Ahead()) == old(Pushback()) + rest
    {
      rest := (if available > 0 then readBuf[readFrom..offset] else []) + device.input;
      assert Ahead() == Pushback() + rest;
      pushed := c;
      assert Ahead() == Pushback() + rest;
    }

    // ---- Writing ----

    ghost function Pending(): Bytes
      requires Shaped()
      reads this, writeBuf
    {
      writeBuf[..written]
    }

    method Fflush() returns (r: int)
      requires written <= writeBuf.Length
      modifies this`written, device`output
      ensures r == if writable then 0 else EOF
      ensures writable ==> written == 0 && device.output == old(device.output + writeBuf[..written])
      ensures !writable ==> written == old(written) && device.output == old(device.output)
    {
      if !writable {
        return EOF;
      }
      if written != 0 {
        device.Write(writeBuf[..written]);
        written := 0;
      }
      return 0;
    }

    // _write_bytes
    method WriteBytes(buf: Bytes) returns (r: nat)
      requires Valid()
      modifies this`written, writeBuf, device`output
      ensures Valid() && r == if writable then |buf| else 0
      ensures device.output + Pending() == old(device.output + Pending()) + buf[..r]
    {
      if !writable {
        return 0;
      }
      r := 0;
      while r < |buf|
        invariant r <= |buf| && Valid()
        invariant device.output + Pending() == old(device.output + Pending()) + buf[..r]
      {
        ghost var before := device.output + Pending();
        writeBuf[written] := buf[r];
        written := written + 1;
        assert device.output + writeBuf[..written] == before + [buf[r]];
        if written == wbufsiz || buf[r] == NEWLINE {
          var _ := Fflush();
        }
        assert buf[..r + 1] == buf[..r] + [buf[r]];
        r := r + 1;
      }
    }

    // fwrite. The pointer into the items moves on by the converted count.
    method Fwrite(bytes: Bytes, size: nat, nmemb: nat) returns (items: nat)
      requires Valid() && |bytes| == size * nmemb && size < SIZE_LIMIT
      modifies this`written, writeBuf, device`output
      ensures Valid() && items == WriteAnswer(writable, size, nmemb)
      ensures device.output + Pending() ==
        old(device.output + Pending()) + (if writable then Sent(bytes, size, nmemb) else [])
    {
      hide ToInt, Slices;
      SlicesNone(bytes, size);
      ghost var all := device.output + Pending();
      var moved := if writable then size else 0;
      var i := 0;
      var p := 0;
      while i < nmemb
        invariant i <= nmemb && Valid() && (i > 0 ==> Judged(size, moved) == Whole)
        invariant p == (if writable then i * ToInt(size) else 0)
        invariant device.output + Pending() == all + (if writable then Slices(bytes, size, i) else [])
      {
        ItemFits(if writable then i else 0, nmemb, size);
        var r := WriteItem(bytes[p..p + size]);
        if writable {
          SlicesStep(bytes, size, i);
          assert all + Slices(bytes, size, i) + bytes[p..p + size] == all + Slices(bytes, size, i + 1);
        }
        if ToInt(r) < 0 {
          return SIZE_LIMIT - 1;
        }
        p := p + ToInt(r);
        if ToInt(r) < ToInt(size) {
          return i;
        }
        i := i + 1;
      }
      return nmemb;
    }

    method WriteItem(item: Bytes) returns (r: nat)
      requires Valid()
      modifies this`written, writeBuf, device`output
      ensures Valid() && r == if writable then |item| else 0
      ensures device.output + Pending() == old(device.output + Pending()) + (if writable then item else [])
    {
      r := WriteBytes(item);
      assert item[..|item|] == item && item[..0] == [];
    }
  }

  lemma Regrouped(a: Bytes, b: Bytes, c: Bytes)
    ensures (a + b) + c == a + (b + c)
  {
  }

  lemma MovedOver(all: Bytes, out: Bytes, was: Bytes, more: Bytes, rest: Bytes)
    requires all == out + was && was == more + rest
    ensures all == (out + more) + rest && |all| == |out| + |more| + |rest|
  {
  }

  // Every item but the last one tried was judged whole; the loop ends early after any other.
  ghost predicate Tried(size: nat, nmemb: nat, moved: seq<nat>) {
    && |moved| <= nmemb && (forall k :: 0 <= k < |moved| ==> moved[k] <= size)
    && (forall k :: 0 <= k < |moved| - 1 ==> Judged(size, moved[k]) == Whole)
    && (|moved| < nmemb ==> moved != [] && Judged(size, moved[|moved| - 1]) != Whole)
  }

  // The last item tried got fewer bytes than asked for.
  ghost predicate FellShort(size: nat, moved: seq<nat>) {
    moved != [] && moved[|moved| - 1] < size
  }

  lemma AllOrWhatIsLeft(size: nat, nmemb: nat, items: nat, n: nat)
    requires items <= nmemb && (items == nmemb ==> n == nmemb * size) && (items < nmemb ==> n < items * size + size)
    ensures n <= nmemb * size
  {
    if items < nmemb {
      assert (items + 1) * size <= nmemb * size;
    }
  }

  lemma CountedItems(size: nat, nmemb: nat, moved: seq<nat>)
    requires size < INT_LIMIT && Tried(size, nmemb, moved)
    ensures var items := Answer(size, nmemb, moved);
      && items <= nmemb && items * size <= Sum(moved)
      && (items == nmemb ==> Sum(moved) == nmemb * size && (moved == [] || moved[|moved| - 1] == size))
      && (items < nmemb ==> Sum(moved) < items * size + size && FellShort(size, moved))
  {
    SmallJudged(size);
    if moved != [] {
      var n := |moved| - 1;
      WholeSum(size, moved[..n]);
      assert (n + 1) * size == n * size + size;
    }
  }

  lemma {:induction false} WholeSum(size: nat, moved: seq<nat>)
    requires forall k :: 0 <= k < |moved| ==> moved[k] == size
    ensures Sum(moved) == |moved| * size
    decreases |moved|
  {
    if moved != [] {
      WholeSum(size, moved[..|moved| - 1]);
      assert |moved| * size == (|moved| - 1) * size + size;
    }
  }

  lemma SmallJudged(size: nat)
    ensures size < INT_LIMIT ==> forall n :: 0 <= n <= size ==> Judged(size, n) == if n < size then Short else Whole
  {
  }

  ghost predicate AllWhole(size: nat, moved: seq<nat>) {
    forall k :: 0 <= k < |moved| ==> moved[k] <= size && Judged(size, moved[k]) == Whole
  }

  lemma NoneTried(size: nat)
    ensures Sum([]) == 0 && AllWhole(size, []) && !FellShort(size, [])
  {
  }

  lemma AllTried(size: nat, nmemb: nat, moved: seq<nat>)
    requires AllWhole(size, moved) && |moved| == nmemb
    ensures Tried(size, nmemb, moved) && Answer(size, nmemb, moved) == nmemb
  {
  }

  lemma OneTried(size: nat, nmemb: nat, moved: seq<nat>, n: nat)
    requires AllWhole(size, moved) && |moved| < nmemb && n <= size
    ensures Sum(moved + [n]) == Sum(moved) + n && (FellShort(size, moved + [n]) <==> n < size)
    ensures ToInt(n) >= 0 && ToInt(n) >= ToInt(size) ==> AllWhole(size, moved + [n])
    ensures ToInt(n) < 0 ==> Tried(size, nmemb, moved + [n]) && Answer(size, nmemb, moved + [n]) == SIZE_LIMIT - 1
    ensures 0 <= ToInt(n) < ToInt(size) ==>
      Tried(size, nmemb, moved + [n]) && Answer(size, nmemb, moved + [n]) == |moved|
  {
    hide ToInt, Sum, Judged;
    SumStep(moved, n);
    JudgedAs(size, n);
    var more := moved + [n];
    assert more[|moved|] == n;
    forall k | 0 <= k < |moved| ensures more[k] <= size && Judged(size, more[k]) == Whole {
      assert more[k] == moved[k];
    }
  }

  lemma JudgedAs(size: nat, n: nat)
    ensures Judged(size, n) == if ToInt(n) < 0 then Failed else if ToInt(n) < ToInt(size) then Short else Whole
  {
  }

  // New bytes in the place of old ones: only where there were none nothing is lost.
  lemma PushedInFront(before: Bytes, after: Bytes, rest: Bytes)
    requires |before| <= 1
    ensures after + rest == after + (before + rest) <==> before == []
    ensures before != [] ==> (before + rest)[1..] == rest
  {
    assert |after + (before + rest)| == |after + rest| + |before|;
  }

  // A NUL pushed back, then a letter: both calls succeed, and reads deliver the letter alone.
  method NulLost(f: File) returns (first: int, second: int)
    requires f.Valid() && f.pushed < 0
    modifies f`pushed
    ensures f.Valid() && first == 0 && second == 'A' as int
    ensures f.Ahead() == ['A' as int] + old(f.Ahead()) && f.Ahead() != ['A' as int, 0] + old(f.Ahead())
  {
    ghost var was := f.Ahead();
    first := f.Ungetc(0);
    assert f.Ahead()[1..] == was;
    second := f.Ungetc('A' as int);
    ghost var both: Bytes := ['A' as int, 0];
    assert |f.Ahead()| == |was| + 1 && |both + was| == |was| + 2;
  }

  function Sum(s: seq<nat>): nat {
    if s == [] then 0 else Sum(s[..|s| - 1]) + s[|s| - 1]
  }

  lemma SumStep(s: seq<nat>, n: nat)
    ensures Sum(s + [n]) == Sum(s) + n
  {
    assert (s + [n])[..|s|] == s;
  }

  // What fread returns: nmemb if all items were judged whole.
  function Answer(size: nat, nmemb: nat, moved: seq<nat>): nat {
    if moved == [] then nmemb
    else match Judged(size, moved[|moved| - 1])
         case Failed => SIZE_LIMIT - 1
         case Short => |moved| - 1
         case Whole => nmemb
  }
  // What fwrite returns. Without a write buffer no byte of an item is taken.
  function WriteAnswer(writable: bool, size: nat, nmemb: nat): nat {
    if nmemb == 0 then 0
    else match Judged(size, if writable then size else 0)
         case Failed => SIZE_LIMIT - 1
         case Short => 0
         case Whole => nmemb
  }

  // What both return, read off the low 32 bits of the size and of the last number of bytes moved.
  lemma AnswerMeans(size: nat, nmemb: nat, moved: seq<nat>)
    ensures moved == [] ==> Answer(size, nmemb, moved) == nmemb
    ensures moved != [] ==> var low := moved[|moved| - 1] % 0x1_0000_0000;
      Answer(size, nmemb, moved) ==
      if low >= 0x8000_0000 then 0xFFFF_FFFF_FFFF_FFFF
      else if low < size % 0x1_0000_0000 < 0x8000_0000 then |moved| - 1 else nmemb
    ensures WriteAnswer(true, size, nmemb) ==
      if nmemb != 0 && size % 0x1_0000_0000 >= 0x8000_0000 then 0xFFFF_FFFF_FFFF_FFFF else nmemb
    ensures WriteAnswer(false, size, nmemb) == if 0 < size % 0x1_0000_0000 < 0x8000_0000 then 0 else nmemb
  {
    hide ToInt;
    LowBits(size);
    LowBits(0);
    if moved != [] {
      LowBits(moved[|moved| - 1]);
    }
  }

  // The count is right exactly for these sizes.
  lemma CountedRightly(writable: bool, size: nat, nmemb: nat)
    requires nmemb < SIZE_LIMIT - 1
    ensures WriteAnswer(writable, size, nmemb) == (if writable || size == 0 then nmemb else 0) <==>
      nmemb == 0 || (if writable then ToInt(size) >= 0 else size == 0 || ToInt(size) > 0)
  {
  }

  // The k-th item, where the pointer is after k steps.
  function Item(bytes: Bytes, size: nat, k: nat): Bytes {
    var p := k * ToInt(size);
    if 0 <= p && p + size <= |bytes| then bytes[p..p + size] else []
  }

  function Slices(bytes: Bytes, size: nat, n: nat): Bytes {
    if n == 0 then [] else Slices(bytes, size, n - 1) + Item(bytes, size, n - 1)
  }

  lemma SlicesNone(bytes: Bytes, size: nat)
    ensures Slices(bytes, size, 0) == []
  {
  }

  lemma SlicesStep(bytes: Bytes, size: nat, n: nat)
    requires 0 <= n * ToInt(size) && n * ToInt(size) + size <= |bytes|
    ensures Slices(bytes, size, n + 1) == Slices(bytes, size, n) + bytes[n * ToInt(size)..n * ToInt(size) + size]
  {
  }

  // The bytes that reach the stream: after a failed judgement nothing follows the first item.
  function Sent(bytes: Bytes, size: nat, nmemb: nat): Bytes {
    Slices(bytes, size, if ToInt(size) < 0 && nmemb > 0 then 1 else nmemb)
  }

  lemma ItemFits(i: nat, n: nat, size: nat)
    requires i < n && (i == 0 || ToInt(size) >= 0)
    ensures 0 <= i * ToInt(size) && i * ToInt(size) + size <= size * n
    ensures (i + 1) * ToInt(size) == i * ToInt(size) + ToInt(size)
  {
    AtMost(size);
    hide ToInt;
    StepFits(i, n, size, ToInt(size));
  }

  lemma AtMost(size: nat)
    ensures ToInt(size) <= size
  {
  }

  lemma StepFits(i: nat, n: nat, size: nat, t: int)
    requires i < n && (i == 0 || 0 <= t <= size)
    ensures 0 <= i * t && i * t + size <= size * n && (i + 1) * t == i * t + t
  {
    Within(i, n, size);
    if i > 0 {
      assert i * t <= i * size;
    }
  }

  lemma Within(i: nat, n: nat, size: nat)
    requires i < n
    ensures i * size + size <= size * n
  {
    assert (i + 1) * size <= n * size;
  }

  lemma {:induction false} SlicesInOrder(bytes: Bytes, size: nat, n: nat, k: nat)
    requires size < INT_LIMIT && |bytes| == size * n && k <= n
    ensures size * k <= |bytes| && Slices(bytes, size, k) == bytes[..size * k]
    decreases k
  {
    if k > 0 {
      SlicesInOrder(bytes, size, n, k - 1);
      ItemFits(k - 1, n, size);
      assert (k - 1) * size == size * (k - 1) && size * k == size * (k - 1) + size;
      assert bytes[..size * k] == bytes[..size * (k - 1)] + bytes[size * (k - 1)..size * k];
    }
  }

  lemma {:induction false} SlicesGrow(bytes: Bytes, size: nat, n: nat)
    requires n >= 2
    ensures Slices(bytes, size, 2) <= Slices(bytes, size, n)
    decreases n
  {
    if n > 2 {
      SlicesGrow(bytes, size, n - 1);
    }
  }

  // What arrives: items of size bytes each, taken from places that lie as far apart as the low 32
  // bits of the size say, and the first item alone where these bits mean a negative number.
  lemma SentMeans(bytes: Bytes, size: nat, nmemb: nat, k: nat, j: nat)
    requires |bytes| == size * nmemb && j < size
    requires k < nmemb && (k == 0 || size % 0x1_0000_0000 < 0x8000_0000)
    ensures var low, sent := size % 0x1_0000_0000, Sent(bytes, size, nmemb);
      && |sent| == (if low < 0x8000_0000 then nmemb else 1) * size
      && 0 <= k * size + j < |sent| && 0 <= k * low + j < |bytes|
      && sent[k * size + j] == bytes[k * low + j]
  {
    LowBits(size);
    hide ToInt, Slices;
    var low := size % 0x1_0000_0000;
    if low < 0x8000_0000 {
      SliceAt(bytes, size, nmemb, nmemb, k, j);
    } else {
      SliceAt(bytes, size, nmemb, 1, 0, j);
    }
  }

  lemma LowBits(n: nat)
    ensures ToInt(n) == var low := n % 0x1_0000_0000; if low < 0x8000_0000 then low else low - 0x1_0000_0000
  {
  }

  lemma {:induction false} SliceAt(bytes: Bytes, size: nat, nmemb: nat, n: nat, k: nat, j: nat)
    requires |bytes| == size * nmemb && n <= nmemb && (n <= 1 || ToInt(size) >= 0) && j < size
    ensures |Slices(bytes, size, n)| == n * size
    ensures k < n ==> (
      && 0 <= k * size + j < n * size && 0 <= k * ToInt(size) + j < |bytes|
      && Slices(bytes, size, n)[k * size + j] == bytes[k * ToInt(size) + j])
    decreases n
  {
    hide ToInt, Slices;
    if n == 0 {
      SlicesNone(bytes, size);
    } else {
      var m := n - 1;
      SliceAt(bytes, size, nmemb, m, k, j);
      ItemFits(m, nmemb, size);
      OneMore(m, size);
      SlicesStep(bytes, size, m);
      var p := m * ToInt(size);
      if k < n {
        JoinedAt(Slices(bytes, size, m), bytes[p..p + size], k * size + j);
      }
    }
  }

  lemma JoinedAt(before: Bytes, item: Bytes, x: nat)
    ensures x < |before| ==> (before + item)[x] == before[x]
    ensures |before| <= x < |before| + |item| ==> (before + item)[x] == item[x - |before|]
  {
  }

  lemma OneMore(m: nat, size: nat)
    ensures (m + 1) * size == m * size + size
  {
  }

  // All bytes arrive, whatever they are, exactly for sizes below 2 GiB and for single items.
  lemma SentRightly(size: nat, nmemb: nat)
    ensures (forall bytes: Bytes :: |bytes| == size * nmemb ==> Sent(bytes, size, nmemb) == bytes) <==>
      size < INT_LIMIT || nmemb <= 1
  {
    if size < INT_LIMIT || nmemb <= 1 {
      forall bytes: Bytes | |bytes| == size * nmemb ensures Sent(bytes, size, nmemb) == bytes {
        AllSent(bytes, size, nmemb);
      }
    } else {
      var bytes := NotSent(size, nmemb);
    }
  }

  lemma AllSent(bytes: Bytes, size: nat, nmemb: nat)
    requires (size < INT_LIMIT || nmemb <= 1) && |bytes| == size * nmemb
    ensures Sent(bytes, size, nmemb) == bytes
  {
    if size < INT_LIMIT {
      SlicesInOrder(bytes, size, nmemb, nmemb);
    } else if nmemb == 1 {
      assert Slices(bytes, size, 1) == Slices(bytes, size, 0) + Item(bytes, size, 0);
    }
  }

  // From the second item on, the pointer is too low.
  lemma NotSent(size: nat, nmemb: nat) returns (bytes: Bytes)
    requires size >= INT_LIMIT && nmemb >= 2
    ensures |bytes| == size * nmemb && Sent(bytes, size, nmemb) != bytes
  {
    var total := size * nmemb;
    assert size * 2 <= total;
    bytes := seq(total, i => if i == size then 1 else 0);
    AtMost(size);
    FirstTwo(bytes, size, nmemb);
  }

  lemma FirstTwo(bytes: Bytes, size: nat, nmemb: nat)
    requires size >= INT_LIMIT && nmemb >= 2 && |bytes| >= size * 2
    requires forall k :: 0 <= k < |bytes| ==> bytes[k] == if k == size then 1 else 0
    ensures Sent(bytes, size, nmemb) != bytes
  {
    var t := ToInt(size);
    assert t < size;
    hide ToInt;
    var one := Slices(bytes, size, 1);
    assert one == Slices(bytes, size, 0) + Item(bytes, size, 0) == bytes[0..size];
    if t >= 0 {
      SlicesGrow(bytes, size, nmemb);
      var two, sent := Slices(bytes, size, 2), Sent(bytes, size, nmemb);
      assert two == one + Item(bytes, size, 1) && Item(bytes, size, 1) == bytes[t..t + size];
      assert sent[size] == two[size] == bytes[t] == 0;
    }
  }
}
