/** ramdiskfs_tool: writing the image through a seekable file, records patched in afterwards. */
module RamdiskTool {
  import opened ByteStrings
  import opened Ramdisk

  function Padded(data: Bytes, at: nat): (s: Bytes)
    requires |data| <= at
    ensures |s| == at
  {
    data + Zeros(at - |data|)
  }

  lemma OverlayAtEnd(data: Bytes, at: nat, bytes: Bytes)
    requires |data| <= at
    ensures Overlay(data, at, bytes) == Padded(data, at) + bytes
  {
    assert at == |data| ==> data[..at] == data && Padded(data, at) == data;
  }

  lemma OverlayTwice(data: Bytes, at: nat, a: Bytes, b: Bytes)
    requires |data| <= at
    ensures Overlay(Overlay(data, at, a), at + |a|, b) == Overlay(data, at, a + b)
  {
    OverlayAtEnd(data, at, a);
    OverlayAtEnd(data, at, a + b);
    OverlayAtEnd(Padded(data, at) + a, at + |a|, b);
    hide Overlay;
    assert Padded(Padded(data, at) + a, at + |a|) == Padded(data, at) + a;
    assert Padded(data, at) + a + b == Padded(data, at) + (a + b);
  }

  class ImageFile {
    var data: Bytes
    var pos: nat

    constructor ()
      ensures data == [] && pos == 0
    {
      data, pos := [], 0;
    }

    method Seek(to: nat)
      modifies this
      ensures pos == to && data == old(data)
    {
      pos := to;
    }

    method Write(bytes: Bytes)
      requires bytes != []
      modifies this
      ensures data == Overlay(old(data), old(pos), bytes) && pos == old(pos) + |bytes|
    {
      data, pos := Overlay(data, pos, bytes), pos + |bytes|;
    }

    // The fread/fwrite loop over a 1024-byte buffer.
    method CopyContents(contents: Bytes) returns (size: nat)
      requires |data| <= pos
      modifies this
      ensures size == |contents| && pos == old(pos) + size
      ensures if contents == [] then data == old(data) else data == Overlay(old(data), old(pos), contents)
    {
      hide Overlay;
      size := 0;
      while true
        invariant size <= |contents| && pos == old(pos) + size
        invariant if size == 0 then data == old(data) else data == Overlay(old(data), old(pos), contents[..size])
        decreases |contents| - size
      {
        var written := if |contents| - size > BUFFER_SIZE then BUFFER_SIZE else |contents| - size;
        if written <= 0 {
          break;
        }
        var buffer := contents[size..size + written];
        assert contents[..size + written] == contents[..size] + buffer;
        OverlayTwice(old(data), old(pos), contents[..size], buffer);
        size := size + written;
        Write(buffer);
      }
      assert contents[..size] == contents;
    }

    // create_directory. Offsets and sizes are uint32_t, hence the bound.
    method CreateDirectory(ls: seq<Node>) returns (written: nat)
      requires HostListing(ls) && |data| <= pos && pos + ListSize(ls) < U32
      modifies this
      ensures written == ListSize(ls) && pos == old(pos) + written
      ensures if written == 0 then data == old(data) else |data| == pos && old(data) <= data
      ensures written != 0 ==> Lists(data, old(pos), ls)
      decreases ls, 0
    {
      hide Overlay, Records, Lists, ListsUpTo, ListSize, Taken, EntrySize, IsDot, HostEntry;
      written := 0;
      var i := 0;
      ghost var start := pos;
      EntryTaken(start, ls, 0);
      while i < |ls|
        invariant i <= |ls| && written == ListSize(ls[..i]) && pos == Place(start, ls, i) == start + written
        invariant if written == 0 then data == old(data) else |data| == pos && old(data) <= data
        invariant written != 0 ==> ListsUpTo(data, start, ls, i)
        invariant written == 0 ==> forall n :: 0 <= n < i ==> IsDot(ls[n])
      {
        EntryTaken(start, ls, i);
        ghost var before := data;
        if !IsDot(ls[i]) {
          var size := WriteEntry(ls[i], i + 1 < |ls|);
          if written != 0 {
            ListsExtended(before, data, start, ls, i);
          }
          written := written + ENTRY_SIZE + size;
        }
        OneMoreListed(data, start, ls, i);
        i := i + 1;
      }
      assert ls[..i] == ls;
      AllListed(data, start, ls);
    }

    // One directory entry: its data first, its record on top of the space left for it.
    method WriteEntry(e: Node, more: bool) returns (size: nat)
      requires !IsDot(e) && HostEntry(e) && |data| <= pos && pos + ENTRY_SIZE + EntrySize(e) < U32
      modifies this
      ensures size == EntrySize(e) && pos == old(pos) + ENTRY_SIZE + size == |data|
      ensures old(data) <= data && Records(data, old(pos), e, more)
      decreases e, 1
    {
      var at := pos;
      var target, kind := 0, TYPE_FILE;
      Seek(at + ENTRY_SIZE);
      match e {
        case Regular(_, contents) =>
          size := CopyContents(contents);
        case Directory(_, listing) =>
          kind := TYPE_DIRECTORY;
          size := CreateDirectory(listing);
          if size != 0 {
            target := at + ENTRY_SIZE;
          }
      }
      PutRecord(e, at, kind, target, size, more);
    }

    // Back to at, for the record of an entry whose data is in place.
    method PutRecord(e: Node, at: nat, kind: Byte, target: nat, size: nat, more: bool)
      requires !IsDot(e) && HostEntry(e) && size == EntrySize(e) && pos == at + ENTRY_SIZE + size < U32
      requires kind == (if e.Directory? then TYPE_DIRECTORY else TYPE_FILE)
      requires target == (if e.Directory? && size != 0 then at + ENTRY_SIZE else 0)
      requires if size == 0 then |data| <= at else |data| == pos
      requires e.Regular? ==> size == 0 || data[at + ENTRY_SIZE..] == e.contents
      requires e.Directory? && size != 0 ==> Lists(data, at + ENTRY_SIZE, e.listing)
      modifies this
      ensures pos == old(pos) == |data| && Records(data, at, e, more)
      ensures forall i: nat :: i < |old(data)| && i < at ==> data[i] == old(data)[i]
    {
      var next := if more then at + ENTRY_SIZE + size else 0;
      var stored := if e.Directory? then 0 else size;
      assert |Zeros(NAME_SIZE + 2)| == NAME_SIZE + 2;
      var stack: Bytes :| |stack| == NAME_SIZE + 2;  // the uninitialised local it is built in
      var field := e.name + [0] + stack[|e.name| + 1..NAME_SIZE];
      ghost var record := Entry(field, at, kind, next, target, stored);
      var current := pos;
      Seek(at);
      Write(Encode(Entry(field, at, kind, next, target, stored), stack[NAME_SIZE], stack[NAME_SIZE + 1]));
      Seek(current);
      EntryRoundTrip(data, at, record, stack[NAME_SIZE], stack[NAME_SIZE + 1]);
      CStringOf(e.name, stack[|e.name| + 1..NAME_SIZE]);
      if size != 0 {
        OverlayKeeps(old(data), at, Encode(record, stack[NAME_SIZE], stack[NAME_SIZE + 1]), at + ENTRY_SIZE, pos);
      }
      RecordComplete(old(data), data, at, e, more);
    }

    // main, once the arguments are parsed: header and root record around the directory.
    method WriteImage(volume: Bytes, ls: seq<Node>)
      requires data == [] && pos == 0 && |volume| == 16
      requires HostListing(ls) && HEADER_SIZE + ENTRY_SIZE + ListSize(ls) < U32
      modifies this
      ensures IsImage(data, ls)
    {
      var written := WriteRoot(ls);
      ghost var body := data;
      Seek(0);
      var header := EncodeHeader(Header(SIGNATURE, 1, HEADER_SIZE + ENTRY_SIZE + written, HEADER_SIZE), volume);
      Write(header);
      HeaderRoundTrip(data, Header(SIGNATURE, 1, |data|, HEADER_SIZE), volume);
      OverlayKeeps(body, 0, header, HEADER_SIZE, HEADER_SIZE + ENTRY_SIZE);
      OverlayKeeps(body, 0, header, HEADER_SIZE + ENTRY_SIZE, |body|);
      RootKept(body, data, ls);
    }

    method WriteRoot(ls: seq<Node>) returns (written: nat)
      requires data == [] && pos == 0
      requires HostListing(ls) && HEADER_SIZE + ENTRY_SIZE + ListSize(ls) < U32
      modifies this
      ensures written == ListSize(ls) && |data| == HEADER_SIZE + ENTRY_SIZE + written && HasRoot(data, ls)
    {
      hide Lists, Records;
      var root := HEADER_SIZE;
      var target := root + ENTRY_SIZE;
      assert |Zeros(NAME_SIZE + 2)| == NAME_SIZE + 2;
      var stack: Bytes :| |stack| == NAME_SIZE + 2;
      var record := Entry([0] + stack[1..NAME_SIZE], root, TYPE_DIRECTORY, 0, target, 0);
      Seek(HEADER_SIZE);
      Write(Encode(record, stack[NAME_SIZE], stack[NAME_SIZE + 1]));
      ghost var alone := data;
      EntryRoundTrip(data, root, record, stack[NAME_SIZE], stack[NAME_SIZE + 1]);
      written := CreateDirectory(ls);
      assert data[root..target] == alone[root..target];
      EntryKept(alone, data, root);
      if written == 0 {
        NothingListed(data, target, ls);
      }
    }
  }

  // What entry i adds, and that it stays within what the whole listing takes.
  lemma EntryTaken(start: nat, ls: seq<Node>, i: nat)
    requires i < |ls|
    ensures Place(start, ls, 0) == start && ListSize(ls[..0]) == 0
    ensures Place(start, ls, i + 1) == start + ListSize(ls[..i + 1]) <= start + ListSize(ls)
    ensures ListSize(ls[..i + 1]) == ListSize(ls[..i]) + if IsDot(ls[i]) then 0 else ENTRY_SIZE + EntrySize(ls[i])
  {
    PlaceStep(start, ls, i);
    PlaceOrder(start, ls, i + 1, |ls|);
    PlaceStep(start, ls, |ls| - 1);
  }

  lemma EntryKept(a: Bytes, b: Bytes, at: nat)
    requires at + ENTRY_SIZE <= |a| && at + ENTRY_SIZE <= |b| && a[at..at + ENTRY_SIZE] == b[at..at + ENTRY_SIZE]
    ensures EntryAt(a, at) == EntryAt(b, at)
  {
    forall i: nat, j: nat | at <= i <= j <= at + ENTRY_SIZE ensures a[i..j] == b[i..j] {
      SliceOfSlice(a, at, at + ENTRY_SIZE, i, j);
      SliceOfSlice(b, at, at + ENTRY_SIZE, i, j);
    }
    assert a[at + 261] == a[at..at + ENTRY_SIZE][261] && b[at + 261] == b[at..at + ENTRY_SIZE][261];
  }

  // The root record, with the listing behind it.
  ghost predicate HasRoot(image: Bytes, ls: seq<Node>) {
    && |image| >= HEADER_SIZE + ENTRY_SIZE
    && var root := EntryAt(image, HEADER_SIZE);
    && CString(root.name) == [] && root.offset == HEADER_SIZE && root.kind == TYPE_DIRECTORY
    && root.next == 0 && root.target == HEADER_SIZE + ENTRY_SIZE && root.size == 0
    && Lists(image, HEADER_SIZE + ENTRY_SIZE, ls)
  }

  lemma RootKept(a: Bytes, b: Bytes, ls: seq<Node>)
    requires HasRoot(a, ls) && |a| == |b| == HEADER_SIZE + ENTRY_SIZE + ListSize(ls)
    requires b[HEADER_SIZE..HEADER_SIZE + ENTRY_SIZE] == a[HEADER_SIZE..HEADER_SIZE + ENTRY_SIZE]
    requires b[HEADER_SIZE + ENTRY_SIZE..|b|] == a[HEADER_SIZE + ENTRY_SIZE..|a|]
    ensures HasRoot(b, ls)
  {
    hide Lists, ListSize, CString, EntryAt;
    EntryKept(a, b, HEADER_SIZE);
    ListsKept(a, b, HEADER_SIZE + ENTRY_SIZE, ls);
  }

  // A record over data that is in place.
  lemma RecordComplete(before: Bytes, after: Bytes, at: nat, e: Node, more: bool)
    requires |after| == at + ENTRY_SIZE + EntrySize(e)
    requires EntrySize(e) != 0 ==>
      |before| == |after| && after[at + ENTRY_SIZE..|after|] == before[at + ENTRY_SIZE..|after|]
    requires CString(EntryAt(after, at).name) == e.name && EntryAt(after, at).offset == at
    requires EntryAt(after, at).next == if more then at + ENTRY_SIZE + EntrySize(e) else 0
    requires EntryAt(after, at).kind == if e.Directory? then TYPE_DIRECTORY else TYPE_FILE
    requires EntryAt(after, at).target == if e.Directory? && EntrySize(e) != 0 then at + ENTRY_SIZE else 0
    requires EntryAt(after, at).size == if e.Directory? then 0 else EntrySize(e)
    requires e.Regular? && EntrySize(e) != 0 ==> before[at + ENTRY_SIZE..] == e.contents
    requires e.Directory? && EntrySize(e) != 0 ==> Lists(before, at + ENTRY_SIZE, e.listing)
    ensures Records(after, at, e, more)
  {
    hide Lists, ListSize, CString, IsDot, EntryAt;
    if e.Directory? {
      DataListed(before, after, at + ENTRY_SIZE, e.listing);
    }
  }

  lemma DataListed(before: Bytes, after: Bytes, at: nat, ls: seq<Node>)
    requires |after| == at + ListSize(ls)
    requires ListSize(ls) != 0 ==>
      |before| == |after| && after[at..|after|] == before[at..|after|] && Lists(before, at, ls)
    ensures Lists(after, at, ls)
  {
    hide Lists;
    if ListSize(ls) != 0 {
      ListsKept(before, after, at, ls);
    } else {
      NothingListed(after, at, ls);
    }
  }

  // A complete image of the listing: its header gives its own length.
  ghost predicate IsImage(image: Bytes, ls: seq<Node>) {
    && |image| == HEADER_SIZE + ENTRY_SIZE + ListSize(ls)
    && HeaderOf(image) == Header(SIGNATURE, 1, |image|, HEADER_SIZE)
    && HasRoot(image, ls)
  }

  // The first bytes of an image: signature, version and sizes, then a directory's record at 27
  // that points right behind itself; and the kind bytes of the entries behind it.
  lemma ImageBegins(image: Bytes, ls: seq<Node>, n: nat)
    requires IsImage(image, ls) && |image| < U32 && n < |ls| && !IsDot(ls[n])
    ensures |image| >= 302 && image[0] as nat + 0x100 * image[1] as nat == 0x1DF4 && image[2] == 1
    ensures Number(image, 19) == |image| && Number(image, 23) == 27 && image[27 + 261] == 1
    ensures Number(image, 27 + 257) == 27 && Number(image, 27 + 267) == 302
    ensures var p := Place(302, ls, n); p + 275 <= |image| && image[p + 261] == if ls[n].Directory? then 1 else 0
  {
    hide ListSize, EntryAt, HeaderOf;
    HeaderLayout(image);
    RecordLayout(image, 27);
    assert Records(image, Place(302, ls, n), ls[n], n + 1 < |ls|);
    RecordLayout(image, Place(302, ls, n));
  }

  lemma {:induction false} NothingListed(image: Bytes, at: nat, ls: seq<Node>)
    requires ListSize(ls) == 0 && at <= |image|
    ensures Lists(image, at, ls)
  {
    forall n | 0 <= n < |ls| ensures IsDot(ls[n]) {
      PlaceStep(at, ls, n);
      PlaceOrder(at, ls, n + 1, |ls|);
      PlaceStep(at, ls, |ls| - 1);
    }
  }

  // Names as the host hands them out, every directory with at least one entry ("." or "..").
  ghost predicate HostEntry(e: Node)
    decreases e, 0
  {
    && |e.name| < NAME_SIZE && 0 !in e.name
    && (e.Directory? && !IsDot(e) ==> HostListing(e.listing))
  }

  ghost predicate HostListing(ls: seq<Node>)
    decreases ls, 0
  {
    ls != [] && forall n :: 0 <= n < |ls| ==> HostEntry(ls[n])
  }

  // The first n entries are in place.
  ghost predicate ListsUpTo(image: Bytes, at: nat, ls: seq<Node>, n: nat) {
    && n <= |ls|
    && forall k :: 0 <= k < n && !IsDot(ls[k]) ==> Records(image, Place(at, ls, k), ls[k], k + 1 < |ls|)
  }

  lemma AllListed(image: Bytes, at: nat, ls: seq<Node>)
    ensures ListsUpTo(image, at, ls, |ls|) && at + ListSize(ls) <= |image| ==> Lists(image, at, ls)
  {
  }

  lemma OneMoreListed(image: Bytes, at: nat, ls: seq<Node>, n: nat)
    requires n < |ls|
    ensures ListsUpTo(image, at, ls, n) && (IsDot(ls[n]) || Records(image, Place(at, ls, n), ls[n], n + 1 < |ls|)) ==>
      ListsUpTo(image, at, ls, n + 1)
    ensures (forall k :: 0 <= k < n ==> IsDot(ls[k])) && !IsDot(ls[n]) ==>
      Records(image, Place(at, ls, n), ls[n], n + 1 < |ls|) ==> ListsUpTo(image, at, ls, n + 1)
  {
  }

  lemma ListsExtended(a: Bytes, b: Bytes, at: nat, ls: seq<Node>, n: nat)
    requires ListsUpTo(a, at, ls, n) && a <= b && |a| == Place(at, ls, n)
    ensures ListsUpTo(b, at, ls, n)
  {
    forall k | 0 <= k < n && !IsDot(ls[k]) ensures Records(b, Place(at, ls, k), ls[k], k + 1 < |ls|) {
      PlaceStep(at, ls, k);
      PlaceOrder(at, ls, k + 1, n);
      RecordsKept(a, b, Place(at, ls, k), ls[k], k + 1 < |ls|);
    }
  }
}
