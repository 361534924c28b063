/** The boot image: its byte format, and the host tool that writes it. */
module Ramdisk {
  import opened ByteStrings

  const U32 := 0x1_0000_0000
  const HEADER_SIZE := 27
  const ENTRY_SIZE := 275
  const NAME_SIZE := 256
  const SIGNATURE := 0x1DF4
  const TYPE_FILE := 0
  const TYPE_DIRECTORY := 1
  const BUFFER_SIZE := 1024

  // ---- Records ----

  // ramdiskfs_entry_t: a packed record of 275 bytes.
  datatype Entry = Entry(name: Bytes, offset: nat, kind: Byte, next: nat, target: nat, size: nat)

  // ramdiskfs_header_t: 27 bytes.
  datatype Header = Header(signature: nat, version: Byte, size: nat, root: nat)

  function Encode(e: Entry, zero: Byte, unused: Byte): (s: Bytes)
    requires |e.name| == NAME_SIZE
    ensures |s| == ENTRY_SIZE
  {
    [zero] + e.name + Le(e.offset, 4) + [e.kind, unused] + Le(e.next, 4) + Le(e.target, 4) + Le(e.size, 4)
  }

  function EntryAt(image: Bytes, at: nat): Entry
    requires at + ENTRY_SIZE <= |image|
  {
    Entry(image[at + 1..at + 257], FromLe(image[at + 257..at + 261]), image[at + 261],
          FromLe(image[at + 263..at + 267]), FromLe(image[at + 267..at + 271]), FromLe(image[at + 271..at + 275]))
  }

  lemma LastField(s: Bytes, front: Bytes, last: Bytes)
    requires s == front + last
    ensures s[|front|..|s|] == last
  {
  }

  lemma EntryRoundTrip(image: Bytes, at: nat, e: Entry, zero: Byte, unused: Byte)
    requires |e.name| == NAME_SIZE && e.offset < U32 && e.next < U32 && e.target < U32 && e.size < U32
    requires at + ENTRY_SIZE <= |image| && image[at..at + ENTRY_SIZE] == Encode(e, zero, unused)
    ensures EntryAt(image, at) == e
  {
    hide Le, FromLe;
    var s := Encode(e, zero, unused);
    Powers();
    LeRoundTrip(e.offset, 4);
    LeRoundTrip(e.next, 4);
    LeRoundTrip(e.target, 4);
    LeRoundTrip(e.size, 4);
    assert s[1..257] == e.name && s[257..261] == Le(e.offset, 4) && s[261] == e.kind;
    LastField(s, [zero] + e.name + Le(e.offset, 4) + [e.kind, unused] + Le(e.next, 4) + Le(e.target, 4), Le(e.size, 4));
    assert s[263..267] == Le(e.next, 4) && s[267..271] == Le(e.target, 4) && s[271..275] == Le(e.size, 4);
    forall i: nat, j: nat | i <= j <= ENTRY_SIZE ensures image[at + i..at + j] == s[i..j] {
      SliceOfSlice(image, at, at + ENTRY_SIZE, at + i, at + j);
    }
    assert image[at + 261] == image[at..at + ENTRY_SIZE][261];
  }

  // Where the fields lie: numbers are little-endian, nothing is aligned.
  lemma RecordLayout(image: Bytes, at: nat)
    requires at + 275 <= |image|
    ensures EntryAt(image, at).name == image[at + 1..at + 257] && EntryAt(image, at).kind == image[at + 261]
    ensures EntryAt(image, at).offset == Number(image, at + 257) && EntryAt(image, at).next == Number(image, at + 263)
    ensures EntryAt(image, at).target == Number(image, at + 267) && EntryAt(image, at).size == Number(image, at + 271)
  {
    hide FromLe;
    FourBytes(image[at + 257..at + 261]);
    FourBytes(image[at + 263..at + 267]);
    FourBytes(image[at + 267..at + 271]);
    FourBytes(image[at + 271..at + 275]);
  }

  function Number(image: Bytes, at: nat): nat
    requires at + 4 <= |image|
  {
    var a: nat, b: nat, c: nat, d: nat := image[at], image[at + 1], image[at + 2], image[at + 3];
    a + 0x100 * b + 0x1_0000 * c + 0x100_0000 * d
  }

  function EncodeHeader(h: Header, volume: Bytes): (s: Bytes)
    requires |volume| == 16
    ensures |s| == HEADER_SIZE
  {
    [h.signature % 256, h.signature / 256 % 256, h.version] + volume + Le(h.size, 4) + Le(h.root, 4)
  }

  function HeaderOf(image: Bytes): Header
    requires HEADER_SIZE <= |image|
  {
    Header(image[0] as nat + image[1] as nat * 256, image[2], FromLe(image[19..23]), FromLe(image[23..27]))
  }

  lemma HeaderRoundTrip(image: Bytes, h: Header, volume: Bytes)
    requires |volume| == 16 && h.signature < 0x1_0000 && h.size < U32 && h.root < U32
    requires HEADER_SIZE <= |image| && image[..HEADER_SIZE] == EncodeHeader(h, volume)
    ensures HeaderOf(image) == h
  {
    hide Le, FromLe;
    var s := EncodeHeader(h, volume);
    Powers();
    LeRoundTrip(h.size, 4);
    LeRoundTrip(h.root, 4);
    assert s[19..23] == Le(h.size, 4) && s[23..27] == Le(h.root, 4);
    assert image[19..23] == image[..HEADER_SIZE][19..23] && image[23..27] == image[..HEADER_SIZE][23..27];
    assert image[0] == image[..HEADER_SIZE][0] && image[1] == image[..HEADER_SIZE][1]
      && image[2] == image[..HEADER_SIZE][2];
  }

  lemma HeaderLayout(image: Bytes)
    requires 27 <= |image|
    ensures HeaderOf(image).signature == image[0] as nat + 0x100 * image[1] as nat
    ensures HeaderOf(image).version == image[2]
    ensures HeaderOf(image).size == Number(image, 19) && HeaderOf(image).root == Number(image, 23)
  {
    hide FromLe;
    FourBytes(image[19..23]);
    FourBytes(image[23..27]);
  }

  // ---- The host's directory tree ----

  datatype Node =
    | Regular(name: Bytes, contents: Bytes)
    | Directory(name: Bytes, listing: seq<Node>)

  // "." and "..", which readdir lists like any other entry.
  predicate IsDot(e: Node) {
    e.name == ['.' as int] || e.name == ['.' as int, '.' as int]
  }

  function EntrySize(e: Node): nat
    decreases e, 0
  {
    match e
    case Regular(_, contents) => |contents|
    case Directory(_, listing) => ListSize(listing)
  }

  function ListSize(ls: seq<Node>): nat
    decreases ls, 0
  {
    if ls == [] then 0
    else ListSize(ls[..|ls| - 1]) + Taken(ls[|ls| - 1])
  }

  // What one directory entry takes in the image.
  function Taken(e: Node): nat
    decreases e, 1
  {
    if IsDot(e) then 0 else ENTRY_SIZE + EntrySize(e)
  }

  // Where the record of entry n lies.
  function Place(at: nat, ls: seq<Node>, n: nat): nat
    requires n <= |ls|
  {
    at + ListSize(ls[..n])
  }

  // ---- What a correct image looks like ----

  // From at on, image lists the entries ls: a chain of records, each followed by its data.
  ghost predicate Lists(image: Bytes, at: nat, ls: seq<Node>)
    decreases ls, 0
  {
    && at + ListSize(ls) <= |image|
    && forall n :: 0 <= n < |ls| && !IsDot(ls[n]) ==> Records(image, Place(at, ls, n), ls[n], n + 1 < |ls|)
  }

  ghost predicate Records(image: Bytes, at: nat, e: Node, more: bool)
    decreases e, 0
  {
    && at + ENTRY_SIZE + EntrySize(e) <= |image|
    && var r := EntryAt(image, at);
    && CString(r.name) == e.name
    && r.offset == at
    && r.next == (if more then at + ENTRY_SIZE + EntrySize(e) else 0)
    && match e
       case Regular(_, contents) =>
         r.kind == TYPE_FILE && r.target == 0 && r.size == |contents|
         && image[at + ENTRY_SIZE..at + ENTRY_SIZE + |contents|] == contents
       case Directory(_, listing) =>
         r.kind == TYPE_DIRECTORY && r.size == 0
         && r.target == (if EntrySize(e) != 0 then at + ENTRY_SIZE else 0)
         && Lists(image, at + ENTRY_SIZE, listing)
  }

  lemma PlaceStep(at: nat, ls: seq<Node>, n: nat)
    requires n < |ls|
    ensures Place(at, ls, n + 1) == Place(at, ls, n) + Taken(ls[n])
    ensures Place(at, ls, 0) == at && Place(at, ls, |ls|) == at + ListSize(ls)
  {
    assert ls[..n + 1][..n] == ls[..n] && ls[..|ls|] == ls;
  }

  lemma {:induction false} PlaceOrder(at: nat, ls: seq<Node>, n: nat, m: nat)
    requires n <= m <= |ls|
    ensures Place(at, ls, n) <= Place(at, ls, m)
    decreases m
  {
    if n < m {
      PlaceStep(at, ls, m - 1);
      PlaceOrder(at, ls, n, m - 1);
    }
  }

  // A record only depends on its own stretch of the image.
  lemma {:induction false} RecordsKept(a: Bytes, b: Bytes, at: nat, e: Node, more: bool)
    requires Records(a, at, e, more) && at + ENTRY_SIZE + EntrySize(e) <= |b|
    requires b[at..at + ENTRY_SIZE + EntrySize(e)] == a[at..at + ENTRY_SIZE + EntrySize(e)]
    ensures Records(b, at, e, more)
    decreases e
  {
    var end := at + ENTRY_SIZE + EntrySize(e);
    forall i, j | at <= i <= j <= end ensures a[i..j] == b[i..j] {
      SliceOfSlice(a, at, end, i, j);
      SliceOfSlice(b, at, end, i, j);
    }
    assert a[at + 261] == a[at..end][261] && b[at + 261] == b[at..end][261];
    assert EntryAt(b, at) == EntryAt(a, at);
    if e.Directory? {
      ListsKept(a, b, at + ENTRY_SIZE, e.listing);
    }
  }

  lemma {:induction false} ListsKept(a: Bytes, b: Bytes, at: nat, ls: seq<Node>)
    requires Lists(a, at, ls) && at + ListSize(ls) <= |b|
    requires b[at..at + ListSize(ls)] == a[at..at + ListSize(ls)]
    ensures Lists(b, at, ls)
    decreases ls
  {
    hide Records, ListSize, EntrySize, IsDot;
    forall n | 0 <= n < |ls| && !IsDot(ls[n]) ensures Records(b, Place(at, ls, n), ls[n], n + 1 < |ls|) {
      var p := Place(at, ls, n);
      Stretch(at, ls, n);
      SliceOfSlice(a, at, at + ListSize(ls), p, p + ENTRY_SIZE + EntrySize(ls[n]));
      SliceOfSlice(b, at, at + ListSize(ls), p, p + ENTRY_SIZE + EntrySize(ls[n]));
      RecordsKept(a, b, p, ls[n], n + 1 < |ls|);
    }
  }

  // What entry n takes lies within what the listing takes.
  lemma Stretch(at: nat, ls: seq<Node>, n: nat)
    requires n < |ls| && !IsDot(ls[n])
    ensures at <= Place(at, ls, n) && Place(at, ls, n) + ENTRY_SIZE + EntrySize(ls[n]) <= at + ListSize(ls)
  {
    PlaceStep(at, ls, n);
    PlaceOrder(at, ls, n + 1, |ls|);
    PlaceOrder(at, ls, 0, n);
    PlaceStep(at, ls, |ls| - 1);
  }
}
