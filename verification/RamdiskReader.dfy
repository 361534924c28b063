/** The kernel's view of the image: readdir, finddir and read by walking its records. */
module RamdiskReader {
  import opened ByteStrings
  import opened Ramdisk
  import opened RamdiskTool
  import opened Wrappers

  const SIZE_LIMIT := 0x1_0000_0000_0000_0000

  datatype Kind = FILE | DIRECTORY

  // fs_node_t, as far as this filesystem fills it in. The root is its own device.
  datatype FsNode = FsNode(root: bool, context: nat, name: Bytes, kind: Kind, length: nat)

  const ROOT := FsNode(true, 0, [], DIRECTORY, 0)

  // The real entries of a directory, in order.
  function Reals(ls: seq<Node>): seq<Node> {
    if ls == [] then []
    else Reals(ls[..|ls| - 1]) + (if IsDot(ls[|ls| - 1]) then [] else [ls[|ls| - 1]])
  }

  // No "." or ".." after the last real entry, at any depth.
  ghost predicate Tidy(ls: seq<Node>)
    decreases ls
  {
    && (Reals(ls) != [] ==> !IsDot(ls[|ls| - 1]))
    && forall n :: 0 <= n < |ls| && ls[n].Directory? && !IsDot(ls[n]) ==> Tidy(ls[n].listing)
  }

  // ---- From listings with dots to chains of records ----

  // Real are the entries but those with one of the two names.
  lemma {:induction false} RealsAre(ls: seq<Node>, e: Node)
    ensures e in Reals(ls) <==> e in ls && e.name != ['.' as int] && e.name != ['.' as int, '.' as int]
    decreases |ls|
  {
    if ls != [] {
      RealsAre(ls[..|ls| - 1], e);
      assert ls == ls[..|ls| - 1] + [ls[|ls| - 1]];
    }
  }

  lemma {:induction false} RealIndex(ls: seq<Node>, j: nat) returns (n: nat)
    requires j < |Reals(ls)|
    ensures n < |ls| && ls[n] == Reals(ls)[j] && !IsDot(ls[n])
    ensures ListSize(ls[..n]) == ListSize(Reals(ls)[..j]) && |Reals(ls[..n])| == j
    decreases |ls|
  {
    var m := |ls| - 1;
    var before := ls[..m];
    if j < |Reals(before)| {
      n := RealIndex(before, j);
      assert before[..n] == ls[..n] && Reals(before)[..j] == Reals(ls)[..j];
    } else {
      n := m;
      assert Reals(ls)[..j] == Reals(before);
      SameSize(before);
    }
  }

  lemma {:induction false} SameSize(ls: seq<Node>)
    ensures ListSize(Reals(ls)) == ListSize(ls)
    ensures forall j :: 0 <= j < |Reals(ls)| ==> !IsDot(Reals(ls)[j])
    decreases |ls|
  {
    if ls != [] {
      var before := ls[..|ls| - 1];
      SameSize(before);
      var rs := Reals(ls);
      if IsDot(ls[|ls| - 1]) {
        assert rs == Reals(before);
      } else {
        assert rs[..|rs| - 1] == Reals(before) && rs[|rs| - 1] == ls[|ls| - 1];
      }
    }
  }

  lemma {:induction false} FewerReals(ls: seq<Node>, n: nat)
    requires n <= |ls|
    ensures |Reals(ls[..n])| <= |Reals(ls)|
    decreases |ls|
  {
    if n < |ls| {
      var before := ls[..|ls| - 1];
      FewerReals(before, n);
      assert before[..n] == ls[..n];
    } else {
      assert ls[..n] == ls;
    }
  }

  // Without trailing dots, the chain on the image is that of the real entries alone.
  lemma DropDots(image: Bytes, at: nat, ls: seq<Node>)
    requires Lists(image, at, ls) && Tidy(ls)
    ensures Lists(image, at, Reals(ls))
  {
    var rs := Reals(ls);
    SameSize(ls);
    assert rs != [] ==> !IsDot(ls[|ls| - 1]);
    hide Records, Tidy, IsDot, Reals;
    forall j | 0 <= j < |rs| ensures Records(image, Place(at, rs, j), rs[j], j + 1 < |rs|) {
      RealRecord(image, at, ls, j);
    }
  }

  lemma RealRecord(image: Bytes, at: nat, ls: seq<Node>, j: nat)
    requires Lists(image, at, ls) && j < |Reals(ls)| && !IsDot(ls[|ls| - 1])
    ensures Records(image, Place(at, Reals(ls), j), Reals(ls)[j], j + 1 < |Reals(ls)|)
  {
    hide Records, IsDot, Reals;
    var n := RealIndex(ls, j);
    assert Records(image, Place(at, ls, n), ls[n], n + 1 < |ls|);
    LastReal(ls, n, j);
  }

  // The last real entry is the last entry of all.
  lemma LastReal(ls: seq<Node>, n: nat, j: nat)
    requires n < |ls| && !IsDot(ls[n]) && !IsDot(ls[|ls| - 1]) && |Reals(ls[..n])| == j
    ensures n + 1 < |ls| <==> j + 1 < |Reals(ls)|
  {
    var last := |ls| - 1;
    assert ls[..n + 1][..n] == ls[..n];
    if n < last {
      assert ls[..last][..n + 1] == ls[..n + 1];
      FewerReals(ls[..last], n + 1);
    } else {
      assert ls[..n + 1] == ls;
    }
  }

  // ---- Nodes and what they stand for ----

  function Current(image: Bytes, node: FsNode): nat
    requires HEADER_SIZE <= |image|
  {
    if node.root then HeaderOf(image).root else node.context
  }

  // What the kernel checks before it looks at an entry.
  predicate Usable(image: Bytes, node: FsNode)
    requires HEADER_SIZE <= |image|
  {
    HeaderOf(image).signature == SIGNATURE && Current(image, node) != 0
  }

  // node is a directory of the image, with the real entries rs.
  ghost predicate DirectoryAt(image: Bytes, node: FsNode, rs: seq<Node>) {
    && HEADER_SIZE <= |image| < U32 && Usable(image, node)
    && (forall j :: 0 <= j < |rs| ==> !IsDot(rs[j]))
    && var at := Current(image, node);
    && at + ENTRY_SIZE <= |image|
    && var target := EntryAt(image, at).target;
    && (target == 0 <==> rs == [])
    && Lists(image, target, rs)
  }

  // node is what finddir makes of entry e.
  ghost predicate Stands(image: Bytes, node: FsNode, e: Node) {
    && !node.root && node.name == e.name && HEADER_SIZE <= |image| < U32 && HeaderOf(image).signature == SIGNATURE
    && node.context > 0
    && (exists more :: Records(image, node.context, e, more))
    && match e
       case Regular(_, contents) => node.kind == FILE && node.length == |contents|
       case Directory(_, listing) => node.kind == DIRECTORY && node.length == 0
  }

  lemma RootDirectory(image: Bytes, ls: seq<Node>)
    requires IsImage(image, ls) && |image| < U32 && Tidy(ls) && Reals(ls) != []
    ensures DirectoryAt(image, ROOT, Reals(ls))
  {
    SameSize(ls);
    DropDots(image, HEADER_SIZE + ENTRY_SIZE, ls);
  }

  lemma StandsForDirectory(image: Bytes, node: FsNode, e: Node)
    requires Stands(image, node, e) && e.Directory? && Tidy(e.listing)
    ensures DirectoryAt(image, node, Reals(e.listing))
  {
    SameSize(e.listing);
    var more :| Records(image, node.context, e, more);
    DropDots(image, node.context + ENTRY_SIZE, e.listing);
    var rs := Reals(e.listing);
    if rs != [] {
      PlaceStep(0, rs, |rs| - 1);
      assert rs[..|rs| - 1] + [rs[|rs| - 1]] == rs;
    }
  }

  // The j-th record of a chain, and where it leads.
  lemma ChainStep(image: Bytes, at: nat, rs: seq<Node>, j: nat)
    requires Lists(image, at, rs) && at > 0 && j < |rs| && forall i :: 0 <= i < |rs| ==> !IsDot(rs[i])
    ensures Records(image, Place(at, rs, j), rs[j], j + 1 < |rs|)
    ensures Place(at, rs, j) > 0 && Place(at, rs, j) + ENTRY_SIZE <= |image|
    ensures EntryAt(image, Place(at, rs, j)).next == if j + 1 < |rs| then Place(at, rs, j + 1) else 0
    ensures Place(at, rs, j) < Place(at, rs, j + 1) <= |image|
    ensures CString(EntryAt(image, Place(at, rs, j)).name) == rs[j].name
  {
    PlaceStep(at, rs, j);
    PlaceOrder(at, rs, j + 1, |rs|);
    PlaceStep(at, rs, |rs| - 1);
  }

  lemma EntryStands(image: Bytes, at: nat, e: Node, more: bool)
    requires Records(image, at, e, more) && at > 0 && HEADER_SIZE <= |image| < U32
    requires HeaderOf(image).signature == SIGNATURE
    ensures at + ENTRY_SIZE <= |image|
    ensures var r := EntryAt(image, at);
      && CString(r.name) == e.name && r.kind == (if e.Directory? then TYPE_DIRECTORY else TYPE_FILE)
      && Stands(image,
           if e.Directory? then FsNode(false, at, e.name, DIRECTORY, 0)
           else FsNode(false, at, e.name, FILE, r.size), e)
  {
  }

  // ---- Following the chain ----

  // Where index steps along the chain lead: to an entry, to its end, or out of the image.
  datatype Spot = End | At(place: nat) | Outside

  function Walked(image: Bytes, current: nat, index: nat): Spot
    decreases index
  {
    if current == 0 then End
    else if current + ENTRY_SIZE > |image| then Outside
    else if index == 0 then At(current)
    else Walked(image, EntryAt(image, current).next, index - 1)
  }

  function NameAt(image: Bytes, spot: Spot): Option<Bytes> {
    if spot.At? && spot.place + ENTRY_SIZE <= |image| then Some(CString(EntryAt(image, spot.place).name)) else None
  }

  ghost predicate StaysInside(image: Bytes, start: nat) {
    forall index: nat :: Walked(image, start, index) != Outside
  }

  // Where the listing of a directory begins.
  function Start(image: Bytes, node: FsNode): nat {
    if HEADER_SIZE <= |image| && Current(image, node) + ENTRY_SIZE <= |image|
    then EntryAt(image, Current(image, node)).target
    else 0
  }

  lemma WalkBegins(image: Bytes, current: nat)
    ensures Walked(image, current, 0) ==
      if current == 0 then End else if current + ENTRY_SIZE > |image| then Outside else At(current)
  {
  }

  lemma {:induction false} WalkStep(image: Bytes, start: nat, i: nat)
    requires Walked(image, start, i).At?
    ensures var p := Walked(image, start, i).place;
      p + ENTRY_SIZE <= |image| && Walked(image, start, i + 1) == Walked(image, EntryAt(image, p).next, 0)
    decreases i
  {
    hide EntryAt;
    if i > 0 {
      WalkStep(image, EntryAt(image, start).next, i - 1);
    }
  }

  lemma {:induction false} WalkEnds(image: Bytes, start: nat, i: nat, index: nat)
    requires Walked(image, start, i) == End && i <= index
    ensures Walked(image, start, index) == End
    decreases i
  {
    hide EntryAt;
    if start != 0 {
      WalkEnds(image, EntryAt(image, start).next, i - 1, index - 1);
    }
  }

  lemma EndStays(image: Bytes, index: nat)
    ensures Walked(image, 0, index) == End
  {
  }

  // A correct chain gives its entries in order, and nothing behind them.
  lemma {:induction false} ChainWalked(image: Bytes, at: nat, rs: seq<Node>, j: nat, index: nat)
    requires Lists(image, at, rs) && at > 0 && j < |rs| && forall i :: 0 <= i < |rs| ==> !IsDot(rs[i])
    ensures var spot := Walked(image, Place(at, rs, j), index);
      if j + index < |rs| then spot == At(Place(at, rs, j + index)) && NameAt(image, spot) == Some(rs[j + index].name)
      else spot == End
    decreases index
  {
    hide Lists, Records, EntryAt, CString, IsDot, Place;
    ChainStep(image, at, rs, j);
    if index > 0 {
      if j + 1 < |rs| {
        ChainWalked(image, at, rs, j + 1, index - 1);
      } else {
        EndStays(image, index - 1);
      }
    }
  }

  lemma DirectoryWalked(image: Bytes, node: FsNode, rs: seq<Node>, index: nat)
    requires DirectoryAt(image, node, rs)
    ensures var spot := Walked(image, Start(image, node), index);
      spot != Outside && NameAt(image, spot) == if index < |rs| then Some(rs[index].name) else None
  {
    hide Lists, EntryAt, CString, IsDot, NameAt;
    if rs == [] {
      EndStays(image, index);
      assert NameAt(image, End) == None by {
        NoName(image);
      }
    } else {
      assert Place(Start(image, node), rs, 0) == Start(image, node) by {
        PlaceStep(Start(image, node), rs, 0);
      }
      ChainWalked(image, Start(image, node), rs, 0, index);
      NoName(image);
    }
  }

  lemma NoName(image: Bytes)
    ensures NameAt(image, End) == None
  {
  }

  // What readdir asks of a directory, and what it answers.
  lemma DirectoryListed(image: Bytes, node: FsNode, rs: seq<Node>, index: nat)
    requires DirectoryAt(image, node, rs)
    ensures HEADER_SIZE <= |image| && Usable(image, node) && Current(image, node) + ENTRY_SIZE <= |image|
    ensures StaysInside(image, Start(image, node))
    ensures NameAt(image, Walked(image, Start(image, node), index)) ==
      if index < |rs| then Some(rs[index].name) else None
  {
    hide Walked, NameAt, Lists;
    forall k: nat ensures Walked(image, Start(image, node), k) != Outside {
      DirectoryWalked(image, node, rs, k);
    }
    DirectoryWalked(image, node, rs, index);
  }

  // ---- The operations ----

  // ramdiskfs_readdir, as long as it stays inside the image.
  method Readdir(image: Bytes, node: FsNode, index: nat) returns (name: Option<Bytes>)
    requires HEADER_SIZE <= |image| && index < U32
    requires Usable(image, node) ==>
      Current(image, node) + ENTRY_SIZE <= |image| && StaysInside(image, Start(image, node))
    ensures name == if Usable(image, node) then NameAt(image, Walked(image, Start(image, node), index)) else None
  {
    hide Walked, EntryAt, CString;
    var header := HeaderOf(image);
    if header.signature != SIGNATURE {
      return None;
    }
    var current: nat := if node.root then header.root else node.context;
    if current == 0 {
      return None;
    }
    current := EntryAt(image, current).target;
    ghost var start := current;
    WalkBegins(image, start);
    var i := 0;
    while i < index
      invariant i <= index && Walked(image, start, i) == Walked(image, current, 0)
    {
      WalkBegins(image, current);
      if current == 0 {
        WalkEnds(image, start, i, index);
        return None;
      }
      WalkStep(image, start, i);
      current := EntryAt(image, current).next;
      i := i + 1;
    }
    WalkBegins(image, current);
    if current == 0 {
      return None;
    }
    return Some(CString(EntryAt(image, current).name));
  }

  // ramdiskfs_finddir: the first entry of that name.
  method Finddir(image: Bytes, node: FsNode, name: Bytes, ghost rs: seq<Node>) returns (found: Option<FsNode>,
                 ghost which: nat)
    requires HEADER_SIZE <= |image| && (Usable(image, node) ==> DirectoryAt(image, node, rs))
    ensures found.None? ==> !Usable(image, node) || forall j :: 0 <= j < |rs| ==> rs[j].name != name
    ensures found.Some? ==> Usable(image, node)
    ensures found.Some? ==> which < |rs| && rs[which].name == name && forall j :: 0 <= j < which ==> rs[j].name != name
    ensures found.Some? ==> Stands(image, found.value, rs[which])
  {
    hide Lists, Records, CString, Stands;
    which := 0;
    var header := HeaderOf(image);
    if header.signature != SIGNATURE {
      return None, 0;
    }
    var current := if node.root then header.root else node.context;
    if current == 0 {
      return None, 0;
    }
    current := EntryAt(image, current).target;
    ghost var at := current;
    while current != 0
      invariant which <= |rs|
      invariant current == if which < |rs| then Place(at, rs, which) else 0
      invariant forall j :: 0 <= j < which ==> rs[j].name != name
      decreases |rs| - which
    {
      ChainStep(image, at, rs, which);
      EntryStands(image, current, rs[which], which + 1 < |rs|);
      var entry := EntryAt(image, current);
      if CString(entry.name) == name {
        match entry.kind {
          case 0 => return Some(FsNode(false, current, name, FILE, entry.size)), which;
          case 1 => return Some(FsNode(false, current, name, DIRECTORY, 0)), which;
          case _ => assert false;
        }
      }
      current := entry.next;
      which := which + 1;
    }
    return None, which;
  }

  // ramdiskfs_read, with offset + size not wrapping around.
  method Read(image: Bytes, node: FsNode, offset: nat, size: nat, ghost e: Node) returns (bytes: Bytes)
    requires HEADER_SIZE <= |image| && (HeaderOf(image).signature == SIGNATURE ==> Stands(image, node, e) && e.Regular?)
    requires offset + size < SIZE_LIMIT
    ensures bytes == if HeaderOf(image).signature != SIGNATURE || !e.Regular? || offset > |e.contents| then []
                     else if offset + size > |e.contents| then e.contents[offset..]
                     else e.contents[offset..offset + size]
  {
    var header := HeaderOf(image);
    if header.signature != SIGNATURE {
      return [];
    }
    var entry := EntryAt(image, node.context);
    if offset > entry.size {
      return [];
    }
    var count := if offset + size > entry.size then entry.size - offset else size;
    var from := offset + entry.offset + ENTRY_SIZE;
    bytes := image[from..from + count];
    SliceOfSlice(image, entry.offset + ENTRY_SIZE, entry.offset + ENTRY_SIZE + entry.size, from, from + count);
  }
}
