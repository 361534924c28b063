/** copy_directory: the boot image's tree rebuilt in the in-memory filesystem. */
module CopyDirectory {
  import opened ByteStrings
  import opened Wrappers
  import opened FreeSpace
  import opened HeapBlocks
  import opened Ramdisk
  import opened RamdiskTool
  import opened RamdiskReader
  import opened TmpfsStore
  import opened TmpfsTree
  import opened TmpfsObjects
  import opened TmpfsHeap
  import opened TmpfsGrowth
  import opened TmpfsEntries
  import opened CopyCosts
  import opened Tmpfs
  import opened CopiedTrees

  const CHUNK := 1024

  lemma NotListedIn(fs: Filesystem, d: nat, name: Bytes)
    requires fs.Valid() && fs.IsDir(d)
    requires forall f :: f in fs.Contents()[d].files && f in fs.Contents() ==> fs.Contents()[f].name != name
    ensures !Listed(fs.inodes, d, name)
  {
    ViewOfDir(fs.Now(), d);
    hide TmpfsStore.Valid, View;
    forall k | 0 <= k < |FilesOf(fs.inodes[d])| && FilesOf(fs.inodes[d])[k] in fs.inodes
      ensures fs.inodes[FilesOf(fs.inodes[d])[k]].name != name
    {
      var f := FilesOf(fs.inodes[d])[k];
      assert f in fs.Contents()[d].files;
    }
    NotListed(fs.inodes, d, name);
  }

  lemma StandsForFile(image: Bytes, node: FsNode, e: Node)
    requires HEADER_SIZE <= |image| && Stands(image, node, e) && e.Regular?
    ensures node.length == |e.contents| < U32 && node.kind == FILE && node.name == e.name
    ensures HeaderOf(image).signature == SIGNATURE
  {
  }

  // What has been copied so far of one file.
  ghost predicate Partly(fs: Filesystem, was: Whole, before: Items, target: nat, e: Node, n: nat)
    requires e.Regular?
    reads fs.Footprint()
  {
    && fs.Valid() && fs.IsFile(target) && n <= |e.contents|
    && target in before && fs.Contents() == before[target := Plain(e.name, e.contents[..n])]
    && |fs.inodes[target].blocks| == FileBlocks(n) && Extends(was, fs.All(), target)
    && target in was.store.inodes && was.store.inodes[target] == File(e.name, 0, 2, [])
  }

  // The contents of a file, chunk by chunk.
  method CopyContents(fs: Filesystem, image: Bytes, node: FsNode, target: nat, ghost e: Node) returns (ok: bool)
    requires HEADER_SIZE <= |image| && Stands(image, node, e) && e.Regular?
    requires fs.Valid() && fs.IsFile(target) && fs.inodes[target] == File(e.name, 0, 2, [])
    requires target in fs.Contents() && fs.Contents()[target] == Plain(e.name, [])
    modifies fs`inodes, fs`objects, fs`reserved, fs`totalBlocks, fs.memory
    modifies fs.heap`live, fs.heap`reserved, fs.heap.memory, fs.pool`lowestAvailable, fs.pool.frames
    ensures old(fs.Room()) >= FileCost(|e.contents|).pages ==> ok
    ensures ok ==> fs.Valid() && fs.IsFile(target) && |fs.inodes[target].blocks| == FileBlocks(|e.contents|)
    ensures ok ==> fs.Contents() == old(fs.Contents())[target := Plain(e.name, e.contents)]
    ensures ok ==> Extends(old(fs.All()), fs.All(), target) && fs.root == old(fs.root) && fs.home == old(fs.home)
  {
    hide TmpfsStore.Valid, TmpfsHeap.Paired, Handles, View, Stands, Longest, Extends, FullSize, Affords;
    ghost var was, before := fs.All(), fs.Contents();
    FileStart(fs, target, FileBlocks(|e.contents|));
    assert e.contents[..0] == [] && e.contents[..|e.contents|] == e.contents;
    assert before[target := Plain(e.name, [])] == before;
    ok := CopyChunks(fs, image, node, target, was, before, e);
  }

  // The chunk loop: read up to 1024 bytes of the image, write them at the same offset.
  method CopyChunks(fs: Filesystem, image: Bytes, node: FsNode, target: nat, ghost was: Whole, ghost before: Items,
                    ghost e: Node) returns (ok: bool)
    requires HEADER_SIZE <= |image| && Stands(image, node, e) && e.Regular?
    requires Partly(fs, was, before, target, e, 0)
    modifies fs`inodes, fs`objects, fs`reserved, fs`totalBlocks, fs.memory
    modifies fs.heap`live, fs.heap`reserved, fs.heap.memory, fs.pool`lowestAvailable, fs.pool.frames
    ensures Affords(was, target, FileBlocks(|e.contents|)) ==> ok
    ensures ok ==> Partly(fs, was, before, target, e, |e.contents|)
    ensures ok ==> fs.root == old(fs.root) && fs.home == old(fs.home)
  {
    hide TmpfsStore.Valid, TmpfsHeap.Paired, Handles, View, Stands, Longest, Extends, FullSize, Affords, FileBlocks;
    StandsForFile(image, node, e);
    var offset, remaining := 0, node.length;
    while remaining != 0
      invariant offset + remaining == |e.contents| && Partly(fs, was, before, target, e, offset)
      invariant fs.root == old(fs.root) && fs.home == old(fs.home)
    {
      var toCopy := if remaining > CHUNK then CHUNK else remaining;
      var buf := Read(image, node, offset, toCopy, e);
      toCopy := |buf|;
      ok := CopyChunk(fs, target, offset, buf, was, before, e);
      if !ok {
        return;
      }
      remaining := remaining - toCopy;
      offset := offset + toCopy;
    }
    ok := true;
  }

  // A new file can have so many blocks if there is a run for them and for the tables on the way.
  lemma FileStart(fs: Filesystem, target: nat, count: nat)
    requires fs.Valid() && fs.IsFile(target) && fs.inodes[target].blocks == [] && fs.inodes[target].pointers == 2
    ensures Extends(fs.All(), fs.All(), target)
    ensures fs.Room() >= FullSize(2, count) ==> Affords(fs.All(), target, count)
  {
    hide Longest, Handles, TmpfsHeap.Paired, TmpfsStore.Valid;
    ValidIsConsistent(fs.Now());
    FileHandle(fs.All(), target);
    ExtendsNot(fs.All(), target);
  }

  method CopyChunk(fs: Filesystem, target: nat, offset: nat, buf: Bytes, ghost was: Whole, ghost before: Items,
                   ghost e: Node) returns (ok: bool)
    requires e.Regular? && Partly(fs, was, before, target, e, offset)
    requires buf != [] && offset + |buf| <= |e.contents| < U32 && buf == e.contents[offset..offset + |buf|]
    modifies fs`inodes, fs`objects, fs`reserved, fs`totalBlocks, fs.memory
    modifies fs.heap`live, fs.heap`reserved, fs.heap.memory, fs.pool`lowestAvailable, fs.pool.frames
    ensures Affords(was, target, FileBlocks(|e.contents|)) ==> ok
    ensures ok ==> Partly(fs, was, before, target, e, offset + |buf|)
    ensures ok ==> fs.root == old(fs.root) && fs.home == old(fs.home)
  {
    hide TmpfsStore.Valid, TmpfsHeap.Paired, Handles, View, Longest, Rewritten, Extends, Affords;
    hide FileBlocks, BlocksNeeded, Elements, Frames;
    var toCopy := |buf|;
    var toWrite := toCopy;
    while toWrite != 0
      invariant toWrite == toCopy || toWrite == 0
      invariant Partly(fs, was, before, target, e, offset + toCopy - toWrite)
      invariant fs.root == old(fs.root) && fs.home == old(fs.home)
    {
      ghost var now, contents := fs.All(), fs.Contents();
      ExtendsFile(was, now, target);
      MoreBlocks(offset, toCopy, |e.contents|);
      ChunkAffords(was, now, target, FileBlocks(|e.contents|), FileBlocks(offset + toCopy));
      assert buf[..toWrite] == buf;
      var written;
      ok, written := fs.Write(target, offset + toCopy - toWrite, buf[..toWrite]);
      if !ok {
        return;
      }
      ChunkAppended(contents, fs.Contents(), before, target, e, offset, buf);
      ExtendsTwice(was, now, fs.All(), target);
      toWrite := toWrite - written;
    }
    ok := true;
  }

  lemma ChunkAffords(was: Whole, now: Whole, target: nat, count: nat, k: nat)
    requires Extends(was, now, target) && target in was.store.inodes && target in now.store.inodes && k <= count
    requires was.store.inodes[target].File? && now.store.inodes[target].File?
    requires |was.store.inodes[target].blocks| == 0 && |now.store.inodes[target].blocks| <= count
    ensures Affords(was, target, count) ==> Affords(now, target, k)
  {
    if Affords(was, target, count) {
      ExtendsAffords(was, now, target, count, k);
    }
  }

  lemma MoreBlocks(offset: nat, size: nat, length: nat)
    requires 0 < size && offset + size <= length
    ensures BlocksNeeded(offset, size) == FileBlocks(offset + size) <= FileBlocks(length)
    ensures FileBlocks(offset) <= FileBlocks(offset + size)
  {
  }

  lemma ChunkAppended(v: Items, w: Items, before: Items, target: nat, e: Node, offset: nat, buf: Bytes)
    requires e.Regular? && offset + |buf| <= |e.contents| && buf == e.contents[offset..offset + |buf|]
    requires v == before[target := Plain(e.name, e.contents[..offset])] && Rewritten(v, w, target, offset, buf)
    ensures w == before[target := Plain(e.name, e.contents[..offset + |buf|])]
  {
    assert Overlay(e.contents[..offset], offset, buf) == e.contents[..offset + |buf|];
  }

  lemma ExtendsFile(was: Whole, now: Whole, target: nat)
    requires Extends(was, now, target)
    ensures target in was.store.inodes && was.store.inodes[target].File?
    ensures target in now.store.inodes && now.store.inodes[target].File?
  {
  }

  // create_fs and the lookup of what it created, which allocates a node.
  method EnterFile(fs: Filesystem, to: nat, name: Bytes) returns (ok: bool, target: nat, node: nat)
    requires fs.Valid() && fs.IsDir(to) && !Listed(fs.inodes, to, name) && |name| <= 256
    modifies fs`inodes, fs`objects, fs`home, fs`reserved
    modifies fs.heap`live, fs.heap`reserved, fs.heap.memory, fs.pool`lowestAvailable, fs.pool.frames
    ensures var n := File(name, 0, 2, []);
      old(fs.Room()) >= ObjectPages(n) + TablePages(old(fs.inodes)[to]) + 1 ==> ok
    ensures ok ==> fs.Valid() && fs.IsDir(to) && fs.root == old(fs.root) && fs.IsFile(target)
    ensures ok ==> fs.inodes[target] == File(name, 0, 2, []) && target !in old(fs.inodes)
    ensures ok ==> EnteredAs(old(fs.All()), fs.All(), to, target, File(name, 0, 2, []), node)
    ensures ok ==> fs.Contents() == Added(old(fs.Contents()), to, target, Plain(name, []))
  {
    hide TmpfsStore.Valid, TmpfsHeap.Paired, Handles, View, Listed, Longest, Entered, Lent, Widened, Borrowed, Finds;
    ghost var was := fs.All();
    ViewOfDir(fs.Now(), to);
    TableIs(fs.inodes, fs.objects, fs.heap.live, to);
    ShortName(name);
    var result;
    ok, result, target := fs.Create(to, name);
    if !ok {
      return false, 0, 0;
    }
    ghost var entered := fs.All();
    EnteredWidened(was, entered, to, target, fs.inodes[target]);
    WidenedRoom(was, entered, to, Cost(0, 3, ObjectPages(fs.inodes[target]) + TablePages(was.store.inodes[to])));
    var found;
    ok, found, node := fs.Finddir(to, name);
    if !ok {
      return;
    }
    FoundAs(fs.Contents(), to, name, found, target);
    LookedUp(was, entered, fs.All(), to, target, fs.inodes[target], node);
  }

  // mkdir_fs and the lookup of what it created, which allocates a node.
  method EnterDirectory(fs: Filesystem, to: nat, name: Bytes) returns (ok: bool, target: nat, node: nat)
    requires fs.Valid() && fs.IsDir(to) && !Listed(fs.inodes, to, name) && name != [] && |name| <= 256
    modifies fs`inodes, fs`objects, fs`home, fs`reserved
    modifies fs.heap`live, fs.heap`reserved, fs.heap.memory, fs.pool`lowestAvailable, fs.pool.frames
    ensures old(fs.Room()) >= ObjectPages(Dir(name, 8, [])) + TablePages(old(fs.inodes)[to]) + 1 ==> ok
    ensures ok ==> fs.Valid() && fs.IsDir(to) && fs.root == old(fs.root) && fs.IsDir(target)
    ensures ok ==> fs.inodes[target] == Dir(name, 8, []) && target !in old(fs.inodes)
    ensures ok ==> EnteredAs(old(fs.All()), fs.All(), to, target, Dir(name, 8, []), node)
    ensures ok ==> fs.Contents() == Added(old(fs.Contents()), to, target, Folder(name, []))
  {
    hide TmpfsStore.Valid, TmpfsHeap.Paired, Handles, View, Listed, Longest, Entered, Lent, Widened, Borrowed, Finds;
    ghost var was := fs.All();
    ViewOfDir(fs.Now(), to);
    TableIs(fs.inodes, fs.objects, fs.heap.live, to);
    ShortName(name);
    var result;
    ok, result, target := fs.Mkdir(to, name);
    if !ok {
      return false, 0, 0;
    }
    ghost var entered := fs.All();
    EnteredWidened(was, entered, to, target, fs.inodes[target]);
    WidenedRoom(was, entered, to, Cost(0, 3, ObjectPages(fs.inodes[target]) + TablePages(was.store.inodes[to])));
    var found;
    ok, found, node := fs.Finddir(to, name);
    if !ok {
      return;
    }
    FoundAs(fs.Contents(), to, name, found, target);
    LookedUp(was, entered, fs.All(), to, target, fs.inodes[target], node);
  }

  lemma FoundAs(v: Items, d: nat, name: Bytes, found: Option<nat>, f: nat)
    requires Finds(v, d, name, found) && d in v && v[d].Folder? && f in v[d].files && f in v && v[f].name == name
    ensures found == Some(f)
  {
    assert Named(v, d, name, f);
  }

  lemma ShortName(name: Bytes)
    requires |name| <= 256
    ensures Pages(|name| + 1) == 1 && Pages(DIRENT_SIZE) == 1 && Pages(NODE_SIZE) == 1
  {
  }

  // A new entry of directory d, whose node the caller has.
  ghost predicate EnteredAs(a: Whole, b: Whole, d: nat, f: nat, n: Inode, node: nat) {
    && d in a.store.inodes && d in a.objects && f !in a.objects && f in b.objects && b.objects[f].table !in a.heap.live
    && Widened(a, b, d, Cost(0, 4, ObjectPages(n) + TablePages(a.store.inodes[d]) + 1))
    && Borrowed(b, node) && (node in a.heap.live ==> node == a.objects[d].table)
  }

  lemma EnteredRoom(a: Whole, b: Whole, d: nat, f: nat, n: Inode, node: nat)
    requires EnteredAs(a, b, d, f, n, node)
    ensures Room(b) + ObjectPages(n) + TablePages(a.store.inodes[d]) + 1 >= Room(a)
  {
    hide Longest, Beside;
  }

  lemma JustAdded(v: Items, d: nat, f: nat, item: Item)
    requires d in v && v[d].Folder? && f !in v
    ensures f in Added(v, d, f, item) && Added(v, d, f, item)[f] == item
  {
  }

  lemma LookedUp(a: Whole, b: Whole, c: Whole, d: nat, f: nat, n: Inode, node: nat)
    requires d in a.store.inodes && f !in a.objects && f in b.objects && b.objects[f].table !in a.heap.live
    requires Widened(a, b, d, Cost(0, 3, ObjectPages(n) + TablePages(a.store.inodes[d]))) && Lent(b, c, NODE_SIZE, node)
    ensures EnteredAs(a, c, d, f, n, node)
  {
    hide Longest, Beside, InObject;
    LentWidened(a, b, c, d, Cost(0, 3, ObjectPages(n) + TablePages(a.store.inodes[d])), NODE_SIZE, node);
    ShortName([]);
  }

  // A file of the image: create it, look it up, copy its contents.
  method CopyFile(fs: Filesystem, image: Bytes, to: nat, node: FsNode, ghost e: Node) returns (ok: bool, ghost f: nat)
    requires fs.Valid() && fs.IsDir(to) && !Listed(fs.inodes, to, e.name)
    requires HEADER_SIZE <= |image| && Stands(image, node, e) && e.Regular?
    modifies fs`inodes, fs`objects, fs`home, fs`reserved, fs`totalBlocks, fs.memory
    modifies fs.heap`live, fs.heap`reserved, fs.heap.memory, fs.pool`lowestAvailable, fs.pool.frames
    ensures old(fs.Room()) >= CopyCost(e, old(fs.inodes)[to]).pages ==> ok
    ensures ok ==> fs.Valid() && fs.IsDir(to) && fs.root == old(fs.root)
    ensures ok ==> Copied(old(fs.Contents()), fs.Contents(), to, f, e)
    ensures ok ==> Widened(old(fs.All()), fs.All(), to, CopyCost(e, old(fs.inodes)[to]))
  {
    hide TmpfsStore.Valid, TmpfsHeap.Paired, Handles, View, Stands, Listed, Longest, Extends, Widened, InObject;
    hide Returned, EnteredAs, Copied, Added, CopyCost, FileBlocks, FullSize;
    StandsForFile(image, node, e);
    StandsForNode(image, node, e);
    CostParts(e, fs.inodes[to]);
    ghost var was, before := fs.All(), fs.Contents();
    ViewOfDir(fs.Now(), to);
    var target, lent;
    ok, target, lent := EnterFile(fs, to, node.name);
    if !ok {
      return false, 0;
    }
    ghost var entered, added := fs.All(), fs.Contents();
    EnteredRoom(was, entered, to, target, InodeOf(e), lent);
    JustAdded(before, to, target, Plain(e.name, []));
    ok := CopyContents(fs, image, node, target, e);
    if !ok {
      return false, 0;
    }
    ghost var filled := fs.All();
    FileFilled(was, entered, filled, to, target, e, lent);
    fs.GiveBack(lent);
    FileClosed(was, filled, fs.All(), to, e, lent);
    f := target;
    FileCopied(before, added, fs.Contents(), to, f, e);
    CopiedKeeps(before, fs.Contents(), to, f, e);
    StillDir(fs, to);
  }

  // What copying e into a directory costs beside what was read from the image.
  ghost function CopyCost(e: Node, dir: Inode): Cost {
    var entry := Cost(0, 3, 1 + ObjectPages(InodeOf(e)) + TablePages(dir));
    match e
    case Regular(_, contents) => Plus(entry, FileCost(|contents|))
    case Directory(_, listing) => Plus(entry, TreeCost(StripAll(listing)))
  }

  lemma CostParts(e: Node, dir: Inode)
    requires e.Regular?
    ensures CopyCost(e, dir).pages ==
      1 + ObjectPages(File(e.name, 0, 2, [])) + TablePages(dir) + FileCost(|e.contents|).pages
  {
  }

  lemma FileFilled(a: Whole, b: Whole, c: Whole, d: nat, f: nat, e: Node, node: nat)
    requires e.Regular? && EnteredAs(a, b, d, f, InodeOf(e), node) && Extends(b, c, f)
    requires b.store.inodes[f] == File(e.name, 0, 2, []) && |c.store.inodes[f].blocks| == FileBlocks(|e.contents|)
    ensures Widened(a, c, d, Plus(CopyCost(e, a.store.inodes[d]), Cost(0, 1, 0))) && Borrowed(c, node)
    ensures node in a.heap.live ==> node == a.objects[d].table
  {
    hide Longest, Beside;
    GrewWidened(a, b, c, d, f, Cost(0, 4, ObjectPages(InodeOf(e)) + TablePages(a.store.inodes[d]) + 1),
      FileBlocks(|e.contents|));
    BorrowedOver(b, c, f, node);
  }

  lemma BorrowedOver(b: Whole, c: Whole, f: nat, node: nat)
    requires Extends(b, c, f) && Borrowed(b, node)
    ensures Borrowed(c, node)
  {
    hide Longest, Payload, Rest, Parts;
    TablePartOf(f, b.store.inodes[f], b.objects[f]);
    assert InObject(b, b.objects[f].table);
  }

  lemma FileClosed(a: Whole, b: Whole, c: Whole, d: nat, e: Node, node: nat)
    requires d in a.store.inodes && Widened(a, b, d, Plus(CopyCost(e, a.store.inodes[d]), Cost(0, 1, 0)))
    requires Returned(b, c, node) && (node in a.heap.live ==> node == a.objects[d].table)
    ensures Widened(a, c, d, CopyCost(e, a.store.inodes[d]))
  {
    hide Longest, Beside;
    ReturnedWidened(a, b, c, d, Plus(CopyCost(e, a.store.inodes[d]), Cost(0, 1, 0)), node);
  }

  lemma StillDir(fs: Filesystem, d: nat)
    requires fs.Valid() && d in fs.Contents() && fs.Contents()[d].Folder?
    ensures fs.IsDir(d) && fs.inodes[d].files == fs.Contents()[d].files
  {
    hide TmpfsStore.Consistent, Flat;
  }

  // One new entry at the end of directory d: f, a copy of e.
  ghost predicate Copied(a: Items, b: Items, d: nat, f: nat, e: Node) {
    && Untouched(a, b, d) && b[d].files == a[d].files + [f]
    && Child(b, f, Strip(e), b.Keys - a.Keys)
  }

  lemma CopiedKeeps(a: Items, b: Items, d: nat, f: nat, e: Node)
    requires Copied(a, b, d, f, e)
    ensures d in b && b[d].Folder?
  {
    hide Child;
  }

  lemma FileCopied(a: Items, b: Items, c: Items, d: nat, f: nat, e: Node)
    requires d in a && a[d].Folder? && f !in a && e.Regular?
    requires b == Added(a, d, f, Plain(e.name, [])) && c == b[f := Plain(e.name, e.contents)]
    ensures Copied(a, c, d, f, e)
  {
  }

  lemma DirectoryCopied(a: Items, b: Items, c: Items, d: nat, f: nat, e: Node)
    requires d in a && a[d].Folder? && f !in a && e.Directory?
    requires b == Added(a, d, f, Folder(e.name, [])) && Untouched(b, c, f)
    requires Holds(c, f, StripAll(e.listing), c.Keys - b.Keys)
    ensures Copied(a, c, d, f, e)
  {
    assert forall p :: p in a ==> p in b && (p != d ==> b[p] == a[p]) && p in c;
    assert c.Keys - b.Keys <= c.Keys - a.Keys;
    HoldsMore(c, f, StripAll(e.listing), c.Keys - b.Keys, c.Keys - a.Keys);
  }

  // The first i entries of a listing are copied into directory to.
  ghost predicate Progress(fs: Filesystem, was: Whole, before: Items, to: nat, c: seq<Node>, i: nat)
    reads fs.Footprint()
  {
    && fs.Valid() && fs.IsDir(to) && i <= |c|
    && Untouched(before, fs.Contents(), to)
    && Holds(fs.Contents(), to, c[..i], fs.Contents().Keys - before.Keys)
    && Widened(was, fs.All(), to, TreeCost(c[..i]))
  }

  lemma ProgressStart(fs: Filesystem, to: nat, c: seq<Node>)
    requires fs.Valid() && fs.IsDir(to) && fs.inodes[to].files == []
    ensures Progress(fs, fs.All(), fs.Contents(), to, c, 0)
  {
    hide TmpfsStore.Valid, TmpfsHeap.Paired, Handles, View, Widened;
    ViewOfDir(fs.Now(), to);
    TableIs(fs.inodes, fs.objects, fs.heap.live, to);
    WidenedNot(fs.All(), to);
    assert c[..0] == [];
  }

  lemma ProgressEnd(fs: Filesystem, was: Whole, before: Items, to: nat, c: seq<Node>)
    requires Progress(fs, was, before, to, c, |c|)
    ensures fs.Valid() && fs.IsDir(to) && Untouched(before, fs.Contents(), to)
    ensures Holds(fs.Contents(), to, c, fs.Contents().Keys - before.Keys) && Widened(was, fs.All(), to, TreeCost(c))
  {
    hide TmpfsStore.Valid, TmpfsHeap.Paired, Handles, View, Widened;
    assert c[..|c|] == c;
  }

  // What an iteration needs: the next name is free, and so is what the entry costs.
  lemma ProgressNext(fs: Filesystem, was: Whole, before: Items, to: nat, ls: seq<Node>, i: nat)
    requires Progress(fs, was, before, to, StripAll(ls), i) && i < |Reals(ls)| && Nameable(ls) && Tidy(ls)
    ensures fs.Valid() && fs.IsDir(to) && !Listed(fs.inodes, to, Reals(ls)[i].name) && |fs.inodes[to].files| == i
    ensures Room(was) >= TreeCost(StripAll(ls)).pages ==> fs.Room() >= NodeCost(Strip(Reals(ls)[i]), i).pages
    ensures Copyable(Reals(ls)[i]) && Strip(Reals(ls)[i]).name == Reals(ls)[i].name
  {
    hide TmpfsStore.Valid, TmpfsHeap.Paired, Handles, View, Listed, Reals, StripAll, Nameable, Tidy, Longest, Beside;
    hide Copyable;
    var rs, c := Reals(ls), StripAll(ls);
    NamesApartIn(ls);
    StripIsReal(ls);
    RealCopyable(ls, i);
    ViewOfDir(fs.Now(), to);
    TreeCostStep(c, i);
    forall f | f in fs.Contents()[to].files ensures f in fs.Contents() && fs.Contents()[f].name != rs[i].name {
      NextName(fs.Contents(), to, rs, i, c, fs.Contents().Keys - before.Keys, f);
    }
    NotListedIn(fs, to, rs[i].name);
  }

  lemma NamesApartIn(ls: seq<Node>)
    requires Nameable(ls)
    ensures DistinctNames(Reals(ls))
  {
  }

  // Entry e, number i, is copied.
  lemma ProgressStep(fs: Filesystem, was: Whole, prev: Whole, before: Items, prior: Items, to: nat, c: seq<Node>,
                     i: nat, f: nat, e: Node)
    requires i < |c| && c[i] == Strip(e) && fs.Valid() && fs.IsDir(to)
    requires Untouched(before, prior, to) && Holds(prior, to, c[..i], prior.Keys - before.Keys)
    requires Widened(was, prev, to, TreeCost(c[..i])) && Widened(prev, fs.All(), to, NodeCost(Strip(e), i))
    requires Copied(prior, fs.Contents(), to, f, e)
    ensures Progress(fs, was, before, to, c, i + 1)
  {
    hide TmpfsStore.Valid, TmpfsHeap.Paired, Handles, View, Holds, Child, Widened;
    TreeCostStep(c, i);
    WidenedTwice(was, prev, fs.All(), to, TreeCost(c[..i]), NodeCost(Strip(e), i));
    OneMoreHeld(before, prior, fs.Contents(), to, c[..i], f, Strip(e));
    assert c[..i + 1] == c[..i] + [c[i]];
  }

  lemma Directories(image: Bytes, from: FsNode, rs: seq<Node>)
    requires DirectoryAt(image, from, rs)
    ensures HEADER_SIZE <= |image| && Usable(image, from) && |rs| <= |image| < U32
  {
    ManyEntries(rs);
  }

  lemma {:induction false} ManyEntries(rs: seq<Node>)
    requires forall j :: 0 <= j < |rs| ==> !IsDot(rs[j])
    ensures ListSize(rs) >= |rs|
    decreases |rs|
  {
    if rs != [] {
      ManyEntries(rs[..|rs| - 1]);
    }
  }

  // copy_directory, into an empty directory of the tmpfs. If no request for memory fails, the
  // tree is there; none fails if there is a free run as long as all that is requested.
  method CopyTree(fs: Filesystem, image: Bytes, to: nat, from: FsNode, ghost ls: seq<Node>) returns (ok: bool)
    requires fs.Valid() && fs.IsDir(to) && fs.inodes[to].files == []
    requires DirectoryAt(image, from, Reals(ls)) && Tidy(ls) && Nameable(ls)
    modifies fs`inodes, fs`objects, fs`home, fs`reserved, fs`totalBlocks, fs.memory
    modifies fs.heap`live, fs.heap`reserved, fs.heap.memory, fs.pool`lowestAvailable, fs.pool.frames
    ensures old(fs.Room()) >= TreeCost(StripAll(ls)).pages ==> ok
    ensures ok ==> fs.Valid() && fs.IsDir(to) && fs.root == old(fs.root)
    ensures ok ==> Untouched(old(fs.Contents()), fs.Contents(), to)
    ensures ok ==> Holds(fs.Contents(), to, StripAll(ls), fs.Contents().Keys - old(fs.Contents()).Keys)
    ensures ok ==> Widened(old(fs.All()), fs.All(), to, TreeCost(StripAll(ls)))
    decreases ls, 1, 0
  {
    hide TmpfsStore.Valid, TmpfsHeap.Paired, Handles, View, Holds, DirectoryAt, Tidy, Nameable, Reals, Untouched;
    hide StripAll, TreeCost, Widened, Longest, StaysInside, Walked, NameAt, EntryAt, Start;
    ghost var rs, c, was, before := Reals(ls), StripAll(ls), fs.All(), fs.Contents();
    StripIsReal(ls);
    Directories(image, from, rs);
    ProgressStart(fs, to, c);
    var i := 0;
    while true
      invariant i <= |rs| && fs.root == old(fs.root)
      invariant Progress(fs, was, before, to, c, i)
      decreases |rs| - i
    {
      DirectoryListed(image, from, rs, i);
      var dirent := Readdir(image, from, i);
      if dirent.None? {
        break;
      }
      ok := CopyEntry(fs, image, to, from, dirent.value, was, before, ls, i);
      if !ok {
        return;
      }
      i := i + 1;
    }
    ProgressEnd(fs, was, before, to, c);
    ok := true;
  }

  // One iteration: look the name up, then copy what is there.
  method CopyEntry(fs: Filesystem, image: Bytes, to: nat, from: FsNode, name: Bytes, ghost was: Whole,
                   ghost before: Items, ghost ls: seq<Node>, ghost i: nat) returns (ok: bool)
    requires Progress(fs, was, before, to, StripAll(ls), i)
    requires DirectoryAt(image, from, Reals(ls)) && Tidy(ls) && Nameable(ls) && i < |Reals(ls)|
    requires name == Reals(ls)[i].name
    modifies fs`inodes, fs`objects, fs`home, fs`reserved, fs`totalBlocks, fs.memory
    modifies fs.heap`live, fs.heap`reserved, fs.heap.memory, fs.pool`lowestAvailable, fs.pool.frames
    ensures Room(was) >= TreeCost(StripAll(ls)).pages ==> ok
    ensures ok ==> Progress(fs, was, before, to, StripAll(ls), i + 1) && fs.root == old(fs.root)
    decreases ls, 0, 1
  {
    hide TmpfsStore.Valid, TmpfsHeap.Paired, Handles, View, Holds, DirectoryAt, Tidy, Nameable, Reals, Untouched;
    hide StripAll, TreeCost, Widened, Longest, Listed, NodeCost, Copied, InObject;
    StripIsReal(ls);
    ProgressNext(fs, was, before, to, ls, i);
    ghost var prev, prior := fs.All(), fs.Contents();
    ghost var f;
    ok, f := CopyNamed(fs, image, to, from, name, ls, i);
    if ok {
      ProgressStep(fs, was, prev, before, prior, to, StripAll(ls), i, f, Reals(ls)[i]);
    }
  }

  // The directory entry and the node are blocks of the heap until the iteration's end.
  method CopyNamed(fs: Filesystem, image: Bytes, to: nat, from: FsNode, name: Bytes, ghost ls: seq<Node>, ghost i: nat)
    returns (ok: bool, ghost f: nat)
    requires DirectoryAt(image, from, Reals(ls)) && Nameable(ls) && i < |Reals(ls)| && name == Reals(ls)[i].name
    requires fs.Valid() && fs.IsDir(to) && !Listed(fs.inodes, to, name) && |fs.inodes[to].files| == i
    requires Copyable(Reals(ls)[i])
    modifies fs`inodes, fs`objects, fs`home, fs`reserved, fs`totalBlocks, fs.memory
    modifies fs.heap`live, fs.heap`reserved, fs.heap.memory, fs.pool`lowestAvailable, fs.pool.frames
    ensures old(fs.Room()) >= NodeCost(Strip(Reals(ls)[i]), i).pages ==> ok
    ensures ok ==> fs.Valid() && fs.IsDir(to) && fs.root == old(fs.root)
    ensures ok ==> Copied(old(fs.Contents()), fs.Contents(), to, f, Reals(ls)[i])
    ensures ok ==> Widened(old(fs.All()), fs.All(), to, NodeCost(Strip(Reals(ls)[i]), i))
    decreases ls, 0, 0
  {
    hide TmpfsStore.Valid, TmpfsHeap.Paired, Handles, View, DirectoryAt, Nameable, Reals, Copyable, Strip;
    hide Widened, Longest, Stands, Listed, Lent, Returned, NodeCost, Copied, CopyCost, InObject;
    ghost var e, prev := Reals(ls)[i], fs.All();
    ghost var n := RealIndex(ls, i);
    Directories(image, from, Reals(ls));
    EntryFits(e, i, fs.Now(), to);
    TableIs(fs.inodes, fs.objects, fs.heap.live, to);
    var dirent, lent;
    ok, dirent := fs.Lend(DIRENT_SIZE);
    if !ok {
      return false, 0;
    }
    ghost var first := fs.All();
    LentFacts(prev, first, DIRENT_SIZE, dirent);
    var found, which := Finddir(image, from, name, Reals(ls));
    SameName(ls, which, i);
    ok, lent := fs.Lend(NODE_SIZE);
    if !ok {
      return false, 0;
    }
    ghost var second := fs.All();
    BothLent(prev, first, second, to, dirent, lent);
    ok, f := CopyNode(fs, image, to, found.value, e);
    if !ok {
      return;
    }
    CloseEntry(fs, prev, second, to, e, i, dirent, lent);
  }

  // free(dirent); free(node);
  method CloseEntry(fs: Filesystem, ghost prev: Whole, ghost lent: Whole, to: nat, ghost e: Node, ghost i: nat,
                    dirent: nat, node: nat)
    requires fs.Valid() && to in prev.objects && to in prev.store.inodes && to in lent.store.inodes && node != dirent
    requires Widened(prev, lent, to, Cost(0, 2, 2)) && Borrowed(lent, dirent) && Borrowed(lent, node)
    requires Widened(lent, fs.All(), to, CopyCost(e, prev.store.inodes[to]))
    requires dirent in prev.heap.live ==> dirent == prev.objects[to].table
    requires node in prev.heap.live ==> node == prev.objects[to].table
    requires EntryCovers(e, i, prev.store.inodes[to])
    modifies fs`reserved, fs.heap`live, fs.heap`reserved, fs.pool`lowestAvailable, fs.pool.frames
    ensures fs.Valid() && fs.Contents() == old(fs.Contents())
    ensures Widened(prev, fs.All(), to, NodeCost(Strip(e), i))
  {
    hide TmpfsStore.Valid, TmpfsHeap.Paired, Handles, View, Widened, Longest, Returned, NodeCost, CopyCost, InObject;
    ghost var copied, cost := fs.All(), CopyCost(e, prev.store.inodes[to]);
    EntryCopied(prev, lent, copied, to, cost, dirent, node);
    fs.GiveBack(dirent);
    ghost var third := fs.All();
    ReturnedBorrowed(copied, third, dirent, node);
    fs.GiveBack(node);
    EntryClosed(prev, copied, third, fs.All(), to, cost, dirent, node);
    EntryCosts(prev, fs.All(), to, e, i);
  }

  // The directory entry and the node are lent.
  lemma BothLent(a: Whole, b: Whole, c: Whole, d: nat, dirent: nat, node: nat)
    requires d in a.objects && Lent(a, b, DIRENT_SIZE, dirent) && Lent(b, c, NODE_SIZE, node)
    ensures Widened(a, c, d, Cost(0, 2, 2)) && Borrowed(c, dirent) && Borrowed(c, node) && node != dirent
    ensures dirent in a.heap.live ==> dirent == a.objects[d].table
    ensures node in a.heap.live ==> node == a.objects[d].table
    ensures c.store.inodes == a.store.inodes && Room(b) + 1 >= Room(a) && Room(c) + 2 >= Room(a)
  {
    hide Longest, Lent, Widened, InObject, Pages;
    ShortName([]);
    LentFacts(a, b, DIRENT_SIZE, dirent);
    LentFacts(b, c, NODE_SIZE, node);
    WidenedNot(a, d);
    LentWidened(a, a, b, d, Cost(0, 0, 0), DIRENT_SIZE, dirent);
    LentWidened(a, b, c, d, Cost(0, 1, 1), NODE_SIZE, node);
    LentBorrowed(b, c, dirent, node);
  }

  lemma LentBorrowed(b: Whole, c: Whole, dirent: nat, node: nat)
    requires Borrowed(b, dirent) && Lent(b, c, NODE_SIZE, node)
    ensures Borrowed(c, dirent)
  {
    hide Longest, Payload, Rest, InObject, Pages;
  }

  lemma EntryCopied(a: Whole, b: Whole, c: Whole, d: nat, cost: Cost, dirent: nat, node: nat)
    requires Widened(a, b, d, Cost(0, 2, 2)) && Widened(b, c, d, cost) && d in b.store.inodes
    requires Borrowed(b, dirent) && Borrowed(b, node)
    ensures Widened(a, c, d, Plus(Cost(0, 2, 2), cost)) && Borrowed(c, dirent) && Borrowed(c, node)
  {
    hide Widened, InObject;
    WidenedTwice(a, b, c, d, Cost(0, 2, 2), cost);
    StillBorrowed(b, c, d, cost, dirent);
    StillBorrowed(b, c, d, cost, node);
  }

  lemma EntryClosed(a: Whole, c: Whole, b: Whole, e: Whole, d: nat, cost: Cost, dirent: nat, node: nat)
    requires Widened(a, c, d, Plus(Cost(0, 2, 2), cost)) && Returned(c, b, dirent) && Returned(b, e, node)
    requires d in a.objects && (dirent in a.heap.live ==> dirent == a.objects[d].table)
    requires node in a.heap.live ==> node == a.objects[d].table
    ensures Widened(a, e, d, Cost(cost.blocks, cost.kept, cost.pages + 2))
  {
    hide Widened, Returned;
    ReturnedWidened(a, c, b, d, Plus(Cost(0, 2, 2), cost), dirent);
    ReturnedWidened(a, b, e, d, Plus(Plus(Cost(0, 2, 2), cost), Cost(0, -1, 0)), node);
  }

  // The room for entry number i covers what its copy asks for.
  lemma EntryFits(e: Node, i: nat, s: Store, d: nat)
    requires TmpfsStore.Valid(s) && d in s.inodes && s.inodes[d].Dir? && |s.inodes[d].files| == i
    ensures EntryCovers(e, i, s.inodes[d])
    ensures Pages(DIRENT_SIZE) == 1 && Pages(NODE_SIZE) == 1
  {
    hide TmpfsStore.Valid, StripAll, TreeCost;
    CapacityAt(s, d);
    ShortName([]);
  }

  ghost predicate EntryCovers(e: Node, i: nat, dir: Inode) {
    var cost, most := CopyCost(e, dir), NodeCost(Strip(e), i);
    most.blocks == cost.blocks && most.kept == cost.kept && most.pages >= cost.pages + 2
  }

  lemma EntryCosts(a: Whole, b: Whole, d: nat, e: Node, i: nat)
    requires d in a.store.inodes && EntryCovers(e, i, a.store.inodes[d])
    requires var cost := CopyCost(e, a.store.inodes[d]); Widened(a, b, d, Cost(cost.blocks, cost.kept, cost.pages + 2))
    ensures Widened(a, b, d, NodeCost(Strip(e), i))
  {
    hide CopyCost, NodeCost, Widened;
    var cost := CopyCost(e, a.store.inodes[d]);
    LedgerMore(a, b, d, Cost(cost.blocks, cost.kept, cost.pages + 2), NodeCost(Strip(e), i));
  }

  lemma KindOf(image: Bytes, node: FsNode, e: Node)
    requires Stands(image, node, e)
    ensures node.kind == FILE <==> e.Regular?
    ensures e.Regular? ==> Strip(e) == e
  {
  }

  lemma SameName(ls: seq<Node>, i: nat, j: nat)
    requires Nameable(ls) && i < |Reals(ls)| && j < |Reals(ls)| && Reals(ls)[i].name == Reals(ls)[j].name
    ensures i == j
  {
    assert DistinctNames(Reals(ls));
  }

  method CopyNode(fs: Filesystem, image: Bytes, to: nat, node: FsNode, ghost e: Node) returns (ok: bool, ghost f: nat)
    requires fs.Valid() && fs.IsDir(to) && !Listed(fs.inodes, to, e.name)
    requires HEADER_SIZE <= |image| && Stands(image, node, e) && Copyable(e)
    modifies fs`inodes, fs`objects, fs`home, fs`reserved, fs`totalBlocks, fs.memory
    modifies fs.heap`live, fs.heap`reserved, fs.heap.memory, fs.pool`lowestAvailable, fs.pool.frames
    ensures old(fs.Room()) >= CopyCost(e, old(fs.inodes)[to]).pages ==> ok
    ensures ok ==> fs.Valid() && fs.IsDir(to) && fs.root == old(fs.root)
    ensures ok ==> Copied(old(fs.Contents()), fs.Contents(), to, f, e)
    ensures ok ==> Widened(old(fs.All()), fs.All(), to, CopyCost(e, old(fs.inodes)[to]))
    decreases e, 2, 0
  {
    hide TmpfsStore.Valid, TmpfsHeap.Paired, Handles, View, Stands, Listed, Longest, Widened, Copied, CopyCost;
    KindOf(image, node, e);
    if node.kind == FILE {
      ok, f := CopyFile(fs, image, to, node, e);
    } else {
      ok, f := CopySubdirectory(fs, image, to, node, e);
    }
  }

  // A directory of the image: create it, look it up, copy what is below.
  method CopySubdirectory(fs: Filesystem, image: Bytes, to: nat, node: FsNode, ghost e: Node) returns (ok: bool,
                          ghost f: nat)
    requires fs.Valid() && fs.IsDir(to) && !Listed(fs.inodes, to, e.name)
    requires Stands(image, node, e) && e.Directory? && Copyable(e)
    modifies fs`inodes, fs`objects, fs`home, fs`reserved, fs`totalBlocks, fs.memory
    modifies fs.heap`live, fs.heap`reserved, fs.heap.memory, fs.pool`lowestAvailable, fs.pool.frames
    ensures old(fs.Room()) >= CopyCost(e, old(fs.inodes)[to]).pages ==> ok
    ensures ok ==> fs.Valid() && fs.IsDir(to) && fs.root == old(fs.root)
    ensures ok ==> Copied(old(fs.Contents()), fs.Contents(), to, f, e)
    ensures ok ==> Widened(old(fs.All()), fs.All(), to, CopyCost(e, old(fs.inodes)[to]))
    decreases e, 1, 0
  {
    hide TmpfsStore.Valid, TmpfsHeap.Paired, Handles, View, Stands, Listed, Holds, DirectoryAt, Tidy, Nameable, Reals;
    hide Longest, Widened, InObject, Returned, Untouched, EnteredAs, Copied, Added, StripAll, TreeCost;
    StandsForNode(image, node, e);
    StandsForDirectory(image, node, e);
    ghost var was, before := fs.All(), fs.Contents();
    ViewOfDir(fs.Now(), to);
    var target, lent;
    ok, target, lent := EnterDirectory(fs, to, node.name);
    if !ok {
      return false, 0;
    }
    ghost var entered, added := fs.All(), fs.Contents();
    EnteredRoom(was, entered, to, target, InodeOf(e), lent);
    JustAdded(before, to, target, Folder(e.name, []));
    ok := CopyTree(fs, image, target, node, e.listing);
    if !ok {
      return false, 0;
    }
    ghost var filled := fs.All();
    DirectoryFilled(was, entered, filled, to, target, e, lent);
    fs.GiveBack(lent);
    FileClosed(was, filled, fs.All(), to, e, lent);
    f := target;
    DirectoryCopied(before, added, fs.Contents(), to, f, e);
    CopiedKeeps(before, fs.Contents(), to, f, e);
    StillDir(fs, to);
  }

  lemma StandsForNode(image: Bytes, node: FsNode, e: Node)
    requires Stands(image, node, e)
    ensures node.name == e.name && |e.name| <= 256
  {
    var more :| Records(image, node.context, e, more);
    CStringFits(EntryAt(image, node.context).name);
  }

  lemma DirectoryFilled(a: Whole, b: Whole, c: Whole, d: nat, f: nat, e: Node, node: nat)
    requires e.Directory? && EnteredAs(a, b, d, f, InodeOf(e), node) && f in b.store.inodes
    requires Widened(b, c, f, TreeCost(StripAll(e.listing)))
    ensures Widened(a, c, d, Plus(CopyCost(e, a.store.inodes[d]), Cost(0, 1, 0))) && Borrowed(c, node)
    ensures node in a.heap.live ==> node == a.objects[d].table
  {
    hide Longest, Beside;
    FilledWidened(a, b, c, d, f, Cost(0, 4, ObjectPages(InodeOf(e)) + TablePages(a.store.inodes[d]) + 1),
      TreeCost(StripAll(e.listing)));
    StillBorrowed(b, c, f, TreeCost(StripAll(e.listing)), node);
  }

  // The whole way of the boot files: written by the host tool, copied into an empty root.
  method Boot(volume: Bytes, ls: seq<Node>, fs: Filesystem) returns (ok: bool)
    requires |volume| == 16 && HostListing(ls) && HEADER_SIZE + ENTRY_SIZE + ListSize(ls) < U32
    requires Tidy(ls) && Nameable(ls) && Reals(ls) != []
    requires fs.Valid() && fs.IsDir(fs.root) && fs.inodes[fs.root].files == []
    modifies fs`inodes, fs`objects, fs`home, fs`reserved, fs`totalBlocks, fs.memory
    modifies fs.heap`live, fs.heap`reserved, fs.heap.memory, fs.pool`lowestAvailable, fs.pool.frames
    ensures old(fs.Room()) >= TreeCost(StripAll(ls)).pages ==> ok
    ensures ok ==> fs.Valid() && fs.root == old(fs.root)
    ensures ok ==> Holds(fs.Contents(), fs.root, StripAll(ls), fs.Contents().Keys - old(fs.Contents()).Keys)
    ensures ok ==> fs.totalBlocks == old(fs.totalBlocks) + TreeBlocks(StripAll(ls))
    ensures ok ==> |fs.heap.live| == |old(fs.heap.live)| + 3 * TreeNodes(StripAll(ls))
    ensures ok ==> Rest(fs.All()) == old(Rest(fs.All()))
  {
    hide TmpfsStore.Valid, TmpfsHeap.Paired, Handles, View, Tidy, Nameable, Reals, Holds, HostListing, IsImage, Longest;
    hide DirectoryAt, ListSize, TreeCost, StripAll, Untouched, Rest;
    var file := new ImageFile();
    file.WriteImage(volume, ls);
    RootDirectory(file.data, ls);
    ok := CopyTree(fs, file.data, fs.root, ROOT, ls);
    TreeCostIs(StripAll(ls));
  }
}
