/** How entries come and go: the heap blocks of an inode, and those lent to callers. */
module TmpfsEntries {
  import opened ByteStrings
  import opened FramePool
  import opened FreeSpace
  import opened HeapBlocks
  import opened TmpfsStore
  import opened TmpfsTree
  import opened TmpfsObjects
  import opened TmpfsOps
  import opened TmpfsHeap
  import HeapOps

  // ---- New entries ----

  // What the mallocs for a new inode ask for, in pages.
  function ObjectPages(n: Inode): nat {
    Pages(StructSize(n)) + Pages(|n.name| + 1) + Pages(TableSize(n)) + (if n.Link? then Pages(|n.target| + 1) else 0)
  }

  // The realloc for a directory that is full.
  function TablePages(n: Inode): nat {
    if n.Dir? && |n.files| >= n.capacity then Pages((n.capacity + 8) * POINTER_SIZE) else 0
  }

  // The blocks of a new inode are there.
  ghost predicate Objected(a: Whole, b: Whole, f: nat, n: Inode, o: Object) {
    && Undisturbed(a, b) && Separate(f, n, o) && Parts(f, n, o).Keys !! a.heap.live.Keys
    && b.heap.live == a.heap.live + Parts(f, n, o)
    && SamePayloads(a.heap.live, a.heap.memory, b.heap.memory) && Room(b) + ObjectPages(n) >= Room(a)
  }

  lemma ObjectDone(a: Whole, b: Whole, c: Whole, d: Whole, e: Whole, f: nat, n: Inode, o: Object)
    requires Allocated(a, b, StructSize(n), f) && Allocated(b, c, |n.name| + 1, o.name)
    requires Allocated(c, d, TableSize(n), o.table)
    requires if n.Link? then Allocated(d, e, |n.target| + 1, o.target) else e == d
    ensures Objected(a, e, f, n, o)
  {
    hide Paired, Rest, Longest, Pages, TableSize, StructSize, SamePayloads, Parts, Separate;
    OneByOne(a.heap.live, f, n, o);
    SamePayloadsLonger(a.heap.live, b.heap.live, a.heap.memory, b.heap.memory, c.heap.memory);
    SamePayloadsLonger(a.heap.live, c.heap.live, a.heap.memory, c.heap.memory, d.heap.memory);
    if n.Link? {
      SamePayloadsLonger(a.heap.live, d.heap.live, a.heap.memory, d.heap.memory, e.heap.memory);
    }
  }

  lemma OneByOne(live: Blocks, f: nat, n: Inode, o: Object)
    requires f !in live && o.name !in live[f := StructSize(n)]
    requires o.table !in live[f := StructSize(n)][o.name := |n.name| + 1]
    requires n.Link? ==> o.target !in live[f := StructSize(n)][o.name := |n.name| + 1][o.table := TableSize(n)]
    ensures Separate(f, n, o) && Parts(f, n, o).Keys !! live.Keys
    ensures var three := live[f := StructSize(n)][o.name := |n.name| + 1][o.table := TableSize(n)];
      live + Parts(f, n, o) == if n.Link? then three[o.target := |n.target| + 1] else three
  {
    hide TableSize, StructSize;
  }

  lemma SamePayloadsLonger(live: Blocks, more: Blocks, a: Bytes, b: Bytes, c: Bytes)
    requires SamePayloads(live, a, b) && SamePayloads(more, b, c)
    requires forall p :: p in live ==> p in more && more[p] == live[p]
    ensures SamePayloads(live, a, c)
  {
    hide Payload;
  }

  // Inode f, just made, hangs in d; the table of d is at t, where it was or where it was moved.
  ghost function Entering(w: Whole, d: nat, f: nat, n: Inode, o: Object, capacity: nat, t: nat): Whole
    requires d in w.store.inodes && w.store.inodes[d].Dir? && d in w.objects
  {
    w.(store := Hung(w.store, d, f, n, capacity), objects := w.objects[d := w.objects[d].(table := t)][f := o])
  }

  ghost predicate TableReady(a: Whole, b: Whole, d: nat, capacity: nat, t: nat) {
    && d in a.store.inodes && a.store.inodes[d].Dir? && d in a.objects
    && (if |a.store.inodes[d].files| >= a.store.inodes[d].capacity then
          && capacity == a.store.inodes[d].capacity + 8
          && Resized(a, b, a.objects[d].table, capacity * POINTER_SIZE, t)
        else capacity == a.store.inodes[d].capacity && b == a && t == a.objects[d].table)
  }

  // A new entry and what it cost: the blocks of the inode, and perhaps another table for the directory.
  ghost predicate Entered(a: Whole, b: Whole, d: nat, f: nat, n: Inode) {
    && d in a.store.inodes && d in a.objects && d in b.objects && f in b.objects && f !in a.heap.live
    && Beside(a, b, {a.objects[d].table}) && b.objects[f].table !in a.heap.live
    && (b.objects[d].table == a.objects[d].table || b.objects[d].table !in a.heap.live)
    && (forall p :: p in a.objects && p != d ==> p in b.objects && b.objects[p] == a.objects[p])
    && |b.heap.live| == |a.heap.live| + (if n.Link? then 4 else 3)
    && b.store.total == a.store.total && Frames(b.store.inodes) == Frames(a.store.inodes)
    && Room(b) + ObjectPages(n) + TablePages(a.store.inodes[d]) >= Room(a)
  }

  // Between making the inode and hanging it only the heap has acted.
  lemma ReadyUndisturbed(a: Whole, b: Whole, c: Whole, d: nat, f: nat, n: Inode, o: Object, capacity: nat, t: nat)
    requires Objected(a, b, f, n, o) && TableReady(b, c, d, capacity, t)
    ensures Undisturbed(a, c) && d in c.objects
  {
    hide Paired, Rest, Longest, Pages, Parts, Separate, SamePayloads;
  }

  lemma EnteringStore(a: Whole, c: Whole, d: nat, f: nat, n: Inode, capacity: nat)
    requires Sound(a) && Valid(a.store) && Undisturbed(a, c) && d in a.store.inodes && a.store.inodes[d].Dir?
    requires f !in a.store.inodes && FilesOf(n) == [] && BlocksOf(n) == [] && Roomy(n) && Fitting(n)
    requires !Listed(a.store.inodes, d, n.name) && |a.store.inodes[d].files| < capacity
    ensures var s := Hung(c.store, d, f, n, capacity);
      && Valid(s) && Paired(s, c.heap) && Frames(s.inodes) == Frames(a.store.inodes)
      && View(s) == View(a.store)[f := ItemOf(a.store.mem, n)][
           d := Folder(a.store.inodes[d].name, a.store.inodes[d].files + [f])]
  {
    hide Handles, Taken, Tree, Listed, ItemOf, View, Held, HeapOps.HeapOk, Rest;
    HeapIsOk(c.store, c.heap);
    SameFiles(a.store, c.store);
    HungKeeps(c.store, d, f, n, capacity);
    var s := Hung(c.store, d, f, n, capacity);
    HungSameFrames(c.store, s, d, f);
    StillHeld(s);
    hide Frames;
  }

  lemma HungSameFrames(s: Store, t: Store, d: nat, f: nat)
    requires f !in s.inodes && t.inodes.Keys == s.inodes.Keys + {f} && BlocksOf(t.inodes[f]) == []
    requires forall q :: q in s.inodes ==> BlocksOf(t.inodes[q]) == BlocksOf(s.inodes[q])
    ensures Frames(t.inodes) == Frames(s.inodes)
  {
    HungFrames(s.inodes, t.inodes, d, f);
  }

  lemma BackedByParts(live: Blocks, f: nat, n: Inode, o: Object)
    requires Separate(f, n, o)
    ensures Backed(live + Parts(f, n, o), f, n, o)
  {
    hide Parts, Separate;
  }

  lemma EnteringHandles(a: Whole, b: Whole, c: Whole, d: nat, f: nat, n: Inode, o: Object, capacity: nat, t: nat)
    requires Handles(a.store.inodes, a.objects, a.heap.live) && Objected(a, b, f, n, o)
    requires TableReady(b, c, d, capacity, t) && f !in a.store.inodes
    ensures var e := Entering(c, d, f, n, o, capacity, t); Handles(e.store.inodes, e.objects, e.heap.live)
  {
    hide Handles, Separate, Paired, Rest, Longest, Pages, SamePayloads, Backed, Parts;
    var m := a.store.inodes[d];
    var now := Dir(m.name, capacity, m.files + [f]);
    var had, live := a.objects[d].table, a.heap.live;
    TableIs(a.store.inodes, a.objects, live, d);
    BackedByParts(live, f, n, o);
    if t == had && c == b {
      PartsNotice(d, m, now, a.objects[d]);
      SameParts(a.store.inodes, a.objects, live, d, now);
      assert a.objects[d := a.objects[d].(table := t)] == a.objects;
    } else {
      live := a.heap.live[t := TableSize(now)] - {had};
      TableMoved(a.store.inodes, a.objects, a.heap.live, live, d, now, t);
      OthersPart(b.heap.live, c.heap.live, f, n, o, had, t);
    }
    ObjectAdded(a.store.inodes[d := now], a.objects[d := a.objects[d].(table := t)], live, c.heap.live, f, n, o);
    assert a.store.inodes[f := n][d := now] == a.store.inodes[d := now][f := n];
  }

  lemma EnteringIsSound(a: Whole, b: Whole, c: Whole, d: nat, f: nat, n: Inode, o: Object, capacity: nat, t: nat)
    requires Sound(a) && Valid(a.store) && Objected(a, b, f, n, o) && TableReady(b, c, d, capacity, t)
    requires f !in a.store.inodes && FilesOf(n) == [] && BlocksOf(n) == [] && Roomy(n) && Fitting(n)
    requires !Listed(a.store.inodes, d, n.name) && d in a.store.inodes
    ensures var e := Entering(c, d, f, n, o, capacity, t);
      && Sound(e) && Valid(e.store) && Entered(a, e, d, f, n)
      && View(e.store) == View(a.store)[f := ItemOf(a.store.mem, n)][
           d := Folder(a.store.inodes[d].name, a.store.inodes[d].files + [f])]
  {
    hide Consistent, Valid, Handles, Parts, Separate, Frames, Paired, Listed, ItemOf, View, SamePayloads, Entered;
    ReadyUndisturbed(a, b, c, d, f, n, o, capacity, t);
    RoomInFiles(a.store, b, c, d, capacity, t);
    EnteringStore(a, c, d, f, n, capacity);
    EnteringHandles(a, b, c, d, f, n, o, capacity, t);
    EnteringBeside(a, b, c, d, f, n, o, capacity, t);
    ValidIsConsistent(Hung(c.store, d, f, n, capacity));
  }

  lemma RoomInFiles(s: Store, b: Whole, c: Whole, d: nat, capacity: nat, t: nat)
    requires Valid(s) && TableReady(b, c, d, capacity, t) && b.store.inodes == s.inodes
    ensures |s.inodes[d].files| < capacity
  {
    hide Valid, Resized;
    CapacityAt(s, d);
  }

  lemma EnteringBeside(a: Whole, b: Whole, c: Whole, d: nat, f: nat, n: Inode, o: Object, capacity: nat, t: nat)
    requires Handles(a.store.inodes, a.objects, a.heap.live) && Objected(a, b, f, n, o)
    requires TableReady(b, c, d, capacity, t) && f !in a.store.inodes
    requires Frames(Hung(c.store, d, f, n, capacity).inodes) == Frames(a.store.inodes)
    ensures Entered(a, Entering(c, d, f, n, o, capacity, t), d, f, n)
  {
    hide Handles, Separate, Paired, Longest, Pages, SamePayloads, Backed, Parts, Frames, Taken, Payload, Beside;
    var e, had := Entering(c, d, f, n, o, capacity, t), a.objects[d].table;
    TableIs(a.store.inodes, a.objects, a.heap.live, d);
    TablePartOf(f, n, o);
    EnteringKept(a, b, c, d, f, n, o, capacity, t);
    CountParts(a.heap.live, f, n, o);
    if c != b {
      OneMoved(b.heap.live, had, capacity * POINTER_SIZE, t);
    }
  }

  lemma CountParts(live: Blocks, f: nat, n: Inode, o: Object)
    requires Separate(f, n, o) && Parts(f, n, o).Keys !! live.Keys
    ensures |live + Parts(f, n, o)| == |live| + (if n.Link? then 4 else 3) && f in Parts(f, n, o)
  {
    hide Separate, Parts;
    PartsCount(f, n, o);
    assert (live + Parts(f, n, o)).Keys == live.Keys + Parts(f, n, o).Keys;
    assert |live.Keys + Parts(f, n, o).Keys| == |live.Keys| + |Parts(f, n, o).Keys|;
  }

  lemma PartsCount(f: nat, n: Inode, o: Object)
    requires Separate(f, n, o)
    ensures |Parts(f, n, o).Keys| == (if n.Link? then 4 else 3) && f in Parts(f, n, o)
  {
    hide TableSize, StructSize;
    var common := {f, o.name, o.table};
    assert Parts(f, n, o).Keys == if n.Link? then common + {o.target} else common;
  }

  lemma EnteringKept(a: Whole, b: Whole, c: Whole, d: nat, f: nat, n: Inode, o: Object, capacity: nat, t: nat)
    requires Handles(a.store.inodes, a.objects, a.heap.live) && Objected(a, b, f, n, o)
    requires TableReady(b, c, d, capacity, t) && f !in a.store.inodes
    requires Frames(Hung(c.store, d, f, n, capacity).inodes) == Frames(a.store.inodes)
    ensures Beside(a, Entering(c, d, f, n, o, capacity, t), {a.objects[d].table})
  {
    hide Handles, Separate, Paired, Longest, Pages, Backed, Parts, Frames, Rest, InObject, Payload, SamePayloads;
    var e, had := Entering(c, d, f, n, o, capacity, t), a.objects[d].table;
    SameRest(c, e);
    BlocksKept(a, b, c, d, f, n, o, capacity, t);
    forall p | p in a.heap.live && p != had && InObject(e, p) ensures InObject(a, p) {
      EnteringOwner(a, b, c, d, f, n, o, capacity, t, p);
    }
  }

  lemma SameRest(a: Whole, b: Whole)
    requires b.heap == a.heap && b.store.locked == a.store.locked && Frames(b.store.inodes) == Frames(a.store.inodes)
    ensures Rest(b) == Rest(a)
  {
    hide Frames;
  }

  lemma BlocksKept(a: Whole, b: Whole, c: Whole, d: nat, f: nat, n: Inode, o: Object, capacity: nat, t: nat)
    requires Objected(a, b, f, n, o) && TableReady(b, c, d, capacity, t)
    ensures forall p :: p in a.heap.live && p != a.objects[d].table ==>
      p in c.heap.live && c.heap.live[p] == a.heap.live[p]
      && Payload(c.heap.memory, p, a.heap.live[p]) == Payload(a.heap.memory, p, a.heap.live[p])
  {
    hide Separate, Paired, Longest, Pages, Parts, Rest, Payload;
    var had := a.objects[d].table;
    forall p | p in a.heap.live && p != had
      ensures p in c.heap.live && c.heap.live[p] == a.heap.live[p]
      ensures Payload(c.heap.memory, p, a.heap.live[p]) == Payload(a.heap.memory, p, a.heap.live[p])
    {
      assert p in b.heap.live && b.heap.live[p] == a.heap.live[p];
      assert c != b ==> p in b.heap.live - {had} && (b.heap.live - {had})[p] == b.heap.live[p];
    }
  }

  lemma EnteringOwner(a: Whole, b: Whole, c: Whole, d: nat, f: nat, n: Inode, o: Object, capacity: nat, t: nat, p: nat)
    requires Handles(a.store.inodes, a.objects, a.heap.live) && Objected(a, b, f, n, o)
    requires TableReady(b, c, d, capacity, t) && f !in a.store.inodes && p in a.heap.live && p != a.objects[d].table
    requires InObject(Entering(c, d, f, n, o, capacity, t), p)
    ensures InObject(a, p)
  {
    hide Separate, Paired, Longest, Pages, Rest, SamePayloads, TableSize, StructSize, Backed;
    var e := Entering(c, d, f, n, o, capacity, t);
    var g :| g in e.store.inodes && g in e.objects && p in Parts(g, e.store.inodes[g], e.objects[g]);
    assert g == f || g in a.store.inodes;
    if g == d {
      assert p in Parts(d, a.store.inodes[d], a.objects[d]);
    } else if g != f {
      assert p in Parts(g, a.store.inodes[g], a.objects[g]);
    }
  }

  // ---- In the methods ----

  // malloc's argument to mmu_request_frames fits an int.
  ghost predicate Moderate(n: Inode) {
    && Pages(|n.name| + 1) < 0x8000_0000 && (n.Link? ==> Pages(|n.target| + 1) < 0x8000_0000)
    && TableSize(n) <= PAGE_SIZE
  }

  lemma ModeratePages(n: Inode)
    requires Moderate(n)
    ensures Pages(StructSize(n)) < 0x8000_0000 && Pages(|n.name| + 1) < 0x8000_0000
    ensures Pages(TableSize(n)) < 0x8000_0000 && (n.Link? ==> Pages(|n.target| + 1) < 0x8000_0000)
  {
  }

  // The inode's address is new, as every live inode is a live block.
  lemma NewAddress(a: Whole, b: Whole, f: nat, n: Inode, o: Object)
    requires Handles(a.store.inodes, a.objects, a.heap.live) && Objected(a, b, f, n, o)
    ensures f !in a.store.inodes && f !in a.heap.live
  {
    hide TableSize, StructSize, Paired, Rest, Longest, Pages, SamePayloads;
    assert f in Parts(f, n, o);
    forall g | g in a.store.inodes ensures g in a.heap.live {
      assert g in Parts(g, a.store.inodes[g], a.objects[g]);
    }
  }

  lemma PagesMore(a: nat, b: nat)
    requires a <= b
    ensures Pages(a) <= Pages(b)
  {
  }

  // The directory's table is there, and what its realloc asks for fits an int.
  lemma TableFits(a: Whole, b: Whole, d: nat, f: nat, n: Inode, o: Object)
    requires Sound(a) && Objected(a, b, f, n, o) && d in a.store.inodes && a.store.inodes[d].Dir?
    ensures d in b.objects && b.objects == a.objects && b.objects[d].table in b.heap.live
    ensures Pages((a.store.inodes[d].capacity + 8) * POINTER_SIZE) < 0x8000_0000
    ensures Room(b) + ObjectPages(n) >= Room(a)
  {
    hide Consistent, Handles, Paired, Parts, Separate, Longest, Rest, SamePayloads;
    HeapIsOk(a.store, a.heap);
    TableIs(a.store.inodes, a.objects, a.heap.live, d);
    BlockFits(a.heap, a.objects[d].table);
    PagesMore((a.store.inodes[d].capacity + 8) * POINTER_SIZE, 2 * a.heap.live[a.objects[d].table] + PAGE_SIZE);
  }

  lemma EnteredFrames(a: Whole, b: Whole, d: nat, f: nat, n: Inode)
    requires Entered(a, b, d, f, n)
    ensures Frames(b.store.inodes) == Frames(a.store.inodes)
  {
  }

  lemma ObjectParts(inodes: Inodes, objects: Objects, live: Blocks, f: nat)
    requires Handles(inodes, objects, live) && f in inodes
    ensures f in objects && f in live && objects[f].name in live && objects[f].table in live
    ensures inodes[f].Link? ==> objects[f].target in live
    ensures Separate(f, inodes[f], objects[f])
    ensures f != objects[f].name && (inodes[f].Link? ==> objects[f].target != f && objects[f].target != objects[f].name)
  {
    var parts := Parts(f, inodes[f], objects[f]);
    assert f in parts && objects[f].name in parts && objects[f].table in parts;
    assert inodes[f].Link? ==> objects[f].target in parts;
  }

  // The entry is out of its directory and the blocks of the file are given back.
  ghost predicate TakenOut(a: Whole, b: Whole, d: nat, i: nat) {
    && Valid(a.store) && Valid(b.store)
    && d in a.store.inodes && a.store.inodes[d].Dir? && i < |a.store.inodes[d].files|
    && a.store.inodes[d].files[i] in a.store.inodes
    && var f := a.store.inodes[d].files[i];
    && b.store == a.store.(inodes := Pruned(a.store.inodes, d, i), home := a.store.home - {f}, locked := b.store.locked,
         total := a.store.total - |BlocksOf(a.store.inodes[f])|)
    && View(b.store) == Removed(View(a.store), d, i)
    && b.heap == a.heap.(locked := b.heap.locked, reserved := b.heap.reserved) && b.objects == a.objects
    && Paired(b.store, b.heap) && Rest(b) == Rest(a) && Room(b) >= Room(a)
  }

  // What unlink gives back of inode f: its frames, its structure, its name and the target of a
  // link. Its table stays a live block of the heap, and no inode's.
  ghost predicate Unlinked(a: Whole, b: Whole, f: nat) {
    && f in a.store.inodes && f in a.objects
    && var n, o := a.store.inodes[f], a.objects[f];
    var gone := Gone(f, n, o);
    && b.heap.live == a.heap.live - gone && Beside(a, b, gone) && Room(b) >= Room(a)
    && o.table in b.heap.live && !InObject(b, o.table)
    && Frames(b.store.inodes) == Frames(a.store.inodes) - Elements(BlocksOf(n))
    && b.store.total == a.store.total - |BlocksOf(n)|
  }

  ghost predicate TargetFreed(a: Whole, b: Whole, f: nat) {
    f in a.store.inodes && f in a.objects
      && if a.store.inodes[f].Link? then Released(a, b, a.objects[f].target) else b == a
  }

  lemma StillThere(a: Whole, r: Whole, p: Whole, d: nat, i: nat, f: nat)
    requires Handles(a.store.inodes, a.objects, a.heap.live) && TargetFreed(a, r, f) && TakenOut(r, p, d, i)
    ensures f in p.heap.live && a.objects[f].name in p.heap.live && f != a.objects[f].name && p.objects == a.objects
    ensures r.store.inodes == a.store.inodes
  {
    hide Valid, Handles, Paired, View, Rest, Longest;
    ObjectParts(a.store.inodes, a.objects, a.heap.live, f);
  }

  // The steps of unlink from first to last: free(target) for a link, the entry and the frames,
  // free(name), free(f).
  ghost predicate RemovalSteps(a: Whole, r: Whole, p: Whole, q: Whole, e: Whole, d: nat, i: nat, f: nat) {
    && Sound(a) && f in a.store.inodes && f in a.objects && !a.store.inodes[f].Dir?
    && d in a.store.inodes && a.store.inodes[d].Dir? && d in a.objects
    && i < |a.store.inodes[d].files| && a.store.inodes[d].files[i] == f
    && TargetFreed(a, r, f)
    && TakenOut(r, p, d, i)
    && Released(p, q, a.objects[f].name)
    && Released(q, e.(objects := a.objects), f) && e.objects == a.objects - {f}
  }

  lemma RemovedAll(a: Whole, r: Whole, p: Whole, q: Whole, e: Whole, d: nat, i: nat, f: nat)
    requires RemovalSteps(a, r, p, q, e, d, i, f) && Valid(a.store)
    ensures Sound(e) && Valid(e.store) && Unlinked(a, e, f)
    ensures d in View(a.store) && View(a.store)[d].Folder? && i < |View(a.store)[d].files|
    ensures View(e.store) == Removed(View(a.store), d, i)
    ensures FilesDone(a.store, FileOp.Unlink(d, i, f), e.store)
  {
    hide Valid, Consistent, Handles, Paired, Unlinked, View, Frames, Taken, Longest, Beside, InObject, Parts;
    RemovedStore(a, r, p, q, e, d, i, f);
    RemovedHandles(a, r, p, q, e, d, i, f);
    RemovedBeside(a, r, p, q, e, d, i, f);
    RemovedDone(a, r, p, q, e, d, i, f);
    ValidIsConsistent(e.store);
  }

  lemma RemovedStore(a: Whole, r: Whole, p: Whole, q: Whole, e: Whole, d: nat, i: nat, f: nat)
    requires RemovalSteps(a, r, p, q, e, d, i, f) && Valid(a.store)
    ensures Valid(e.store) && Paired(e.store, e.heap) && Rest(e) == Rest(a) && Room(e) >= Room(a)
    ensures d in View(a.store) && View(a.store)[d].Folder? && i < |View(a.store)[d].files|
    ensures View(e.store) == Removed(View(a.store), d, i)
    ensures e.store.inodes == Pruned(a.store.inodes, d, i) && e.store.home == a.store.home - {f}
    ensures e.store.root == a.store.root && e.store.mem == a.store.mem
    ensures e.store.total == a.store.total - |BlocksOf(a.store.inodes[f])| && e.heap.frameCount == a.heap.frameCount
  {
    hide Consistent, Handles, Frames, Taken, Longest, Separate, Fitting, Flat, HeapOps.HeapOk, Held;
    HeapIsOk(q.store, q.heap);
    HeapIsOk(e.store, e.heap);
    ViewOfDir(a.store, d);
    SameFiles(a.store, r.store);
    SameFiles(p.store, e.store);
    RestSame(q, e);
  }

  lemma RestSame(a: Whole, b: Whole)
    ensures Rest(b.(objects := a.objects)) == Rest(b)
  {
  }

  lemma RemovedHandles(a: Whole, r: Whole, p: Whole, q: Whole, e: Whole, d: nat, i: nat, f: nat)
    requires RemovalSteps(a, r, p, q, e, d, i, f)
    ensures Handles(e.store.inodes, e.objects, e.heap.live)
    ensures e.heap.live == a.heap.live - Gone(f, a.store.inodes[f], a.objects[f])
    ensures Gone(f, a.store.inodes[f], a.objects[f]) <= Parts(f, a.store.inodes[f], a.objects[f]).Keys
  {
    hide Consistent, Handles, Paired, Rest, Longest, View, Valid;
    var n, o := a.store.inodes[d], a.objects[d];
    var now := Dir(n.name, n.capacity, n.files[..i] + n.files[i + 1..]);
    PartsNotice(d, n, now, o);
    TableIs(a.store.inodes, a.objects, a.heap.live, d);
    SameParts(a.store.inodes, a.objects, a.heap.live, d, now);
    var gone := Gone(f, a.store.inodes[f], a.objects[f]);
    assert e.heap.live == a.heap.live - gone;
    ObjectRemoved(a.store.inodes[d := now], a.objects, a.heap.live, e.heap.live, f);
  }

  function Gone(f: nat, n: Inode, o: Object): set<nat> {
    {f, o.name} + (if n.Link? then {o.target} else {})
  }

  lemma RemovedBeside(a: Whole, r: Whole, p: Whole, q: Whole, e: Whole, d: nat, i: nat, f: nat)
    requires RemovalSteps(a, r, p, q, e, d, i, f) && Valid(a.store)
    requires Rest(e) == Rest(a) && Room(e) >= Room(a) && e.store.inodes == Pruned(a.store.inodes, d, i)
    requires e.heap.live == a.heap.live - Gone(f, a.store.inodes[f], a.objects[f])
    requires e.store.total == a.store.total - |BlocksOf(a.store.inodes[f])|
    ensures Unlinked(a, e, f)
  {
    hide Valid, Consistent, Handles, Paired, View, Frames, Rest, Longest, Payload, InObject, Parts;
    var o, gone := a.objects[f], Gone(f, a.store.inodes[f], a.objects[f]);
    assert e.heap.memory == a.heap.memory;
    ObjectParts(a.store.inodes, a.objects, a.heap.live, f);
    forall x | InObject(e, x) ensures InObject(a, x) && x != o.table {
      RemovedOwner(a, r, p, q, e, d, i, f, x);
    }
    PrunedFrames(a.store, d, i);
  }

  lemma RemovedOwner(a: Whole, r: Whole, p: Whole, q: Whole, e: Whole, d: nat, i: nat, f: nat, x: nat)
    requires RemovalSteps(a, r, p, q, e, d, i, f) && e.store.inodes == Pruned(a.store.inodes, d, i) && InObject(e, x)
    ensures InObject(a, x) && x != a.objects[f].table
  {
    hide Valid, Consistent, Paired, View, Frames, Rest, Longest, Backed, Released, TakenOut, Parts;
    var g :| g in e.store.inodes && g in e.objects && x in Parts(g, e.store.inodes[g], e.objects[g]);
    TablePartOf(f, a.store.inodes[f], a.objects[f]);
    if g == d {
      PartsNotice(d, a.store.inodes[d], e.store.inodes[d], a.objects[d]);
    }
    assert x in Parts(g, a.store.inodes[g], a.objects[g]);
  }

  lemma PrunedFrames(s: Store, d: nat, i: nat)
    requires Valid(s) && d in s.inodes && s.inodes[d].Dir? && i < |s.inodes[d].files|
    requires s.inodes[d].files[i] in s.inodes && s.inodes[d].files[i] != d
    ensures var f := s.inodes[d].files[i];
      Frames(Pruned(s.inodes, d, i)) == Frames(s.inodes) - Elements(BlocksOf(s.inodes[f]))
      && Elements(BlocksOf(s.inodes[f])) <= Frames(s.inodes)
  {
    hide Tree, BlockSum;
    var f := s.inodes[d].files[i];
    FramesSplit(s.inodes, f);
    FramesSame(s.inodes - {f}, Pruned(s.inodes, d, i));
    hide Frames, Apart, Elements;
  }

  lemma TakenFewer(a: Blocks, b: Blocks, frameCount: nat)
    requires forall p :: p in b ==> p in a && a[p] == b[p]
    ensures Taken(b, frameCount) <= Taken(a, frameCount)
  {
    forall f: nat | InBlock(b, f) ensures InBlock(a, f) {
      var p :| p in b && Overlap(f, p, b[p]);
      assert p in a && Overlap(f, p, a[p]);
    }
  }

  lemma RemovedDone(a: Whole, r: Whole, p: Whole, q: Whole, e: Whole, d: nat, i: nat, f: nat)
    requires RemovalSteps(a, r, p, q, e, d, i, f) && Valid(a.store) && Valid(e.store) && Paired(e.store, e.heap)
    requires e.heap.frameCount == a.heap.frameCount
    requires Rest(e) == Rest(a) && e.store.inodes == Pruned(a.store.inodes, d, i) && e.store.home == a.store.home - {f}
    requires e.store.root == a.store.root && e.store.mem == a.store.mem
    requires e.heap.live == a.heap.live - Gone(f, a.store.inodes[f], a.objects[f])
    requires d in View(a.store) && View(a.store)[d].Folder? && i < |View(a.store)[d].files|
    requires View(e.store) == Removed(View(a.store), d, i)
    ensures FilesDone(a.store, FileOp.Unlink(d, i, f), e.store)
  {
    hide Valid, Consistent, Handles, View, Frames, Taken, Longest, Released, TakenOut, HeapOps.HeapOk, Held, Separate;
    TakenFewer(a.heap.live, e.heap.live, a.heap.frameCount);
    PrunedFrames(a.store, d, i);
    HeldNow(a.store);
    HeldNow(e.store);
    StillApart(a, e);
    InterruptedIs(a.store, e.store.reserved);
    ViewOfDir(a.store, d);
    var own := Elements(BlocksOf(a.store.inodes[f]));
    assert e.store.locked == e.store.reserved + Frames(a.store.inodes) - own;
    assert FilesNext(Interrupted(a.store, e.store.reserved), FileOp.Unlink(d, i, f), e.store);
  }

  // Nobody else has got hold of frames that files had.
  lemma StillApart(a: Whole, b: Whole)
    requires Paired(a.store, a.heap) && Paired(b.store, b.heap) && Rest(b) == Rest(a)
    requires Taken(b.heap.live, b.heap.frameCount) <= Taken(a.heap.live, a.heap.frameCount)
    ensures b.store.reserved !! Frames(a.store.inodes)
  {
    hide Placed, Marked, Frames, Taken, Apart, BlockSum;
    assert b.store.reserved == Rest(b) + Taken(b.heap.live, b.heap.frameCount);
  }

  // ---- Blocks lent to callers ----

  // A new block that is no inode's.
  ghost predicate Lent(a: Whole, b: Whole, size: nat, ptr: nat) {
    && b.store.inodes == a.store.inodes && b.objects == a.objects && b.store.total == a.store.total
    && ptr !in a.heap.live && b.heap.live == a.heap.live[ptr := size] && !InObject(b, ptr)
    && Beside(a, b, {}) && |b.heap.live| == |a.heap.live| + 1 && Room(b) + Pages(size) >= Room(a)
  }

  ghost predicate Returned(a: Whole, b: Whole, ptr: nat) {
    && b.store.inodes == a.store.inodes && b.objects == a.objects && b.store.total == a.store.total
    && ptr in a.heap.live && b.heap.live == a.heap.live - {ptr}
    && Beside(a, b, {ptr}) && |b.heap.live| == |a.heap.live| - 1 && Room(b) >= Room(a)
  }

  lemma LentIs(a: Whole, b: Whole, size: nat, ptr: nat)
    requires Handles(a.store.inodes, a.objects, a.heap.live) && Valid(a.store) && Allocated(a, b, size, ptr)
    ensures Lent(a, b, size, ptr) && Handles(b.store.inodes, b.objects, b.heap.live) && Paired(b.store, b.heap)
    ensures Valid(b.store) && View(b.store) == View(a.store)
  {
    hide Valid, Handles, Paired, View, Rest, Longest, Pages, InObject, SamePayloads, Beside;
    HeapIsOk(b.store, b.heap);
    SameFiles(a.store, b.store);
    OthersMoved(a.store.inodes, a.objects, a.heap.live, b.heap.live);
    LentBeside(a, b, size, ptr);
  }

  lemma LentBeside(a: Whole, b: Whole, size: nat, ptr: nat)
    requires Handles(a.store.inodes, a.objects, a.heap.live) && Allocated(a, b, size, ptr)
    ensures Beside(a, b, {}) && !InObject(b, ptr) && |b.heap.live| == |a.heap.live| + 1
  {
    hide Handles, Paired, Rest, Longest, Pages, InObject, SamePayloads, Beside;
    assert a.heap.live - {} == a.heap.live;
    BesideHeap(a, b, {});
    SameOwner(a, b, ptr);
    OneAdded(a.heap.live, ptr, size);
    if InObject(a, ptr) {
      Owned(a, ptr);
    }
  }

  lemma OneAdded(live: Blocks, p: nat, size: nat)
    requires p !in live
    ensures |live[p := size]| == |live| + 1
  {
    assert live[p := size].Keys == live.Keys + {p};
  }

  lemma Owned(w: Whole, p: nat)
    requires Handles(w.store.inodes, w.objects, w.heap.live) && InObject(w, p)
    ensures p in w.heap.live
  {
    hide Parts, Separate;
  }

  lemma SameOwner(a: Whole, b: Whole, p: nat)
    requires b.store.inodes == a.store.inodes && b.objects == a.objects
    ensures InObject(b, p) <==> InObject(a, p)
  {
  }

  lemma ReturnedIs(a: Whole, b: Whole, ptr: nat)
    requires Handles(a.store.inodes, a.objects, a.heap.live) && Valid(a.store)
    requires Released(a, b, ptr) && !InObject(a, ptr)
    ensures Returned(a, b, ptr) && Handles(b.store.inodes, b.objects, b.heap.live) && Paired(b.store, b.heap)
    ensures Valid(b.store) && View(b.store) == View(a.store)
  {
    hide Valid, Handles, Paired, View, Rest, Longest, InObject, Beside;
    HeapIsOk(b.store, b.heap);
    SameFiles(a.store, b.store);
    StillBacked(a, b, ptr);
    ReturnedBeside(a, b, ptr);
  }

  lemma ReturnedBeside(a: Whole, b: Whole, ptr: nat)
    requires Released(a, b, ptr)
    ensures Beside(a, b, {ptr}) && |b.heap.live| == |a.heap.live| - 1
  {
    hide Paired, Rest, Longest, InObject, Beside, Payload;
    BesideHeap(a, b, {ptr});
    OneAdded(b.heap.live, ptr, a.heap.live[ptr]);
    assert b.heap.live[ptr := a.heap.live[ptr]] == a.heap.live;
  }

  lemma StillBacked(a: Whole, b: Whole, ptr: nat)
    requires Handles(a.store.inodes, a.objects, a.heap.live) && !InObject(a, ptr)
    requires b.store.inodes == a.store.inodes && b.objects == a.objects && b.heap.live == a.heap.live - {ptr}
    ensures Handles(b.store.inodes, b.objects, b.heap.live)
  {
    hide Parts, Separate;
  }
}
