/** The filesystem and the heap it allocates from, on one bitmap. */
module TmpfsHeap {
  import opened ByteStrings
  import opened FramePool
  import opened FreeSpace
  import opened HeapBlocks
  import opened TmpfsStore
  import opened TmpfsObjects
  import HeapOps

  // The whole state at one time.
  datatype Whole = Whole(store: Store, heap: HeapOps.HeapState, objects: Objects)

  // The frames of neither files nor heap blocks.
  ghost function Rest(w: Whole): set<nat> {
    w.store.locked - Frames(w.store.inodes) - Taken(w.heap.live, w.heap.frameCount)
  }

  ghost predicate Paired(s: Store, h: HeapOps.HeapState) {
    && Held(s) && HeapOps.HeapOk(h) && h.locked == s.locked
    && Frames(s.inodes) !! Taken(h.live, h.frameCount)
  }

  lemma HeapIsOk(s: Store, h: HeapOps.HeapState)
    requires Paired(s, h)
    ensures HeapOps.HeapOk(h) && Held(s)
  {
  }

  lemma LiveInMemory(h: HeapOps.HeapState, p: nat)
    requires HeapOps.HeapOk(h) && p in h.live
    ensures INFO_SIZE <= p <= |h.memory|
  {
  }

  // No block is larger than memory.
  lemma BlockFits(h: HeapOps.HeapState, p: nat)
    requires HeapOps.HeapOk(h) && p in h.live
    ensures Pages(2 * h.live[p] + PAGE_SIZE) < 0x8000_0000
  {
    assert Behind(p, h.live[p]) <= h.frameCount;
  }

  // The heap did something to frames of its own.
  lemma HeapActed(s: Store, a: HeapOps.HeapState, b: HeapOps.HeapState)
    requires Paired(s, a) && HeapOps.HeapOk(b) && b.reserved == a.reserved && b.frameCount == a.frameCount
    ensures var t := s.(locked := b.locked, reserved := b.locked - Frames(s.inodes));
      && Paired(t, b)
      && t.locked - Frames(t.inodes) - Taken(b.live, b.frameCount) ==
         s.locked - Frames(s.inodes) - Taken(a.live, a.frameCount)
  {
    hide Frames, Taken, Placed, Marked, Apart, BlockSum;
  }

  // The filesystem did something to frames of its own.
  lemma FilesActed(s: Store, t: Store, a: HeapOps.HeapState, b: HeapOps.HeapState)
    requires Paired(s, a) && Held(t) && t.reserved == s.reserved
    requires b == a.(locked := t.locked, reserved := t.locked - Taken(a.live, a.frameCount))
    ensures Paired(t, b) && HeapOps.HeapLeftAlone(a, b)
    ensures t.locked - Frames(t.inodes) - Taken(b.live, b.frameCount) ==
            s.locked - Frames(s.inodes) - Taken(a.live, a.frameCount)
  {
    hide Frames, Taken, Placed, Marked, Apart, BlockSum;
  }

  lemma EmptyRoot(s: Store, address: nat, name: Bytes, capacity: nat)
    requires s.inodes == map[address := Dir(name, capacity, [])] && s.root == address && s.home == map[]
    requires s.total == 0 && s.reserved == s.locked
    ensures Valid(s) && View(s) == map[address := Folder(name, [])] && Frames(s.inodes) == {}
  {
    NoFrames(s.inodes - {address});
    BlockSumStep(s.inodes - {address}, s.inodes, address);
  }

  // Only what the bitmap holds has changed for a store.
  lemma SameFiles(a: Store, b: Store)
    requires b == a.(locked := b.locked, reserved := b.reserved) && Held(b)
    ensures Consistent(a) ==> Consistent(b)
    ensures Valid(a) ==> Valid(b) && View(b) == View(a)
  {
  }

  // Of the blocks there were, all but those gone are live as before and no inode has got hold of
  // them; the rest of the system has kept its frames.
  ghost predicate Beside(a: Whole, b: Whole, gone: set<nat>) {
    && Rest(b) == Rest(a)
    && forall p :: p in a.heap.live && p !in gone ==>
         && p in b.heap.live && b.heap.live[p] == a.heap.live[p]
         && Payload(b.heap.memory, p, a.heap.live[p]) == Payload(a.heap.memory, p, a.heap.live[p])
         && (InObject(b, p) ==> InObject(a, p))
  }

  // Whether block p belongs to an inode.
  ghost predicate InObject(w: Whole, p: nat) {
    exists f :: f in w.store.inodes && f in w.objects && p in Parts(f, w.store.inodes[f], w.objects[f])
  }

  lemma BesideTwice(a: Whole, b: Whole, c: Whole, gone: set<nat>, more: set<nat>)
    requires Beside(a, b, gone) && Beside(b, c, more)
    requires forall p :: p in more && p in a.heap.live ==> p in gone
    ensures Beside(a, c, gone)
  {
    hide Rest, Payload, InObject;
  }

  // ---- What malloc, free and realloc are to the filesystem ----

  // All the filesystem has is as it was, while the heap acted.
  ghost predicate Undisturbed(a: Whole, b: Whole) {
    && Paired(b.store, b.heap) && Rest(b) == Rest(a) && b.objects == a.objects
    && b.store == a.store.(locked := b.store.locked, reserved := b.store.reserved)
    && b.heap.frameCount == a.heap.frameCount
  }

  ghost function Room(w: Whole): nat {
    Longest(w.heap.locked, w.heap.frameCount)
  }

  ghost predicate Allocated(a: Whole, b: Whole, size: nat, ptr: nat) {
    && Undisturbed(a, b) && ptr !in a.heap.live && b.heap.live == a.heap.live[ptr := size]
    && SamePayloads(a.heap.live, a.heap.memory, b.heap.memory) && Room(b) + Pages(size) >= Room(a)
  }

  ghost predicate Released(a: Whole, b: Whole, ptr: nat) {
    && Undisturbed(a, b) && ptr in a.heap.live && b.heap.live == a.heap.live - {ptr}
    && b.heap.memory == a.heap.memory && Room(b) >= Room(a)
  }

  ghost predicate Resized(a: Whole, b: Whole, ptr: nat, size: nat, moved: nat) {
    && Undisturbed(a, b) && ptr in a.heap.live && moved !in a.heap.live
    && b.heap.live == a.heap.live[moved := size] - {ptr}
    && SamePayloads(a.heap.live - {ptr}, a.heap.memory, b.heap.memory) && Room(b) + Pages(size) >= Room(a)
  }

  // ---- Steps of the inodes beside the heap ----

  // Inode f changed, its heap blocks did not.
  lemma BesideFile(a: Whole, b: Whole, f: nat, n: Inode)
    requires f in a.store.inodes && f in a.objects && b.objects == a.objects && b.store.inodes == a.store.inodes[f := n]
    requires Parts(f, n, a.objects[f]) == Parts(f, a.store.inodes[f], a.objects[f])
    requires b.heap.live == a.heap.live && b.heap.memory == a.heap.memory && Rest(b) == Rest(a)
    ensures Beside(a, b, {})
  {
    hide Rest, Parts, Payload;
    forall p | InObject(b, p) ensures InObject(a, p) {
      var g :| g in b.store.inodes && g in b.objects && p in Parts(g, b.store.inodes[g], b.objects[g]);
      assert p in Parts(g, a.store.inodes[g], a.objects[g]);
    }
  }

  // Inodes and heap blocks are as they were.
  lemma BesideHeap(a: Whole, b: Whole, gone: set<nat>)
    requires b.objects == a.objects && b.store.inodes == a.store.inodes && Rest(b) == Rest(a)
    requires SamePayloads(a.heap.live - gone, a.heap.memory, b.heap.memory)
    requires forall p :: p in a.heap.live && p !in gone ==> p in b.heap.live && b.heap.live[p] == a.heap.live[p]
    ensures Beside(a, b, gone)
  {
    hide Rest, Payload;
    forall p | p in a.heap.live && p !in gone
      ensures Payload(b.heap.memory, p, a.heap.live[p]) == Payload(a.heap.memory, p, a.heap.live[p])
    {
      assert p in a.heap.live - gone && (a.heap.live - gone)[p] == a.heap.live[p];
    }
  }

  // The table of f is another block now.
  lemma BesideTable(a: Whole, b: Whole, f: nat, n: Inode, moved: nat)
    requires Handles(a.store.inodes, a.objects, a.heap.live) && f in a.store.inodes && f in a.objects
    requires moved !in a.heap.live && b.objects == a.objects[f := a.objects[f].(table := moved)]
    requires b.store.inodes == a.store.inodes[f := n] && Rest(b) == Rest(a)
    requires Parts(f, n, b.objects[f]).Keys <= Parts(f, a.store.inodes[f], a.objects[f]).Keys + {moved}
    requires b.heap.live.Keys == a.heap.live.Keys + {moved} - {a.objects[f].table}
    requires SamePayloads(a.heap.live - {a.objects[f].table}, a.heap.memory, b.heap.memory)
    requires forall p :: p in a.heap.live && p != a.objects[f].table ==> b.heap.live[p] == a.heap.live[p]
    ensures Beside(a, b, {a.objects[f].table})
  {
    hide Rest, Parts, Payload, Handles;
    var table := a.objects[f].table;
    forall p | p in a.heap.live && p != table
      ensures Payload(b.heap.memory, p, a.heap.live[p]) == Payload(a.heap.memory, p, a.heap.live[p])
      ensures InObject(b, p) ==> InObject(a, p)
    {
      assert p in a.heap.live - {table} && (a.heap.live - {table})[p] == a.heap.live[p];
      if InObject(b, p) {
        var g :| g in b.store.inodes && g in b.objects && p in Parts(g, b.store.inodes[g], b.objects[g]);
        assert p in Parts(g, a.store.inodes[g], a.objects[g]);
      }
    }
  }

  lemma TableIs(inodes: Inodes, objects: Objects, live: Blocks, f: nat)
    requires Handles(inodes, objects, live) && f in inodes
    ensures f in objects && objects[f].table in live && live[objects[f].table] == TableSize(inodes[f])
    ensures objects.Keys == inodes.Keys
  {
    assert objects[f].table in Parts(f, inodes[f], objects[f]);
  }

  lemma OneMoved(live: Blocks, ptr: nat, size: nat, moved: nat)
    requires ptr in live && moved !in live
    ensures |live[moved := size] - {ptr}| == |live|
  {
    assert (live[moved := size] - {ptr}).Keys == live.Keys + {moved} - {ptr};
  }

  // Sound in every part.
  ghost predicate Sound(w: Whole) {
    Paired(w.store, w.heap) && Consistent(w.store) && Handles(w.store.inodes, w.objects, w.heap.live)
  }

  lemma PairedLocks(s: Store, h: HeapOps.HeapState)
    requires Paired(s, h)
    ensures h.locked == s.locked
  {
  }

  // Blocks and length of a file are none of the heap's business.
  lemma PartsNotice(f: nat, a: Inode, b: Inode, o: Object)
    requires !a.Link? && !b.Link? && b.Dir? == a.Dir? && b.name == a.name && TableSize(b) == TableSize(a)
    ensures Parts(f, b, o) == Parts(f, a, o)
  {
  }

  lemma BesideMore(a: Whole, b: Whole, gone: set<nat>, more: set<nat>)
    requires Beside(a, b, gone) && gone <= more
    ensures Beside(a, b, more)
  {
    hide Rest, Payload, InObject;
  }

  // An inode changed, its blocks did not.
  lemma SameBlocksPaired(s: Store, t: Store, h: HeapOps.HeapState, p: nat, n: Inode)
    requires Paired(s, h) && p in s.inodes && BlocksOf(n) == BlocksOf(s.inodes[p])
    requires t == s.(inodes := s.inodes[p := n]) && Held(t)
    ensures Paired(t, h) && Frames(t.inodes) == Frames(s.inodes)
  {
    FramesSame(s.inodes, t.inodes);
    hide Held, HeapOps.HeapOk, Frames, Taken;
  }

  lemma StillHeld(s: Store)
    requires Consistent(s)
    ensures Held(s)
  {
  }

  lemma ValidIsConsistent(s: Store)
    requires Valid(s)
    ensures Consistent(s)
  {
  }

  lemma TablePartOf(f: nat, n: Inode, o: Object)
    ensures o.table in Parts(f, n, o)
  {
  }
}
