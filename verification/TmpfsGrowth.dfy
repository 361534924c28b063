/** How a file grows: its blocks, its table in the heap, and the writes that need them. */
module TmpfsGrowth {
  import opened ByteStrings
  import opened FramePool
  import opened FreeSpace
  import opened HeapBlocks
  import opened TmpfsStore
  import opened TmpfsObjects
  import opened TmpfsHeap
  import HeapOps

  // ---- What growing tables costs ----

  // Pages requested for a table of two pointers to reach this many, by doubling.
  function Requested(pointers: nat): nat {
    if pointers <= 2 then 0 else Requested(pointers / 2) + Pages(pointers * POINTER_SIZE)
  }

  // Where the doubling stops.
  function PointersFor(pointers: nat, count: nat): (r: nat)
    requires pointers >= 1
    ensures r >= count && r >= pointers
    decreases count - pointers
  {
    if count <= pointers then pointers else PointersFor(2 * pointers, count)
  }

  lemma RequestedStep(pointers: nat)
    requires pointers >= 2
    ensures Requested(2 * pointers) == Requested(pointers) + Pages(2 * pointers * POINTER_SIZE)
  {
    assert 2 * pointers / 2 == pointers;
  }

  lemma {:induction false} RequestedMore(pointers: nat, count: nat)
    requires pointers >= 2
    ensures Requested(PointersFor(pointers, count)) >= Requested(pointers)
    decreases count - pointers
  {
    if count > pointers {
      RequestedStep(pointers);
      RequestedMore(2 * pointers, count);
    }
  }

  lemma {:induction false} PointersForTwice(pointers: nat, some: nat, count: nat)
    requires pointers >= 1 && some <= count
    ensures PointersFor(PointersFor(pointers, some), count) == PointersFor(pointers, count)
    decreases some - pointers
  {
    if some > pointers {
      PointersForTwice(2 * pointers, some, count);
    }
  }

  // A table that is large enough for the blocks there are.
  lemma PointersForCount(pointers: nat, had: nat, count: nat)
    requires 1 <= pointers && had <= pointers
    ensures var most := if had > count then had else count;
      PointersFor(pointers, count) == PointersFor(pointers, most)
      && FullSize(pointers, most) == most + Requested(PointersFor(pointers, count))
  {
  }

  // Blocks and tables, in pages.
  function FullSize(pointers: nat, count: nat): nat
    requires pointers >= 1
  {
    count + Requested(PointersFor(pointers, count))
  }

  lemma FullSizeMore(pointers: nat, some: nat, count: nat)
    requires pointers >= 2 && some <= count
    ensures FullSize(pointers, some) <= FullSize(pointers, count)
  {
    PointersForTwice(pointers, some, count);
    RequestedMore(PointersFor(pointers, some), count);
  }

  // ---- What a growing file does ----

  // The longest free run, and the pages file p has already had out of it.
  ghost function PageRoom(w: Whole, p: nat): nat
    requires p in w.store.inodes && w.store.inodes[p].File?
  {
    Room(w) + |w.store.inodes[p].blocks| + Requested(w.store.inodes[p].pointers)
  }

  // From a to b file p got blocks and perhaps a larger table, which is then another heap block.
  ghost predicate Grew(a: Whole, b: Whole, p: nat) {
    && p in a.store.inodes && a.store.inodes[p].File? && p in b.store.inodes && b.store.inodes[p].File?
    && p in a.objects && p in b.objects && b.objects == a.objects[p := a.objects[p].(table := b.objects[p].table)]
    && Beside(a, b, {a.objects[p].table}) && |b.heap.live| == |a.heap.live|
    && (b.objects[p].table == a.objects[p].table || b.objects[p].table !in a.heap.live)
    && b.store.total - |b.store.inodes[p].blocks| == a.store.total - |a.store.inodes[p].blocks|
    && PageRoom(b, p) >= PageRoom(a, p)
  }

  lemma GrewTwice(a: Whole, b: Whole, c: Whole, p: nat)
    requires Grew(a, b, p) && Grew(b, c, p)
    ensures Grew(a, c, p)
  {
    hide Rest, Payload, InObject, PageRoom;
    BesideTwice(a, b, c, {a.objects[p].table}, {b.objects[p].table});
    assert b.objects[p].table in a.heap.live ==> b.objects[p].table == a.objects[p].table;
  }

  lemma GrewNot(a: Whole, p: nat)
    requires p in a.store.inodes && a.store.inodes[p].File? && p in a.objects
    ensures Grew(a, a, p)
  {
  }

  ghost function Repointed(w: Whole, p: nat, moved: nat): Whole
    requires p in w.store.inodes && w.store.inodes[p].File? && p in w.objects
  {
    var n := w.store.inodes[p];
    w.(store := w.store.(inodes := w.store.inodes[p := n.(pointers := n.pointers * 2)]),
       objects := w.objects[p := w.objects[p].(table := moved)])
  }

  lemma Embiggened(a: Whole, b: Whole, p: nat, moved: nat)
    requires Sound(a) && p in a.store.inodes && a.store.inodes[p].File? && p in a.objects
    requires Resized(a, b, a.objects[p].table, 2 * TableSize(a.store.inodes[p]), moved)
    ensures Sound(Repointed(b, p, moved)) && Embiggening(a, Repointed(b, p, moved), p)
  {
    hide Consistent, Paired, Rest, SamePayloads, Longest, Pages, Beside, Handles, Backed, Parts, Requested, FreeRun;
    FileHandle(a, p);
    OneMoved(a.heap.live, a.objects[p].table, 2 * TableSize(a.store.inodes[p]), moved);
    var c, n := Repointed(b, p, moved), a.store.inodes[p].(pointers := 2 * a.store.inodes[p].pointers);
    RepointedKeeps(a, b, p, moved);
    PartsOwned(a.store.inodes, a.objects, a.heap.live, p);
    TablePart(a.heap.live, b.heap.live, p, a.store.inodes[p], n, a.objects[p], moved);
    TableMoved(a.store.inodes, a.objects, a.heap.live, b.heap.live, p, n, moved);
    BesideTable(a, c, p, n, moved);
    RequestedStep(a.store.inodes[p].pointers);
  }

  lemma RepointedKeeps(a: Whole, b: Whole, p: nat, moved: nat)
    requires Consistent(a.store) && p in a.store.inodes && a.store.inodes[p].File? && p in a.objects
    requires Resized(a, b, a.objects[p].table, 2 * TableSize(a.store.inodes[p]), moved)
    ensures var c := Repointed(b, p, moved); Consistent(c.store) && Paired(c.store, c.heap) && Rest(c) == Rest(a)
  {
    hide Consistent, Paired, Held, HeapOps.HeapOk, Frames, Taken, SamePayloads, Longest, Pages;
    HeapIsOk(b.store, b.heap);
    SameFiles(a.store, b.store);
    var c := Repointed(b, p, moved);
    PointersKept(b.store, p, 2 * a.store.inodes[p].pointers);
    StillHeld(c.store);
    SameBlocksPaired(b.store, c.store, b.heap, p, c.store.inodes[p]);
  }

  ghost predicate Doubled(a: Whole, b: Whole, p: nat)
    requires p in a.store.inodes && a.store.inodes[p].File?
  {
    && a.store.inodes[p].pointers >= 2
    && b.store.inodes == a.store.inodes[p := a.store.inodes[p].(pointers := a.store.inodes[p].pointers * 2)]
  }

  ghost predicate Growable(w: Whole, p: nat) {
    p in w.store.inodes && w.store.inodes[p].File? && p in w.objects && w.store.inodes[p].pointers >= 2
      && |w.store.inodes[p].blocks| <= w.store.inodes[p].pointers
  }

  // The longest run suffices for file p to get so many blocks, and the tables on the way.
  ghost predicate Affords(w: Whole, p: nat, count: nat) {
    Growable(w, p) &&
    var n := w.store.inodes[p];
    PageRoom(w, p) >= FullSize(n.pointers, if |n.blocks| > count then |n.blocks| else count)
  }

  ghost predicate AffordsDoubling(w: Whole, p: nat) {
    Growable(w, p) && PageRoom(w, p) >= |w.store.inodes[p].blocks| + Requested(2 * w.store.inodes[p].pointers)
  }

  // One call of tmpfs_file_blocks_embiggen.
  ghost predicate Embiggening(a: Whole, b: Whole, p: nat) {
    && Growable(a, p) && Grew(a, b, p) && Doubled(a, b, p)
    && b.store == a.store.(inodes := b.store.inodes, locked := b.store.locked, reserved := b.store.reserved)
  }

  // What the realloc in it asks for.
  lemma DoubledTable(w: Whole, p: nat)
    requires Sound(w) && p in w.store.inodes && w.store.inodes[p].File?
    ensures p in w.objects && w.objects[p].table in w.heap.live
    ensures var n := w.store.inodes[p]; var size := TableSize(n.(pointers := n.pointers * 2));
      && size == 2 * TableSize(n) > 0 && Pages(size) < 0x8000_0000
      && (AffordsDoubling(w, p) ==> Room(w) >= Pages(size))
  {
    hide Consistent, Paired, Handles, Longest;
    HeapIsOk(w.store, w.heap);
    FileHandle(w, p);
    BlockFits(w.heap, w.objects[p].table);
    RequestedStep(w.store.inodes[p].pointers);
  }

  // The loop around it, on the way to a table for count blocks.
  ghost predicate Doubling(a: Whole, b: Whole, p: nat, count: nat) {
    && Growable(a, p) && Growable(b, p) && Grew(a, b, p)
    && Enlarged(a.store, b.store, p, |a.store.inodes[p].blocks|) && b.store.total == a.store.total
    && PointersFor(b.store.inodes[p].pointers, count) == PointersFor(a.store.inodes[p].pointers, count)
  }

  lemma DoublingStart(a: Whole, p: nat, count: nat)
    requires Growable(a, p)
    ensures Doubling(a, a, p, count)
  {
    hide Rest, Payload, InObject, PageRoom;
  }

  lemma DoublingStep(a: Whole, b: Whole, c: Whole, p: nat, count: nat)
    requires Doubling(a, b, p, count) && b.store.inodes[p].pointers < count && Embiggening(b, c, p)
    ensures Doubling(a, c, p, count) && c.store.inodes[p].pointers == 2 * b.store.inodes[p].pointers
  {
    hide Grew, PageRoom;
    GrewTwice(a, b, c, p);
    GrewFiles(a, c, p);
  }

  lemma GrewFiles(a: Whole, b: Whole, p: nat)
    requires Grew(a, b, p)
    ensures p in a.objects && p in b.objects && p in b.store.inodes && b.store.inodes[p].File?
    ensures p in a.store.inodes && a.store.inodes[p].File? && PageRoom(b, p) >= PageRoom(a, p)
  {
  }

  lemma DoublingAffords(a: Whole, b: Whole, p: nat, count: nat)
    requires Doubling(a, b, p, count) && b.store.inodes[p].pointers < count && Affords(a, p, count)
    ensures AffordsDoubling(b, p)
  {
    hide Grew, PageRoom;
    GrewFiles(a, b, p);
    RequestedMore(2 * b.store.inodes[p].pointers, count);
  }

  // The loop that then adds blocks.
  ghost predicate Filling(a: Whole, b: Whole, p: nat, count: nat) {
    && Growable(a, p) && Growable(b, p) && Grew(a, b, p) && Enlarged(a.store, b.store, p, |b.store.inodes[p].blocks|)
    && count <= b.store.inodes[p].pointers == PointersFor(a.store.inodes[p].pointers, count)
    && (|b.store.inodes[p].blocks| <= count || |b.store.inodes[p].blocks| == |a.store.inodes[p].blocks|)
  }

  // One block more.
  ghost predicate Extending(a: Whole, b: Whole, p: nat) {
    && Growable(a, p) && Grew(a, b, p) && Enlarged(a.store, b.store, p, |a.store.inodes[p].blocks| + 1)
    && b.store.inodes[p].pointers == a.store.inodes[p].pointers
  }

  lemma FillingStart(a: Whole, b: Whole, p: nat, count: nat)
    requires Doubling(a, b, p, count) && count <= b.store.inodes[p].pointers
    ensures Filling(a, b, p, count)
  {
    hide Grew;
  }

  lemma FillingStep(a: Whole, b: Whole, c: Whole, p: nat, count: nat)
    requires Filling(a, b, p, count) && |b.store.inodes[p].blocks| < count && Extending(b, c, p)
    ensures Filling(a, c, p, count) && |c.store.inodes[p].blocks| == |b.store.inodes[p].blocks| + 1
  {
    hide Grew, PageRoom;
    GrewTwice(a, b, c, p);
    GrewFiles(b, c, p);
  }

  lemma FillingAffords(a: Whole, b: Whole, p: nat, count: nat)
    requires Filling(a, b, p, count) && |b.store.inodes[p].blocks| < count && Affords(a, p, count)
    ensures Longest(b.heap.locked, b.heap.frameCount) >= 1
  {
    hide Grew, Longest;
    GrewFiles(a, b, p);
  }

  // File p has the blocks for count, by as many doublings as that takes.
  ghost predicate Made(a: Whole, b: Whole, p: nat, count: nat) {
    && Growable(a, p) && Grew(a, b, p)
    && Enlarged(a.store, b.store, p, if |a.store.inodes[p].blocks| > count then |a.store.inodes[p].blocks| else count)
    && b.store.inodes[p].pointers == PointersFor(a.store.inodes[p].pointers, |b.store.inodes[p].blocks|)
  }

  lemma FillingEnd(a: Whole, b: Whole, p: nat, count: nat)
    requires Filling(a, b, p, count) && count <= |b.store.inodes[p].blocks|
    ensures Made(a, b, p, count)
  {
    hide Grew;
    PointersForCount(a.store.inodes[p].pointers, |a.store.inodes[p].blocks|, count);
  }

  // File p has one more block, frame f.
  ghost function Extended(w: Whole, p: nat, f: nat): Whole
    requires p in w.store.inodes && w.store.inodes[p].File?
  {
    w.(store := Grown(w.store, p, f), heap := w.heap.(locked := w.heap.locked + {f}, reserved := w.heap.reserved + {f}))
  }

  lemma BlockAdded(w: Whole, p: nat, f: nat)
    requires Sound(w) && p in w.store.inodes && w.store.inodes[p].File?
    requires |w.store.inodes[p].blocks| < w.store.inodes[p].pointers && f < |w.store.mem|
    requires f in FreeFrames(w.store.locked, w.heap.frameCount) && forall g: nat :: g < f ==> g in w.store.locked
    ensures Sound(Extended(w, p, f)) && Extending(w, Extended(w, p, f), p)
  {
    hide Consistent, Paired, Handles, Parts, Rest, Longest, Beside, FreeFrames;
    FileHandle(w, p);
    InFree(f, w.store.locked, w.heap.frameCount);
    PairedLocks(w.store, w.heap);
    GrownKeeps(w.store, p, f);
    StillHeld(Grown(w.store, p, f));
    ExtendedPaired(w, p, f);
    FrameTaken(w.store.locked, w.heap.frameCount, f);
    var b := Extended(w, p, f);
    PartsNotice(p, w.store.inodes[p], b.store.inodes[p], w.objects[p]);
    SameParts(w.store.inodes, w.objects, w.heap.live, p, b.store.inodes[p]);
    BesideFile(w, b, p, b.store.inodes[p]);
    BesideMore(w, b, {}, {w.objects[p].table});
  }

  lemma InFree(f: nat, locked: set<nat>, frameCount: nat)
    requires f in FreeFrames(locked, frameCount)
    ensures f < frameCount && f !in locked
  {
  }

  lemma ExtendedPaired(w: Whole, p: nat, f: nat)
    requires Paired(w.store, w.heap) && p in w.store.inodes && w.store.inodes[p].File? && f !in w.store.locked
    requires Held(Grown(w.store, p, f))
    ensures var b := Extended(w, p, f); Paired(b.store, b.heap) && Rest(b) == Rest(w)
  {
    FramesGrown(w.store.inodes, p, f);
    hide Apart, BlockSum, Frames, Taken, Placed, Marked;
  }

  // ---- Writing ----

  // Bytes put into block k, which may have been made for them.
  ghost predicate BlockPut(a: Whole, b: Whole, p: nat, k: nat, at: nat, bytes: Bytes) {
    && Growable(a, p) && Growable(b, p) && Grew(a, b, p) && Patched(a.store, b.store, p, k * BLOCK_SIZE + at, bytes)
    && |b.store.inodes[p].blocks| ==
       (if |a.store.inodes[p].blocks| > k + 1 then |a.store.inodes[p].blocks| else k + 1)
    && b.store.inodes[p].pointers == PointersFor(a.store.inodes[p].pointers, |b.store.inodes[p].blocks|)
  }

  // Bytes put into the k-th block of a file.
  ghost predicate PutAt(b: Whole, c: Whole, p: nat, k: nat, at: nat, bytes: Bytes, block: Block) {
    && at + |bytes| <= BLOCK_SIZE && p in b.store.inodes && k < |BlocksOf(b.store.inodes[p])|
    && var f := BlocksOf(b.store.inodes[p])[k];
    && f < |b.store.mem| && block == Overlay(b.store.mem[f], at, bytes)
    && c == b.(store := b.store.(mem := b.store.mem[f := block]))
  }

  lemma PutIntoBlock(a: Whole, b: Whole, c: Whole, p: nat, k: nat, at: nat, bytes: Bytes, block: Block)
    requires Made(a, b, p, k + 1) && Sound(b) && PutAt(b, c, p, k, at, bytes, block)
    ensures Sound(c) && BlockPut(a, c, p, k, at, bytes)
  {
    hide Consistent, Paired, Handles, Grew, Overlay, Patched;
    FileHandle(b, p);
    GrewAlike(a, b, c, p);
    MemoryChanged(b.store, c.store);
    PairedMemory(b.store, c.store, b.heap);
    PatchedBlock(a.store, b.store, p, k, at, bytes, block);
  }

  // Bytes in blocks of files make no difference to the heap.
  lemma GrewAlike(a: Whole, b: Whole, c: Whole, p: nat)
    requires Grew(a, b, p) && c == b.(store := b.store.(mem := c.store.mem))
    ensures Grew(a, c, p)
  {
    hide Payload;
    assert forall q :: InObject(c, q) ==> InObject(b, q);
  }

  lemma PairedMemory(s: Store, t: Store, h: HeapOps.HeapState)
    requires Paired(s, h) && t == s.(mem := t.mem) && |t.mem| == |s.mem|
    ensures Paired(t, h)
  {
    hide HeapOps.HeapOk, Frames, Taken, Apart, BlockSum;
  }

  // A write that has got this far; nothing at all has happened before it has begun.
  ghost predicate Written(a: Whole, b: Whole, p: nat, offset: nat, bytes: Bytes, begun: bool) {
    && Growable(a, p) && Growable(b, p) && Grew(a, b, p)
    && b.store.inodes[p].pointers == PointersFor(a.store.inodes[p].pointers, |b.store.inodes[p].blocks|)
    && if begun then Patched(a.store, b.store, p, offset, bytes) else b == a
  }

  lemma WriteStart(a: Whole, p: nat, offset: nat)
    requires Growable(a, p)
    ensures Written(a, a, p, offset, [], false)
  {
    hide Rest, Payload, InObject, PageRoom;
  }

  lemma WriteStep(a: Whole, b: Whole, c: Whole, p: nat, offset: nat, bytes: Bytes, begun: bool, k: nat, at: nat,
                  more: Bytes)
    requires Written(a, b, p, offset, bytes, begun) && BlockPut(b, c, p, k, at, more)
    requires k * BLOCK_SIZE + at == offset + |bytes| && (!begun ==> bytes == [])
    ensures Written(a, c, p, offset, bytes + more, true)
  {
    hide Grew, Patched;
    GrewTwice(a, b, c, p);
    PointersForTwice(a.store.inodes[p].pointers, |b.store.inodes[p].blocks|, |c.store.inodes[p].blocks|);
    if begun {
      PatchedTwice(a.store, b.store, c.store, p, offset, bytes, more);
    } else {
      assert bytes + more == more;
    }
  }

  ghost predicate NoMore(a: Whole, b: Whole, p: nat, count: nat) {
    p in a.store.inodes && a.store.inodes[p].File? && p in b.store.inodes && b.store.inodes[p].File? ==>
      |b.store.inodes[p].blocks| <= count || |b.store.inodes[p].blocks| <= |a.store.inodes[p].blocks|
  }

  // What a step on the way to count blocks needs is among what all of them need.
  lemma WriteAffords(a: Whole, b: Whole, p: nat, offset: nat, bytes: Bytes, begun: bool, k: nat, count: nat)
    requires Written(a, b, p, offset, bytes, begun) && k < count && Affords(a, p, count) && NoMore(a, b, p, count)
    ensures Affords(b, p, k + 1)
  {
    hide Grew, Patched, PageRoom;
    GrewFiles(a, b, p);
    var n := a.store.inodes[p];
    var most := if |n.blocks| > count then |n.blocks| else count;
    var had := |b.store.inodes[p].blocks|;
    var now := if had > k + 1 then had else k + 1;
    PointersForTwice(n.pointers, had, now);
    FullSizeMore(n.pointers, now, most);
  }

  // The length of file p is set ahead of its blocks.
  ghost function WithLength(w: Whole, p: nat, length: nat): Whole
    requires p in w.store.inodes && w.store.inodes[p].File?
  {
    w.(store := w.store.(inodes := w.store.inodes[p := w.store.inodes[p].(length := length)]))
  }

  lemma Lengthened(w: Whole, p: nat, length: nat, count: nat)
    requires Sound(w) && p in w.store.inodes && w.store.inodes[p].File?
    ensures var b := WithLength(w, p, length);
      && Sound(b) && Growable(w, p) && Rest(b) == Rest(w) && Beside(w, b, {})
      && (Affords(w, p, count) ==> Affords(b, p, count))
  {
    hide Consistent, Paired, Handles, Parts, Frames, Taken, Beside;
    var b := WithLength(w, p, length);
    FileHandle(w, p);
    LengthKept(w.store, p, length);
    StillHeld(b.store);
    SameBlocksPaired(w.store, b.store, w.heap, p, b.store.inodes[p]);
    PartsNotice(p, w.store.inodes[p], b.store.inodes[p], w.objects[p]);
    SameParts(w.store.inodes, w.objects, w.heap.live, p, b.store.inodes[p]);
    BesideFile(w, b, p, b.store.inodes[p]);
  }

  // From a to b file p has grown, its table by as many doublings as its blocks take.
  ghost predicate Extends(a: Whole, b: Whole, p: nat) {
    && Growable(a, p) && Growable(b, p) && Grew(a, b, p)
    && b.store.inodes[p].pointers == PointersFor(a.store.inodes[p].pointers, |b.store.inodes[p].blocks|)
  }

  lemma ExtendsNot(a: Whole, p: nat)
    requires Growable(a, p)
    ensures Extends(a, a, p)
  {
    hide Grew;
    GrewNot(a, p);
  }

  lemma ExtendsTwice(a: Whole, b: Whole, c: Whole, p: nat)
    requires Extends(a, b, p) && Extends(b, c, p) && |b.store.inodes[p].blocks| <= |c.store.inodes[p].blocks|
    ensures Extends(a, c, p)
  {
    hide Grew;
    GrewTwice(a, b, c, p);
    PointersForTwice(a.store.inodes[p].pointers, |b.store.inodes[p].blocks|, |c.store.inodes[p].blocks|);
  }

  lemma ExtendsAffords(a: Whole, b: Whole, p: nat, count: nat, k: nat)
    requires Extends(a, b, p) && Affords(a, p, count) && k <= count
    requires |b.store.inodes[p].blocks| <= count && |a.store.inodes[p].blocks| <= count
    ensures Affords(b, p, k)
  {
    hide Grew, PageRoom;
    GrewFiles(a, b, p);
    var n, had := a.store.inodes[p], |b.store.inodes[p].blocks|;
    var now := if had > k then had else k;
    PointersForTwice(n.pointers, had, now);
    FullSizeMore(n.pointers, now, count);
  }

  lemma GrewLonger(a: Whole, b: Whole, c: Whole, p: nat, length: nat)
    requires Growable(a, p) && b == WithLength(a, p, length) && Beside(a, b, {}) && Grew(b, c, p)
    ensures Grew(a, c, p)
  {
    hide Rest, Payload, InObject, Longest, Beside;
    BesideMore(a, b, {}, {a.objects[p].table});
    BesideTwice(a, b, c, {a.objects[p].table}, {a.objects[p].table});
  }

  // A file of a consistent store, and its table.
  lemma FileHandle(w: Whole, p: nat)
    requires Consistent(w.store) && Handles(w.store.inodes, w.objects, w.heap.live)
    requires p in w.store.inodes && w.store.inodes[p].File?
    ensures Growable(w, p)
    ensures w.objects[p].table in w.heap.live && w.heap.live[w.objects[p].table] == TableSize(w.store.inodes[p])
  {
    RoomyAt(w.store, p);
    TableIs(w.store.inodes, w.objects, w.heap.live, p);
  }

  lemma ExtendsLonger(a: Whole, b: Whole, c: Whole, p: nat, offset: nat, bytes: Bytes, length: nat)
    requires Growable(a, p) && b == WithLength(a, p, length) && Beside(a, b, {})
    requires Written(b, c, p, offset, bytes, true)
    ensures Extends(a, c, p)
  {
    hide Grew, Patched, Beside;
    GrewLonger(a, b, c, p, length);
  }

  // ---- Giving back ----

  // File p has lost its blocks.
  lemma Truncated(a: Whole, b: Whole, p: nat)
    requires Handles(a.store.inodes, a.objects, a.heap.live) && p in a.store.inodes && a.store.inodes[p].File?
    requires b.store.inodes == a.store.inodes[p := a.store.inodes[p].(length := 0, blocks := [])]
    requires b.objects == a.objects && b.heap.live == a.heap.live && b.heap.memory == a.heap.memory
    requires Rest(b) == Rest(a)
    requires b.heap.locked <= a.heap.locked && b.heap.frameCount == a.heap.frameCount
    ensures Handles(b.store.inodes, b.objects, b.heap.live) && Beside(a, b, {}) && Room(b) >= Room(a)
  {
    hide Handles, Parts, Rest, Longest, Beside;
    TableIs(a.store.inodes, a.objects, a.heap.live, p);
    PartsNotice(p, a.store.inodes[p], b.store.inodes[p], a.objects[p]);
    SameParts(a.store.inodes, a.objects, a.heap.live, p, b.store.inodes[p]);
    BesideFile(a, b, p, b.store.inodes[p]);
    MoreFree(a.heap.locked, b.heap.locked, a.heap.frameCount);
  }
}
