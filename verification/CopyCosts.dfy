/** What a sequence of filesystem operations costs in blocks, heap blocks and pages. */
module CopyCosts {
  import opened FreeSpace
  import opened HeapBlocks
  import opened TmpfsStore
  import opened TmpfsObjects
  import opened TmpfsHeap
  import opened TmpfsGrowth
  import opened TmpfsEntries

  // ---- What copying costs ----

  // Blocks of files, heap blocks that stay, and pages requested on the way.
  datatype Cost = Cost(blocks: int, kept: int, pages: nat)

  function Plus(x: Cost, y: Cost): Cost {
    Cost(x.blocks + y.blocks, x.kept + y.kept, x.pages + y.pages)
  }

  ghost predicate Ledger(a: Whole, b: Whole, gone: set<nat>, cost: Cost) {
    && Beside(a, b, gone) && b.store.total == a.store.total + cost.blocks
    && |b.heap.live| == |a.heap.live| + cost.kept && Room(b) + cost.pages >= Room(a)
  }

  lemma LedgerTwice(a: Whole, b: Whole, c: Whole, gone: set<nat>, more: set<nat>, cost: Cost, extra: Cost)
    requires Ledger(a, b, gone, cost) && Ledger(b, c, more, extra)
    requires forall p :: p in more && p in a.heap.live ==> p in gone
    ensures Ledger(a, c, gone, Plus(cost, extra))
  {
    hide Beside, Longest;
    BesideTwice(a, b, c, gone, more);
  }

  // Directory d has new entries; its table is the one it had, or a new block.
  ghost predicate Widened(a: Whole, b: Whole, d: nat, cost: Cost) {
    && d in a.objects && d in b.objects && Ledger(a, b, {a.objects[d].table}, cost)
    && (b.objects[d].table == a.objects[d].table || b.objects[d].table !in a.heap.live)
    && forall p :: p in a.objects && p != d ==> p in b.objects && b.objects[p] == a.objects[p]
  }

  lemma WidenedNot(a: Whole, d: nat)
    requires d in a.objects
    ensures Widened(a, a, d, Cost(0, 0, 0))
  {
  }

  lemma WidenedTwice(a: Whole, b: Whole, c: Whole, d: nat, cost: Cost, extra: Cost)
    requires Widened(a, b, d, cost) && Widened(b, c, d, extra)
    ensures Widened(a, c, d, Plus(cost, extra))
  {
    hide Rest, Payload, InObject, Longest;
    LedgerTwice(a, b, c, {a.objects[d].table}, {b.objects[d].table}, cost, extra);
  }

  // A step that leaves the directory's table alone.
  lemma WidenedThen(a: Whole, b: Whole, c: Whole, d: nat, gone: set<nat>, cost: Cost, extra: Cost)
    requires Widened(a, b, d, cost) && Ledger(b, c, gone, extra)
    requires forall p :: p in gone && p in a.heap.live ==> p == a.objects[d].table
    requires forall p :: p in a.objects && p in b.objects ==> p in c.objects && c.objects[p] == b.objects[p]
    ensures Widened(a, c, d, Plus(cost, extra))
  {
    hide Beside, Longest;
    LedgerTwice(a, b, c, {a.objects[d].table}, gone, cost, extra);
  }

  lemma LedgerMore(a: Whole, b: Whole, d: nat, cost: Cost, more: Cost)
    requires Widened(a, b, d, cost) && more.blocks == cost.blocks && more.kept == cost.kept && more.pages >= cost.pages
    ensures Widened(a, b, d, more)
  {
    hide Beside, Longest;
  }

  // A block of a caller's stays one.
  ghost predicate Borrowed(w: Whole, p: nat) {
    p in w.heap.live && !InObject(w, p)
  }

  lemma StillBorrowed(a: Whole, b: Whole, d: nat, cost: Cost, p: nat)
    requires Widened(a, b, d, cost) && Borrowed(a, p) && d in a.store.inodes
    ensures Borrowed(b, p)
  {
    hide Parts, Longest, Payload, Rest;
    TablePartOf(d, a.store.inodes[d], a.objects[d]);
    assert InObject(a, a.objects[d].table);
  }

  lemma LentWidened(a: Whole, b: Whole, c: Whole, d: nat, cost: Cost, size: nat, p: nat)
    requires Widened(a, b, d, cost) && Lent(b, c, size, p)
    ensures Widened(a, c, d, Plus(cost, Cost(0, 1, Pages(size)))) && Borrowed(c, p)
    ensures p in a.heap.live ==> p == a.objects[d].table
  {
    hide Longest, Payload, Rest, InObject, Pages;
    WidenedThen(a, b, c, d, {}, cost, Cost(0, 1, Pages(size)));
  }

  lemma ReturnedWidened(a: Whole, b: Whole, c: Whole, d: nat, cost: Cost, p: nat)
    requires Widened(a, b, d, cost) && Returned(b, c, p) && (p in a.heap.live ==> p == a.objects[d].table)
    ensures Widened(a, c, d, Plus(cost, Cost(0, -1, 0)))
  {
    hide Longest, Beside;
    WidenedThen(a, b, c, d, {p}, cost, Cost(0, -1, 0));
  }

  lemma ReturnedBorrowed(a: Whole, b: Whole, p: nat, q: nat)
    requires Returned(a, b, p) && Borrowed(a, q) && q != p
    ensures Borrowed(b, q)
  {
    hide Longest, Payload, Rest, InObject;
  }

  lemma EnteredWidened(a: Whole, b: Whole, d: nat, f: nat, n: Inode)
    requires Entered(a, b, d, f, n) && !n.Link?
    ensures Widened(a, b, d, Cost(0, 3, ObjectPages(n) + TablePages(a.store.inodes[d])))
    ensures f in b.objects && b.objects[f].table !in a.heap.live
  {
    hide Longest, Beside, Frames;
  }

  // A new file f of directory d has grown.
  lemma GrewWidened(a: Whole, b: Whole, c: Whole, d: nat, f: nat, cost: Cost, count: nat)
    requires Widened(a, b, d, cost) && Extends(b, c, f) && f !in a.objects && b.objects[f].table !in a.heap.live
    requires |b.store.inodes[f].blocks| == 0 && b.store.inodes[f].pointers == 2 && |c.store.inodes[f].blocks| == count
    ensures Widened(a, c, d, Plus(cost, Cost(count, 0, FullSize(2, count))))
  {
    hide Longest, Beside;
    WidenedThen(a, b, c, d, {b.objects[f].table}, cost, Cost(count, 0, FullSize(2, count)));
  }

  // A new directory f of directory d has been filled.
  lemma FilledWidened(a: Whole, b: Whole, c: Whole, d: nat, f: nat, cost: Cost, extra: Cost)
    requires Widened(a, b, d, cost) && Widened(b, c, f, extra) && f !in a.objects && b.objects[f].table !in a.heap.live
    ensures Widened(a, c, d, Plus(cost, extra))
  {
    hide Longest, Beside;
    WidenedThen(a, b, c, d, {b.objects[f].table}, cost, extra);
  }

  lemma WidenedRoom(a: Whole, b: Whole, d: nat, cost: Cost)
    requires Widened(a, b, d, cost)
    ensures Room(b) + cost.pages >= Room(a)
  {
    hide Beside, Longest;
  }

  lemma LentFacts(a: Whole, b: Whole, size: nat, p: nat)
    requires Lent(a, b, size, p)
    ensures p !in a.heap.live && p in b.heap.live && b.store.inodes == a.store.inodes && b.objects == a.objects
    ensures Room(b) + Pages(size) >= Room(a)
  {
    hide Longest, Pages, Beside, InObject;
  }
}
