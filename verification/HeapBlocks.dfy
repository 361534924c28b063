/** The blocks of the kernel heap: runs of whole pages with a header in front. */
module HeapBlocks {
  import opened ByteStrings
  import opened FramePool

  const ALLOC_MAGIC := 0xA77C
  const INFO_SIZE := 24  // sizeof(struct alloc_info)

  // struct alloc_info: magic, six bytes of padding, the block's address, the size asked for.
  datatype Info = Info(magic: nat, ptr: nat, size: nat)

  function InfoBytes(i: Info, padding: Bytes): (s: Bytes)
    requires |padding| == 6
    ensures |s| == INFO_SIZE
  {
    Le(i.magic, 2) + padding + Le(i.ptr, 8) + Le(i.size, 8)
  }

  function InfoAt(memory: Bytes, at: nat): Info
    requires at + INFO_SIZE <= |memory|
  {
    Info(FromLe(memory[at..at + 2]), FromLe(memory[at + 8..at + 16]), FromLe(memory[at + 16..at + 24]))
  }

  lemma InfoRoundTrip(memory: Bytes, at: nat, i: Info, padding: Bytes)
    requires |padding| == 6 && i.magic < 0x1_0000 && i.ptr < ADDRESS_SPACE && i.size < ADDRESS_SPACE
    requires at + INFO_SIZE <= |memory| && memory[at..at + INFO_SIZE] == InfoBytes(i, padding)
    ensures InfoAt(memory, at) == i
  {
    hide Le, FromLe, Power256;
    var s := InfoBytes(i, padding);
    Powers();
    LeRoundTrip(i.magic, 2);
    LeRoundTrip(i.ptr, 8);
    LeRoundTrip(i.size, 8);
    assert s[0..2] == Le(i.magic, 2) && s[8..16] == Le(i.ptr, 8) && s[16..24] == Le(i.size, 8);
    SliceOfSlice(memory, at, at + INFO_SIZE, at, at + 2);
    SliceOfSlice(memory, at, at + INFO_SIZE, at + 8, at + 16);
    SliceOfSlice(memory, at, at + INFO_SIZE, at + 16, at + 24);
  }

  // ---- Blocks ----

  // What malloc and free both make of a size.
  function Pages(size: nat): (n: nat)
    ensures 1 <= n && (n - 1) * PAGE_SIZE < size + INFO_SIZE <= n * PAGE_SIZE
  {
    var total := size + INFO_SIZE;
    (if total % PAGE_SIZE != 0 then total - total % PAGE_SIZE + PAGE_SIZE else total) / PAGE_SIZE
  }

  // A live block of size bytes at address p: its first frame, and the frame behind its last.
  function First(p: nat): nat {
    p / PAGE_SIZE
  }

  function Behind(p: nat, size: nat): nat {
    First(p) + Pages(size)
  }

  type Blocks = map<nat, nat>

  ghost predicate Overlap(f: nat, p: nat, size: nat) {
    First(p) <= f < Behind(p, size)
  }

  // The frames of all live blocks.
  ghost function Taken(live: Blocks, frameCount: nat): set<nat> {
    set f: nat {:trigger InBlock(live, f)} | f < frameCount && InBlock(live, f)
  }

  ghost predicate InBlock(live: Blocks, f: nat) {
    exists p :: p in live && Overlap(f, p, live[p])
  }

  ghost predicate Placed(live: Blocks, frameCount: nat) {
    && (forall p :: p in live ==> p % PAGE_SIZE == INFO_SIZE && Behind(p, live[p]) <= frameCount)
    && (forall p, q :: p in live && q in live && p != q ==>
        Behind(p, live[p]) <= First(q) || Behind(q, live[q]) <= First(p))
  }

  ghost predicate Marked(live: Blocks, memory: Bytes) {
    forall p :: p in live ==>
      INFO_SIZE <= p <= |memory| && InfoAt(memory, p - INFO_SIZE) == Info(ALLOC_MAGIC, p - INFO_SIZE, live[p])
  }

  // What the holder of a block sees.
  ghost function Payload(memory: Bytes, p: nat, size: nat): Bytes {
    if p + size <= |memory| then memory[p..p + size] else []
  }

  // Bytes changed from lo to hi only.
  ghost predicate OnlyWithin(a: Bytes, b: Bytes, lo: nat, hi: nat) {
    |a| == |b| && forall i :: 0 <= i < |a| && (i < lo || hi <= i) ==> b[i] == a[i]
  }

  // A change inside one stretch of frames keeps the blocks elsewhere.
  lemma BlockKept(a: Bytes, b: Bytes, lo: nat, hi: nat, p: nat, size: nat)
    requires OnlyWithin(a, b, lo, hi) && p % PAGE_SIZE == INFO_SIZE && Behind(p, size) * PAGE_SIZE <= |a|
    requires Behind(p, size) * PAGE_SIZE <= lo || hi <= First(p) * PAGE_SIZE
    ensures InfoAt(b, p - INFO_SIZE) == InfoAt(a, p - INFO_SIZE) && Payload(b, p, size) == Payload(a, p, size)
  {
    assert p - INFO_SIZE == First(p) * PAGE_SIZE && p + size <= Behind(p, size) * PAGE_SIZE;
    forall i, j | p - INFO_SIZE <= i <= j <= p + size ensures b[i..j] == a[i..j] {}
  }

  lemma TakenMore(live: Blocks, frameCount: nat, p: nat, size: nat)
    requires p !in live
    ensures Taken(live[p := size], frameCount) == Taken(live, frameCount) + Run(frameCount, First(p), Pages(size))
  {
    var more := live[p := size];
    forall f: nat ensures InBlock(more, f) <==> InBlock(live, f) || InRun(f, First(p), Pages(size)) {
      if InBlock(live, f) {
        var q :| q in live && Overlap(f, q, live[q]);
        assert Overlap(f, q, more[q]);
      }
      if InRun(f, First(p), Pages(size)) {
        assert Overlap(f, p, more[p]);
      }
    }
  }

  lemma TakenLess(live: Blocks, frameCount: nat, p: nat)
    requires Placed(live, frameCount) && p in live
    ensures Taken(live - {p}, frameCount) == Taken(live, frameCount) - Run(frameCount, First(p), Pages(live[p]))
    ensures Run(frameCount, First(p), Pages(live[p])) <= Taken(live, frameCount) && Placed(live - {p}, frameCount)
  {
    var less := live - {p};
    forall f: nat ensures InBlock(less, f) <==> InBlock(live, f) && !InRun(f, First(p), Pages(live[p])) {
      InLess(live, frameCount, p, f);
    }
    hide InBlock;
  }

  lemma InLess(live: Blocks, frameCount: nat, p: nat, f: nat)
    requires Placed(live, frameCount) && p in live
    ensures InBlock(live - {p}, f) <==> InBlock(live, f) && !InRun(f, First(p), Pages(live[p]))
  {
    var less := live - {p};
    if q :| q in live && Overlap(f, q, live[q]) && q != p {
      assert Overlap(f, q, less[q]);
    }
    if InBlock(less, f) {
      var q :| q in less && Overlap(f, q, less[q]);
      assert Overlap(f, q, live[q]);
    }
  }

  // A free run lies apart from every live block.
  lemma FreeApart(live: Blocks, locked: set<nat>, frameCount: nat, first: nat, n: nat, p: nat)
    requires Placed(live, frameCount) && Taken(live, frameCount) <= locked && FreeRun(locked, frameCount, first, n)
    requires p in live && n >= 1
    ensures Behind(p, live[p]) <= first || first + n <= First(p)
  {
    var f := if first < First(p) then First(p) else first;
    if f < Behind(p, live[p]) && f < first + n {
      assert Overlap(f, p, live[p]);
      BlockTaken(live, frameCount, f);
      Blocked(locked, frameCount, first, n, f);
    }
  }

  lemma BlockTaken(live: Blocks, frameCount: nat, f: nat)
    requires InBlock(live, f)
    ensures f in Taken(live, frameCount) || f >= frameCount
  {
  }

  // A new block in a free run, its header written.
  lemma NewBlock(live: Blocks, locked: set<nat>, frameCount: nat, a: Bytes, b: Bytes, first: nat, size: nat)
    requires Placed(live, frameCount) && Marked(live, a) && Taken(live, frameCount) <= locked
    requires |a| == frameCount * PAGE_SIZE
    requires FreeRun(locked, frameCount, first, Pages(size))
    requires OnlyWithin(a, b, first * PAGE_SIZE, first * PAGE_SIZE + INFO_SIZE)
    requires first * PAGE_SIZE + INFO_SIZE <= |b|
    requires InfoAt(b, first * PAGE_SIZE) == Info(ALLOC_MAGIC, first * PAGE_SIZE, size)
    ensures var p := first * PAGE_SIZE + INFO_SIZE;
      p !in live && First(p) == first && Placed(live[p := size], frameCount) && Marked(live[p := size], b)
        && SamePayloads(live, a, b)
  {
    hide InfoAt, Payload, FreeRun, Taken, OnlyWithin, First, Behind, Pages;
    var p := first * PAGE_SIZE + INFO_SIZE;
    BlockAt(first, size);
    RunInside(locked, frameCount, first, Pages(size));
    forall q | q in live
      ensures q != p && (Behind(q, live[q]) <= first || first + Pages(size) <= First(q))
      ensures INFO_SIZE <= q <= |a| == |b|
      ensures InfoAt(b, q - INFO_SIZE) == InfoAt(a, q - INFO_SIZE) && Payload(b, q, live[q]) == Payload(a, q, live[q])
    {
      OldBlock(live, locked, frameCount, a, b, first, size, q);
    }
  }

  lemma BlockAt(first: nat, size: nat)
    ensures var p := first * PAGE_SIZE + INFO_SIZE;
      First(p) == first && p % PAGE_SIZE == INFO_SIZE && Behind(p, size) == first + Pages(size)
  {
  }

  lemma RunInside(locked: set<nat>, frameCount: nat, first: nat, n: nat)
    requires FreeRun(locked, frameCount, first, n) && n >= 1
    ensures first + n <= frameCount
  {
    var last := first + n - 1;
    if last >= frameCount {
      Blocked(locked, frameCount, first, n, last);
    }
  }

  lemma OldBlock(live: Blocks, locked: set<nat>, frameCount: nat, a: Bytes, b: Bytes, first: nat, size: nat, q: nat)
    requires Placed(live, frameCount) && Taken(live, frameCount) <= locked && |a| == frameCount * PAGE_SIZE && q in live
    requires FreeRun(locked, frameCount, first, Pages(size))
    requires OnlyWithin(a, b, first * PAGE_SIZE, first * PAGE_SIZE + INFO_SIZE)
    ensures INFO_SIZE <= q <= |a| == |b| && (Behind(q, live[q]) <= first || first + Pages(size) <= First(q))
    ensures InfoAt(b, q - INFO_SIZE) == InfoAt(a, q - INFO_SIZE) && Payload(b, q, live[q]) == Payload(a, q, live[q])
  {
    FreeApart(live, locked, frameCount, first, Pages(size), q);
    BlockKept(a, b, first * PAGE_SIZE, first * PAGE_SIZE + INFO_SIZE, q, live[q]);
  }

  ghost predicate SamePayloads(live: Blocks, a: Bytes, b: Bytes) {
    forall q :: q in live ==> Payload(b, q, live[q]) == Payload(a, q, live[q])
  }

  // A change inside one payload.
  lemma WithinBlock(live: Blocks, frameCount: nat, a: Bytes, b: Bytes, p: nat, n: nat)
    requires Placed(live, frameCount) && Marked(live, a) && |a| == frameCount * PAGE_SIZE
    requires p in live && n <= live[p] && OnlyWithin(a, b, p, p + n)
    ensures Marked(live, b) && SamePayloads(live - {p}, a, b)
  {
    hide InfoAt, Payload, Placed, OnlyWithin;
    forall q | q in live
      ensures INFO_SIZE <= q <= |a| == |b|
      ensures InfoAt(b, q - INFO_SIZE) == InfoAt(a, q - INFO_SIZE)
      ensures (q != p ==> Payload(b, q, live[q]) == Payload(a, q, live[q]))
    {
      OneKept(live, frameCount, a, b, p, n, q);
    }
  }

  lemma OneKept(live: Blocks, frameCount: nat, a: Bytes, b: Bytes, p: nat, n: nat, q: nat)
    requires Placed(live, frameCount) && |a| == frameCount * PAGE_SIZE
    requires p in live && q in live && n <= live[p] && OnlyWithin(a, b, p, p + n)
    ensures INFO_SIZE <= q <= |a| == |b| && InfoAt(b, q - INFO_SIZE) == InfoAt(a, q - INFO_SIZE)
    ensures q != p ==> Payload(b, q, live[q]) == Payload(a, q, live[q])
  {
    if q != p {
      assert First(p) * PAGE_SIZE + INFO_SIZE == p && p + n <= Behind(p, live[p]) * PAGE_SIZE;
      BlockKept(a, b, p, p + n, q, live[q]);
    } else {
      assert p - INFO_SIZE == First(p) * PAGE_SIZE && p <= Behind(p, live[p]) * PAGE_SIZE;
      forall i, j | p - INFO_SIZE <= i <= j <= p ensures b[i..j] == a[i..j] {}
    }
  }

  lemma SmallBlock(live: Blocks, frameCount: nat, p: nat)
    requires Placed(live, frameCount) && p in live && frameCount <= MAX_FRAMES
    ensures live[p] + INFO_SIZE + PAGE_SIZE < ADDRESS_SPACE && p - INFO_SIZE == First(p) * PAGE_SIZE
    ensures First(p) + Pages(live[p]) <= frameCount
  {
    InPlace(live, frameCount, p);
    assert Behind(p, live[p]) <= frameCount;
  }

  lemma NullNotLive(live: Blocks, memory: Bytes)
    requires Marked(live, memory)
    ensures 0 !in live
  {
  }

  lemma MarkedLess(live: Blocks, memory: Bytes, p: nat)
    requires Marked(live, memory)
    ensures Marked(live - {p}, memory)
  {
    forall q | q in live - {p} ensures q in live && (live - {p})[q] == live[q] {}
  }

  lemma InfoIs(live: Blocks, memory: Bytes, p: nat)
    requires Marked(live, memory) && p in live
    ensures INFO_SIZE <= p <= |memory| && InfoAt(memory, p - INFO_SIZE) == Info(ALLOC_MAGIC, p - INFO_SIZE, live[p])
  {
  }

  lemma InPlace(live: Blocks, frameCount: nat, p: nat)
    requires Placed(live, frameCount) && p in live
    ensures p - INFO_SIZE == First(p) * PAGE_SIZE && p + live[p] <= frameCount * PAGE_SIZE
  {
    var n := Pages(live[p]);
    var size := live[p];
    assert p % PAGE_SIZE == INFO_SIZE && First(p) + n <= frameCount;
    hide First, Pages, Placed;
    assert p == p / PAGE_SIZE * PAGE_SIZE + INFO_SIZE;
    assert size + INFO_SIZE <= n * PAGE_SIZE;
  }

  // After a malloc, the header of another block still says what it said.
  lemma MallocedInfo(before: Blocks, after: Blocks, a: Bytes, b: Bytes, p: nat, moved: nat, size: nat)
    requires Marked(before, a) && Marked(after, b) && p in before && moved !in before && after == before[moved := size]
    ensures INFO_SIZE <= p <= |b| && InfoAt(b, p - INFO_SIZE) == Info(ALLOC_MAGIC, p - INFO_SIZE, before[p])
  {
    assert p in after && after[p] == before[p];
  }

  lemma PayloadPrefix(a: Bytes, b: Bytes, p: nat, size: nat, n: nat)
    requires |a| == |b| && p + size <= |a| && n <= size && Payload(a, p, size) == Payload(b, p, size)
    ensures Payload(a, p, n) == Payload(b, p, n)
  {
    SliceOfSlice(a, p, p + size, p, p + n);
    SliceOfSlice(b, p, p + size, p, p + n);
  }

  ghost function Updated(s: Bytes, i: nat, b: Byte): Bytes {
    if i < |s| then s[i := b] else s
  }

  lemma SamePayloadsTwice(before: Blocks, after: Blocks, a: Bytes, b: Bytes, c: Bytes, moved: nat)
    requires SamePayloads(before, a, b) && SamePayloads(after - {moved}, b, c) && moved !in before
    requires forall q :: q in before ==> q in after && after[q] == before[q]
    ensures SamePayloads(before, a, c)
  {
    forall q | q in before ensures Payload(c, q, before[q]) == Payload(a, q, before[q]) {
      var rest := after - {moved};
      assert q in rest && rest[q] == before[q];
    }
  }

  lemma RunApart(locked: set<nat>, frameCount: nat, first: nat, n: nat)
    requires FreeRun(locked, frameCount, first, n)
    ensures locked !! Run(frameCount, first, n)
  {
  }
}
