/** The heap's operations as a relation on its states, and runs of them. */
module HeapOps {
  import opened ByteStrings
  import opened FramePool
  import opened HeapBlocks

  datatype HeapState = HeapState(live: Blocks, memory: Bytes, locked: set<nat>, reserved: set<nat>, frameCount: nat)

  datatype HeapOp =
    | Malloc(size: nat, ptr: nat)
    | Free(ptr: nat)
    | Realloc(ptr: nat, size: nat, moved: nat)
    | Store(ptr: nat, i: nat, byte: Byte)
    | Refused
    | Elsewhere  // another client of the bitmap did something

  ghost predicate HeapOk(h: HeapState) {
    && h.frameCount <= MAX_FRAMES && |h.memory| == h.frameCount * PAGE_SIZE
    && Placed(h.live, h.frameCount) && Marked(h.live, h.memory)
    && h.locked == h.reserved + Taken(h.live, h.frameCount) && h.reserved !! Taken(h.live, h.frameCount)
  }

  function FramePage(memory: Bytes, f: nat): Bytes {
    if (f + 1) * PAGE_SIZE <= |memory| then memory[f * PAGE_SIZE..(f + 1) * PAGE_SIZE] else []
  }

  // Memory changed in these frames at most.
  ghost predicate PagesBut(a: Bytes, b: Bytes, frameCount: nat, frames: set<nat>) {
    |a| == |b| && forall f: nat :: f < frameCount && f !in frames ==> FramePage(b, f) == FramePage(a, f)
  }

  ghost function BlockFrames(h: HeapState, p: nat): set<nat>
    requires p in h.live
  {
    Run(h.frameCount, First(p), Pages(h.live[p]))
  }

  ghost predicate Own(a: HeapState, b: HeapState) {
    b.reserved == a.reserved && PagesBut(a.memory, b.memory, a.frameCount, Taken(b.live, b.frameCount))
  }

  // Someone else locked, released and wrote frames, but none of the heap's.
  ghost predicate HeapLeftAlone(a: HeapState, b: HeapState) {
    && b.live == a.live && |b.memory| == |a.memory|
    && (forall f :: f in Taken(a.live, a.frameCount) ==> FramePage(b.memory, f) == FramePage(a.memory, f))
    && Taken(a.live, a.frameCount) <= b.locked && b.reserved == b.locked - Taken(a.live, a.frameCount)
  }

  ghost predicate HeapNext(a: HeapState, op: HeapOp, b: HeapState) {
    && HeapOk(b) && b.frameCount == a.frameCount
    && (op.Elsewhere? || Own(a, b))
    && match op
       case Malloc(size, ptr) =>
         && ptr !in a.live && b.live == a.live[ptr := size] && SamePayloads(a.live, a.memory, b.memory)
         && b.locked == a.locked + BlockFrames(b, ptr)
       case Free(ptr) =>
         && ptr in a.live && b.live == a.live - {ptr} && b.memory == a.memory
         && b.locked == a.locked - BlockFrames(a, ptr)
       case Realloc(ptr, size, moved) =>
         && ptr in a.live && moved !in a.live && b.live == a.live[moved := size] - {ptr}
         && (var n := if a.live[ptr] < size then a.live[ptr] else size;
             Payload(b.memory, moved, n) == Payload(a.memory, ptr, n))
         && SamePayloads(a.live - {ptr}, a.memory, b.memory)
       case Store(ptr, i, byte) =>
         && ptr in a.live && b.live == a.live && b.locked == a.locked
         && Payload(b.memory, ptr, a.live[ptr]) == Updated(Payload(a.memory, ptr, a.live[ptr]), i, byte)
         && SamePayloads(a.live - {ptr}, a.memory, b.memory)
       case Refused => b == a
       case Elsewhere => HeapLeftAlone(a, b)
  }

  // ---- What left-alone blocks keep ----

  lemma BlockFrame(h: HeapState, p: nat, f: nat)
    requires p in h.live && First(p) <= f < Behind(p, h.live[p]) && f < h.frameCount
    ensures f in Taken(h.live, h.frameCount)
  {
    assert Overlap(f, p, h.live[p]);
    assert InBlock(h.live, f);
  }

  lemma SameByte(a: Bytes, b: Bytes, f: nat, i: nat)
    requires |a| == |b| && f * PAGE_SIZE <= i < (f + 1) * PAGE_SIZE <= |a| && FramePage(b, f) == FramePage(a, f)
    ensures b[i] == a[i]
  {
    assert b[i] == FramePage(b, f)[i - f * PAGE_SIZE] && a[i] == FramePage(a, f)[i - f * PAGE_SIZE];
  }

  lemma LeftAloneBytes(a: HeapState, b: HeapState, p: nat)
    requires HeapOk(a) && HeapLeftAlone(a, b) && p in a.live
    ensures INFO_SIZE <= p <= |b.memory| && InfoAt(b.memory, p - INFO_SIZE) == InfoAt(a.memory, p - INFO_SIZE)
    ensures Payload(b.memory, p, a.live[p]) == Payload(a.memory, p, a.live[p])
  {
    SmallBlock(a.live, a.frameCount, p);
    InPlace(a.live, a.frameCount, p);
    var lo, hi := First(p) * PAGE_SIZE, Behind(p, a.live[p]) * PAGE_SIZE;
    assert p + a.live[p] <= hi;
    hide Placed, Marked, Taken, First, Pages, InfoAt;
    forall i | lo <= i < hi ensures b.memory[i] == a.memory[i] {
      var f := i / PAGE_SIZE;
      BlockFrame(a, p, f);
      SameByte(a.memory, b.memory, f, i);
    }
    SameStretch(a.memory, b.memory, lo, hi, p, a.live[p]);
  }

  lemma SameStretch(a: Bytes, b: Bytes, lo: nat, hi: nat, p: nat, size: nat)
    requires |a| == |b| && lo <= p - INFO_SIZE && p + size <= hi <= |a| && forall i :: lo <= i < hi ==> b[i] == a[i]
    ensures InfoAt(b, p - INFO_SIZE) == InfoAt(a, p - INFO_SIZE) && Payload(b, p, size) == Payload(a, p, size)
  {
    forall i, j | lo <= i <= j <= hi ensures b[i..j] == a[i..j] {}
    hide FromLe;
  }

  lemma LeftAloneKeepsOk(a: HeapState, b: HeapState)
    requires HeapOk(a) && HeapLeftAlone(a, b) && b.frameCount == a.frameCount
    ensures HeapOk(b) && SamePayloads(a.live, a.memory, b.memory)
  {
    hide Placed, Taken, InfoAt, Payload, HeapLeftAlone;
    forall p | p in a.live
      ensures INFO_SIZE <= p <= |b.memory| && InfoAt(b.memory, p - INFO_SIZE) == InfoAt(a.memory, p - INFO_SIZE)
      ensures Payload(b.memory, p, a.live[p]) == Payload(a.memory, p, a.live[p])
    {
      LeftAloneBytes(a, b, p);
    }
    LeftAloneParts(a, b);
  }

  lemma LeftAloneParts(a: HeapState, b: HeapState)
    requires HeapLeftAlone(a, b) && b.frameCount == a.frameCount
    ensures b.live == a.live && |b.memory| == |a.memory|
    ensures b.locked == b.reserved + Taken(b.live, b.frameCount) && b.reserved !! Taken(b.live, b.frameCount)
  {
    hide Taken;
  }

  // ---- Runs ----

  ghost predicate HeapRun(states: seq<HeapState>, ops: seq<HeapOp>) {
    && |states| == |ops| + 1 && HeapOk(states[0])
    && forall n :: 0 <= n < |ops| ==> HeapNext(states[n], ops[n], states[n + 1])
  }

  // Whether op may change block p.
  predicate Touches(op: HeapOp, p: nat) {
    match op
    case Malloc(_, _) => false
    case Free(q) => q == p
    case Realloc(q, _, _) => q == p
    case Store(q, _, _) => q == p
    case Refused => false
    case Elsewhere => false
  }

  // A live block nobody touches keeps its size and bytes, whatever happens around it.
  lemma {:induction false} RunKeepsBlock(states: seq<HeapState>, ops: seq<HeapOp>, p: nat)
    requires HeapRun(states, ops) && p in states[0].live && forall n :: 0 <= n < |ops| ==> !Touches(ops[n], p)
    ensures HeapOk(states[|ops|])
    ensures p in states[|ops|].live && states[|ops|].live[p] == states[0].live[p]
    ensures Payload(states[|ops|].memory, p, states[0].live[p]) == Payload(states[0].memory, p, states[0].live[p])
    decreases |ops|
  {
    hide HeapOk, HeapNext, Payload;
    if ops != [] {
      var n := |ops| - 1;
      RunKeepsBlock(states[..n + 1], ops[..n], p);
      assert HeapNext(states[n], ops[n], states[n + 1]) && !Touches(ops[n], p);
      StepKeepsBlock(states[n], ops[n], states[n + 1], p);
    }
  }

  lemma StepKeepsBlock(a: HeapState, op: HeapOp, b: HeapState, p: nat)
    requires HeapOk(a) && HeapNext(a, op, b) && p in a.live && !Touches(op, p)
    ensures HeapOk(b) && p in b.live && b.live[p] == a.live[p]
    ensures Payload(b.memory, p, a.live[p]) == Payload(a.memory, p, a.live[p])
  {
    hide Placed, Marked, Taken, Own, HeapLeftAlone, Payload;
    if op.Elsewhere? {
      LeftAloneKeepsOk(a, b);
      LeftAloneParts(a, b);
    }
    if op.Realloc? {
      assert p in a.live - {op.ptr} && (a.live - {op.ptr})[p] == a.live[p];
    }
    if op.Store? {
      assert p in a.live - {op.ptr} && (a.live - {op.ptr})[p] == a.live[p];
    }
  }

  // ---- Writes inside a block ----

  lemma InsideBlock(a: Bytes, b: Bytes, frameCount: nat, p: nat, size: nat, lo: nat, hi: nat)
    requires OnlyWithin(a, b, lo, hi) && |a| == frameCount * PAGE_SIZE
    requires First(p) * PAGE_SIZE <= lo && hi <= Behind(p, size) * PAGE_SIZE
    ensures PagesBut(a, b, frameCount, Run(frameCount, First(p), Pages(size)))
  {
    hide First, Pages;
    forall f: nat | f < frameCount && f !in Run(frameCount, First(p), Pages(size))
      ensures FramePage(b, f) == FramePage(a, f)
    {
      assert !InRun(f, First(p), Pages(size));
      assert (f + 1) * PAGE_SIZE <= lo || hi <= f * PAGE_SIZE;
    }
  }

  lemma PagesButTwice(a: Bytes, b: Bytes, c: Bytes, frameCount: nat, frames: set<nat>)
    requires PagesBut(a, b, frameCount, frames) && PagesBut(b, c, frameCount, frames)
    ensures PagesBut(a, c, frameCount, frames)
  {
  }

  lemma BlockTakenWhole(h: HeapState, p: nat)
    requires p in h.live
    ensures BlockFrames(h, p) <= Taken(h.live, h.frameCount)
  {
    forall f | f in BlockFrames(h, p) ensures f in Taken(h.live, h.frameCount) {
      assert InRun(f, First(p), Pages(h.live[p]));
      BlockFrame(h, p, f);
    }
  }

  lemma OwnBlock(a: HeapState, b: HeapState, p: nat)
    requires p in b.live && b.frameCount == a.frameCount && b.reserved == a.reserved
    requires PagesBut(a.memory, b.memory, a.frameCount, BlockFrames(b, p))
    ensures Own(a, b)
  {
    BlockTakenWhole(b, p);
    hide Taken, Pages, First, FramePage;
  }

  // ---- What the single steps of the class come to ----

  lemma OwnNothing(h: HeapState)
    ensures Own(h, h)
  {
  }

  lemma OwnSameMemory(a: HeapState, b: HeapState)
    requires b.memory == a.memory && b.reserved == a.reserved
    ensures Own(a, b)
  {
  }

  lemma PayloadPages(live: Blocks, frameCount: nat, a: Bytes, b: Bytes, p: nat, n: nat)
    requires Placed(live, frameCount) && p in live && n <= live[p] && |a| == frameCount * PAGE_SIZE
    requires OnlyWithin(a, b, p, p + n)
    ensures PagesBut(a, b, frameCount, Run(frameCount, First(p), Pages(live[p])))
  {
    InPlace(live, frameCount, p);
    assert p + live[p] <= Behind(p, live[p]) * PAGE_SIZE;
    hide First, Pages, Placed;
    InsideBlock(a, b, frameCount, p, live[p], p, p + n);
  }

  // The search stops at the first run; beyond memory there is none.
  lemma NoRunBeyond(locked: set<nat>, frameCount: nat, n: nat, first: nat)
    requires n >= 1 && (first < frameCount || first == NO_FRAME) && frameCount <= MAX_FRAMES
    requires forall i: nat :: i < first ==> !FreeRun(locked, frameCount, i, n)
    requires first != NO_FRAME ==> FreeRun(locked, frameCount, first, n)
    ensures first == NO_FRAME <==> forall i: nat :: !FreeRun(locked, frameCount, i, n)
    ensures first != NO_FRAME ==> first + n <= frameCount
  {
    if first == NO_FRAME {
      forall i: nat ensures !FreeRun(locked, frameCount, i, n) {
        if i >= frameCount {
          Blocked(locked, frameCount, i, n, i);
        }
      }
    } else {
      RunInside(locked, frameCount, first, n);
    }
  }

  lemma PageAddress(frameCount: nat, first: nat, i: nat)
    requires frameCount <= MAX_FRAMES && i < 0x8000_0000 && (first < frameCount || first == NO_FRAME)
    ensures (Address(first) + i * PAGE_SIZE) % ADDRESS_SPACE == Address((first + i) % ADDRESS_SPACE)
  {
    if first == NO_FRAME && i > 0 {
      assert (first + i) % ADDRESS_SPACE == i - 1;
    }
  }

  // A failed malloc: frames locked for nobody.
  lemma LostFrames(a: HeapState, b: HeapState, n: nat)
    requires HeapOk(a) && b.live == a.live && b.memory == a.memory && b.frameCount == a.frameCount
    requires b.locked == a.locked + Run(a.frameCount, -1, n)
    requires b.reserved == a.reserved + (Run(a.frameCount, -1, n) - Taken(a.live, a.frameCount))
    ensures HeapOk(b)
  {
    hide Taken, Placed, Marked;
  }

  // The run is locked, the header not yet written.
  lemma NewRun(a: HeapState, b: HeapState, size: nat, first: nat)
    requires HeapOk(a) && b.frameCount == a.frameCount && FreeRun(a.locked, a.frameCount, first, Pages(size))
    ensures first * PAGE_SIZE == Address(first) && first * PAGE_SIZE + INFO_SIZE <= |a.memory|
  {
    RunInside(a.locked, a.frameCount, first, Pages(size));
    hide Taken, Placed, Marked, Pages;
  }

  lemma Allocated(a: HeapState, b: HeapState, size: nat, first: nat)
    requires HeapOk(a) && FreeRun(a.locked, a.frameCount, first, Pages(size))
    requires b.frameCount == a.frameCount && b.reserved == a.reserved
    requires b.locked == a.locked + Run(a.frameCount, first, Pages(size))
    requires b.live == a.live[first * PAGE_SIZE + INFO_SIZE := size] && first * PAGE_SIZE + INFO_SIZE <= |b.memory|
    requires OnlyWithin(a.memory, b.memory, first * PAGE_SIZE, first * PAGE_SIZE + INFO_SIZE)
    requires InfoAt(b.memory, first * PAGE_SIZE) == Info(ALLOC_MAGIC, first * PAGE_SIZE, size)
    ensures var p := first * PAGE_SIZE + INFO_SIZE;
      && First(p) == first && p in b.live && HeapOk(b) && HeapNext(a, HeapOp.Malloc(size, p), b)
      && PagesBut(a.memory, b.memory, b.frameCount, BlockFrames(b, p))
  {
    var p := first * PAGE_SIZE + INFO_SIZE;
    BlockAt(first, size);
    NewBlock(a.live, a.locked, a.frameCount, a.memory, b.memory, first, size);
    TakenMore(a.live, a.frameCount, p, size);
    RunApart(a.locked, a.frameCount, first, Pages(size));
    assert |b.memory| == |a.memory|;
    assert first * PAGE_SIZE + INFO_SIZE <= Behind(p, size) * PAGE_SIZE;
    InsideBlock(a.memory, b.memory, a.frameCount, p, size, first * PAGE_SIZE, first * PAGE_SIZE + INFO_SIZE);
    hide Placed, Marked, Taken, InfoAt, SamePayloads, First, Pages, FreeRun, PagesBut, Own, OnlyWithin;
    OwnBlock(a, b, p);
  }

  // malloc, memcpy and free, one after the other.
  lemma Moved(a: HeapState, mid: Bytes, c: HeapState, b: HeapState, ptr: nat, size: nat, moved: nat)
    requires HeapOk(a) && HeapOk(b) && ptr in a.live && moved !in a.live && c.live == a.live[moved := size]
    requires c.frameCount == a.frameCount == b.frameCount && b.reserved == a.reserved == c.reserved
    requires SamePayloads(a.live, a.memory, mid) && |mid| == |a.memory|
    requires PagesBut(a.memory, mid, a.frameCount, BlockFrames(c, moved))
    requires PagesBut(mid, c.memory, a.frameCount, BlockFrames(c, moved))
    requires var n := if a.live[ptr] < size then a.live[ptr] else size;
      Payload(c.memory, moved, n) == Payload(mid, ptr, n)
    requires SamePayloads(c.live - {moved}, mid, c.memory)
    requires b.live == c.live - {ptr} && b.memory == c.memory
    ensures HeapNext(a, HeapOp.Realloc(ptr, size, moved), b)
  {
    hide HeapOk, PagesBut, Own, Payload, SamePayloads, First, Pages, Run, Taken;
    InPlaceNow(a, ptr);
    var n := if a.live[ptr] < size then a.live[ptr] else size;
    OnePayload(a.live, a.memory, mid, ptr);
    PayloadPrefix(a.memory, mid, ptr, a.live[ptr], n);
    SamePayloadsTwice(a.live, c.live, a.memory, mid, c.memory, moved);
    FewerPayloads(a.live, ptr, a.memory, b.memory);
    PagesButTwice(a.memory, mid, c.memory, a.frameCount, BlockFrames(c, moved));
    assert b.live[moved] == size && BlockFrames(b, moved) == BlockFrames(c, moved);
    OwnBlock(a, b, moved);
  }

  lemma OnePayload(live: Blocks, a: Bytes, b: Bytes, p: nat)
    requires SamePayloads(live, a, b) && p in live
    ensures Payload(b, p, live[p]) == Payload(a, p, live[p])
  {
  }

  lemma InPlaceNow(h: HeapState, p: nat)
    requires HeapOk(h) && p in h.live
    ensures p + h.live[p] <= |h.memory|
  {
    InPlace(h.live, h.frameCount, p);
  }

  lemma FewerPayloads(live: Blocks, p: nat, a: Bytes, b: Bytes)
    requires SamePayloads(live, a, b)
    ensures SamePayloads(live - {p}, a, b)
  {
    forall q | q in live - {p} ensures q in live && (live - {p})[q] == live[q] {}
  }
}
