/** The kernel heap itself: malloc, free and realloc over the bitmap. */
module Heaps {
  import opened ByteStrings
  import opened Wrappers
  import opened FramePool
  import opened FreeSpace
  import opened HeapBlocks
  import opened HeapOps

  class Heap {
    const pool: Pool
    const memory: array<Byte>
    ghost var live: Blocks
    ghost var reserved: set<nat>

    ghost predicate Sized()
      reads this, pool, pool.frames
    {
      pool.Valid() && memory.Length == pool.frameCount * PAGE_SIZE && (memory as object) != pool.frames
    }

    ghost function Now(): HeapState
      requires Sized()
      reads this, pool, pool.frames, memory
    {
      HeapState(live, memory[..], pool.Locked(), reserved, pool.frameCount)
    }

    ghost predicate Valid()
      reads this, pool, pool.frames, memory
    {
      Sized() && HeapOk(Now())
    }

    // The longest free run of the bitmap.
    ghost function Room(): nat
      requires pool.Valid()
      reads this, pool, pool.frames
    {
      Longest(pool.Locked(), pool.frameCount)
    }

    constructor (frames: Pool, bytes: Bytes)
      requires frames.Valid() && |bytes| == frames.frameCount * PAGE_SIZE
      ensures Valid() && pool == frames && fresh(memory) && memory[..] == bytes
      ensures live == map[] && reserved == frames.Locked()
    {
      pool := frames;
      memory := new Byte[|bytes|](i requires 0 <= i < |bytes| => bytes[i]);
      live, reserved := map[], frames.Locked();
      new;
      forall f: nat ensures !InBlock(live, f) {}
    }

    // Another client of the bitmap has acted since the heap was in state was.
    ghost method Resume(was: HeapState)
      requires HeapOk(was) && Sized() && was.frameCount == pool.frameCount
      requires HeapLeftAlone(was, Now().(reserved := pool.Locked() - Taken(was.live, was.frameCount)))
      modifies this`reserved
      ensures Valid() && HeapNext(was, HeapOp.Elsewhere, Now()) && SamePayloads(live, was.memory, memory[..])
    {
      reserved := pool.Locked() - Taken(live, pool.frameCount);
      LeftAloneKeepsOk(was, Now());
    }

    // memcpy
    method Copy(at: nat, bytes: Bytes)
      requires at + |bytes| <= memory.Length
      modifies memory
      ensures OnlyWithin(old(memory[..]), memory[..], at, at + |bytes|) && memory[at..at + |bytes|] == bytes
    {
      forall i | 0 <= i < |bytes| {
        memory[at + i] := bytes[i];
      }
    }

    // The size rounded up to whole pages.
    method PagesFor(size: nat) returns (pages: nat)
      requires size + INFO_SIZE + PAGE_SIZE < ADDRESS_SPACE
      ensures pages == Pages(size)
    {
      var total := size + INFO_SIZE;
      if total % PAGE_SIZE != 0 {
        total := total - total % PAGE_SIZE;
        total := total + PAGE_SIZE;
      }
      pages := total / PAGE_SIZE;
    }

    // malloc. Without a free run that is long enough it locks frames 0 to n - 2, which nobody
    // will release, and then faults as it stores the header where the run would be.
    method Malloc(size: nat) returns (ptr: Option<nat>)
      requires Valid() && size + INFO_SIZE + PAGE_SIZE < ADDRESS_SPACE && Pages(size) < 0x8000_0000
      modifies this`live, this`reserved, pool.frames, memory
      ensures Valid() && (ptr.None? <==> forall i: nat :: !FreeRun(old(pool.Locked()), pool.frameCount, i, Pages(size)))
      ensures ptr.None? ==> live == old(live) && memory[..] == old(memory[..])
      ensures ptr.None? ==> pool.Locked() == old(pool.Locked()) + Run(pool.frameCount, -1, Pages(size))
      ensures ptr.None? ==>
        reserved == old(reserved) + (Run(pool.frameCount, -1, Pages(size)) - Taken(live, pool.frameCount))
      ensures ptr.Some? ==> FreeRun(old(pool.Locked()), pool.frameCount, First(ptr.value), Pages(size))
      ensures ptr.Some? ==>
        forall i: nat :: i < First(ptr.value) ==> !FreeRun(old(pool.Locked()), pool.frameCount, i, Pages(size))
      ensures ptr.Some? ==> reserved == old(reserved) && HeapNext(old(Now()), HeapOp.Malloc(size, ptr.value), Now())
      ensures ptr.Some? ==> PagesBut(old(memory[..]), memory[..], pool.frameCount, BlockFrames(Now(), ptr.value))
      ensures old(Room()) >= Pages(size) ==> ptr.Some?
      ensures ptr.Some? ==> Room() + Pages(size) >= old(Room())
    {
      hide HeapOk, Taken, FreeRun, Pages, First, HeapNext, Longest;
      var pages := PagesFor(size);
      var first := pool.RequestFrames(pages);
      NoRunBeyond(pool.Locked(), pool.frameCount, pages, first);
      var start := Address(first);
      LockRun(start, first, pages);
      if first == NO_FRAME {
        reserved := reserved + (Run(pool.frameCount, -1, pages) - Taken(live, pool.frameCount));
        LostFrames(old(Now()), Now(), pages);
        if old(Room()) >= pages {
          RequestMet(old(pool.Locked()), pool.frameCount, pages);
        }
        return None;
      }
      LowestTaken(old(pool.Locked()), pool.Locked(), pool.frameCount, first, pages);
      NewRun(old(Now()), Now(), size, first);
      WriteInfo(start, size);
      live := live[start + INFO_SIZE := size];
      Allocated(old(Now()), Now(), size, first);
      ptr := Some(start + INFO_SIZE);
    }

    // The locking loop; the addresses of a failed request wrap around.
    method LockRun(start: nat, first: nat, pages: nat)
      requires Sized() && start == Address(first) && (first < pool.frameCount || first == NO_FRAME)
      requires pages < 0x8000_0000
      modifies pool.frames
      ensures Sized()
      ensures pool.Locked() == old(pool.Locked()) + Run(pool.frameCount, if first == NO_FRAME then -1 else first, pages)
    {
      ghost var run: int := if first == NO_FRAME then -1 else first;
      var i := 0;
      RunStep(pool.frameCount, run, 0);
      while i < pages
        invariant i <= pages && Sized()
        invariant pool.Locked() == old(pool.Locked()) + Run(pool.frameCount, run, i)
      {
        RunStep(pool.frameCount, run, i);
        LockPage(start, first, i);
        i := i + 1;
      }
    }

    method LockPage(start: nat, ghost first: nat, i: nat)
      requires Sized() && start == Address(first) && (first < pool.frameCount || first == NO_FRAME) && i < 0x8000_0000
      modifies pool.frames
      ensures Sized()
      ensures var f := (if first == NO_FRAME then -1 else first) + i;
        pool.Locked() == old(pool.Locked()) + (if 0 <= f < pool.frameCount then {f} else {})
    {
      hide Address;
      WrappedAddress(pool.frameCount, first, i);
      PageAddress(pool.frameCount, first, i);
      pool.Lock((start + i * PAGE_SIZE) % ADDRESS_SPACE);
    }

    method WriteInfo(ptr: nat, size: nat)
      requires ptr + INFO_SIZE <= memory.Length && ptr < ADDRESS_SPACE && size < ADDRESS_SPACE
      modifies memory
      ensures OnlyWithin(old(memory[..]), memory[..], ptr, ptr + INFO_SIZE)
      ensures InfoAt(memory[..], ptr) == Info(ALLOC_MAGIC, ptr, size)
    {
      var padding := memory[ptr + 2..ptr + 8];
      Copy(ptr, InfoBytes(Info(ALLOC_MAGIC, ptr, size), padding));
      assert memory[..][ptr..ptr + INFO_SIZE] == memory[ptr..ptr + INFO_SIZE];
      InfoRoundTrip(memory[..], ptr, Info(ALLOC_MAGIC, ptr, size), padding);
    }

    // free. A pointer whose header does not bear the magic number is refused.
    method Free(ptr: nat)
      requires Valid() && (ptr == 0 || INFO_SIZE <= ptr <= memory.Length)
      requires ptr != 0 && InfoAt(memory[..], ptr - INFO_SIZE).magic == ALLOC_MAGIC ==> ptr in live
      modifies this`live, pool`lowestAvailable, pool.frames
      ensures Valid() && reserved == old(reserved)
      ensures HeapNext(old(Now()), if ptr in old(live) then HeapOp.Free(ptr) else HeapOp.Refused, Now())
      ensures Room() >= old(Room())
    {
      hide Longest, Taken, Placed, Marked, InfoAt, First, Pages, Own;
      if ptr == 0 {
        NullNotLive(live, memory[..]);
        OwnNothing(Now());
        return;
      }
      if ptr in live {
        InfoIs(live, memory[..], ptr);
      }
      var info := InfoAt(memory[..], ptr - INFO_SIZE);
      if info.magic != ALLOC_MAGIC {
        OwnNothing(Now());
        return;
      }
      var phys := info.ptr;
      SmallBlock(live, pool.frameCount, ptr);
      var pages := PagesFor(info.size);
      UnlockRun(phys, First(ptr), pages);
      TakenLess(live, pool.frameCount, ptr);
      MarkedLess(live, memory[..], ptr);
      live := live - {ptr};
      MoreFree(old(pool.Locked()), pool.Locked(), pool.frameCount);
      OwnSameMemory(old(Now()), Now());
    }

    method UnlockRun(phys: nat, ghost first: nat, pages: nat)
      requires Sized() && phys == first * PAGE_SIZE && first + pages <= pool.frameCount
      modifies pool`lowestAvailable, pool.frames
      ensures Sized() && pool.Locked() == old(pool.Locked()) - Run(pool.frameCount, first, pages)
    {
      var i := 0;
      RunStep(pool.frameCount, first, 0);
      while i < pages
        invariant i <= pages && Sized() && pool.Locked() == old(pool.Locked()) - Run(pool.frameCount, first, i)
      {
        RunStep(pool.frameCount, first, i);
        assert (phys + i * PAGE_SIZE) / PAGE_SIZE == first + i;
        pool.Release(phys + i * PAGE_SIZE);
        i := i + 1;
      }
    }

    // realloc. A null pointer gives a null pointer, whatever the size; no answer means that the
    // malloc in it faulted.
    method Realloc(ptr: nat, s: nat) returns (moved: Option<nat>)
      requires Valid() && (ptr == 0 || ptr in live) && s + INFO_SIZE + PAGE_SIZE < ADDRESS_SPACE
      requires Pages(s) < 0x8000_0000
      modifies this`live, this`reserved, pool`lowestAvailable, pool.frames, memory
      ensures Valid()
      ensures moved.None? <==>
        ptr != 0 && s != 0 && forall i: nat :: !FreeRun(old(pool.Locked()), pool.frameCount, i, Pages(s))
      ensures moved.None? ==> live == old(live) && memory[..] == old(memory[..])
      ensures ptr == 0 ==> moved == Some(0) && Now() == old(Now())
      ensures ptr != 0 && s == 0 ==> moved == Some(0) && HeapNext(old(Now()), HeapOp.Free(ptr), Now())
      ensures ptr != 0 && s != 0 && moved.Some? ==> HeapNext(old(Now()), HeapOp.Realloc(ptr, s, moved.value), Now())
      ensures moved.Some? ==> reserved == old(reserved)
      ensures old(Room()) >= Pages(s) ==> moved.Some?
      ensures moved.Some? ==> Room() + Pages(s) >= old(Room())
    {
      hide Longest, Taken, Placed, InfoAt, FreeRun, Marked, First, Pages, Payload, Own, PagesBut, SamePayloads;
      NullNotLive(live, memory[..]);
      if ptr == 0 {
        return Some(0);
      }
      InfoIs(live, memory[..], ptr);
      if s == 0 {
        Free(ptr);
        return Some(0);
      }
      moved := Malloc(s);
      if moved.None? {
        return;
      }
      MallocedInfo(old(live), live, old(memory[..]), memory[..], ptr, moved.value, s);
      var info := InfoAt(memory[..], ptr - INFO_SIZE);
      if info.magic != ALLOC_MAGIC {
        assert false;
      }
      ghost var mid := memory[..];
      InPlace(old(live), pool.frameCount, ptr);
      CopyBlock(moved.value, ptr, if info.size < s then info.size else s);
      InfoIs(live, memory[..], ptr);
      ghost var copied := Now();
      Free(ptr);
      Moved(old(Now()), mid, copied, Now(), ptr, s, moved.value);
    }

    // memcpy(new, ptr, n)
    method CopyBlock(to: nat, from: nat, n: nat)
      requires Valid() && to in live && from in live && to != from && n <= live[to] && n <= live[from]
      modifies memory
      ensures Valid() && Payload(memory[..], to, n) == old(Payload(memory[..], from, n))
      ensures SamePayloads(live - {to}, old(memory[..]), memory[..])
      ensures PagesBut(old(memory[..]), memory[..], pool.frameCount, BlockFrames(Now(), to))
    {
      hide Taken, Placed, InfoAt, Marked, SamePayloads, OnlyWithin, First, Pages, PagesBut;
      InPlace(live, pool.frameCount, from);
      InPlace(live, pool.frameCount, to);
      Copy(to, memory[from..from + n]);
      WithinBlock(live, pool.frameCount, old(memory[..]), memory[..], to, n);
      PayloadPages(live, pool.frameCount, old(memory[..]), memory[..], to, n);
    }

    // A store of a block's holder.
    method Store(ptr: nat, i: nat, b: Byte)
      requires Valid() && ptr in live && i < live[ptr]
      modifies memory
      ensures Valid() && HeapNext(old(Now()), HeapOp.Store(ptr, i, b), Now())
    {
      hide Taken, Placed, InfoAt, Marked, SamePayloads, First, Pages, PagesBut, Own;
      InPlace(live, pool.frameCount, ptr);
      memory[ptr + i] := b;
      WithinBlock(live, pool.frameCount, old(memory[..]), memory[..], ptr, live[ptr]);
      PayloadPages(live, pool.frameCount, old(memory[..]), memory[..], ptr, live[ptr]);
      OwnBlock(old(Now()), Now(), ptr);
    }
  }
  // Three frames, the middle one free: a malloc of three pages fails, and then the middle one is
  // locked although no block has it, so that a malloc of one page fails too.
  method MallocLost(h: Heap) returns (first: Option<nat>, second: Option<nat>)
    requires h.Valid() && h.live == map[] && h.pool.frameCount == 3 && h.pool.Locked() == {0, 2}
    modifies h`live, h`reserved, h.pool.frames, h.memory
    ensures first.None? && second.None? && h.live == map[]
    ensures FreeRun({0, 2}, 3, 1, Pages(1)) && h.pool.Locked() == {0, 1, 2}
  {
    hide HeapOk, HeapNext, FreeRun, Run, Pages, Longest, Taken, BlockFrames, PagesBut, First;
    ThreeFrames();
    first := h.Malloc(9000);
    second := h.Malloc(1);
  }

  // Frames 0 to 2, of which the middle one is free, and then none.
  lemma ThreeFrames()
    ensures Pages(1) == 1 && Pages(9000) == 3 && FreeRun({0, 2}, 3, 1, 1)
    ensures forall i: nat :: !FreeRun({0, 2}, 3, i, 3)
    ensures forall i: nat :: !FreeRun({0, 1, 2}, 3, i, 1)
    ensures {0, 2} + Run(3, -1, 3) == {0, 1, 2} && {0, 1, 2} + Run(3, -1, 1) == {0, 1, 2}
  {
    forall i: nat ensures !FreeRun({0, 2}, 3, i, 3) {
      Blocked({0, 2}, 3, i, 3, i + 2);
    }
    forall i: nat ensures !FreeRun({0, 1, 2}, 3, i, 1) {
      Blocked({0, 1, 2}, 3, i, 1, i);
    }
    RunStep(3, -1, 0);
    RunStep(3, -1, 1);
    RunStep(3, -1, 2);
  }
}
