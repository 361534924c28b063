/** The bitmap of physical frames and its "lowest available" hint. */
module FramePool {
  import opened BitWords

  const PAGE_SIZE := 0x1000
  const ADDRESS_SPACE := 0x1_0000_0000_0000_0000

  // (uintptr_t) -1, the answer of a request that finds nothing.
  const NO_FRAME: nat := 0xFFFF_FFFF_FFFF_FFFF

  // pagemap_entry_t.page has 28 bits.
  const MAX_FRAMES := 0x1000_0000

  // frame << PAGE_SHIFT in 64-bit arithmetic.
  function Address(frame: nat): (a: nat)
    ensures frame < MAX_FRAMES ==> a == frame * PAGE_SIZE
    ensures frame == NO_FRAME ==> a == ADDRESS_SPACE - PAGE_SIZE
  {
    assert frame < MAX_FRAMES ==> frame * PAGE_SIZE < ADDRESS_SPACE;
    assert frame == NO_FRAME ==> frame * PAGE_SIZE == (PAGE_SIZE - 1) * ADDRESS_SPACE + (ADDRESS_SPACE - PAGE_SIZE);
    frame * PAGE_SIZE % ADDRESS_SPACE
  }

  // len frames from first on, all inside memory and all free.
  ghost predicate FreeRun(locked: set<nat>, frameCount: nat, first: nat, len: int) {
    forall f: nat {:trigger InRun(f, first, len)} :: InRun(f, first, len) ==> f < frameCount && f !in locked
  }

  lemma Blocked(locked: set<nat>, frameCount: nat, first: nat, len: int, f: nat)
    requires first <= f < first + len && (f >= frameCount || f in locked)
    ensures !FreeRun(locked, frameCount, first, len)
  {
    if FreeRun(locked, frameCount, first, len) {
      FreeInside(locked, frameCount, first, len, f);
    }
  }

  lemma FreeInside(locked: set<nat>, frameCount: nat, first: nat, len: int, f: nat)
    requires FreeRun(locked, frameCount, first, len) && first <= f < first + len
    ensures f < frameCount && f !in locked
  {
    assert InRun(f, first, len);
  }

  lemma FreeRunStep(locked: set<nat>, frameCount: nat, first: nat, len: nat)
    requires FreeRun(locked, frameCount, first, len) && first + len < frameCount && first + len !in locked
    ensures FreeRun(locked, frameCount, first, len + 1)
  {
    forall f: nat | InRun(f, first, len + 1) ensures f < frameCount && f !in locked {
      assert f == first + len || InRun(f, first, len);
    }
  }

  // The frames of one run, as far as they exist.
  ghost function Run(frameCount: nat, first: int, len: int): set<nat> {
    set f: nat {:trigger InRun(f, first, len)} | f < frameCount && InRun(f, first, len)
  }

  predicate InRun(f: nat, first: int, len: int) {
    first <= f < first + len
  }

  lemma RunStep(frameCount: nat, first: int, i: nat)
    ensures Run(frameCount, first, 0) == {}
    ensures Run(frameCount, first, i + 1) ==
            Run(frameCount, first, i) + (if 0 <= first + i < frameCount then {first + i} else {})
  {
    forall f: nat ensures InRun(f, first, i + 1) <==> InRun(f, first, i) || f == first + i {}
  }

  // The address of frame first + i, first being -1 after a failed request.
  lemma WrappedAddress(frameCount: nat, first: nat, i: nat)
    requires frameCount <= MAX_FRAMES && i < 0x8000_0000 && (first < frameCount || first == NO_FRAME)
    ensures var a := Address((first + i) % ADDRESS_SPACE); var f := if first == NO_FRAME then i - 1 else first + i;
      (a < frameCount * PAGE_SIZE <==> 0 <= f < frameCount) && (0 <= f < frameCount ==> a / PAGE_SIZE == f)
  {
  }

  // The frames mmu_request_frame can find: a last, partial bitmap word is never looked at.
  function Searched(frameCount: nat): (s: nat)
    ensures s <= frameCount < s + 32
  {
    frameCount / 32 * 32
  }

  ghost function FreeFrames(locked: set<nat>, frameCount: nat): set<nat> {
    set f | 0 <= f < Searched(frameCount) && f !in locked
  }

  class Pool {
    const frameCount: nat
    const frames: array<Word32>
    var lowestAvailable: nat

    ghost predicate Valid()
      reads this, frames
    {
      && frameCount <= MAX_FRAMES
      && frames.Length * 32 >= frameCount
      && lowestAvailable <= frameCount
      && forall f: nat :: f < lowestAvailable ==> f in Locked()
    }

    ghost function Locked(): (s: set<nat>)
      requires frames.Length * 32 >= frameCount
      reads frames
      ensures forall f :: f in s ==> f < frameCount
    {
      set f: nat | f < frameCount && Test(frames[f / 32], f % 32)
    }

    ghost function Free(): set<nat>
      requires frames.Length * 32 >= frameCount
      reads frames
    {
      FreeFrames(Locked(), frameCount)
    }

    // mmu_init leaves every frame below the end of the kernel locked, frame 0 among them.
    constructor (bitmap: seq<Word32>, count: nat)
      requires count <= MAX_FRAMES && |bitmap| * 32 >= count
      ensures Valid() && fresh(frames) && frameCount == count && lowestAvailable == 0
      ensures Locked() == set f: nat | f < count && Test(bitmap[f / 32], f % 32)
    {
      frameCount := count;
      frames := new Word32[|bitmap|](i requires 0 <= i < |bitmap| => bitmap[i]);
      lowestAvailable := 0;
    }

    method Lock(address: nat)
      requires Valid()
      modifies frames
      ensures Valid()
      ensures Locked() == old(Locked()) + (if address < frameCount * PAGE_SIZE then {address / PAGE_SIZE} else {})
    {
      if address < frameCount * PAGE_SIZE {
        SetFrameBit(address / PAGE_SIZE);
      }
    }

    method Release(address: nat)
      requires Valid()
      modifies this`lowestAvailable, frames
      ensures Valid()
      ensures Locked() == old(Locked()) - (if address < frameCount * PAGE_SIZE then {address / PAGE_SIZE} else {})
    {
      if address < frameCount * PAGE_SIZE {
        var frame := address / PAGE_SIZE;
        ClearFrameBit(frame);
        if frame < lowestAvailable {
          lowestAvailable := frame;
        }
      }
    }

    // frames[index] |= 1U << offset
    method SetFrameBit(frame: nat)
      requires frames.Length * 32 >= frameCount && frame < frameCount
      modifies frames
      ensures Locked() == old(Locked()) + {frame}
    {
      WordUpdate(frames[frame / 32], frame % 32);
      forall k: Bit { SetTest(frames[frame / 32], frame % 32, k); }
      frames[frame / 32] := Set(frames[frame / 32], frame % 32);
      assert forall f: nat :: f < frameCount && f != frame ==> f / 32 != frame / 32 || f % 32 != frame % 32;
    }

    // frames[index] &= ~(1U << offset)
    method ClearFrameBit(frame: nat)
      requires frames.Length * 32 >= frameCount && frame < frameCount
      modifies frames
      ensures Locked() == old(Locked()) - {frame}
    {
      WordUpdate(frames[frame / 32], frame % 32);
      forall k: Bit { ClearTest(frames[frame / 32], frame % 32, k); }
      frames[frame / 32] := Clear(frames[frame / 32], frame % 32);
      assert forall f: nat :: f < frameCount && f != frame ==> f / 32 != frame / 32 || f % 32 != frame % 32;
    }

    method Probe(address: nat) returns (taken: bool)
      requires Valid()
      ensures taken <==> address >= frameCount * PAGE_SIZE || address / PAGE_SIZE in Locked()
    {
      if address >= frameCount * PAGE_SIZE {
        return true;
      }
      var frame := address / PAGE_SIZE;
      taken := Test(frames[frame / 32], frame % 32);
    }

    // The inner loop of mmu_request_frames.
    method ProbeRun(i: nat, n: int) returns (free: bool)
      requires Valid() && i < frameCount && n < 0x8000_0000
      ensures free <==> FreeRun(Locked(), frameCount, i, n)
    {
      free := true;
      var j := 0;
      while j < n
        invariant 0 <= j && (0 < n ==> j <= n) && free && FreeRun(Locked(), frameCount, i, j)
      {
        var taken := Probe(PAGE_SIZE * (i + j));
        if taken {
          Blocked(Locked(), frameCount, i, n, i + j);
          return false;
        }
        FreeRunStep(Locked(), frameCount, i, j);
        j := j + 1;
      }
    }

    // The globally lowest free run of n frames, although the search starts at the hint.
    method RequestFrames(n: int) returns (first: nat)
      requires Valid() && n < 0x8000_0000
      ensures first < frameCount || first == NO_FRAME
      ensures n <= 0 ==> first == if lowestAvailable < frameCount then lowestAvailable else NO_FRAME
      ensures 1 <= n && first != NO_FRAME ==> FreeRun(Locked(), frameCount, first, n)
      ensures 1 <= n ==> forall i: nat :: i < first ==> !FreeRun(Locked(), frameCount, i, n)
    {
      var i := lowestAvailable;
      forall b: nat | b < i && 1 <= n ensures !FreeRun(Locked(), frameCount, b, n) {
        assert b in Locked();
        Blocked(Locked(), frameCount, b, n, b);
      }
      while i < frameCount
        invariant lowestAvailable <= i <= frameCount
        invariant n <= 0 ==> i == lowestAvailable
        invariant 1 <= n ==> forall b: nat :: b < i ==> !FreeRun(Locked(), frameCount, b, n)
      {
        var free := ProbeRun(i, n);
        if free {
          return i;
        }
        i := i + 1;
      }
      forall b: nat | frameCount <= b && 1 <= n ensures !FreeRun(Locked(), frameCount, b, n) {
        Blocked(Locked(), frameCount, b, n, b);
      }
      return NO_FRAME;
    }

    // The globally lowest free frame of whole bitmap words. The hint then passes the frame
    // handed out, so it is sound again only once the caller has locked that frame.
    method RequestFrame() returns (frame: nat)
      requires Valid()
      modifies this`lowestAvailable
      ensures frame == NO_FRAME <==> Free() == {}
      ensures frame == NO_FRAME ==> Valid()
      ensures frame != NO_FRAME ==> frame in Free() && lowestAvailable == frame + 1
      ensures frame != NO_FRAME ==> forall f: nat :: f < frame ==> f in Locked()
    {
      var i := lowestAvailable / 32;
      while i < frameCount / 32
        invariant lowestAvailable == old(lowestAvailable)
        invariant forall f: nat :: f < i * 32 && f < frameCount ==> f in Locked()
      {
        if frames[i] != FULL {
          var j := 0;
          while j < 32
            invariant j <= 32 && lowestAvailable == old(lowestAvailable)
            invariant forall k: nat :: k < j ==> Test(frames[i], k)
          {
            if !Test(frames[i], j) {
              var out := i * 32 + j;
              assert out / 32 == i && out % 32 == j;
              assert forall f: nat :: i * 32 <= f < out ==> f / 32 == i && f % 32 < j;
              assert out !in Locked() && out in Free();
              lowestAvailable := out + 1;
              return out;
            }
            j := j + 1;
          }
          FullWord(frames[i]);
        }
        FullWord(frames[i]);
        forall f: nat | i * 32 <= f < i * 32 + 32 ensures f in Locked() {
          var k := f % 32;
          assert f / 32 == i && Test(frames[i], k);
        }
        i := i + 1;
      }
      return NO_FRAME;
    }

    // mmu_allocate_frame: request, then lock whatever came back, -1 included.
    method AllocateFrame() returns (frame: nat)
      requires Valid()
      modifies this`lowestAvailable, frames
      ensures Valid()
      ensures frame == NO_FRAME <==> old(Free()) == {}
      ensures frame == NO_FRAME ==> Locked() == old(Locked())
      ensures frame != NO_FRAME ==> frame in old(Free()) && Locked() == old(Locked()) + {frame}
      ensures frame != NO_FRAME ==> forall f: nat :: f < frame ==> f in old(Locked())
      ensures frame != NO_FRAME ==> |Free()| == |old(Free())| - 1
    {
      ghost var free := Free();
      frame := RequestFrame();
      LockRequested(frame);
      assert frame != NO_FRAME ==> Free() == free - {frame};
    }

    // The second half of every allocation in the source: mmu_lock_frame(frame << PAGE_SHIFT).
    method LockRequested(frame: nat)
      requires frameCount <= MAX_FRAMES && frames.Length * 32 >= frameCount
      requires if frame == NO_FRAME then Valid() else
        frame in Free() && lowestAvailable == frame + 1 && forall f: nat :: f < frame ==> f in Locked()
      modifies frames
      ensures Valid()
      ensures Locked() == old(Locked()) + (if frame == NO_FRAME then {} else {frame})
    {
      var address := Address(frame);
      if address < frameCount * PAGE_SIZE {
        SetFrameBit(address / PAGE_SIZE);
      }
    }

    // On failure the addresses wrap around from -1: frames 0 to n - 2 get locked.
    method AllocateFrames(n: int) returns (first: nat)
      requires Valid() && n < 0x8000_0000
      modifies frames
      ensures Valid()
      ensures 1 <= n && first != NO_FRAME ==> FreeRun(old(Locked()), frameCount, first, n)
      ensures 1 <= n ==> forall i: nat :: i < first ==> !FreeRun(old(Locked()), frameCount, i, n)
      ensures first != NO_FRAME ==> Locked() == old(Locked()) + Run(frameCount, first, n)
      ensures first == NO_FRAME ==> Locked() == old(Locked()) + Run(frameCount, -1, n)
    {
      first := RequestFrames(n);
      var i := 0;
      while i < n
        invariant 0 <= i && (1 <= n ==> i <= n) && (n <= 0 ==> i == 0)
        invariant Valid()
        invariant first != NO_FRAME ==> Locked() == old(Locked()) + Run(frameCount, first, i)
        invariant first == NO_FRAME ==> Locked() == old(Locked()) + Run(frameCount, -1, i)
      {
        RunStep(frameCount, if first == NO_FRAME then -1 else first, i);
        LockWrapped(first, i);
        i := i + 1;
      }
    }

    method LockWrapped(first: nat, i: nat)
      requires Valid() && i < 0x8000_0000 && (first < frameCount || first == NO_FRAME)
      modifies frames
      ensures Valid()
      ensures var f := (if first == NO_FRAME then -1 else first) + i;
        Locked() == old(Locked()) + (if 0 <= f < frameCount then {f} else {})
    {
      hide Address;
      WrappedAddress(frameCount, first, i);
      Lock(Address((first + i) % ADDRESS_SPACE));
    }
  }
}
