/** All the users of physical memory together: page tables and user pages, heap blocks, files. */
module Clients {
  import opened PageTables
  import opened CopyOnWrite
  import opened Machines
  import opened Forks
  import opened Slots
  import opened Faults
  import opened Eager
  import opened Others
  import opened Refinement
  import Access
  import TmpfsStore
  import TmpfsOps
  import HeapBlocks
  import HeapOps

  // One bitmap, three clients. Each sees the same physical memory in its own way: as page table
  // words, as blocks of files, as bytes.
  datatype System = System(mmu: Machine, files: TmpfsStore.Store, heap: HeapOps.HeapState, kernel: set<nat>)

  datatype SystemOp =
    | Memory(mmuOp: Op)
    | File(fileOp: TmpfsOps.FileOp)
    | Heap(heapOp: HeapOps.HeapOp)

  ghost function FileFrames(s: System): set<nat> {
    TmpfsStore.Frames(s.files.inodes)
  }

  ghost function HeapFrames(s: System): set<nat> {
    HeapBlocks.Taken(s.heap.live, s.heap.frameCount)
  }

  // Every locked frame has exactly one owner: the kernel, or one of its clients.
  ghost predicate Partition(s: System) {
    && s.mmu.locked == s.files.locked == s.heap.locked
    && s.mmu.locked == s.kernel + MmuFrames(s.mmu) + FileFrames(s) + HeapFrames(s)
    && s.kernel !! MmuFrames(s.mmu) && s.kernel !! FileFrames(s) && s.kernel !! HeapFrames(s)
    && MmuFrames(s.mmu) !! FileFrames(s) && MmuFrames(s.mmu) !! HeapFrames(s) && FileFrames(s) !! HeapFrames(s)
  }

  ghost predicate Consistent(s: System) {
    && Good(s.mmu) && TmpfsStore.Valid(s.files) && HeapOps.HeapOk(s.heap) && Partition(s)
    && {0} + s.mmu.kernel.depth.Keys <= s.kernel
    && |s.mmu.mem| == |s.files.mem| == s.heap.frameCount
  }

  // Frame f holds in b what it held in a, whoever looks.
  ghost predicate SameFrame(a: System, b: System, f: nat) {
    && f < |a.mmu.mem| == |b.mmu.mem| && f < |a.files.mem| == |b.files.mem|
    && b.mmu.mem[f] == a.mmu.mem[f] && b.files.mem[f] == a.files.mem[f]
    && HeapOps.FramePage(b.heap.memory, f) == HeapOps.FramePage(a.heap.memory, f)
  }

  // It is one memory: a frame that one client sees unchanged is unchanged for all of them.
  ghost predicate OneMemory(a: System, b: System) {
    && |b.mmu.mem| == |a.mmu.mem| && |b.files.mem| == |a.files.mem|
    && |b.heap.memory| == |a.heap.memory| && b.heap.frameCount == a.heap.frameCount
    && forall f: nat :: SeenSame(a, b, f) ==> SameFrame(a, b, f)
  }

  ghost predicate SeenSame(a: System, b: System, f: nat) {
    && f < |a.mmu.mem| == |b.mmu.mem| && f < |a.files.mem| == |b.files.mem|
    && (|| b.mmu.mem[f] == a.mmu.mem[f]
        || b.files.mem[f] == a.files.mem[f]
        || HeapOps.FramePage(b.heap.memory, f) == HeapOps.FramePage(a.heap.memory, f))
  }

  // What the clients that do not act keep to themselves. Their reserved frames are all those
  // that are locked and not their own.
  ghost predicate MmuIdle(a: System, b: System) {
    b.mmu == a.mmu.(mem := b.mmu.mem, locked := b.mmu.locked, reserved := b.mmu.locked - MmuFrames(a.mmu))
  }

  ghost predicate FilesIdle(a: System, b: System) {
    b.files == a.files.(mem := b.files.mem, locked := b.files.locked, reserved := b.files.locked - FileFrames(a))
  }

  ghost predicate HeapIdle(a: System, b: System) {
    b.heap == a.heap.(memory := b.heap.memory, locked := b.heap.locked, reserved := b.heap.locked - HeapFrames(a))
  }

  // One client does one of its operations.
  ghost predicate Step(a: System, op: SystemOp, b: System)
    requires Consistent(a)
  {
    && b.kernel == a.kernel && b.mmu.locked == b.files.locked == b.heap.locked && OneMemory(a, b)
    && match op
       case Memory(o) => !o.Elsewhere? && Next(a.mmu, o, b.mmu) && FilesIdle(a, b) && HeapIdle(a, b)
       case File(o) => !o.Elsewhere? && TmpfsOps.FilesNext(a.files, o, b.files) && MmuIdle(a, b) && HeapIdle(a, b)
       case Heap(o) => !o.Elsewhere? && HeapOps.HeapNext(a.heap, o, b.heap) && MmuIdle(a, b) && FilesIdle(a, b)
  }

  // ---- What a step of one client is to the others ----

  // A client changed the bitmap, for frames of its own only.
  ghost predicate Alone(locked0: set<nat>, held0: set<nat>, locked1: set<nat>, held1: set<nat>) {
    held1 <= locked1 && locked1 - held1 == locked0 - held0
  }

  lemma AloneKeeps(locked0: set<nat>, held0: set<nat>, locked1: set<nat>, held1: set<nat>)
    requires Alone(locked0, held0, locked1, held1)
    ensures forall f :: f in locked0 && f !in held0 ==> f in locked1 && f !in held1
    ensures forall f :: f in locked1 && f !in held1 ==> f in locked0 && f !in held0
    ensures forall f :: f in held1 ==> f in locked1
  {
    forall f | f in locked0 && f !in held0 ensures f in locked1 && f !in held1 {
      assert f in locked0 - held0;
    }
    forall f | f in locked1 && f !in held1 ensures f in locked0 && f !in held0 {
      assert f in locked1 - held1;
    }
  }

  lemma MmuReserved(m: Machine)
    requires Good(m)
    ensures m.locked - MmuFrames(m) == m.reserved && MmuFrames(m) <= m.locked
    ensures forall f :: f in m.locked ==> f < |m.mem|
  {
    hide Forest, Counts, SamePaths, KernelShared, Closed;
  }

  lemma NextKeepsReserved(a: Machine, op: Op, b: Machine)
    requires Next(a, op, b) && !op.Elsewhere?
    ensures b.reserved == a.reserved
  {
    hide Good, Core, CloneLeaves;
  }

  lemma MmuAlone(a: Machine, op: Op, b: Machine)
    requires Good(a) && Next(a, op, b) && !op.Elsewhere?
    ensures Alone(a.locked, MmuFrames(a), b.locked, MmuFrames(b))
  {
    NextKeepsReserved(a, op, b);
    MmuReserved(a);
    MmuReserved(b) by { NextIsGood(a, op, b); }
  }

  lemma FilesAlone(a: TmpfsStore.Store, op: TmpfsOps.FileOp, b: TmpfsStore.Store)
    requires TmpfsStore.Valid(a) && TmpfsOps.FilesNext(a, op, b) && !op.Elsewhere?
    ensures Alone(a.locked, TmpfsStore.Frames(a.inodes), b.locked, TmpfsStore.Frames(b.inodes))
  {
    hide TmpfsStore.Frames, TmpfsStore.Apart, TmpfsStore.Tree, TmpfsStore.View;
  }

  lemma HeapAlone(a: HeapOps.HeapState, op: HeapOps.HeapOp, b: HeapOps.HeapState)
    requires HeapOps.HeapOk(a) && HeapOps.HeapNext(a, op, b) && !op.Elsewhere?
    ensures Alone(a.locked, HeapBlocks.Taken(a.live, a.frameCount), b.locked, HeapBlocks.Taken(b.live, b.frameCount))
  {
    hide HeapBlocks.Taken, HeapBlocks.Placed, HeapBlocks.Marked;
  }

  // Outside its tables, its user pages and frames that were free, the memory manager writes nothing.
  lemma NextKeepsMemory(a: Machine, op: Op, b: Machine)
    requires Good(a) && Next(a, op, b) && !op.Elsewhere?
    ensures |b.mem| == |a.mem| && forall f :: f in a.locked && f !in MmuFrames(a) ==>
      f < |a.mem| && b.mem[f] == a.mem[f]
  {
    hide Forest, Counts, SamePaths, KernelShared, Owned, Closed, CloneLeaves;
    MmuReserved(a);
    match op
    case Clone(dir, child) =>
    case Map(s, contents) => MapKeepsMemory(a, b, s, contents);
    case Store(s, i, w) => StoreKeepsMemory(a, b, s, i, w);
    case Fault(s) => FaultKeepsMemory(a, b, s);
    case Free(dir) =>
  }

  lemma MapKeepsMemory(a: Machine, b: Machine, s: Key, contents: Page)
    requires Core(a) && Next(a, Op.Map(s, contents), b)
    ensures |b.mem| == |a.mem| && forall f :: f in a.locked && f !in MmuFrames(a) && f < |a.mem| ==>
      b.mem[f] == a.mem[f]
  {
    hide Core, Good;
    var mid, w :| Core(mid) && Kept(a, mid) && Access.AccessKept(a, mid) && Mapped1(mid, b, s, w)
      && (s !in a.leaves ==> mid.mem[w.page] == contents);
    assert mid.tab[Parent(s)] in mid.tab.Values;
  }

  lemma FaultedMemory(a: Machine, b: Machine, s: Key, spare: nat)
    requires Core(a) && Faulted(a, b, s, spare)
    ensures |b.mem| == |a.mem| && s in b.leaves
    ensures (b.leaves[s].page in Mapped(a.leaves) || b.leaves[s].page !in a.locked)
    ensures forall f :: f in a.locked && f !in MmuFrames(a) && f < |a.mem| ==> b.mem[f] == a.mem[f]
  {
    hide Forest, Counts, SamePaths, KernelShared, Owned;
    assert a.tab[Parent(s)] in a.tab.Values;
    assert a.leaves[s].page in Mapped(a.leaves);
  }

  lemma FaultKeepsMemory(a: Machine, b: Machine, s: Key)
    requires Core(a) && Next(a, Op.Fault(s), b)
    ensures |b.mem| == |a.mem| && forall f :: f in a.locked && f !in MmuFrames(a) && f < |a.mem| ==>
      b.mem[f] == a.mem[f]
  {
    hide Core, Good;
    var spare :| Faulted(a, b, s, spare);
    FaultedMemory(a, b, s, spare);
  }

  lemma StoreKeepsMemory(a: Machine, b: Machine, s: Key, i: nat, w: Word)
    requires Core(a) && Next(a, Op.Store(s, i, w), b)
    ensures |b.mem| == |a.mem| && forall f :: f in a.locked && f !in MmuFrames(a) && f < |a.mem| ==>
      b.mem[f] == a.mem[f]
  {
    hide Core, Good, Faulted;
    var spare :| Stored(a, b, s, i, w, spare);
    if a.leaves[s].writable {
      assert a.leaves[s].page in Mapped(a.leaves);
    } else {
      var mid :| Faulted(a, mid, s, spare) && Overwritten(mid, b, s, i, w);
      FaultedMemory(a, mid, s, spare);
    }
  }

  lemma NextKeepsKernel(a: Machine, op: Op, b: Machine)
    requires Next(a, op, b)
    ensures b.kernel == a.kernel
  {
    hide Good, Core, CloneLeaves;
  }

  // The frames of whoever acts.
  ghost function Acting(s: System, op: SystemOp): set<nat> {
    match op
    case Memory(_) => MmuFrames(s.mmu)
    case File(_) => FileFrames(s)
    case Heap(_) => HeapFrames(s)
  }

  lemma StepAlone(a: System, op: SystemOp, b: System)
    requires Consistent(a) && Step(a, op, b)
    ensures Alone(a.mmu.locked, Acting(a, op), b.mmu.locked, Acting(b, op))
  {
    hide Good, TmpfsStore.Valid, HeapOps.HeapOk, Next, TmpfsOps.FilesNext, HeapOps.HeapNext, OneMemory;
    match op
    case Memory(o) => MmuAlone(a.mmu, o, b.mmu);
    case File(o) => FilesAlone(a.files, o, b.files);
    case Heap(o) => HeapAlone(a.heap, o, b.heap);
  }

  // Locked frames of everyone else hold what they held, in every view.
  lemma BystandersSame(a: System, op: SystemOp, b: System)
    requires Consistent(a) && Step(a, op, b)
    ensures forall f :: f in a.mmu.locked && f !in Acting(a, op) ==> SameFrame(a, b, f)
  {
    hide Good, TmpfsStore.Valid, HeapOps.HeapOk, Next, MmuIdle, FilesIdle, HeapIdle, HeapOps.FramePage;
    StepAlone(a, op, b);
    MmuReserved(a.mmu);
    if op.Memory? {
      NextKeepsMemory(a.mmu, op.mmuOp, b.mmu);
    }
    forall f | f in a.mmu.locked && f !in Acting(a, op) ensures SameFrame(a, b, f) {
      assert f !in Acting(b, op);
      assert SeenSame(a, b, f);
    }
  }

  // ---- Everyone stays consistent ----

  lemma MmuBystander(a: System, b: System)
    requires Consistent(a) && MmuIdle(a, b) && b.kernel == a.kernel && |b.mmu.mem| == |a.mmu.mem|
    requires forall f :: f in MmuFrames(a.mmu) + a.kernel ==> f in b.mmu.locked && SameFrame(a, b, f)
    requires forall f :: f in b.mmu.locked ==> f < |b.mmu.mem|
    ensures OthersActed(a.mmu, b.mmu) && Good(b.mmu) && Visible(b.mmu) == Visible(a.mmu)
  {
    hide Good, Visible, TmpfsStore.Valid, HeapOps.HeapOk, HeapOps.FramePage;
    assert OthersActed(a.mmu, b.mmu);
    OthersKeepGood(a.mmu, b.mmu);
    OthersUnseen(a.mmu, b.mmu);
  }

  lemma FilesBystander(a: System, b: System)
    requires Consistent(a) && FilesIdle(a, b) && |b.files.mem| == |a.files.mem|
    requires forall f :: f in FileFrames(a) ==> f in b.files.locked && SameFrame(a, b, f)
    ensures TmpfsOps.FilesLeftAlone(a.files, b.files) && TmpfsStore.Valid(b.files)
    ensures TmpfsStore.View(b.files) == TmpfsStore.View(a.files)
  {
    hide Good, TmpfsStore.Valid, TmpfsStore.View, TmpfsStore.Frames, HeapOps.HeapOk, HeapOps.FramePage;
    assert TmpfsOps.FilesLeftAlone(a.files, b.files);
    TmpfsOps.LeftAloneKeepsValid(a.files, b.files);
  }

  lemma HeapBystander(a: System, b: System)
    requires Consistent(a) && HeapIdle(a, b) && |b.heap.memory| == |a.heap.memory|
    requires forall f :: f in HeapFrames(a) ==> f in b.heap.locked && SameFrame(a, b, f)
    ensures HeapOps.HeapLeftAlone(a.heap, b.heap) && HeapOps.HeapOk(b.heap)
    ensures HeapBlocks.SamePayloads(a.heap.live, a.heap.memory, b.heap.memory)
  {
    hide Good, TmpfsStore.Valid, HeapOps.HeapOk, HeapOps.FramePage, HeapBlocks.Taken;
    assert HeapOps.HeapLeftAlone(a.heap, b.heap);
    HeapOps.LeftAloneKeepsOk(a.heap, b.heap);
  }

  // Frames of those who do not act stay locked and keep their contents.
  lemma BystandersKept(a: System, op: SystemOp, b: System)
    requires Consistent(a) && Step(a, op, b)
    ensures !op.Memory? ==> forall f :: f in MmuFrames(a.mmu) ==> f in b.mmu.locked && SameFrame(a, b, f)
    ensures !op.File? ==> forall f :: f in FileFrames(a) ==> f in b.mmu.locked && SameFrame(a, b, f)
    ensures !op.Heap? ==> forall f :: f in HeapFrames(a) ==> f in b.mmu.locked && SameFrame(a, b, f)
    ensures forall f :: f in a.kernel ==> f in b.mmu.locked && SameFrame(a, b, f)
  {
    hide Good, TmpfsStore.Valid, HeapOps.HeapOk, MmuFrames, FileFrames, HeapFrames, SameFrame, Step;
    StepAlone(a, op, b);
    BystandersSame(a, op, b);
    OthersHold(a, op);
    AloneKeeps(a.mmu.locked, Acting(a, op), b.mmu.locked, Acting(b, op));
  }

  lemma OthersHold(a: System, op: SystemOp)
    requires Partition(a)
    ensures !op.Memory? ==> forall f :: f in MmuFrames(a.mmu) ==> f in a.mmu.locked && f !in Acting(a, op)
    ensures !op.File? ==> forall f :: f in FileFrames(a) ==> f in a.mmu.locked && f !in Acting(a, op)
    ensures !op.Heap? ==> forall f :: f in HeapFrames(a) ==> f in a.mmu.locked && f !in Acting(a, op)
    ensures forall f :: f in a.kernel ==> f in a.mmu.locked && f !in Acting(a, op)
  {
    hide MmuFrames, FileFrames, HeapFrames;
  }

  lemma ActingInMemory(b: System, op: SystemOp)
    requires |b.mmu.mem| == |b.files.mem| == b.heap.frameCount
    requires op.Memory? ==> Good(b.mmu)
    requires op.File? ==> TmpfsStore.Valid(b.files)
    ensures forall f :: f in Acting(b, op) ==> f < |b.mmu.mem|
  {
    hide TmpfsStore.Tree, TmpfsStore.Apart, TmpfsStore.Frames, HeapBlocks.InBlock;
    if op.Memory? {
      MmuReserved(b.mmu);
    }
    hide Good;
  }

  lemma StepActor(a: System, op: SystemOp, b: System)
    requires Consistent(a) && Step(a, op, b)
    ensures op.Memory? ==> Good(b.mmu)
    ensures op.File? ==> TmpfsStore.Valid(b.files)
    ensures op.Heap? ==> HeapOps.HeapOk(b.heap)
    ensures |b.mmu.mem| == |b.files.mem| == b.heap.frameCount && |b.heap.memory| == |a.heap.memory|
    ensures |b.mmu.mem| == |a.mmu.mem| && b.mmu.kernel == a.mmu.kernel
  {
    hide Good, TmpfsStore.Valid, HeapOps.HeapOk, TmpfsOps.Own, HeapOps.Own;
    if op.Memory? {
      NextIsGood(a.mmu, op.mmuOp, b.mmu);
      NextKeepsKernel(a.mmu, op.mmuOp, b.mmu);
    }
  }

  lemma LockedInMemory(a: System, op: SystemOp, b: System)
    requires Consistent(a) && Step(a, op, b)
    ensures forall f :: f in b.mmu.locked ==> f < |b.mmu.mem|
  {
    hide Good, TmpfsStore.Valid, HeapOps.HeapOk, Partition, MmuFrames, FileFrames, HeapFrames, Step;
    StepActor(a, op, b);
    StepAlone(a, op, b);
    AloneKeeps(a.mmu.locked, Acting(a, op), b.mmu.locked, Acting(b, op));
    ActingInMemory(b, op);
    MmuReserved(a.mmu);
  }

  // The frames of one client change, the others' stay.
  lemma PartitionAfter(a: System, op: SystemOp, b: System)
    requires Consistent(a) && Step(a, op, b)
    ensures Partition(b)
  {
    hide Good, TmpfsStore.Valid, HeapOps.HeapOk, MmuFrames, FileFrames, HeapFrames, Step;
    StepAlone(a, op, b);
    AloneKeeps(a.mmu.locked, Acting(a, op), b.mmu.locked, Acting(b, op));
    SameHolders(a, op, b);
    OthersHold(a, op);
  }

  lemma SameHolders(a: System, op: SystemOp, b: System)
    requires Consistent(a) && Step(a, op, b)
    ensures b.kernel == a.kernel && b.mmu.locked == b.files.locked == b.heap.locked
    ensures !op.Memory? ==> MmuFrames(b.mmu) == MmuFrames(a.mmu)
    ensures !op.File? ==> FileFrames(b) == FileFrames(a)
    ensures !op.Heap? ==> HeapFrames(b) == HeapFrames(a)
  {
    hide Good, TmpfsStore.Valid, HeapOps.HeapOk, TmpfsStore.Frames, HeapBlocks.Taken, Mapped;
  }

  lemma StepKeepsConsistent(a: System, op: SystemOp, b: System)
    requires Consistent(a) && Step(a, op, b)
    ensures Consistent(b)
    ensures !op.Memory? ==> OthersActed(a.mmu, b.mmu) && Visible(b.mmu) == Visible(a.mmu)
    ensures !op.File? ==>
      TmpfsOps.FilesLeftAlone(a.files, b.files) && TmpfsStore.View(b.files) == TmpfsStore.View(a.files)
    ensures !op.Heap? ==> HeapOps.HeapLeftAlone(a.heap, b.heap)
  {
    hide Good, TmpfsStore.Valid, HeapOps.HeapOk, OthersActed, TmpfsOps.FilesLeftAlone, HeapOps.HeapLeftAlone;
    hide Visible, TmpfsStore.View, SameFrame, SeenSame, MmuFrames, FileFrames, HeapFrames, Partition;
    StepActor(a, op, b);
    BystandersKept(a, op, b);
    LockedInMemory(a, op, b);
    PartitionAfter(a, op, b);
    SameHolders(a, op, b);
    if !op.Memory? {
      MmuBystander(a, b);
    }
    if !op.File? {
      FilesBystander(a, b);
    }
    if !op.Heap? {
      HeapBystander(a, b);
    }
  }
}
