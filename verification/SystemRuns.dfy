/** Runs in which page faults, forks, mallocs and file writes come in any order. */
module SystemRuns {
  import opened ByteStrings
  import opened PageTables
  import opened CopyOnWrite
  import opened Machines
  import opened Forks
  import opened Clones
  import opened Wrappers
  import opened Eager
  import opened Others
  import opened Refinement
  import opened Clients
  import TmpfsStore
  import TmpfsOps
  import HeapBlocks
  import HeapOps
  import FramePool
  import Heaps
  import Tmpfs
  import TmpfsHeap
  import TmpfsEntries
  import TmpfsObjects
  import TmpfsTree
  import FreeSpace
  import Mmus

  ghost predicate SystemRun(states: seq<System>, ops: seq<SystemOp>) {
    && |states| == |ops| + 1 && Consistent(states[0])
    && forall n :: 0 <= n < |ops| && Consistent(states[n]) ==> Step(states[n], ops[n], states[n + 1])
  }

  // What each client takes part in: its own operations, and otherwise those of the rest.
  function MmuOp(op: SystemOp): Op {
    if op.Memory? then op.mmuOp else Op.Elsewhere
  }

  function FileOp(op: SystemOp): TmpfsOps.FileOp {
    if op.File? then op.fileOp else TmpfsOps.FileOp.Elsewhere
  }

  function HeapOp(op: SystemOp): HeapOps.HeapOp {
    if op.Heap? then op.heapOp else HeapOps.HeapOp.Elsewhere
  }

  function MmuOps(ops: seq<SystemOp>): (r: seq<Op>)
    ensures |r| == |ops| && forall n :: 0 <= n < |ops| ==> r[n] == MmuOp(ops[n])
  {
    seq(|ops|, n requires 0 <= n < |ops| => MmuOp(ops[n]))
  }

  function FileOps(ops: seq<SystemOp>): (r: seq<TmpfsOps.FileOp>)
    ensures |r| == |ops| && forall n :: 0 <= n < |ops| ==> r[n] == FileOp(ops[n])
  {
    seq(|ops|, n requires 0 <= n < |ops| => FileOp(ops[n]))
  }

  function TheHeapOps(ops: seq<SystemOp>): (r: seq<HeapOps.HeapOp>)
    ensures |r| == |ops| && forall n :: 0 <= n < |ops| ==> r[n] == HeapOp(ops[n])
  {
    seq(|ops|, n requires 0 <= n < |ops| => HeapOp(ops[n]))
  }

  ghost function MmuStates(states: seq<System>): (r: seq<Machine>)
    ensures |r| == |states| && forall n :: 0 <= n < |states| ==> r[n] == states[n].mmu
  {
    seq(|states|, n requires 0 <= n < |states| => states[n].mmu)
  }

  ghost function FileStates(states: seq<System>): (r: seq<TmpfsStore.Store>)
    ensures |r| == |states| && forall n :: 0 <= n < |states| ==> r[n] == states[n].files
  {
    seq(|states|, n requires 0 <= n < |states| => states[n].files)
  }

  ghost function HeapStates(states: seq<System>): (r: seq<HeapOps.HeapState>)
    ensures |r| == |states| && forall n :: 0 <= n < |states| ==> r[n] == states[n].heap
  {
    seq(|states|, n requires 0 <= n < |states| => states[n].heap)
  }

  // Every state of a run is consistent: no frame has two owners, and none is lost.
  lemma {:induction false} RunConsistent(states: seq<System>, ops: seq<SystemOp>, n: nat)
    requires SystemRun(states, ops) && n <= |ops|
    ensures Consistent(states[n])
    decreases n
  {
    hide Consistent, Step;
    if n > 0 {
      var p := n - 1;
      RunConsistent(states, ops, p);
      assert Step(states[p], ops[p], states[p + 1]);
      StepKeepsConsistent(states[p], ops[p], states[p + 1]);
    }
  }

  // A step of the system is a step of every client.
  lemma StepProjects(a: System, op: SystemOp, b: System)
    requires Consistent(a) && Step(a, op, b)
    ensures Good(a.mmu) && TmpfsStore.Valid(a.files) && HeapOps.HeapOk(a.heap)
    ensures Next(a.mmu, MmuOp(op), b.mmu)
    ensures TmpfsOps.FilesNext(a.files, FileOp(op), b.files)
    ensures HeapOps.HeapNext(a.heap, HeapOp(op), b.heap)
  {
    hide Good, TmpfsStore.Valid, HeapOps.HeapOk, OthersActed, TmpfsOps.FilesLeftAlone, HeapOps.HeapLeftAlone;
    hide TmpfsStore.View;
    hide Visible, OneMemory, Partition, HeapOps.Own, TmpfsOps.Own;
    StepKeepsConsistent(a, op, b);
  }

  lemma RunProjects(states: seq<System>, ops: seq<SystemOp>)
    requires SystemRun(states, ops)
    ensures Run(MmuStates(states), MmuOps(ops))
    ensures TmpfsOps.FilesRun(FileStates(states), FileOps(ops))
    ensures HeapOps.HeapRun(HeapStates(states), TheHeapOps(ops))
  {
    hide Consistent, Step, Good, TmpfsStore.Valid, HeapOps.HeapOk, Next, TmpfsOps.FilesNext, HeapOps.HeapNext;
    forall n | 0 <= n < |states|
      ensures Good(states[n].mmu) && TmpfsStore.Valid(states[n].files) && HeapOps.HeapOk(states[n].heap)
    {
      RunConsistent(states, ops, n);
      ConsistentParts(states[n]);
    }
    forall n | 0 <= n < |ops|
      ensures Next(states[n].mmu, MmuOp(ops[n]), states[n + 1].mmu)
      ensures TmpfsOps.FilesNext(states[n].files, FileOp(ops[n]), states[n + 1].files)
      ensures HeapOps.HeapNext(states[n].heap, HeapOp(ops[n]), states[n + 1].heap)
    {
      RunConsistent(states, ops, n);
      assert Step(states[n], ops[n], states[n + 1]);
      StepProjects(states[n], ops[n], states[n + 1]);
    }
  }

  lemma ConsistentParts(s: System)
    requires Consistent(s)
    ensures Good(s.mmu) && TmpfsStore.Valid(s.files) && HeapOps.HeapOk(s.heap) && Partition(s)
  {
  }

  // Over any run of the whole system: the owners of frames stay apart; every address space reads
  // what eager copying would give it, its own operations alone deciding; a file nobody writes and
  // a heap block nobody touches keep their bytes.
  lemma SystemRefines(states: seq<System>, ops: seq<SystemOp>)
    requires SystemRun(states, ops)
    ensures Partition(states[|ops|])
    ensures Visible(states[|ops|].mmu) == EagerRun(Visible(states[0].mmu), MmuOps(ops))
    ensures forall p :: p in states[0].files.inodes ==>
      (forall n :: 0 <= n < |ops| ==> !TmpfsOps.Touches(FileOp(ops[n]), p)) ==>
      KeepsFile(states[0].files, states[|ops|].files, p)
    ensures forall p :: p in states[0].heap.live ==>
      (forall n :: 0 <= n < |ops| ==> !HeapOps.Touches(HeapOp(ops[n]), p)) ==>
      KeepsBlock(states[0].heap, states[|ops|].heap, p)
  {
    hide Consistent, Step, TmpfsStore.Valid, HeapOps.HeapOk, Visible, EagerStep, SystemRun, HeapOps.HeapRun, Run;
    hide Partition;
    var m, f, h := MmuStates(states), FileStates(states), HeapStates(states);
    RunStart(states, ops);
    RunProjects(states, ops);
    RunConsistent(states, ops, |ops|);
    ConsistentParts(states[|ops|]);
    RunRefinesEager(m, MmuOps(ops));
    forall p | p in states[0].files.inodes && forall n :: 0 <= n < |ops| ==> !TmpfsOps.Touches(FileOp(ops[n]), p)
      ensures KeepsFile(states[0].files, states[|ops|].files, p)
    {
      TmpfsOps.RunKeepsFile(f, FileOps(ops), p);
      FileKept(f, FileOps(ops), p);
    }
    forall p | p in states[0].heap.live && forall n :: 0 <= n < |ops| ==> !HeapOps.Touches(HeapOp(ops[n]), p)
      ensures KeepsBlock(states[0].heap, states[|ops|].heap, p)
    {
      HeapOps.RunKeepsBlock(h, TheHeapOps(ops), p);
    }
  }

  lemma RunStart(states: seq<System>, ops: seq<SystemOp>)
    requires SystemRun(states, ops)
    ensures |states| == |ops| + 1
  {
  }

  ghost predicate KeepsFile(a: TmpfsStore.Store, b: TmpfsStore.Store, p: nat) {
    TmpfsStore.Valid(a) && TmpfsStore.Valid(b) && p in a.inodes && p in b.inodes
      && TmpfsStore.View(b)[p] == TmpfsStore.View(a)[p]
  }

  ghost predicate KeepsBlock(a: HeapOps.HeapState, b: HeapOps.HeapState, p: nat) {
    && p in a.live && p in b.live && b.live[p] == a.live[p]
    && HeapBlocks.Payload(b.memory, p, a.live[p]) == HeapBlocks.Payload(a.memory, p, a.live[p])
  }

  lemma FileKept(f: seq<TmpfsStore.Store>, ops: seq<TmpfsOps.FileOp>, p: nat)
    requires TmpfsOps.FilesRun(f, ops) && p in f[0].inodes && p in f[|ops|].inodes
    requires TmpfsStore.View(f[|ops|])[p] == TmpfsStore.View(f[0])[p]
    ensures KeepsFile(f[0], f[|ops|], p)
  {
  }

  // Two of the classes at work on one bitmap: whatever malloc does, failing included, the memory
  // manager can go on, and no process sees a difference.
  method MallocBeside(mmu: Mmus.Mmu, heap: Heaps.Heap, size: nat) returns (ptr: Option<nat>)
    requires mmu.Valid() && heap.Valid() && mmu.pool == heap.pool && (heap.memory as object) !in mmu.Footprint()
    requires MmuFrames(mmu.Snapshot()) + mmu.kernel.depth.Keys + {0} <= heap.reserved
    requires size + HeapBlocks.INFO_SIZE + FramePool.PAGE_SIZE < FramePool.ADDRESS_SPACE
    requires HeapBlocks.Pages(size) < 0x8000_0000
    modifies heap`live, heap`reserved, heap.pool.frames, heap.memory, mmu`reserved
    ensures mmu.Valid() && heap.Valid() && mmu.View() == old(mmu.View())
    ensures Next(old(mmu.Snapshot()), Op.Elsewhere, mmu.Snapshot())
  {
    hide Good, Visible, HeapOps.HeapNext, Next;
    ghost var was := mmu.Snapshot();
    ptr := heap.Malloc(size);
    mmu.Resume(was);
  }
  // The memory manager, the heap and the filesystem over one bitmap, each with frames of its own.
  ghost predicate Together(mmu: Mmus.Mmu, fs: Tmpfs.Filesystem)
    reads mmu.Footprint(), fs.Footprint()
  {
    && mmu.Valid() && fs.Valid() && Distinct(mmu, fs)
    && MmuFrames(mmu.Snapshot()) + mmu.kernel.depth.Keys + {0} <= TmpfsHeap.Rest(fs.All())
  }

  ghost predicate Distinct(mmu: Mmus.Mmu, fs: Tmpfs.Filesystem)
    reads mmu, fs
  {
    mmu.pool == fs.pool && (fs.heap.memory as object) !in mmu.Footprint() && (fs.memory as object) !in mmu.Footprint()
  }

  // All three at work: a new file takes pages of the heap for its structure, its name and its
  // table; afterwards each of them can go on, and no process sees a difference.
  method CreateBeside(mmu: Mmus.Mmu, fs: Tmpfs.Filesystem, d: nat, name: seq<Byte>) returns (ok: bool, result: int,
                      f: nat)
    requires Together(mmu, fs) && fs.IsDir(d) && HeapBlocks.Pages(|name| + 1) < 0x8000_0000
    modifies fs`inodes, fs`objects, fs`home, fs`reserved, mmu`reserved
    modifies fs.heap`live, fs.heap`reserved, fs.heap.memory, fs.pool`lowestAvailable, fs.pool.frames
    ensures ok ==> Together(mmu, fs) && mmu.View() == old(mmu.View())
    ensures ok ==> Next(old(mmu.Snapshot()), Op.Elsewhere, mmu.Snapshot())
    ensures ok ==> result == Tmpfs.EOK || result == Tmpfs.EEXIST
    ensures ok && result == Tmpfs.EOK ==>
      fs.IsFile(f) && TmpfsEntries.Entered(old(fs.All()), fs.All(), d, f, TmpfsStore.File(name, 0, 2, []))
  {
    hide Good, Visible, Next, TmpfsStore.Valid, TmpfsStore.View, TmpfsHeap.Paired, TmpfsObjects.Handles;
    hide TmpfsTree.Listed, FreeSpace.Longest, TmpfsOps.FilesDone, TmpfsOps.FilesNext, TmpfsEntries.Entered, Mapped;
    ghost var was, all := mmu.Snapshot(), fs.All();
    ok, result, f := fs.Create(d, name);
    if ok {
      if result == Tmpfs.EOK {
        SameRest(all, fs.All(), d, f, fs.inodes[f]);
      }
      GoOn(mmu, fs, was);
    }
  }

  // The filesystem and its heap have acted since the memory manager was in state was.
  ghost method GoOn(mmu: Mmus.Mmu, fs: Tmpfs.Filesystem, was: Machine)
    requires fs.Valid() && mmu.Sized() && Distinct(mmu, fs)
    requires Good(was) && Key(mmu.current, []) in was.tab && mmu.Snapshot() == was.(locked := mmu.pool.Locked())
    requires MmuFrames(was) + was.kernel.depth.Keys + {0} <= TmpfsHeap.Rest(fs.All())
    modifies mmu`reserved
    ensures Together(mmu, fs) && mmu.View() == Visible(was) && Next(was, Op.Elsewhere, mmu.Snapshot())
  {
    hide Good, Visible, Next, TmpfsStore.Valid, TmpfsStore.View, TmpfsHeap.Paired, TmpfsObjects.Handles, Mapped;
    hide TmpfsStore.Frames, HeapBlocks.Taken;
    LockedByRest(fs.All());
    mmu.Resume(was);
  }

  // A fork beside the others: they keep their frames, and go on too.
  method CloneBeside(mmu: Mmus.Mmu, fs: Tmpfs.Filesystem, pml: nat) returns (child: nat)
    requires Together(mmu, fs) && Key(pml, []) in mmu.tab && pml != 0
    requires forall s :: s in mmu.leaves && s.dir == pml ==> !Saturated(mmu.Snapshot(), s)
    requires |mmu.pool.Free()| >= |KeysOf(mmu.tab.Keys, pml)|
    modifies mmu`tab, mmu`leaves, mmu.pool, mmu.pool.frames, mmu.refcounts, mmu.memory, fs`reserved, fs.heap`reserved
    ensures Together(mmu, fs) && fs.Contents() == old(fs.Contents())
    ensures Next(old(mmu.Snapshot()), Op.Clone(pml, child), mmu.Snapshot())
  {
    hide Good, Visible, Next, TmpfsStore.Valid, TmpfsStore.View, TmpfsHeap.Paired, TmpfsObjects.Handles, Mapped;
    hide MmuFrames;
    ghost var was, w := mmu.Snapshot(), fs.All();
    child := mmu.Clone(pml);
    OthersStillHeld(was, Op.Clone(pml, child), mmu.Snapshot(), w);
    FilesGoOn(mmu, fs, w);
  }

  // The memory manager has acted since the filesystem and its heap were in state w.
  ghost method FilesGoOn(mmu: Mmus.Mmu, fs: Tmpfs.Filesystem, w: TmpfsHeap.Whole)
    requires mmu.Valid() && fs.Sized() && Distinct(mmu, fs)
    requires TmpfsStore.Valid(w.store) && TmpfsHeap.Paired(w.store, w.heap)
    requires TmpfsObjects.Handles(w.store.inodes, w.objects, w.heap.live) && fs.All() == Locked(w, fs.pool.Locked())
    requires Apart(mmu.Snapshot(), w, fs.pool.Locked())
    modifies fs`reserved, fs.heap`reserved
    ensures Together(mmu, fs) && fs.Contents() == TmpfsStore.View(w.store)
  {
    hide Good, Visible, TmpfsStore.Valid, TmpfsStore.View, TmpfsObjects.Handles, Mapped, MmuFrames;
    hide TmpfsStore.Frames, HeapBlocks.Taken, TmpfsStore.Held, HeapOps.HeapOk;
    fs.heap.Resume(w.heap);
    fs.Resume(w.store);
  }

  ghost function Locked(w: TmpfsHeap.Whole, locked: set<nat>): TmpfsHeap.Whole {
    w.(store := w.store.(locked := locked), heap := w.heap.(locked := locked))
  }

  // The locked frames of all of them are apart.
  ghost predicate Apart(m: Machine, w: TmpfsHeap.Whole, locked: set<nat>) {
    var own := TmpfsStore.Frames(w.store.inodes) + HeapBlocks.Taken(w.heap.live, w.heap.frameCount);
    own <= locked && MmuFrames(m) + m.kernel.depth.Keys + {0} <= locked - own
  }

  lemma OthersStillHeld(a: Machine, op: Op, b: Machine, w: TmpfsHeap.Whole)
    requires Good(a) && Next(a, op, b) && !op.Elsewhere? && a.locked == w.store.locked
    requires TmpfsHeap.Paired(w.store, w.heap)
    requires MmuFrames(a) + a.kernel.depth.Keys + {0} <= TmpfsHeap.Rest(w)
    ensures Apart(b, w, b.locked)
  {
    hide Good, Next, Mapped, MmuFrames, TmpfsStore.Frames, HeapBlocks.Taken, TmpfsStore.Apart, TmpfsStore.BlockSum;
    hide HeapBlocks.Placed, HeapBlocks.Marked;
    MmuAlone(a, op, b);
    NextKeepsKernel(a, op, b);
    KernelApart(a);
    AloneKeeps(a.locked, MmuFrames(a), b.locked, MmuFrames(b));
  }

  lemma KernelApart(m: Machine)
    requires Good(m)
    ensures m.kernel.depth.Keys + {0} !! MmuFrames(m) && MmuFrames(m) <= m.locked
  {
    hide Forest, Counts, SamePaths, Closed, KernelTable;
  }

  lemma SameRest(a: TmpfsHeap.Whole, b: TmpfsHeap.Whole, d: nat, f: nat, n: TmpfsStore.Inode)
    requires TmpfsEntries.Entered(a, b, d, f, n)
    ensures TmpfsHeap.Rest(b) == TmpfsHeap.Rest(a)
  {
  }

  lemma LockedByRest(w: TmpfsHeap.Whole)
    ensures TmpfsHeap.Rest(w) <= w.store.locked
  {
  }
}
