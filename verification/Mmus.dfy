/** The memory manager itself: one bitmap, one array of counts, one physical memory. */
module Mmus {
  import opened FramePool
  import opened PageTables
  import opened Wrappers
  import opened CopyOnWrite
  import opened Machines
  import opened Steps
  import opened Forks
  import opened Slots
  import opened Access
  import opened Clones
  import opened Frees
  import opened Eager
  import opened Faults
  import opened Mappings
  import opened Others
  import opened Refinement

  // memset over the lower half, memcpy of the upper one.
  function RootPage(mem: seq<Page>, dir: nat): Page
    requires dir < |mem|
  {
    ZeroPage()[..LOW_ENTRIES] + mem[dir][LOW_ENTRIES..]
  }

  class Mmu {
    const pool: Pool
    const refcounts: array<nat>
    const memory: array<Page>
    ghost const kernel: Kernel

    const kernelDirectory: nat  // initial_pages, as the frame it lies in
    var current: nat  // current_pml, likewise

    // The forest of page tables that live directories make up in memory.
    ghost var tab: map<Key, nat>
    ghost var leaves: Leaves
    // Frames locked by the kernel and by the other clients of the pool.
    ghost var reserved: set<nat>

    ghost function Footprint(): set<object>
      reads this
    {
      {this, pool, pool.frames, refcounts, memory}
    }

    ghost predicate Sized()
      reads Footprint()
    {
      && pool.Valid()
      && Shaped()
      && forall f: nat :: f < refcounts.Length ==> refcounts[f] <= 255
    }

    ghost predicate Shaped()
      reads this
    {
      && refcounts.Length == pool.frameCount && memory.Length == pool.frameCount
      && (refcounts as object) != pool.frames && (memory as object) != pool.frames && (memory as object) != refcounts
    }

    ghost function Snapshot(): Machine
      requires Sized()
      reads Footprint()
    {
      Machine(memory[..], refcounts[..], pool.Locked(), reserved, tab, leaves, kernel)
    }

    // What the processes see of memory.
    ghost function View(): Spaces
      requires Sized()
      reads Footprint()
    {
      Visible(Snapshot())
    }

    // The leaf slot of an address in the current directory.
    ghost function Slot(address: nat): Key
      reads this
    {
      Key(current, Indices(address))
    }

    ghost predicate Consistent()
      reads Footprint()
    {
      Sized() && Core(Snapshot())
    }

    ghost predicate Valid()
      reads Footprint()
    {
      Sized() && Good(Snapshot()) && Key(current, []) in tab
    }

    // Takes over the state that mmu_init and the boot code leave behind: no counts yet, and
    // whatever directories exist already.
    constructor (frames: Pool, contents: seq<Page>, directory: nat, ghost machine: Machine)
      requires frames.Valid() && |contents| == frames.frameCount
      requires machine.mem == contents && machine.refs == seq(|contents|, _ => 0) && machine.locked == frames.Locked()
      requires Good(machine) && Key(directory, []) in machine.tab
      ensures Valid() && pool == frames && fresh(refcounts) && fresh(memory)
      ensures Snapshot() == machine && current == kernelDirectory == directory
    {
      pool := frames;
      refcounts := new nat[|contents|](_ => 0);
      memory := new Page[|contents|](i requires 0 <= i < |contents| => contents[i]);
      kernel := machine.kernel;
      kernelDirectory, current := directory, directory;
      tab, leaves, reserved := machine.tab, machine.leaves, machine.reserved;
      new;
      assert memory[..] == contents && refcounts[..] == machine.refs;
    }

    // Another client of the bitmap has acted since the memory manager was in state was.
    ghost method Resume(was: Machine)
      requires Good(was) && Sized() && Key(current, []) in was.tab
      requires OthersActed(was, Snapshot().(reserved := pool.Locked() - MmuFrames(was)))
      modifies this`reserved
      ensures Valid() && Next(was, Op.Elsewhere, Snapshot()) && View() == Visible(was)
    {
      hide Good, Visible;
      reserved := pool.Locked() - MmuFrames(was);
      OthersKeepGood(was, Snapshot());
      OthersUnseen(was, Snapshot());
    }

    // mmu_set_directory: null stands for the kernel's own directory.
    method SetDirectory(pml: nat)
      requires Sized() && Good(Snapshot()) && Key(if pml == 0 then kernelDirectory else pml, []) in tab
      modifies this`current
      ensures Valid() && Snapshot() == old(Snapshot()) && current == if pml == 0 then kernelDirectory else pml
    {
      current := if pml == 0 then kernelDirectory else pml;
    }

    // ---- Memory accesses ----

    method StoreWord(t: nat, i: nat, w: Word)
      requires Shaped() && t < memory.Length && i < ENTRIES
      modifies memory
      ensures old(Sized()) ==> Sized()
      ensures memory[..] == StoreEntry(old(memory[..]), t, i, w)
    {
      memory[t] := memory[t][i := w];
      assert memory[..] == old(memory[..])[t := old(memory[t])[i := w]];
    }

    // memset(frame, 0, PAGE_SIZE)
    method ClearFrame(f: nat)
      requires Shaped() && f < memory.Length
      modifies memory
      ensures old(Sized()) ==> Sized()
      ensures memory[..] == old(memory[..])[f := ZeroPage()]
    {
      memory[f] := ZeroPage();
    }

    // memcpy(to, from, PAGE_SIZE)
    method CopyFrame(to: nat, from: nat)
      requires Shaped() && to < memory.Length && from < memory.Length
      modifies memory
      ensures old(Sized()) ==> Sized()
      ensures memory[..] == old(memory[..])[to := old(memory[from])]
    {
      memory[to] := memory[from];
    }

    // ---- Reference counts ----

    method RefcountIncrease(frame: nat) returns (r: int)
      requires Sized()
      modifies refcounts
      ensures Sized()
      ensures r == if frame >= refcounts.Length then -1 else if old(refcounts[frame]) == 255 then 1 else 0
      ensures refcounts[..] ==
        if r == 0 then old(refcounts[..])[frame := old(refcounts[frame]) + 1] else old(refcounts[..])
    {
      if frame >= refcounts.Length {
        return -1;
      }
      if refcounts[frame] == 255 {
        return 1;
      }
      refcounts[frame] := refcounts[frame] + 1;
      return 0;
    }

    method RefcountDecrease(frame: nat) returns (r: int)
      requires Sized()
      modifies refcounts
      ensures Sized()
      ensures r == if frame >= refcounts.Length || old(refcounts[frame]) == 0 then -1 else old(refcounts[frame]) - 1
      ensures refcounts[..] == if r >= 0 then old(refcounts[..])[frame := r] else old(refcounts[..])
    {
      if frame >= refcounts.Length {
        return -1;
      }
      if refcounts[frame] == 0 {
        return -1;
      }
      refcounts[frame] := refcounts[frame] - 1;
      return refcounts[frame];
    }

    // ---- Tables ----

    // What mmu_lookup_frame and mmu_clone do for a missing table: take a frame, clear it, and
    // point entry i of table t at it.
    method MakeTable(t: nat, i: nat, ghost k: Key) returns (f: nat)
      requires Consistent() && pool.Free() != {}
      requires k in tab && tab[k] == t && |k.path| < 3 && i < Limit(|k.path|) && Child(k, i) !in tab
      requires forall j: nat :: Child(Child(k, i), j) !in tab && Child(Child(k, i), j) !in leaves
      modifies this`tab, pool, pool.frames, memory
      ensures Consistent()
      ensures f in old(pool.Free()) && |pool.Free()| == |old(pool.Free())| - 1
      ensures tab == old(tab)[Child(k, i) := f] && f !in old(pool.Locked()) && t < |old(memory[..])|
      ensures Snapshot() == NewTable(old(Snapshot()), k, i, f) && AccessKept(old(Snapshot()), Snapshot())
      ensures var w := memory[t][i]; w.present && w.user && w.writable && !w.noexec && w.page == f
    {
      hide Forest, Counts, SamePaths, KernelShared, Owned, AccessKept;
      ghost var m := Snapshot();
      ForestFacts(m.mem, m.tab, m.leaves);
      f := pool.AllocateFrame();
      assert Spare(m, f);
      NewTableKeepsCore(m, k, i, f);
      SpareIsNoTable(m, f);
      NewTableAccess(m, k, i, f);
      ClearFrame(f);
      StoreWord(t, i, TableWord(f));
      tab := tab[Child(k, i) := f];
      assert Snapshot() == NewTable(m, k, i, f);
    }

    // ---- Lookups ----

    // mmu_lookup_frame_from: any directory, any address, the kernel half included.
    method LookupFrameFrom(root: nat, address: nat) returns (slot: Option<(nat, nat)>)
      requires Valid() && Key(root, []) in tab
      ensures slot == SlotAt(memory[..], root, Indices(address))
      ensures slot.Some? ==> slot.value.1 < ENTRIES && SlotOf(Snapshot(), root, Indices(address), slot.value.0)
      ensures slot.None? ==> Key(root, Indices(address)) !in leaves
    {
      var path := Indices(address);
      ghost var m := Snapshot();
      WalkSteps(m, root, path);
      if !memory[root][path[0]].present {
        NoSlot(m, root, path);
        return None;
      }
      var pdp := memory[root][path[0]].page;
      if !memory[pdp][path[1]].present || memory[pdp][path[1]].size {
        NoSlot(m, root, path);
        return None;
      }
      var pd := memory[pdp][path[1]].page;
      if !memory[pd][path[2]].present || memory[pd][path[2]].size {
        NoSlot(m, root, path);
        return None;
      }
      var pt := memory[pd][path[2]].page;
      SlotWord(m, root, path);
      return Some((pt, path[3]));
    }

    // One level of mmu_lookup_frame with MMU_GET_MAKE: a missing table is made first.
    method Descend(t: nat, i: nat, ghost k: Key) returns (next: nat)
      requires Valid() && (Child(k, i) !in tab ==> |pool.Free()| > 0)
      requires k in tab && tab[k] == t && |k.path| < 3 && i < Limit(|k.path|)
      modifies this`tab, pool, pool.frames, memory
      ensures Valid()
      ensures Child(k, i) in tab && next == tab[Child(k, i)]
      ensures MadeTables(old(tab), tab, {Child(k, i)})
      ensures Kept(old(Snapshot()), Snapshot()) && AccessKept(old(Snapshot()), Snapshot())
      ensures Child(k, i) in old(tab) ==> Snapshot() == old(Snapshot())
      ensures |pool.Free()| == |old(pool.Free())| - (if Child(k, i) in old(tab) then 0 else 1)
    {
      hide Forest, Counts, SamePaths, KernelShared, Owned, Closed, Kept, AccessKept;
      ghost var m := Snapshot();
      AccessSame(m);
      ChildLink(m, k, i);
      if !memory[t][i].present {
        NothingBelowMissing(m, Child(k, i));
        var f := MakeTable(t, i, k);
        NewTableKept(m, k, i, f);
        NewTableKeepsClosed(m, k, i, f);
        ChildLink(Snapshot(), k, i);
      } else {
        KeptSame(m);
      }
      next := memory[t][i].page;
    }

    // mmu_lookup_frame without MMU_GET_MAKE: the walk from current_pml.
    method LookupFrame(address: nat) returns (slot: Option<(nat, nat)>)
      requires Valid()
      ensures slot == SlotAt(memory[..], current, Indices(address))
      ensures slot.Some? ==> slot.value.1 < ENTRIES && SlotOf(Snapshot(), current, Indices(address), slot.value.0)
      ensures slot.None? ==> Key(current, Indices(address)) !in leaves
    {
      slot := LookupFrameFrom(current, address);
    }

    // mmu_lookup_frame with MMU_GET_MAKE, which is for the lower half only.
    method MakeSlot(address: nat) returns (t: nat, i: nat)
      requires Valid() && Indices(address)[0] < LOW_ENTRIES
      requires |pool.Free()| >= Missing(tab, current, Indices(address))
      modifies this`tab, pool, pool.frames, memory
      ensures Valid()
      ensures Kept(old(Snapshot()), Snapshot()) && AccessKept(old(Snapshot()), Snapshot())
      ensures GrewAlong(old(tab), tab, current, Indices(address))
      ensures Parent(Key(current, Indices(address))) in tab
      ensures t == tab[Parent(Key(current, Indices(address)))] && i == Indices(address)[3]
      ensures SlotAt(memory[..], current, Indices(address)) == Some((t, i))
      ensures |pool.Free()| == |old(pool.Free())| - Missing(old(tab), current, Indices(address))
    {
      hide Forest, Counts, SamePaths, KernelShared, Kept, GrewAlong, Owned, Closed, AccessKept;
      var path := Indices(address);
      ghost var k0 := Key(current, []);
      ghost var k1 := Child(k0, path[0]);
      ghost var k2 := Child(k1, path[1]);
      ghost var k3 := Child(k2, path[2]);
      PathKeys(current, path);
      RootInMemory(Snapshot(), current);
      ghost var m0 := Snapshot();
      assert |k1.path| == 1 && |k2.path| == 2 && |k3.path| == 3;
      var pdp := Descend(current, path[0], k0);
      ghost var m1 := Snapshot();
      var pd := Descend(pdp, path[1], k1);
      ghost var m2 := Snapshot();
      KeptTwice(m0, m1, m2);
      AccessTwice(m0, m1, m2);
      MissingSteps(m0.tab, m1.tab, m2.tab, current, path);
      t := Descend(pd, path[2], k2);
      i := path[3];
      KeptTwice(m0, m2, Snapshot());
      AccessTwice(m0, m2, Snapshot());
      GrewTo(m0.tab, m1.tab, m2.tab, tab, current, path);
      assert k3 == Key(current, path[..3]);
      WalkInMemory(Snapshot(), current, path, 3);
    }

    // ---- mmu_clone ----

    // _copy_page: entry i of leaf table tin is shared with entry i of tout. "return 1" is never
    // reached. A count of 255 makes it copy the page into a frame it does not lock.
    method CopyPage(tin: nat, tout: nat, i: nat, ghost s: Key, ghost t: Key) returns (r: int)
      requires Consistent() && s in leaves && t !in leaves && t.path == s.path && leaves[s].user
      requires Parent(s) in tab && tin == tab[Parent(s)] && Parent(t) in tab && tout == tab[Parent(t)] && i == Last(s)
      requires Saturated(Snapshot(), s) ==> pool.Free() != {}
      modifies this`leaves, pool, refcounts, memory
      ensures r == 0
      ensures Consistent() <==> !old(Saturated(Snapshot(), s))
      ensures !old(Saturated(Snapshot(), s)) ==>
        CopyLeaf.requires(old(Snapshot()), s, t) && Snapshot() == CopyLeaf(old(Snapshot()), s, t)
      ensures old(Saturated(Snapshot(), s)) ==> leaves == old(leaves) && refcounts[..] == old(refcounts[..])
      ensures old(Saturated(Snapshot(), s)) ==> CopiedOut(old(Snapshot()), memory[..], s, tout, i)
    {
      hide Forest, Counts, SamePaths, KernelShared;
      ghost var m := Snapshot();
      CopyLeafKeepsCore(m, s, t);
      LeafPresent(m, s);
      var w := memory[tin][i];
      if w.writable {
        if refcounts[w.page] != 0 {
          assert false;
        }
        ShareFirst(tin, tout, i, s, t);
        return 0;
      }
      var full := RefcountIncrease(w.page);
      if full != 0 {
        var f := pool.RequestFrame();
        CopyFrame(f, w.page);
        StoreWord(tout, i, ZERO.(present := true, user := true, page := f, writable := true));
      } else {
        StoreWord(tout, i, w);
        leaves := leaves[s := Share(w)][t := Share(w)];
        StoreSame(m.mem, tin, i);
        assert refcounts[..] == SharedCounts(m.refs, w);
        assert Snapshot() == CopyLeaf(m, s, t);
      }
      return 0;
    }

    // The first two sharers of a writable page.
    method ShareFirst(tin: nat, tout: nat, i: nat, ghost s: Key, ghost t: Key)
      requires Sized() && s in leaves && t !in leaves && leaves[s].user && leaves[s].writable
      requires CopyLeaf.requires(Snapshot(), s, t) && tin == tab[Parent(s)] && tout == tab[Parent(t)]
      requires i == Last(s) == Last(t)
      requires memory[tin][i] == leaves[s] && leaves[s].page < refcounts.Length
      modifies this`leaves, refcounts, memory
      ensures Sized() && Snapshot() == CopyLeaf(old(Snapshot()), s, t)
    {
      ghost var m := Snapshot();
      var w := memory[tin][i];
      refcounts[w.page] := 2;
      assert refcounts[..] == SharedCounts(m.refs, w);
      StoreWord(tin, i, w.(writable := false, cow := true));
      assert memory[..][tin][i] == Share(w);
      StoreWord(tout, i, memory[tin][i]);
      leaves := leaves[s := Share(w)][t := Share(w)];
      assert Snapshot() == CopyLeaf(m, s, t);
    }

    // A present leaf entry: user pages are shared, kernel pages copied verbatim.
    method CopyEntry(tin: nat, tout: nat, i: nat, ghost s: Key, ghost t: Key)
      requires Valid() && s in leaves && t !in leaves && t.path == s.path && !Saturated(Snapshot(), s)
      requires Parent(s) in tab && tin == tab[Parent(s)] && Parent(t) in tab && tout == tab[Parent(t)] && i == Last(s)
      modifies this`leaves, pool, refcounts, memory
      ensures Valid() && pool.Locked() == old(pool.Locked())
      ensures CopyLeaf.requires(old(Snapshot()), s, t) && Snapshot() == CopyLeaf(old(Snapshot()), s, t)
    {
      hide Forest, Counts, SamePaths, KernelShared, Closed;
      ghost var b := Snapshot();
      LeafPresent(b, s);
      CopyLeafKeepsCore(b, s, t);
      CopyKeepsClosed(b, s, t);
      if memory[tin][i].user {
        var r := CopyPage(tin, tout, i, s, t);
      } else {
        StoreSame(b.mem, tin, i);
        StoreWord(tout, i, memory[tin][i]);
        leaves := leaves[s := leaves[s]][t := leaves[s]];
        assert Snapshot() == CopyLeaf(b, s, t);
      }
    }

    // The innermost loop of mmu_clone.
    method CloneLeafTable(tin: nat, tout: nat, ghost k: Key, ghost child: nat)
      requires Valid() && ReadyToClone(Snapshot(), k, child) && |k.path| == 3
      requires tin == tab[k] && tout == tab[Key(child, k.path)]
      modifies this`leaves, pool, refcounts, memory
      ensures Valid() && tab == old(tab) && pool.Locked() == old(pool.Locked())
      ensures Cloned(old(Snapshot()), Snapshot(), {}, KeysUnder(old(leaves.Keys), k), k.dir, child)
      ensures AccessKept(old(Snapshot()), Snapshot())
    {
      hide Forest, Counts, SamePaths, KernelShared, Cloned, CloneLeaves, Closed, AccessKept;
      ghost var a := Snapshot();
      AccessSame(a);
      ghost var c := Key(child, k.path);
      ReadyForLeaves(a, k, child);
      ClonedNothing(a, k.dir, child);
      KeysBelowAll(a.leaves.Keys, k);
      var l := 0;
      while l < ENTRIES
        invariant l <= ENTRIES
        invariant Valid() && tab == a.tab && pool.Locked() == a.locked
        invariant Cloned(a, Snapshot(), {}, KeysBelow(a.leaves.Keys, k, l), k.dir, child)
        invariant AccessKept(a, Snapshot())
      {
        ghost var b := Snapshot();
        ghost var s := Child(k, l);
        ghost var t := Child(c, l);
        LeafLink(b, k, l);
        LeafLink(b, c, l);
        BelowStep(k, l, s);
        NotYetCloned(a, b, {}, k, l, child);
        if memory[tin][l].present {
          CopyEntry(tin, tout, l, s, t);
          CopyLeafAccess(b, s, t);
          AccessTwice(a, b, Snapshot());
          OneLeafCloned(b, Snapshot(), s, child);
        }
        ClonedLeaf(a, b, Snapshot(), k, l, child);
        l := l + 1;
      }
    }

    // The three outer loops of mmu_clone, which differ only in how far they count: every table
    // below table tin gets a fresh counterpart below tout.
    method CloneTable(tin: nat, tout: nat, level: nat, ghost k: Key, ghost child: nat)
      requires Valid() && ReadyToClone(Snapshot(), k, child) && |k.path| == level < 3
      requires tin == tab[k] && tout == tab[Key(child, k.path)]
      requires |pool.Free()| >= |KeysUnder(tab.Keys, k)|
      modifies this`tab, this`leaves, pool, pool.frames, refcounts, memory
      ensures Valid()
      ensures Cloned(old(Snapshot()), Snapshot(), KeysUnder(old(tab.Keys), k), KeysUnder(old(leaves.Keys), k), k.dir,
        child)
      ensures AccessKept(old(Snapshot()), Snapshot())
      ensures |pool.Free()| == |old(pool.Free())| - |KeysUnder(old(tab.Keys), k)|
      decreases 3 - level, 1
    {
      hide Forest, Counts, SamePaths, KernelShared, Cloned, CloneLeaves, Owned, Closed, AccessKept;
      ghost var a := Snapshot();
      AccessSame(a);
      ghost var free := |pool.Free()|;
      ReadyForLeaves(a, k, child);
      ClonedNothing(a, k.dir, child);
      KeysBelowAll(a.leaves.Keys, k);
      KeysBelowAll(a.tab.Keys, k);
      var i := 0;
      while i < Limit(level)
        invariant i <= Limit(level)
        invariant Valid()
        invariant Cloned(a, Snapshot(), KeysBelow(a.tab.Keys, k, i), KeysBelow(a.leaves.Keys, k, i), k.dir, child)
        invariant AccessKept(a, Snapshot())
        invariant |pool.Free()| == free - |KeysBelow(a.tab.Keys, k, i)|
      {
        CloneEntry(tin, tout, i, level, k, child, a, free);
        i := i + 1;
      }
    }

    // One iteration: what an entry of tin leads to is copied below the same entry of tout.
    method CloneEntry(tin: nat, tout: nat, i: nat, level: nat, ghost k: Key, ghost child: nat, ghost a: Machine,
                      ghost free: nat)
      requires Valid() && Good(a) && ReadyToClone(a, k, child) && |k.path| == level < 3 && i < Limit(level)
      requires tin == a.tab[k] && tout == a.tab[Key(child, k.path)]
      requires Cloned(a, Snapshot(), KeysBelow(a.tab.Keys, k, i), KeysBelow(a.leaves.Keys, k, i), k.dir, child)
      requires AccessKept(a, Snapshot())
      requires |pool.Free()| == free - |KeysBelow(a.tab.Keys, k, i)| && free >= |KeysUnder(a.tab.Keys, k)|
      modifies this`tab, this`leaves, pool, pool.frames, refcounts, memory
      ensures Valid()
      ensures Cloned(a, Snapshot(), KeysBelow(a.tab.Keys, k, i + 1), KeysBelow(a.leaves.Keys, k, i + 1), k.dir, child)
      ensures AccessKept(a, Snapshot()) && |pool.Free()| == free - |KeysBelow(a.tab.Keys, k, i + 1)|
      decreases 3 - level, 0
    {
      hide Forest, Counts, SamePaths, KernelShared, Cloned, CloneLeaves, Owned, Closed, AccessKept;
      ghost var b := Snapshot();
      ghost var s := Child(k, i);
      ReadyForLeaves(a, k, child);
      ClonedKeys(a, b, KeysBelow(a.tab.Keys, k, i), KeysBelow(a.leaves.Keys, k, i), k.dir, child);
      ChildLink(b, k, i);
      RoomForSubtree(a, b, k, i, child);
      assert s !in a.leaves;
      if memory[tin][i].present {
        FramesForSubtree(a.tab.Keys, k, i);
        var next := memory[tin][i].page;
        var made := MakeTable(tout, i, Key(child, k.path));
        NewTableKeepsClosed(b, Key(child, k.path), i, made);
        ghost var b1 := Snapshot();
        SubtreeHasRoom(a, b, k, i, child);
        SubtreeReady(a, b, b1, k, i, child, made);
        NewTableCloned(b, k, i, child, made);
        if level == 2 {
          NoTablesUnder(a, s);
          CloneLeafTable(next, made, s, child);
        } else {
          CloneTable(next, made, level + 1, s, child);
        }
        AccessTwice(b, b1, Snapshot());
        AccessTwice(a, b, Snapshot());
        SubtreeCloned(a, b, b1, Snapshot(), k, i, child);
      } else {
        NothingToClone(a, b, k, i, child);
      }
    }

    // A root for the new directory: no lower half yet, the kernel half taken over from dir.
    method MakeRoot(dir: nat) returns (child: nat)
      requires Valid() && Key(dir, []) in tab && pool.Free() != {}
      modifies this`tab, pool, pool.frames, memory
      ensures Valid() && |pool.Free()| == |old(pool.Free())| - 1
      ensures Spare(old(Snapshot()), child)
      ensures dir < |old(memory[..])| && Snapshot() == NewRoot(old(Snapshot()), child, RootPage(old(memory[..]), dir))
    {
      hide Forest, Counts, SamePaths, KernelShared, Owned, Closed;
      ghost var a := Snapshot();
      RootInMemory(a, dir);
      child := pool.AllocateFrame();
      var page := RootPage(memory[..], dir);
      memory[child] := page;
      tab := tab[Key(child, []) := child];
      NewRootKeepsGood(a, dir, child, page);
      assert Snapshot() == NewRoot(a, child, page);
    }

    // mmu_clone: a null directory stands for the current one.
    method Clone(pml: nat) returns (child: nat)
      requires Valid() && (pml == 0 || Key(pml, []) in tab)
      requires forall s :: s in leaves && s.dir == (if pml == 0 then current else pml) ==> !Saturated(Snapshot(), s)
      requires |pool.Free()| >= |KeysOf(tab.Keys, if pml == 0 then current else pml)|
      modifies this`tab, this`leaves, pool, pool.frames, refcounts, memory
      ensures Valid() && Spare(old(Snapshot()), child) && Key(child, []) in tab
      ensures Next(old(Snapshot()), Op.Clone(if pml == 0 then current else pml, child), Snapshot())
    {
      hide Forest, Counts, SamePaths, KernelShared, Cloned, CloneLeaves, Owned, Closed, AccessKept;
      var dir := if pml == 0 then current else pml;
      ghost var k := Key(dir, []);
      ghost var a := Snapshot();
      RootInMemory(a, dir);
      RootAndBelow(a, dir);
      child := MakeRoot(dir);
      ghost var b := Snapshot();
      ghost var page := RootPage(a.mem, dir);
      NewRootReady(a, dir, child, page);
      CloneTable(dir, child, 0, k, child);
      UnusedDirectory(a, child);
      SpareIsNoTable(a, child);
      NewRootAccess(a, b, child, page);
      AccessTwice(a, b, Snapshot());
      ClonedKeys(b, Snapshot(), KeysUnder(b.tab.Keys, k), KeysUnder(b.leaves.Keys, k), dir, child);
      RootCloned(a, Snapshot(), dir, child, page);
    }

    // ---- mmu_free ----

    // _free_page, on an entry of a leaf table that is no longer in use.
    method FreePage(t: nat, i: nat, ghost s: Key) returns (r: int)
      requires Consistent() && s in leaves && s.path != [] && leaves[s].user && Parent(s) !in tab
      requires t < memory.Length && i < ENTRIES && memory[t][i] == leaves[s]
      modifies this`leaves, pool, pool.frames, refcounts
      ensures r == 0 && Consistent() && memory[..] == old(memory[..])
      ensures Snapshot() == DropLeaf(old(Snapshot()), s)
    {
      hide Forest, Counts, SamePaths, KernelShared, Owned;
      ghost var m := Snapshot();
      DropLeafKeepsCore(m, s);
      var w := memory[t][i];
      var free := w.writable;
      if !free {
        var left := RefcountDecrease(w.page);
        free := left == 0;
      }
      if free {
        pool.Release(Address(w.page));
      }
      leaves := leaves - {s};
      assert Snapshot() == DropLeaf(m, s);
      return 0;
    }

    // A present leaf entry: user pages are given up, kernel pages just forgotten.
    method FreeEntry(t: nat, i: nat, ghost s: Key)
      requires Consistent() && s in leaves && s.path != [] && Parent(s) !in tab
      requires t < memory.Length && i < ENTRIES && memory[t][i] == leaves[s]
      modifies this`leaves, pool, pool.frames, refcounts
      ensures Consistent() && memory[..] == old(memory[..]) && leaves == old(leaves) - {s}
    {
      hide Forest, Counts, SamePaths, KernelShared, Owned;
      if memory[t][i].user {
        var r := FreePage(t, i, s);
      } else {
        ForgetKernelLeafKeepsCore(Snapshot(), s);
        leaves := leaves - {s};
      }
    }

    // The innermost loop of mmu_free. The table itself is already out of the forest.
    method FreeLeafTable(t: nat, ghost k: Key)
      requires Consistent() && k !in tab && |k.path| == 3 && t < memory.Length && LeafLinks(memory[t], leaves, k, 0)
      modifies this`leaves, pool, pool.frames, refcounts
      ensures Consistent() && memory[..] == old(memory[..]) && tab == old(tab) && reserved == old(reserved)
      ensures leaves == old(leaves) - KeysUnder(old(leaves.Keys), k)
    {
      hide Forest, Counts, SamePaths, KernelShared, Owned, LeafLinks, KeysBelow, KeysUnder, FourDeep, Child;
      ghost var m := Snapshot();
      AllBelow(m, k);
      var l := 0;
      while l < ENTRIES
        invariant l <= ENTRIES
        invariant Consistent() && memory[..] == m.mem && tab == m.tab && reserved == m.reserved
        invariant leaves == m.leaves - KeysBelow(m.leaves.Keys, k, l)
        invariant LeafLinks(memory[t], leaves, k, l)
      {
        LeafDropped(m.leaves, leaves, k, l);
        FreeLeafEntry(t, l, k);
        l := l + 1;
      }
    }

    // One iteration: entry l, if it is present.
    method FreeLeafEntry(t: nat, l: nat, ghost k: Key)
      requires Consistent() && k !in tab && |k.path| == 3 && t < memory.Length && l < ENTRIES
      requires LeafLinks(memory[t], leaves, k, l)
      modifies this`leaves, pool, pool.frames, refcounts
      ensures Consistent() && memory[..] == old(memory[..]) && tab == old(tab) && reserved == old(reserved)
      ensures leaves == old(leaves) - {Child(k, l)} && LeafLinks(memory[t], leaves, k, l + 1)
    {
      hide Forest, Counts, SamePaths, KernelShared, Owned;
      ghost var before := leaves;
      LeafEntry(memory[t], leaves, k, l);
      hide LeafLinks;
      if memory[t][l].present {
        FreeEntry(t, l, Child(k, l));
      }
      LeafLinksDropped(memory[t], before, leaves, k, l);
    }

    // From here on the table at k belongs to mmu_free.
    ghost method TakeOut(k: Key)
      requires Consistent() && k in tab && (k.path == [] || Parent(k) !in tab)
      modifies this`tab, this`reserved
      ensures Consistent() && tab == old(tab) - {k} && reserved == old(reserved) + {old(tab)[k]}
      ensures old(tab)[k] < memory.Length && old(tab)[k] !in kernel.depth && old(tab)[k] != 0
      ensures old(tab)[k] !in old(reserved)
      ensures if |k.path| < 3 then TableLinks(memory[old(tab)[k]], tab, k, 0)
        else LeafLinks(memory[old(tab)[k]], leaves, k, 0)
    {
      hide Forest, Counts, SamePaths, KernelShared, TableLinks, LeafLinks;
      ghost var m := Snapshot();
      assert tab[k] in tab.Values;
      DetachKeepsCore(m, k);
      DetachedLinks(m, k);
      tab, reserved := tab - {k}, reserved + {tab[k]};
      assert Snapshot() == Detach(m, k);
    }

    method ReleaseTable(t: nat)
      requires Consistent() && t in reserved && t !in kernel.depth && t != 0 && t < memory.Length
      modifies this`reserved, pool, pool.frames
      ensures Consistent() && reserved == old(reserved) - {t} && pool.Locked() == old(pool.Locked()) - {t}
    {
      hide Forest, Counts, SamePaths, KernelShared, Owned;
      ReleaseKeepsCore(Snapshot(), t);
      pool.Release(Address(t));
      reserved := reserved - {t};
    }

    // The three outer loops of mmu_free: everything below a table that is out of the forest.
    method FreeTable(t: nat, level: nat, ghost k: Key)
      requires Consistent() && |k.path| == level < 3 && t < memory.Length
      requires k !in tab && TableLinks(memory[t], tab, k, 0) && ClosedBelow(tab, leaves, k)
      modifies this`tab, this`leaves, this`reserved, pool, pool.frames, refcounts
      ensures Consistent() && memory[..] == old(memory[..]) && reserved == old(reserved)
      ensures tab == old(tab) - KeysUnder(old(tab.Keys), k) && leaves == old(leaves) - KeysUnder(old(leaves.Keys), k)
      decreases 3 - level, 2
    {
      hide Forest, Counts, SamePaths, KernelShared, Owned, TableLinks, ClosedBelow;
      ghost var m := Snapshot();
      LeafRanges(m);
      KeysBelowAll(m.leaves.Keys, k);
      KeysBelowAll(m.tab.Keys, k);
      var i := 0;
      while i < Limit(level)
        invariant i <= Limit(level)
        invariant Consistent() && memory[..] == m.mem && reserved == m.reserved
        invariant tab == m.tab - KeysBelow(m.tab.Keys, k, i) && leaves == m.leaves - KeysBelow(m.leaves.Keys, k, i)
        invariant TableLinks(memory[t], tab, k, i) && ClosedBelow(tab, leaves, k)
      {
        SubtreeDropped(m.tab, tab, k, i);
        SubtreeDropped(m.leaves, leaves, k, i);
        FreeTableEntry(t, i, level, k);
        i := i + 1;
      }
    }

    // One iteration: the table that entry i leads to, if any, and all that is below it.
    method FreeTableEntry(t: nat, i: nat, level: nat, ghost k: Key)
      requires Consistent() && |k.path| == level < 3 && t < memory.Length && i < Limit(level)
      requires k !in tab && TableLinks(memory[t], tab, k, i) && ClosedBelow(tab, leaves, k)
      modifies this`tab, this`leaves, this`reserved, pool, pool.frames, refcounts
      ensures Consistent() && memory[..] == old(memory[..]) && reserved == old(reserved)
      ensures tab == old(tab) - ({Child(k, i)} + KeysUnder(old(tab.Keys), Child(k, i)))
      ensures leaves == old(leaves) - ({Child(k, i)} + KeysUnder(old(leaves.Keys), Child(k, i)))
      ensures TableLinks(memory[t], tab, k, i + 1) && ClosedBelow(tab, leaves, k)
      decreases 3 - level, 1
    {
      hide Forest, Counts, SamePaths, KernelShared, Owned, ClosedBelow;
      ghost var m := Snapshot();
      EntryGoneClosed(tab, leaves, k, i);
      EntryGoneLinks(memory[t], tab, k, i);
      TableLink(memory[t], tab, k, i);
      hide TableLinks, LeafLinks;
      if memory[t][i].present {
        FreeSubtree(memory[t][i].page, i, level, k);
      } else {
        EntryMissing(tab, leaves, k, i);
      }
      NoLeafThere(m, k, i);
    }

    method FreeSubtree(next: nat, i: nat, level: nat, ghost k: Key)
      requires Consistent() && |k.path| == level < 3 && k !in tab && ClosedBelow(tab, leaves, k)
      requires Child(k, i) in tab && next == tab[Child(k, i)]
      modifies this`tab, this`leaves, this`reserved, pool, pool.frames, refcounts
      ensures Consistent() && memory[..] == old(memory[..]) && reserved == old(reserved)
      ensures tab == old(tab) - ({Child(k, i)} + KeysUnder(old(tab.Keys), Child(k, i)))
      ensures leaves == old(leaves) - KeysUnder(old(leaves.Keys), Child(k, i))
      decreases 3 - level, 0
    {
      hide Forest, Counts, SamePaths, KernelShared, ClosedBelow, TableLinks, LeafLinks;
      hide Owned;
      ghost var m := Snapshot();
      ghost var s := Child(k, i);
      DetachedClosed(tab, leaves, k, i);
      TakeOut(s);
      if level == 2 {
        NoTablesUnder(m, s);
        FreeLeafTable(next, s);
      } else {
        FreeTable(next, level + 1, s);
      }
      ReleaseTable(next);
    }

    // mmu_free: a null directory is left alone. After freeing the one in use, another must be
    // set before anything else is done.
    method Free(pml: nat)
      requires Valid() && (pml == 0 || Key(pml, []) in tab)
      modifies this`tab, this`leaves, this`reserved, pool, pool.frames, refcounts
      ensures Sized() && Good(Snapshot()) && (Valid() <==> pml != current) && memory[..] == old(memory[..])
      ensures reserved == old(reserved)
      ensures tab == old(tab) - KeysOf(old(tab.Keys), pml) && leaves == old(leaves) - KeysOf(old(leaves.Keys), pml)
      ensures Next(old(Snapshot()), Op.Free(pml), Snapshot())
    {
      hide Forest, Counts, SamePaths, KernelShared, Owned, Closed;
      NoNullDirectory(Snapshot());
      assert Key(0, []) !in KeysOf(tab.Keys, 0);
      if pml != 0 {
        FreeDirectory(pml);
      }
    }

    method FreeDirectory(pml: nat)
      requires Valid() && Key(pml, []) in tab
      modifies this`tab, this`leaves, this`reserved, pool, pool.frames, refcounts
      ensures Sized() && Good(Snapshot()) && memory[..] == old(memory[..]) && reserved == old(reserved)
      ensures tab == old(tab) - KeysOf(old(tab.Keys), pml) && leaves == old(leaves) - KeysOf(old(leaves.Keys), pml)
    {
      hide Forest, Counts, SamePaths, KernelShared, Owned, Closed, ClosedBelow, TableLinks, LeafLinks;
      ghost var m := Snapshot();
      ghost var root := Key(pml, []);
      RootInMemory(m, pml);
      WholeDirectory(m, pml);
      TakeOut(root);
      FreeTable(pml, 0, root);
      ReleaseTable(pml);
    }

    // ---- Faults ----

    // mmu_copy_on_write. A slot there must be: the kernel does not check for a null entry.
    method CopyOnWrite(address: nat) returns (r: int, ghost spare: nat)
      requires Valid() && SlotAt(memory[..], current, Indices(address)).Some?
      requires NeedsCopy(Snapshot(), Slot(address)) ==> pool.Free() != {}
      modifies this`leaves, pool, pool.frames, refcounts, memory
      ensures Valid()
      ensures r == if Slot(address) in old(leaves) && old(leaves)[Slot(address)].cow then 0 else 1
      ensures r == 1 ==> Snapshot() == old(Snapshot())
      ensures r == 0 ==> Faulted(old(Snapshot()), Snapshot(), Slot(address), spare)
      ensures r == 0 ==> Next(old(Snapshot()), Op.Fault(Slot(address)), Snapshot())
      ensures |pool.Free()| == |old(pool.Free())| - (if old(NeedsCopy(Snapshot(), Slot(address))) then 1 else 0)
    {
      hide Forest, Counts, SamePaths, KernelShared, Owned, Closed;
      ghost var m := Snapshot();
      ghost var s := Slot(address);
      var slot := LookupFrame(address);
      var (t, i) := slot.value;
      if !memory[t][i].cow {
        return 1, 0;
      }
      r := 0;
      spare := Unshare(t, i, s);
      FaultKeepsClosed(m, s, spare);
    }

    // The last sharer keeps the frame; any other moves to a copy of it.
    method Unshare(t: nat, i: nat, ghost s: Key) returns (ghost spare: nat)
      requires Consistent() && s in leaves && leaves[s].cow && leaves[s].user && s.path != []
      requires Parent(s) in tab && t == tab[Parent(s)] && i == Last(s)
      requires NeedsCopy(Snapshot(), s) ==> pool.Free() != {}
      modifies this`leaves, pool, pool.frames, refcounts, memory
      ensures Consistent() && tab == old(tab)
      ensures Faulted(old(Snapshot()), Snapshot(), s, spare)
      ensures |pool.Free()| == |old(pool.Free())| - (if old(NeedsCopy(Snapshot(), s)) then 1 else 0)
    {
      hide Forest, Counts, SamePaths, KernelShared, Owned;
      ghost var m := Snapshot();
      LeafPresent(m, s);
      ForestFacts(m.mem, m.tab, m.leaves);
      CowCounted(m.leaves, m.refs, s);
      var left := RefcountDecrease(memory[t][i].page);
      var refs := if left < 0 then 255 else left;
      if refs == 0 {
        spare := 0;
        MappedPageLocked(m, s);
        FaultLeafKeepsCore(m, s, 0);
        StoreWord(t, i, memory[t][i].(writable := true, cow := false));
        leaves := leaves[s := memory[t][i]];
        assert Snapshot() == FaultLeaf(m, s, 0);
      } else {
        var f := MoveToCopy(t, i, s, m);
        FaultLeafKeepsCore(m, s, f);
        spare := f;
      }
    }

    method MoveToCopy(t: nat, i: nat, ghost s: Key, ghost m: Machine) returns (f: nat)
      requires Sized() && Core(m) && s in m.leaves && m.leaves[s].cow && m.leaves[s].user && s.path != []
      requires Parent(s) in m.tab && t == m.tab[Parent(s)] < |m.mem| && i == Last(s) < ENTRIES
      requires m.mem[t][i] == m.leaves[s]
      requires NeedsCopy(m, s) && m.refs[m.leaves[s].page] > 0 && |m.refs| == |m.mem| && pool.Free() != {}
      requires Snapshot() == m.(refs := m.refs[m.leaves[s].page := m.refs[m.leaves[s].page] - 1])
      modifies this`leaves, pool, pool.frames, memory
      ensures Sized() && Spare(m, f) && FaultLeaf.requires(m, s, f) && Snapshot() == FaultLeaf(m, s, f)
      ensures |pool.Free()| == |old(pool.Free())| - 1
    {
      hide Core;
      var faulting := memory[t][i].page;
      f := pool.AllocateFrame();
      FaultLeafKeepsCore(m, s, f);
      CopyFrame(f, faulting);
      assert f != t by { TableLocked(m, Parent(s)); }
      StoreWord(t, i, memory[t][i].(page := f, writable := true, cow := false));
      leaves := leaves[s := memory[t][i]];
      assert memory[t][i] == Unshared(m.leaves[s], m.refs, f);
    }

    // ---- Mapping user pages ----

    // mmu_allocate_frame_ex. What it leaves behind is consistent only under the condition of MayMap.
    method AllocateFrameEx(t: nat, i: nat, flags: Flags, ghost s: Key) returns (ghost w: Word)
      requires Valid() && AtSlot(Snapshot(), s) && t == tab[Parent(s)] && i == Last(s)
      requires s in leaves && !leaves[s].user ==> leaves[s].page != 0
      requires s !in leaves ==> pool.Free() != {}
      modifies this`leaves, this`reserved, pool, pool.frames, memory
      ensures Sized() && Configures(old(Snapshot()), s, w, flags) && Snapshot() == Allocated(old(Snapshot()), s, w)
      ensures Valid() <==> MayMap(old(Snapshot()), s, flags)
      ensures w == Configured(old(memory[..])[t][i], w.page, flags)
    {
      hide Core, Closed, MayMap, Configures, Allocated;
      ghost var m := Snapshot();
      SlotContents(m, s);
      w := ConfigureSlot(t, i, flags, s);
      IsConfigured(m, s, m.mem[t][i], w, flags);
      AllocatedExactly(m, s, w, flags);
      AllocatedClosed(m, s, w);
      AllocatedTables(m, s, w);
    }

    method ConfigureSlot(t: nat, i: nat, flags: Flags, ghost s: Key) returns (ghost w: Word)
      requires Sized() && AtSlot(Snapshot(), s) && t == tab[Parent(s)] && i == Last(s)
      requires s in leaves && !leaves[s].user ==> leaves[s].page != 0
      requires if s in leaves then memory[t][i] == leaves[s] && (leaves[s].user ==> leaves[s].page != 0)
               else memory[t][i].page == 0 && !memory[t][i].cow && pool.Free() != {}
      modifies this`leaves, this`reserved, pool, pool.frames, memory
      ensures Sized() && Snapshot() == Allocated(old(Snapshot()), s, w)
      ensures w == Configured(old(memory[..])[t][i], w.page, flags)
      ensures if old(memory[..])[t][i].page != 0 then w.page == old(memory[..])[t][i].page
        else Spare(old(Snapshot()), w.page)
    {
      hide FreeFrames, InRange, Parent, Allocated;
      ghost var m := Snapshot();
      var page := FrameFor(memory[t][i].page);
      w := Configured(memory[t][i], page, flags);
      PutLeaf(t, i, Configured(memory[t][i], page, flags), s, m);
    }

    method PutLeaf(t: nat, i: nat, w: Word, ghost s: Key, ghost m: Machine)
      requires Sized() && AtSlot(m, s) && t == m.tab[Parent(s)] && i == Last(s)
      requires Snapshot() == m.(locked := if s in m.leaves then m.locked else m.locked + {w.page})
      modifies this`leaves, this`reserved, memory
      ensures Sized() && Snapshot() == Allocated(m, s, w)
    {
      StoreWord(t, i, w);
      leaves := leaves[s := w];
      if !w.user && (s in m.leaves ==> m.leaves[s].user) {
        reserved := reserved + {w.page};
      }
      assert Snapshot() == Allocated(m, s, w);
    }

    method FrameFor(held: nat) returns (page: nat)
      requires Sized() && (held == 0 ==> pool.Free() != {})
      modifies pool, pool.frames
      ensures Sized() && memory[..] == old(memory[..]) && refcounts[..] == old(refcounts[..])
      ensures held != 0 ==> page == held && pool.Locked() == old(pool.Locked())
      ensures held == 0 ==> Spare(old(Snapshot()), page) && pool.Locked() == old(pool.Locked()) + {page}
    {
      page := held;
      if held == 0 {
        page := pool.AllocateFrame();
      }
    }

    // One round of the loops in exec and sbrk: mmu_lookup_frame with MMU_GET_MAKE, then
    // mmu_allocate_frame_ex for a writable user page.
    method MapPage(address: nat, flags: Flags)
      requires Valid() && Indices(address)[0] < LOW_ENTRIES && flags.writable && !flags.kernel
      requires Slot(address) in leaves && !leaves[Slot(address)].user ==> leaves[Slot(address)].page != 0
      requires |pool.Free()| >= Missing(tab, current, Indices(address)) + (if Slot(address) in leaves then 0 else 1)
      modifies this`tab, this`leaves, this`reserved, pool, pool.frames, memory
      ensures Sized()
      ensures Valid() <==>
        !(Slot(address) in old(leaves) && (old(leaves)[Slot(address)].cow || !old(leaves)[Slot(address)].user))
      ensures Valid() ==> Slot(address) in leaves && PrivatePage(leaves[Slot(address)]) && Slot(address) in View()
      ensures Valid() ==> Next(old(Snapshot()), Op.Map(Slot(address), View()[Slot(address)]), Snapshot())
      ensures Valid() ==>
        View() == if Slot(address) in old(leaves) then old(View())
          else old(View())[Slot(address) := View()[Slot(address)]]
    {
      hide Forest, Counts, SamePaths, KernelShared, Owned, Closed, GrewAlong;
      ghost var m := Snapshot();
      ghost var s := Slot(address);
      var t, i := MakeSlot(address);
      ghost var n := Snapshot();
      KeptUnseen(m, n);
      SlotInMemory(n, s);
      ghost var w := AllocateFrameEx(t, i, flags, s);
      if MayMap(n, s, flags) {
        PrivatelyMapped(n, s, w, flags);
        MapSeen(n, s, w);
        UserPages(n);
      }
    }

    // ---- What a process does to its memory ----

    // A user-mode load of word i of the page at address, by the current process.
    method UserRead(address: nat, i: nat) returns (v: Option<Word>)
      requires Valid() && i < ENTRIES
      ensures v == Read(View(), Slot(address), i)
    {
      hide Forest, Counts, SamePaths, KernelShared, Owned, Closed;
      UserPages(Snapshot());
      var slot := LookupFrame(address);
      if slot.None? {
        return None;
      }
      var (t, j) := slot.value;
      if !memory[t][j].present || !memory[t][j].user {
        return None;
      }
      return Some(memory[memory[t][j].page][i]);
    }

    // A user-mode store: a page that is present but not writable faults first, and the fault
    // handler returns to the store only if mmu_copy_on_write succeeded.
    method UserWrite(address: nat, i: nat, w: Word) returns (done: bool)
      requires Valid() && i < ENTRIES
      requires NeedsCopy(Snapshot(), Slot(address)) ==> pool.Free() != {}
      modifies this`leaves, pool, pool.frames, refcounts, memory
      ensures Valid()
      ensures done <==> Slot(address) in old(View())
      ensures View() == Write(old(View()), Slot(address), i, w)
      ensures done ==> Next(old(Snapshot()), Op.Store(Slot(address), i, w), Snapshot())
    {
      hide Core, Closed, Visible, Write, Good, Stored;
      UserSlots(Snapshot());
      var slot := LookupFrame(address);
      if slot.None? {
        return false;
      }
      var (t, j) := slot.value;
      if !memory[t][j].present || !memory[t][j].user {
        return false;
      }
      ghost var spare := WriteMapped(address, i, w, memory[t][j].writable);
      return true;
    }

    method WriteMapped(address: nat, i: nat, w: Word, writable: bool) returns (ghost spare: nat)
      requires Valid() && i < ENTRIES && Slot(address) in View() && writable == leaves[Slot(address)].writable
      requires NeedsCopy(Snapshot(), Slot(address)) ==> pool.Free() != {}
      modifies this`leaves, pool, pool.frames, refcounts, memory
      ensures Valid() && View() == Write(old(View()), Slot(address), i, w)
      ensures Stored(old(Snapshot()), Snapshot(), Slot(address), i, w, spare)
    {
      hide Core, Closed, Write, Visible, Faulted, Overwritten, NeedsCopy;
      UserSlots(Snapshot());
      spare := 0;
      if !writable {
        var failed;
        failed, spare := WriteFault(address);
        if failed != 0 {
          assert false;
        }
      }
      StoreUser(address, i, w);
    }

    // The page fault handler on a write to a page that is present but not writable.
    method WriteFault(address: nat) returns (r: int, ghost spare: nat)
      requires Valid() && Slot(address) in View()
      requires !leaves[Slot(address)].writable
      requires NeedsCopy(Snapshot(), Slot(address)) ==> pool.Free() != {}
      modifies this`leaves, pool, pool.frames, refcounts, memory
      ensures Valid() && r == 0
      ensures View() == old(View()) && Faulted(old(Snapshot()), Snapshot(), Slot(address), spare)
      ensures Next(old(Snapshot()), Op.Fault(Slot(address)), Snapshot())
      ensures MadePrivate(old(leaves), leaves, Slot(address))
      ensures |pool.Free()| == |old(pool.Free())| - (if old(NeedsCopy(Snapshot(), Slot(address))) then 1 else 0)
    {
      hide Forest, Counts, SamePaths, KernelShared, Owned, Closed, MadePrivate;
      ghost var m := Snapshot();
      ghost var s := Slot(address);
      LockedOnlyByCow(m, s);
      SlotExists(m, current, Indices(address));
      r, spare := CopyOnWrite(address);
      FaultUnseen(m, s, spare);
      FaultedIsPrivate(m, Snapshot(), s, spare);
    }

    // The store itself, to a page that may be written.
    method StoreUser(address: nat, i: nat, w: Word)
      requires Valid() && i < ENTRIES && Slot(address) in View()
      requires leaves[Slot(address)].writable
      modifies memory
      ensures Valid() && leaves == old(leaves)
      ensures View() == Write(old(View()), Slot(address), i, w)
      ensures Overwritten(old(Snapshot()), Snapshot(), Slot(address), i, w)
    {
      hide Forest, Counts, SamePaths, KernelShared, Owned, Closed;
      ghost var m := Snapshot();
      ghost var s := Slot(address);
      SlotExists(m, current, Indices(address));
      var slot := LookupFrame(address);
      var (t, j) := slot.value;
      StoreSeen(m, s, i, w);
      StoreDataKeepsCore(m, leaves[s].page, m.mem[leaves[s].page][i := w]);
      StoreWord(memory[t][j].page, i, w);
      assert Snapshot() == StoreData(m, leaves[s].page, m.mem[leaves[s].page][i := w]);
    }

    // mmu_validate_user, for the process whose directory is the current one. The end of the
    // range wraps around in 64 bits, and then there is no page to look at.
    method ValidateUser(addr: nat, size: nat, nullAllowed: bool, write: bool)
      returns (ok: bool, ghost states: seq<Machine>, ghost ops: seq<Op>)
      requires Valid() && addr < ADDRESS_SPACE && size < ADDRESS_SPACE
      requires write ==>
        |pool.Free()| >= |CowPages(leaves, current, addr / PAGE_SIZE, RangeEnd(addr, size) / PAGE_SIZE)|
      modifies this`leaves, pool, pool.frames, refcounts, memory
      ensures Valid() && View() == old(View()) && leaves.Keys == old(leaves.Keys)
      ensures ok <==>
        (addr != 0 || nullAllowed) && size <= 0x8000_0000_0000 && Validated(View(), current, addr, size)
      ensures ok && write ==>
        forall page: nat :: addr / PAGE_SIZE <= page <= RangeEnd(addr, size) / PAGE_SIZE ==>
          WritablePage(leaves, current, page)
      ensures Faulting(states, ops, current, addr / PAGE_SIZE, RangeEnd(addr, size) / PAGE_SIZE)
      ensures |states| == |ops| + 1 && (write || ops == [])
      ensures states[0] == old(Snapshot()) && states[|ops|] == Snapshot()
    {
      hide Core, Closed, Good, Visible, UserPage, WritablePage, CowPages, FreeFrames, Faulting, Next;
      states, ops := [Snapshot()], [];
      NoFault(Snapshot(), current, addr / PAGE_SIZE, RangeEnd(addr, size) / PAGE_SIZE);
      if addr == 0 && !nullAllowed {
        return false, states, ops;
      }
      if size > 0x8000_0000_0000 {
        return false, states, ops;
      }
      var end := if size != 0 then (addr + (size - 1)) % ADDRESS_SPACE else addr;
      var page := addr / PAGE_SIZE;
      var last := end / PAGE_SIZE;
      ghost var v := View();
      while page <= last
        invariant addr / PAGE_SIZE <= page && (page <= last + 1 || page == addr / PAGE_SIZE)
        invariant Valid() && View() == v && leaves.Keys == old(leaves.Keys)
        invariant write ==> |pool.Free()| >= |CowPages(leaves, current, page, last)|
        invariant forall p: nat :: addr / PAGE_SIZE <= p < page ==> UserPage(v, current, p)
        invariant write ==> forall p: nat :: addr / PAGE_SIZE <= p < page ==> WritablePage(leaves, current, p)
        invariant |states| == |ops| + 1 && Faulting(states, ops, current, addr / PAGE_SIZE, last)
        invariant states[0] == old(Snapshot()) && states[|ops|] == Snapshot() && (write || ops == [])
        decreases last + 1 - page
      {
        ghost var was := Snapshot();
        var valid := ValidatePage(page, last, write);
        if Snapshot() != was {
          OneFaultMore(states, ops, current, addr / PAGE_SIZE, page, last, Snapshot());
          states, ops := states + [Snapshot()], ops + [Op.Fault(PageSlot(current, page))];
        }
        if !valid {
          return false, states, ops;
        }
        page := page + 1;
      }
      return true, states, ops;
    }

    // One round of the loop.
    method ValidatePage(page: nat, ghost last: nat, write: bool) returns (ok: bool)
      requires Valid() && page <= last && last < ADDRESS_SPACE / PAGE_SIZE
      requires write ==> |pool.Free()| >= |CowPages(leaves, current, page, last)|
      modifies this`leaves, pool, pool.frames, refcounts, memory
      ensures Valid() && View() == old(View()) && leaves.Keys == old(leaves.Keys)
      ensures ok <==> UserPage(View(), current, page)
      ensures write ==> |pool.Free()| >= |CowPages(leaves, current, page + 1, last)|
      ensures ok && write ==> WritablePage(leaves, current, page)
      ensures || Snapshot() == old(Snapshot())
              || (write && Next(old(Snapshot()), Op.Fault(PageSlot(current, page)), Snapshot()))
      ensures forall p: nat :: WritablePage(old(leaves), current, p) ==> WritablePage(leaves, current, p)
    {
      hide Core, Closed, Good, Visible, CowPages, Faulted;
      UserSlots(Snapshot());
      CowPagesNext(leaves, leaves, current, page, last);
      if page / 0x8_0000_0000 != 0 && page / 0x8_0000_0000 != 0x1_FFFF {
        return false;
      }
      var slot := LookupFrameFrom(current, page * PAGE_SIZE);
      if slot.None? {
        return false;
      }
      var (t, i) := slot.value;
      if !memory[t][i].present {
        return false;
      }
      if !memory[t][i].user {
        return false;
      }
      if !memory[t][i].writable && write {
        UnsharePage(page, last);
      }
      return true;
    }

    method UnsharePage(page: nat, ghost last: nat)
      requires Valid() && page <= last && PageSlot(current, page) in View() && !leaves[PageSlot(current, page)].writable
      requires |pool.Free()| >= |CowPages(leaves, current, page, last)|
      modifies this`leaves, pool, pool.frames, refcounts, memory
      ensures Valid() && View() == old(View()) && leaves.Keys == old(leaves.Keys)
      ensures |pool.Free()| >= |CowPages(leaves, current, page + 1, last)|
      ensures WritablePage(leaves, current, page)
      ensures Next(old(Snapshot()), Op.Fault(PageSlot(current, page)), Snapshot())
      ensures forall p: nat :: WritablePage(old(leaves), current, p) ==> WritablePage(leaves, current, p)
    {
      hide Core, Closed, Good, Visible, CowPages, Faulted, FreeFrames;
      UserSlots(Snapshot());
      CowPagesNext(leaves, leaves, current, page, last);
      ghost var l0 := leaves;
      assert Slot(page * PAGE_SIZE) == PageSlot(current, page);
      var failed;
      ghost var spare;
      failed, spare := WriteFault(page * PAGE_SIZE);
      if failed != 0 {
        assert false;
      }
      CowPagesNext(l0, leaves, current, page, last);
    }
  }
}
