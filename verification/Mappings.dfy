/** mmu_allocate_frame_ex with any flags and on any slot: when it keeps the invariant. */
module Mappings {
  import opened PageTables
  import opened CopyOnWrite
  import opened Machines
  import opened Steps
  import opened Faults
  import opened Eager

  // What it leaves behind. A frame whose only leaf is a kernel page counts as the kernel's.
  ghost function Allocated(m: Machine, s: Key, w: Word): Machine
    requires |s.path| == 4 && Last(s) < ENTRIES && Parent(s) in m.tab && m.tab[Parent(s)] < |m.mem|
  {
    var kernelPage := !w.user && (s in m.leaves ==> m.leaves[s].user);
    m.(mem := StoreEntry(m.mem, m.tab[Parent(s)], Last(s), w),
       locked := if s in m.leaves then m.locked else m.locked + {w.page},
       reserved := if kernelPage then m.reserved + {w.page} else m.reserved,
       leaves := m.leaves[s := w])
  }

  // A fresh page must be writable or the kernel's; a private page must stay writable, a shared
  // one read-only, and only a private one can become the kernel's.
  ghost predicate MayMap(m: Machine, s: Key, flags: Flags) {
    if s !in m.leaves then flags.kernel || flags.writable
    else if !m.leaves[s].user then flags.kernel
    else if flags.kernel then !m.leaves[s].cow
    else flags.writable != m.leaves[s].cow
  }

  // The word that goes into the slot: the old one configured, or a frame that was free.
  ghost predicate Configures(m: Machine, s: Key, w: Word, flags: Flags) {
    if s in m.leaves then w == Configured(m.leaves[s], m.leaves[s].page, flags)
    else !w.cow && w.present && w.user == !flags.kernel && w.writable == flags.writable && Spare(m, w.page)
  }

  ghost predicate AtSlot(m: Machine, s: Key) {
    |s.path| == 4 && InRange(s.path) && Last(s) < ENTRIES && Parent(s) in m.tab && m.tab[Parent(s)] < |m.mem|
  }

  // The invariant holds afterwards exactly under that condition.
  lemma AllocatedExactly(m: Machine, s: Key, w: Word, flags: Flags)
    requires Core(m) && AtSlot(m, s) && Configures(m, s, w, flags)
    ensures Core(Allocated(m, s, w)) <==> MayMap(m, s, flags)
  {
    hide Core, Allocated;
    if MayMap(m, s, flags) {
      MayMapKeepsCore(m, s, w, flags);
    } else {
      OtherwiseBroken(m, s, w, flags);
    }
  }

  lemma OtherwiseBroken(m: Machine, s: Key, w: Word, flags: Flags)
    requires Core(m) && AtSlot(m, s) && Configures(m, s, w, flags) && !MayMap(m, s, flags)
    ensures !Core(Allocated(m, s, w))
  {
    hide Links, SamePaths, KernelShared, Owned, Mappers;
    var l1 := m.leaves[s := w];
    assert s in l1 && l1[s] == w;
    if s in m.leaves && !m.leaves[s].user {
      KernelPageBroken(m, s, w);
    } else {
      if s in m.leaves {
        assert LeafCounted(m.leaves, m.refs, s);
      }
      assert w.user ==> !LeafCounted(l1, m.refs, s);
    }
  }

  // A kernel page made a user's: its frame is no longer the kernel's alone, or has another user.
  lemma KernelPageBroken(m: Machine, s: Key, w: Word)
    requires Core(m) && AtSlot(m, s) && s in m.leaves && !m.leaves[s].user && w.user && w.page == m.leaves[s].page
    requires w.cow == m.leaves[s].cow
    ensures !Core(Allocated(m, s, w))
  {
    hide Forest, SamePaths, KernelShared;
    var n := Allocated(m, s, w);
    assert s in n.leaves && n.leaves[s] == w && w.page in Mapped(n.leaves);
    if Core(n) {
      assert LeafCounted(n.leaves, n.refs, s);
      assert w.page in Mapped(m.leaves);
      var u :| u in m.leaves && m.leaves[u].user && m.leaves[u].page == w.page;
      assert u in Mappers(n.leaves, w.page) && s in Mappers(n.leaves, w.page);
      assert LeafCounted(m.leaves, m.refs, u);
      OneMore(m.leaves, s, w);
    }
  }

  lemma OneMore(leaves: Leaves, s: Key, w: Word)
    requires s in leaves && !leaves[s].user && w.user
    ensures |Mappers(leaves[s := w], w.page)| == |Mappers(leaves, w.page)| + 1
  {
    assert Mappers(leaves[s := w], w.page) == Mappers(leaves, w.page) + {s};
  }

  lemma MayMapKeepsCore(m: Machine, s: Key, w: Word, flags: Flags)
    requires Core(m) && AtSlot(m, s) && Configures(m, s, w, flags) && MayMap(m, s, flags)
    ensures Core(Allocated(m, s, w))
  {
    hide Forest, Counts, SamePaths, KernelShared, Owned, LeafCounted;
    ForestFacts(m.mem, m.tab, m.leaves);
    SlotIs(m, s, w, flags);
    SetLeafKeepsForest(m.mem, m.tab, m.leaves, s, w);
    AllocatedCounts(m, s, w, flags);
    AllocatedOwned(m, s, w, flags);
    AllocatedKernel(m, s, w);
  }

  // A kernel page made a user's: the process reads the kernel's frame and writes it, and the
  // release of the page frees it.
  lemma KernelPageShown(m: Machine, s: Key, flags: Flags, i: nat, w: Word)
    requires Core(m) && AtSlot(m, s) && s in m.leaves && !m.leaves[s].user && !flags.kernel && flags.writable
    requires m.leaves[s].page in m.reserved && i < ENTRIES
    ensures var p := m.leaves[s].page; var n := Allocated(m, s, Configured(m.leaves[s], p, flags));
      && p in n.reserved && p < |n.mem| && n.leaves[s].writable
      && s in Visible(n) && Visible(n)[s] == m.mem[p]
      && Visible(StoreData(n, p, n.mem[p][i := w]))[s] == m.mem[p][i := w]
      && p !in DropLeaf(n, s).locked
  {
    hide Forest, SamePaths, KernelShared, Counts;
    assert m.tab[Parent(s)] in m.tab.Values;
  }

  // A page mapped read-only, a fork and the child's exit: the frame is free while the slot still
  // maps it.
  lemma ReadOnlyLost(m: Machine, s: Key, w: Word, flags: Flags, t: Key)
    requires Core(m) && AtSlot(m, s) && s !in m.leaves && Configures(m, s, w, flags)
    requires !flags.writable && !flags.kernel && AtSlot(m, t) && t !in m.leaves && t != s
    ensures var n := Allocated(m, s, w);
      && w.page in n.locked && CopyLeaf.requires(n, s, t)
      && var gone := DropLeaf(CopyLeaf(n, s, t), t);
      s in gone.leaves && gone.leaves[s] == w && w.user && w.page !in gone.locked
  {
    hide Forest, SamePaths, KernelShared;
    Unmapped(m, w.page);
  }

  lemma SlotIs(m: Machine, s: Key, w: Word, flags: Flags)
    requires Core(m) && Configures(m, s, w, flags) && MayMap(m, s, flags)
    ensures w.present && (w.cow ==> w.user)
    ensures s in m.leaves && m.leaves[s].user ==> m.leaves[s].page < |m.mem| && m.leaves[s].writable == !m.leaves[s].cow
  {
    hide Links, SamePaths, KernelShared, Owned, Mappers;
    if s in m.leaves && m.leaves[s].user {
      assert LeafCounted(m.leaves, m.refs, s);
    }
  }

  lemma AllocatedCounts(m: Machine, s: Key, w: Word, flags: Flags)
    requires Core(m) && Configures(m, s, w, flags) && MayMap(m, s, flags)
    ensures Counts(m.leaves[s := w], m.refs) && SamePaths(m.leaves[s := w])
  {
    hide Forest, KernelShared;
    SlotIs(m, s, w, flags) by { assert Core(m); }
    if w.user && s in m.leaves {
      ReflagKeepsCounts(m.leaves, m.refs, s, w);
    } else if w.user {
      Unmapped(m, w.page);
      MapKeepsCounts(m.leaves, m.refs, s, w);
      MapPaths(m.leaves, s, w);
    } else if s in m.leaves && m.leaves[s].user {
      DropLeafKeepsCounts(m.leaves, m.refs, s);
      FewerPaths(m.leaves, s);
      assert (m.leaves - {s})[s := w] == m.leaves[s := w];
      assert DroppedCounts(m.refs, m.leaves[s]) == m.refs;
      KernelLeafCounts(m.leaves - {s}, m.refs, s, w);
    } else {
      KernelLeafCounts(m.leaves, m.refs, s, w);
    }
  }

  lemma Unmapped(m: Machine, f: nat)
    requires Core(m) && Spare(m, f)
    ensures f !in Mapped(m.leaves) && Mappers(m.leaves, f) == {}
  {
    hide Forest, Counts, SamePaths, KernelShared, Mappers;
    MappedByLeaf(m.leaves, f);
  }

  // Kernel leaves count for nothing.
  lemma KernelLeafCounts(leaves: Leaves, refs: seq<nat>, s: Key, w: Word)
    requires Counts(leaves, refs) && SamePaths(leaves) && (s in leaves ==> !leaves[s].user) && !w.user
    ensures Counts(leaves[s := w], refs) && SamePaths(leaves[s := w])
  {
    var l := leaves[s := w];
    forall f: nat ensures Mappers(l, f) == Mappers(leaves, f) {}
    forall u | u in l && l[u].user ensures LeafCounted(l, refs, u) {
      assert LeafCounted(leaves, refs, u);
    }
  }

  lemma AllocatedOwned(m: Machine, s: Key, w: Word, flags: Flags)
    requires Core(m) && AtSlot(m, s) && Configures(m, s, w, flags) && MayMap(m, s, flags)
    ensures var n := Allocated(m, s, w);
      && Owned(n.locked, n.reserved, n.tab.Values, Mapped(n.leaves))
      && (forall f :: f in n.locked ==> f < |n.mem|) && |n.mem| == |m.mem|
  {
    hide Forest, SamePaths, KernelShared, Counts, Mapped, Mappers;
    assert s in m.leaves && !m.leaves[s].user ==> !w.user;
    MappedAfter(m, s, w, flags);
  }

  lemma MappedAfter(m: Machine, s: Key, w: Word, flags: Flags)
    requires Core(m) && Configures(m, s, w, flags) && MayMap(m, s, flags)
    ensures Mapped(m.leaves[s := w]) ==
            if w.user then Mapped(m.leaves) + {w.page}
            else if s in m.leaves && m.leaves[s].user then Mapped(m.leaves) - {w.page}
            else Mapped(m.leaves)
    ensures s in m.leaves && m.leaves[s].user ==> w.page in Mapped(m.leaves) && w.page < |m.mem|
    ensures s !in m.leaves ==> w.page !in Mapped(m.leaves)
  {
    hide Forest, SamePaths, KernelShared, Counts, Owned;
    SlotIs(m, s, w, flags);
    if s !in m.leaves {
      Unmapped(m, w.page);
    }
    if s in m.leaves && m.leaves[s].user && !w.user {
      PrivateGone(m, s, w);
    } else {
      MappedSet(m.leaves, s, w);
    }
  }

  lemma PrivateGone(m: Machine, s: Key, w: Word)
    requires Core(m) && s in m.leaves && m.leaves[s].user && !m.leaves[s].cow && !w.user
    ensures Mapped(m.leaves[s := w]) == Mapped(m.leaves) - {m.leaves[s].page} && m.leaves[s].page in Mapped(m.leaves)
  {
    hide Forest, SamePaths, KernelShared, Owned;
    assert LeafCounted(m.leaves, m.refs, s);
    var l, p := m.leaves[s := w], m.leaves[s].page;
    forall f ensures f in Mapped(l) <==> f in Mapped(m.leaves) && f != p {
      MappedByLeaf(l, f);
      MappedByLeaf(m.leaves, f);
      MappersUpdate(m.leaves, s, w, f);
      if f != p {
        assert s !in Mappers(m.leaves, f);
      }
    }
    MappedByLeaf(m.leaves, p);
  }

  lemma AllocatedKernel(m: Machine, s: Key, w: Word)
    requires Core(m) && AtSlot(m, s)
    ensures var n := Allocated(m, s, w); KernelShared(n.mem, n.tab, n.reserved, n.kernel)
  {
    hide Counts, SamePaths, Links;
    LeafStoreKeepsKernel(m, m.mem, s, w);
  }

  lemma SlotInMemory(m: Machine, s: Key)
    requires Good(m) && |s.path| == 4 && InRange(s.path) && Parent(s) in m.tab
    ensures AtSlot(m, s)
  {
    hide Counts, SamePaths, KernelShared, Owned, Closed;
    assert s.path[3] < Limit(3);
  }

  // A writable user page in an empty slot or over a private page.
  lemma PrivatelyMapped(m: Machine, s: Key, w: Word, flags: Flags)
    requires Core(m) && AtSlot(m, s) && Configures(m, s, w, flags) && MayMap(m, s, flags) && flags.writable
    requires !flags.kernel
    ensures Mapped1(m, Allocated(m, s, w), s, w)
  {
    hide Links, SamePaths, KernelShared, Owned, Mappers, Counts;
    SlotIs(m, s, w, flags) by { assert Core(m); }
    if s in m.leaves {
      MappedPageLocked(m, s);
      LeafIsPresent(m, s);
    }
  }

  lemma LeafIsPresent(m: Machine, s: Key)
    requires Core(m) && AtSlot(m, s) && s in m.leaves
    ensures m.leaves[s].present
  {
    hide Counts, SamePaths, KernelShared, Owned;
    ChildOfParent(s);
    assert Links(m.mem, m.tab, m.leaves, Parent(s));
  }

  lemma SlotContents(m: Machine, s: Key)
    requires Good(m) && AtSlot(m, s)
    ensures |s.path| == 4 && Last(s) < ENTRIES && Parent(s) in m.tab && m.tab[Parent(s)] < |m.mem|
    ensures var w := m.mem[m.tab[Parent(s)]][Last(s)];
      if s in m.leaves then w == m.leaves[s] && (w.user ==> w.page != 0) else w.page == 0 && !w.cow
  {
    hide Counts, SamePaths, KernelShared;
    ChildOfParent(s);
    assert Links(m.mem, m.tab, m.leaves, Parent(s));
    EmptySlot(m, s);
  }

  lemma AllocatedClosed(m: Machine, s: Key, w: Word)
    requires Good(m) && AtSlot(m, s)
    ensures Closed(Allocated(m, s, w).tab, Allocated(m, s, w).leaves)
  {
    hide Core;
    MapKeepsClosed(m, s, w);
  }

  lemma AllocatedTables(m: Machine, s: Key, w: Word)
    requires AtSlot(m, s)
    ensures Allocated(m, s, w).tab == m.tab
  {
  }

  lemma IsConfigured(m: Machine, s: Key, was: Word, w: Word, flags: Flags)
    requires if s in m.leaves then was == m.leaves[s] && (was.user ==> was.page != 0) else was.page == 0 && !was.cow
    requires s in m.leaves && !m.leaves[s].user ==> m.leaves[s].page != 0
    requires w == Configured(was, w.page, flags) && if was.page != 0 then w.page == was.page else Spare(m, w.page)
    ensures Configures(m, s, w, flags)
  {
  }
}
