/** What the memory manager sees of the bitmap's other clients. */
module Others {
  import opened PageTables
  import opened CopyOnWrite
  import opened Machines
  import opened Steps
  import opened Eager

  // The frames the memory manager itself holds: page tables and user pages.
  ghost function MmuFrames(m: Machine): set<nat> {
    m.tab.Values + Mapped(m.leaves)
  }

  // Someone else locked, released and wrote frames, but none of the memory manager's and none
  // of the kernel's tables.
  ghost predicate OthersActed(a: Machine, b: Machine) {
    && b.tab == a.tab && b.leaves == a.leaves && b.refs == a.refs && b.kernel == a.kernel && |b.mem| == |a.mem|
    && (forall f :: f < |a.mem| && (f in MmuFrames(a) || f in a.kernel.depth) ==> b.mem[f] == a.mem[f])
    && MmuFrames(a) + a.kernel.depth.Keys + {0} <= b.locked
    && (forall f :: f in b.locked ==> f < |b.mem|)
    && b.reserved == b.locked - MmuFrames(a)
  }

  lemma OthersKeepGood(a: Machine, b: Machine)
    requires Good(a) && OthersActed(a, b)
    ensures Good(b)
  {
    hide Counts, SamePaths, KernelShared, Links, Owned;
    forall k | k in a.tab ensures Links(b.mem, b.tab, b.leaves, k) {
      assert a.tab[k] in a.tab.Values;
      LinksKept(a.mem, a.tab, a.leaves, b.mem, b.tab, b.leaves, k);
    }
    OthersKeepOwned(a, b);
    OthersKeepKernel(a, b);
  }

  lemma OthersKeepOwned(a: Machine, b: Machine)
    requires Owned(a.locked, a.reserved, a.tab.Values, Mapped(a.leaves)) && OthersActed(a, b)
    ensures Owned(b.locked, b.reserved, b.tab.Values, Mapped(b.leaves))
  {
  }

  lemma OthersKeepKernel(a: Machine, b: Machine)
    requires Good(a) && OthersActed(a, b)
    ensures KernelShared(b.mem, b.tab, b.reserved, b.kernel)
  {
    hide Forest, Counts, SamePaths;
    KernelReserved(a);
    forall k | k in a.tab ensures a.tab[k] in a.tab.Values {}
    KernelKept(a.mem, a.tab, a.reserved, a.kernel, b.mem, b.tab, b.reserved);
  }

  lemma OthersUnseen(a: Machine, b: Machine)
    requires Good(a) && OthersActed(a, b)
    ensures Visible(b) == Visible(a)
  {
    hide Forest, Counts, SamePaths, KernelShared, Owned;
    UserPages(a);
  }
}
