/** The single steps of the memory manager, each shown to keep the invariant. */
module Steps {
  import opened PageTables
  import opened Wrappers
  import opened CopyOnWrite
  import opened Machines

  lemma ForestFacts(mem: seq<Page>, tab: map<Key, nat>, leaves: Leaves)
    requires Forest(mem, tab, leaves)
    ensures Injective(tab)
    ensures forall k :: k in tab ==> |k.path| <= 3 && 0 < tab[k] < |mem|
    ensures forall s :: s in leaves ==> |s.path| == 4 && Last(s) < ENTRIES
  {
  }

  // A frame nobody owns.
  ghost predicate Spare(m: Machine, f: nat) {
    f < |m.mem| && f !in m.locked
  }

  // ---- A fresh table below entry i of table k ----

  ghost function NewTable(m: Machine, k: Key, i: nat, f: nat): Machine
    requires k in m.tab && m.tab[k] < |m.mem| && f < |m.mem| && i < ENTRIES
  {
    m.(mem := StoreEntry(m.mem[f := ZeroPage()], m.tab[k], i, TableWord(f)),
       locked := m.locked + {f}, tab := m.tab[Child(k, i) := f])
  }

  lemma NewTableKeepsCore(m: Machine, k: Key, i: nat, f: nat)
    requires Core(m) && k in m.tab && |k.path| < 3 && i < Limit(|k.path|) && Spare(m, f)
    requires Child(k, i) !in m.tab
    requires forall j: nat :: Child(Child(k, i), j) !in m.tab && Child(Child(k, i), j) !in m.leaves
    ensures m.tab[k] < |m.mem| && Core(NewTable(m, k, i, f))
  {
    hide Forest, Counts, SamePaths, KernelShared;
    ForestFacts(m.mem, m.tab, m.leaves);
    NewTableKeepsForest(m.mem, m.tab, m.leaves, k, i, f);
    NewTableKeepsKernel(m, k, i, f);
    TablesAdd(m.tab, Child(k, i), f);
  }

  lemma NewTableKeepsKernel(m: Machine, k: Key, i: nat, f: nat)
    requires KernelShared(m.mem, m.tab, m.reserved, m.kernel) && m.reserved !! m.tab.Values && Injective(m.tab)
    requires k in m.tab && m.tab[k] < |m.mem| && i < Limit(|k.path|)
    requires f < |m.mem| && f !in m.reserved && f !in m.tab.Values
    ensures var n := NewTable(m, k, i, f); KernelShared(n.mem, n.tab, n.reserved, n.kernel)
  {
    var n := NewTable(m, k, i, f);
    assert m.tab[k] in m.tab.Values;
    forall k' | k' in n.tab && k'.path == [] && n.tab[k'] < |m.mem|
      ensures k' in m.tab && m.tab[k'] == n.tab[k']
      ensures n.mem[m.tab[k']][LOW_ENTRIES..] == m.mem[m.tab[k']][LOW_ENTRIES..]
    {
      assert m.tab[k'] in m.tab.Values && k' != Child(k, i);
      if k' == k {
        UpperHalfKept(m.mem[m.tab[k]], i, TableWord(f));
      }
    }
    KernelKept(m.mem, m.tab, m.reserved, m.kernel, n.mem, n.tab, n.reserved);
  }

  lemma UpperHalfKept(page: Page, i: nat, w: Word)
    requires i < ENTRIES
    ensures i < LOW_ENTRIES ==> page[i := w][LOW_ENTRIES..] == page[LOW_ENTRIES..]
  {
  }

  // ---- One leaf of a clone ----

  ghost function CopyLeaf(m: Machine, s: Key, t: Key): Machine
    requires s in m.leaves && s.path != [] && t.path != [] && Parent(s) in m.tab && Parent(t) in m.tab
    requires m.tab[Parent(s)] < |m.mem| && m.tab[Parent(t)] < |m.mem| && Last(s) < ENTRIES && Last(t) < ENTRIES
    requires m.leaves[s].user ==> m.leaves[s].page < |m.refs|
  {
    var w := Share(m.leaves[s]);
    m.(mem := StoreEntry(StoreEntry(m.mem, m.tab[Parent(s)], Last(s), w), m.tab[Parent(t)], Last(t), w),
       refs := SharedCounts(m.refs, m.leaves[s]),
       leaves := m.leaves[s := w][t := w])
  }

  lemma CopyLeafKeepsCore(m: Machine, s: Key, t: Key)
    requires Core(m) && s in m.leaves && t !in m.leaves && t.path == s.path
    requires Parent(s) in m.tab && Parent(t) in m.tab
    ensures m.tab[Parent(s)] < |m.mem| && m.tab[Parent(t)] < |m.mem| && Last(s) < ENTRIES
    ensures m.leaves[s].user ==> m.leaves[s].page < |m.refs| && (m.leaves[s].writable ==> m.refs[m.leaves[s].page] == 0)
    ensures Core(CopyLeaf(m, s, t))
  {
    hide Forest, Counts, SamePaths, KernelShared;
    ForestFacts(m.mem, m.tab, m.leaves);
    CopyLeafKeepsCounts(m.leaves, m.refs, s, t);
    CopyLeafKeepsForest(m, s, t);
    var w := Share(m.leaves[s]);
    MappedSet(m.leaves, s, w);
    MappedSet(m.leaves[s := w], t, w);
    assert w.user ==> w.page in Mapped(m.leaves);
  }

  lemma CopyLeafKeepsForest(m: Machine, s: Key, t: Key)
    requires Forest(m.mem, m.tab, m.leaves) && SamePaths(m.leaves)
    requires KernelShared(m.mem, m.tab, m.reserved, m.kernel) && m.reserved !! m.tab.Values
    requires s in m.leaves && t.path == s.path && Parent(s) in m.tab && Parent(t) in m.tab
    requires m.leaves[s].user ==> m.leaves[s].page < |m.refs|
    ensures var n := CopyLeaf(m, s, t);
      Forest(n.mem, n.tab, n.leaves) && SamePaths(n.leaves) && KernelShared(n.mem, n.tab, n.reserved, n.kernel)
  {
    LeafPresent(m, s);
    var w := Share(m.leaves[s]);
    SharedPaths(m.leaves, s, t);
    assert Injective(m.tab) && m.tab[Parent(t)] < |m.mem|;
    hide Forest, SamePaths, KernelShared;
    var mem1 := StoreEntry(m.mem, m.tab[Parent(s)], Last(s), w);
    SetLeafKeepsForest(m.mem, m.tab, m.leaves, s, w);
    SetLeafKeepsForest(mem1, m.tab, m.leaves[s := w], t, w);
    LeafStoreKeepsKernel(m, m.mem, s, w);
    LeafStoreKeepsKernel(m, mem1, t, w);
  }

  lemma SharedPaths(leaves: Leaves, s: Key, t: Key)
    requires SamePaths(leaves) && s in leaves && t.path == s.path
    ensures SamePaths(leaves[s := Share(leaves[s])][t := Share(leaves[s])])
  {
  }

  lemma LeafPresent(m: Machine, s: Key)
    requires Forest(m.mem, m.tab, m.leaves) && s in m.leaves && Parent(s) in m.tab
    ensures m.leaves[s].present && m.tab[Parent(s)] < |m.mem| && m.mem[m.tab[Parent(s)]][Last(s)] == m.leaves[s]
  {
    ChildOfParent(s);
    assert Links(m.mem, m.tab, m.leaves, Parent(s));
  }

  lemma LeafStoreKeepsKernel(m: Machine, mem: seq<Page>, s: Key, w: Word)
    requires KernelShared(mem, m.tab, m.reserved, m.kernel) && m.reserved !! m.tab.Values
    requires |s.path| == 4 && InRange(s.path) && Parent(s) in m.tab && m.tab[Parent(s)] < |mem|
    requires Injective(m.tab)
    ensures KernelShared(StoreEntry(mem, m.tab[Parent(s)], Last(s), w), m.tab, m.reserved, m.kernel)
  {
    var mem' := StoreEntry(mem, m.tab[Parent(s)], Last(s), w);
    assert m.tab[Parent(s)] in m.tab.Values;
    KernelKept(mem, m.tab, m.reserved, m.kernel, mem', m.tab, m.reserved);
  }

  // ---- Taking tables and leaves out of the forest, as mmu_free does ----

  // The table at k stays locked, but no directory uses it any more.
  ghost function Detach(m: Machine, k: Key): Machine
    requires k in m.tab
  {
    m.(tab := m.tab - {k}, reserved := m.reserved + {m.tab[k]})
  }

  lemma DetachKeepsCore(m: Machine, k: Key)
    requires Core(m) && k in m.tab && (k.path == [] || Parent(k) !in m.tab)
    ensures Core(Detach(m, k)) && m.tab[k] !in m.kernel.depth && m.tab[k] != 0
  {
    hide Forest, Counts, SamePaths, KernelShared;
    ForestFacts(m.mem, m.tab, m.leaves);
    DetachKeepsForest(m.mem, m.tab, m.leaves, k);
    TablesRemove(m.tab, k);
    var n := Detach(m, k);
    KernelKept(m.mem, m.tab, m.reserved, m.kernel, n.mem, n.tab, n.reserved) by {
      assert KernelShared(m.mem, m.tab, m.reserved, m.kernel);
      KernelReserved(m);
    }
    KernelReserved(m);
    assert m.tab[k] in m.tab.Values;
  }

  lemma KernelReserved(m: Machine)
    requires KernelShared(m.mem, m.tab, m.reserved, m.kernel)
    ensures m.kernel.depth.Keys <= m.reserved
  {
  }

  ghost function Release(m: Machine, f: nat): Machine {
    m.(locked := m.locked - {f}, reserved := m.reserved - {f})
  }

  lemma ReleaseKeepsCore(m: Machine, f: nat)
    requires Core(m) && f in m.reserved && f !in m.kernel.depth && f != 0
    ensures Core(Release(m, f))
  {
    hide Forest, Counts, SamePaths, KernelShared;
    KernelReserved(m);
    KernelKept(m.mem, m.tab, m.reserved, m.kernel, m.mem, m.tab, m.reserved - {f});
  }

  // _free_page on a slot of a detached table.
  ghost function DropLeaf(m: Machine, s: Key): Machine
    requires s in m.leaves
  {
    var w := m.leaves[s];
    m.(refs := DroppedCounts(m.refs, w), leaves := m.leaves - {s},
       locked := if w.writable || (w.page < |m.refs| && m.refs[w.page] == 1) then m.locked - {w.page} else m.locked)
  }

  lemma DropLeafKeepsCore(m: Machine, s: Key)
    requires Core(m) && s in m.leaves && s.path != [] && Parent(s) !in m.tab && m.leaves[s].user
    ensures m.leaves[s].page < |m.refs| && (!m.leaves[s].writable ==> m.refs[m.leaves[s].page] > 0)
    ensures Core(DropLeaf(m, s))
  {
    hide Forest, Counts, SamePaths, KernelShared;
    DropLeafKeepsCounts(m.leaves, m.refs, s);
    DropLeafKeepsForest(m.mem, m.tab, m.leaves, s);
    MappedRemove(m.leaves, s);
    FewerPaths(m.leaves, s);
    assert m.leaves[s].page in Mapped(m.leaves);
  }

  lemma FewerPaths(leaves: Leaves, s: Key)
    requires SamePaths(leaves)
    ensures SamePaths(leaves - {s})
  {
  }

  // A kernel page in the lower half is not counted; its slot just goes away with its table.
  lemma ForgetKernelLeafKeepsCore(m: Machine, s: Key)
    requires Core(m) && s in m.leaves && s.path != [] && Parent(s) !in m.tab && !m.leaves[s].user
    ensures Core(m.(leaves := m.leaves - {s}))
  {
    hide Forest, SamePaths, KernelShared;
    DropLeafKeepsForest(m.mem, m.tab, m.leaves, s);
    FewerPaths(m.leaves, s);
    var l := m.leaves - {s};
    forall f: nat ensures Mappers(l, f) == Mappers(m.leaves, f) {
      MappersRemove(m.leaves, s, f);
    }
    forall u | u in l && l[u].user ensures LeafCounted(l, m.refs, u) {
      assert LeafCounted(m.leaves, m.refs, u);
    }
    forall f ensures f in Mapped(l) <==> f in Mapped(m.leaves) {
      MappedByLeaf(l, f);
      MappedByLeaf(m.leaves, f);
    }
  }

  // ---- Mapping a user page ----

  ghost predicate PrivatePage(w: Word) {
    w.present && w.user && w.writable && !w.cow
  }

  ghost function MapLeaf(m: Machine, s: Key, w: Word): Machine
    requires |s.path| == 4 && Last(s) < ENTRIES && Parent(s) in m.tab && m.tab[Parent(s)] < |m.mem|
  {
    m.(mem := StoreEntry(m.mem, m.tab[Parent(s)], Last(s), w), locked := m.locked + {w.page},
      leaves := m.leaves[s := w])
  }

  lemma MapPaths(leaves: Leaves, s: Key, w: Word)
    requires SamePaths(leaves) && Mappers(leaves, w.page) == {}
    ensures SamePaths(leaves[s := w])
  {
    UnmappedFrame(leaves, w.page);
  }

  lemma ReflagKeepsCounts(leaves: Leaves, refs: seq<nat>, s: Key, w: Word)
    requires Counts(leaves, refs) && SamePaths(leaves) && s in leaves
    requires w.user == leaves[s].user && w.writable == leaves[s].writable && w.cow == leaves[s].cow
    requires w.page == leaves[s].page
    ensures Counts(leaves[s := w], refs) && SamePaths(leaves[s := w])
  {
    var l := leaves[s := w];
    forall f: nat ensures Mappers(l, f) == Mappers(leaves, f) {}
    forall u | u in l && l[u].user ensures LeafCounted(l, refs, u) {
      assert LeafCounted(leaves, refs, u);
    }
  }

  // ---- Writing user memory ----

  ghost function StoreData(m: Machine, f: nat, page: Page): Machine
    requires f < |m.mem|
  {
    m.(mem := m.mem[f := page])
  }

  // Data pages are never page tables, nor anything of the kernel's.
  lemma StoreDataKeepsCore(m: Machine, f: nat, page: Page)
    requires Core(m) && f < |m.mem| && f !in m.reserved && f !in m.tab.Values
    ensures Core(StoreData(m, f, page))
  {
    hide Forest, Counts, SamePaths, KernelShared;
    DataKeepsForest(m.mem, m.tab, m.leaves, f, page);
    KernelReserved(m);
    DataKeepsKernel(m, f, page);
  }

  lemma DataKeepsKernel(m: Machine, f: nat, page: Page)
    requires KernelShared(m.mem, m.tab, m.reserved, m.kernel) && f < |m.mem| && f !in m.reserved && f !in m.tab.Values
    ensures KernelShared(m.mem[f := page], m.tab, m.reserved, m.kernel)
  {
    assert forall k :: k in m.tab ==> m.tab[k] in m.tab.Values;
    KernelKept(m.mem, m.tab, m.reserved, m.kernel, m.mem[f := page], m.tab, m.reserved);
  }

  // ---- The write fault ----

  ghost function FaultLeaf(m: Machine, s: Key, spare: nat): Machine
    requires s in m.leaves && |s.path| == 4 && Last(s) < ENTRIES && Parent(s) in m.tab && m.tab[Parent(s)] < |m.mem|
    requires m.leaves[s].page < |m.refs| == |m.mem| && m.refs[m.leaves[s].page] > 0
    requires m.refs[m.leaves[s].page] != 1 ==> spare < |m.mem|
  {
    var w := m.leaves[s];
    var w' := Unshared(w, m.refs, spare);
    var copied := if m.refs[w.page] == 1 then m.mem else m.mem[spare := m.mem[w.page]];
    m.(mem := StoreEntry(copied, m.tab[Parent(s)], Last(s), w'),
       locked := m.locked + {w'.page},
       refs := m.refs[w.page := m.refs[w.page] - 1],
       leaves := m.leaves[s := w'])
  }

  lemma FaultLeafKeepsCore(m: Machine, s: Key, spare: nat)
    requires Core(m) && s in m.leaves && s.path != [] && Parent(s) in m.tab && m.leaves[s].user && m.leaves[s].cow
    requires m.leaves[s].page < |m.refs| && m.refs[m.leaves[s].page] != 1 ==> Spare(m, spare)
    ensures |s.path| == 4 && Last(s) < ENTRIES && m.tab[Parent(s)] < |m.mem|
    ensures m.leaves[s].page < |m.refs| && m.refs[m.leaves[s].page] > 0
    ensures Core(FaultLeaf(m, s, spare))
  {
    hide Forest, Counts, SamePaths, KernelShared;
    ForestFacts(m.mem, m.tab, m.leaves);
    CowCounted(m.leaves, m.refs, s);
    if m.refs[m.leaves[s].page] == 1 {
      OwnFrameAgain(m, s, Unshared(m.leaves[s], m.refs, spare));
      FaultKeepsCounts(m.leaves, m.refs, s, spare);
    } else {
      var copied := StoreData(m, spare, m.mem[m.leaves[s].page]);
      StoreDataKeepsCore(m, spare, m.mem[m.leaves[s].page]);
      MappedByLeaf(m.leaves, spare);
      OwnFrameAgain(copied, s, Unshared(m.leaves[s], m.refs, spare));
      FaultKeepsCounts(m.leaves, m.refs, s, spare);
    }
  }

  // All of the fault but the counts.
  lemma OwnFrameAgain(m: Machine, s: Key, w: Word)
    requires Core(m) && s in m.leaves && s.path != [] && Parent(s) in m.tab && m.leaves[s].user && m.leaves[s].cow
    requires m.leaves[s].page < |m.refs| && w == m.leaves[s].(page := w.page, writable := true, cow := false)
    requires if m.refs[m.leaves[s].page] == 1 then w.page == m.leaves[s].page else Spare(m, w.page)
    ensures |s.path| == 4 && Last(s) < ENTRIES && m.tab[Parent(s)] < |m.mem|
    ensures var mem := StoreEntry(m.mem, m.tab[Parent(s)], Last(s), w);
      Forest(mem, m.tab, m.leaves[s := w]) && KernelShared(mem, m.tab, m.reserved, m.kernel)
    ensures SamePaths(m.leaves[s := w])
    ensures Owned(m.locked + {w.page}, m.reserved, m.tab.Values, Mapped(m.leaves[s := w]))
  {
    hide Forest, Counts, SamePaths, KernelShared;
    ForestFacts(m.mem, m.tab, m.leaves);
    CowCounted(m.leaves, m.refs, s);
    FaultKeepsForest(m.mem, m.tab, m.leaves, s, w);
    LeafStoreKeepsKernel(m, m.mem, s, w);
    MappedByLeaf(m.leaves, w.page);
    FaultMapped(m.leaves, m.refs, s, w);
    assert m.leaves[s].page in Mapped(m.leaves);
  }

  lemma CowCounted(leaves: Leaves, refs: seq<nat>, s: Key)
    requires Counts(leaves, refs) && s in leaves && leaves[s].user && leaves[s].cow
    ensures leaves[s].page < |refs| && refs[leaves[s].page] > 0
    ensures refs[leaves[s].page] == |Mappers(leaves, leaves[s].page)|
    ensures !leaves[s].writable
  {
    assert LeafCounted(leaves, refs, s) && s in Mappers(leaves, leaves[s].page);
  }

  lemma FaultKeepsForest(mem: seq<Page>, tab: map<Key, nat>, leaves: Leaves, s: Key, w: Word)
    requires Forest(mem, tab, leaves) && s in leaves && s.path != [] && Parent(s) in tab
    requires (w.present || !leaves[s].present)
    requires w == leaves[s].(page := w.page, writable := w.writable, cow := w.cow) && !w.cow
    ensures |s.path| == 4 && InRange(s.path) && tab[Parent(s)] < |mem|
    ensures Forest(StoreEntry(mem, tab[Parent(s)], Last(s), w), tab, leaves[s := w])
  {
    ChildOfParent(s);
    assert Links(mem, tab, leaves, Parent(s));
    SetLeafKeepsForest(mem, tab, leaves, s, w);
  }

  lemma FaultMapped(leaves: Leaves, refs: seq<nat>, s: Key, w: Word)
    requires Counts(leaves, refs) && s in leaves && leaves[s].user && leaves[s].cow && w.user && leaves[s].page < |refs|
    requires refs[leaves[s].page] == 1 ==> w.page == leaves[s].page
    requires refs[leaves[s].page] != 1 ==> Mappers(leaves, w.page) == {}
    ensures Mapped(leaves[s := w]) == Mapped(leaves) + {w.page}
    ensures SamePaths(leaves) ==> SamePaths(leaves[s := w])
  {
    var p := leaves[s].page;
    assert LeafCounted(leaves, refs, s) && s in Mappers(leaves, p);
    if refs[p] == 1 {
      MappedSet(leaves, s, w);
    } else {
      UnmappedFrame(leaves, w.page);
      forall f ensures f in Mapped(leaves[s := w]) <==> f in Mapped(leaves) || f == w.page {
        MappedByLeaf(leaves[s := w], f);
        MappedByLeaf(leaves, f);
        MappersUpdate(leaves, s, w, f);
        assert f == p ==> |Mappers(leaves, p) - {s}| == refs[p] - 1;
        assert f != p ==> s !in Mappers(leaves, f);
      }
    }
  }

  // ---- Walking ----

  lemma WalkStep(mem: seq<Page>, root: nat, path: seq<nat>, n: nat)
    requires n < |path|
    ensures Walk(mem, root, path[..n + 1]) ==
      match Walk(mem, root, path[..n])
      case None => None
      case Some(t) => Follow(mem, t, path[n], n)
  {
    assert path[..n + 1][..n] == path[..n];
  }

  // In the kernel half a walk stays among the kernel's tables.
  lemma {:induction false} KernelWalk(m: Machine, root: nat, path: seq<nat>, n: nat)
    requires Core(m) && Key(root, []) in m.tab && m.tab[Key(root, [])] == root
    requires 1 <= n <= 3 && n <= |path| && LOW_ENTRIES <= path[0] < ENTRIES
    ensures Walk(m.mem, root, path[..n]).Some? ==>
      var t := Walk(m.mem, root, path[..n]).value; t in m.kernel.depth && m.kernel.depth[t] == n
  {
    hide Forest, Counts, SamePaths;
    WalkStep(m.mem, root, path, n - 1);
    if n == 1 {
      assert path[..0] == [];
      if root < |m.mem| {
        assert m.mem[root][LOW_ENTRIES..][path[0] - LOW_ENTRIES] == m.mem[root][path[0]];
      }
    } else {
      KernelWalk(m, root, path, n - 1);
    }
  }

  // Every table a walk of a live directory reaches is a frame of memory.
  lemma WalkInMemory(m: Machine, root: nat, path: seq<nat>, n: nat)
    requires Good(m) && Key(root, []) in m.tab && n <= 3 && n <= |path| && forall i :: 0 <= i < |path| ==>
      path[i] < ENTRIES
    ensures Walk(m.mem, root, path[..n]).Some? ==> Walk(m.mem, root, path[..n]).value < |m.mem|
    ensures n == 0 || path[0] < LOW_ENTRIES ==>
      Walk(m.mem, root, path[..n]) == if Key(root, path[..n]) in m.tab then Some(m.tab[Key(root, path[..n])]) else None
  {
    hide Counts, SamePaths, KernelShared;
    if n == 0 || path[0] < LOW_ENTRIES {
      WalkIsLookup(m.mem, m.tab, m.leaves, root, path[..n]);
    } else {
      KernelWalk(m, root, path, n);
      KernelDepths(m);
    }
  }

  lemma KernelDepths(m: Machine)
    requires KernelShared(m.mem, m.tab, m.reserved, m.kernel)
    ensures forall f :: f in m.kernel.depth ==> f < |m.mem|
  {
  }

  // What slot path[3] of table t says about the leaf at path.
  ghost predicate SlotOf(m: Machine, root: nat, path: seq<nat>, t: nat)
    requires |path| == 4 && path[3] < ENTRIES
  {
    && t < |m.mem|
    && var w, s := m.mem[t][path[3]], Key(root, path);
    && (w.present && w.user ==> path[0] < LOW_ENTRIES && s in m.leaves)
    && (w.cow ==> w.present && w.user)
    && (path[0] >= LOW_ENTRIES ==> s !in m.leaves)
    && (path[0] < LOW_ENTRIES ==>
          && Parent(s) in m.tab && m.tab[Parent(s)] == t && InRange(path)
          && (w.present <==> s in m.leaves)
          && (if w.present then m.leaves[s] == w else w.page == 0))
  }

  // The word a walk ends at is the recorded leaf, and never a user page of the kernel half.
  lemma SlotWord(m: Machine, root: nat, path: seq<nat>)
    requires Good(m) && Key(root, []) in m.tab && |path| == 4 && forall i :: 0 <= i < 4 ==> path[i] < ENTRIES
    requires Walk(m.mem, root, path[..3]).Some?
    ensures SlotOf(m, root, path, Walk(m.mem, root, path[..3]).value)
  {
    WalkInMemory(m, root, path, 3);
    if path[0] < LOW_ENTRIES {
      ChildOfParent(Key(root, path));
      assert Links(m.mem, m.tab, m.leaves, Key(root, path[..3]));
    } else {
      KernelWalk(m, root, path, 3);
      assert !InRange(path);
    }
  }

  // A slot the walk cannot reach holds no leaf.
  lemma NoSlot(m: Machine, root: nat, path: seq<nat>)
    requires Good(m) && Key(root, []) in m.tab && |path| == 4 && forall i :: 0 <= i < 4 ==> path[i] < ENTRIES
    requires Walk(m.mem, root, path[..3]).None?
    ensures Key(root, path) !in m.leaves
  {
    WalkInMemory(m, root, path, 3);
    assert Parent(Key(root, path)) == Key(root, path[..3]);
    assert path[0] >= LOW_ENTRIES ==> !InRange(path);
  }
}
