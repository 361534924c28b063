/** What holds while mmu_clone copies a directory, subtree by subtree. */
module Clones {
  import opened PageTables
  import opened CopyOnWrite
  import opened Machines
  import opened Steps
  import opened Forks
  import opened Slots

  // The count of the page at s cannot take another sharer.
  ghost predicate Saturated(m: Machine, s: Key)
    requires s in m.leaves
  {
    var w := m.leaves[s];
    w.user && !w.writable && w.page < |m.refs| && m.refs[w.page] == 255
  }

  // What happens to a page whose count is full: a copy in a free frame, which nobody locks or
  // counts, behind a fresh word that grants user-mode code everything.
  ghost predicate CopiedOut(a: Machine, mem: seq<Page>, s: Key, tout: nat, i: nat)
    requires s in a.leaves
  {
    && tout < |a.mem| == |mem| && i < ENTRIES && a.leaves[s].page < |a.mem|
    && var w := mem[tout][i];
    && w.present && w.user && w.writable && !w.cow && !w.size && !w.noexec
    && w.page < |a.mem| && w.page !in a.locked
    && mem == StoreEntry(a.mem[w.page := a.mem[a.leaves[s].page]], tout, i, w)
  }

  ghost predicate NothingUnder(m: Machine, c: Key) {
    && (forall k :: k in m.tab ==> !Under(c, k))
    && (forall s :: s in m.leaves ==> !Under(c, s))
  }

  // Room for the copy: nothing is there yet, and no count would overflow.
  ghost predicate ReadyToClone(m: Machine, k: Key, child: nat) {
    && k in m.tab && child != k.dir && Key(child, k.path) in m.tab
    && NothingUnder(m, Key(child, k.path))
    && forall s :: s in m.leaves && Under(k, s) ==> !Saturated(m, s)
  }

  // The whole directory dir was given to child.
  ghost predicate Forked(a: Machine, b: Machine, dir: nat, child: nat) {
    Cloned(a, b, KeysOf(a.tab.Keys, dir), KeysOf(a.leaves.Keys, dir), dir, child)
  }

  lemma RootAndBelow(m: Machine, dir: nat)
    requires Key(dir, []) in m.tab && Closed(m.tab, m.leaves)
    ensures KeysOf(m.tab.Keys, dir) == {Key(dir, [])} + KeysUnder(m.tab.Keys, Key(dir, []))
    ensures |KeysOf(m.tab.Keys, dir)| == 1 + |KeysUnder(m.tab.Keys, Key(dir, []))|
    ensures KeysOf(m.leaves.Keys, dir) == KeysUnder(m.leaves.Keys, Key(dir, []))
  {
    var root := Key(dir, []);
    forall s: Key | s.dir == dir ensures s == root || Under(root, s) {
      assert s.path == [] || s.path[..0] == [];
    }
    assert root !in KeysUnder(m.tab.Keys, root);
  }

  ghost function NewRoot(m: Machine, f: nat, page: Page): Machine
    requires f < |m.mem|
  {
    m.(mem := m.mem[f := page], locked := m.locked + {f}, tab := m.tab[Key(f, []) := f])
  }

  lemma NewRootKeepsGood(m: Machine, dir: nat, f: nat, page: Page)
    requires Good(m) && Key(dir, []) in m.tab && Spare(m, f) && dir < |m.mem|
    requires page == ZeroPage()[..LOW_ENTRIES] + m.mem[dir][LOW_ENTRIES..]
    ensures Good(NewRoot(m, f, page))
  {
    hide Forest, Counts, SamePaths, KernelShared;
    ForestFacts(m.mem, m.tab, m.leaves);
    UnusedDirectory(m, f);
    NewRootKeepsForest(m.mem, m.tab, m.leaves, f, page);
    NewRootKeepsKernel(m, dir, f, page);
    TablesAdd(m.tab, Key(f, []), f);
  }

  lemma NewRootKeepsForest(mem: seq<Page>, tab: map<Key, nat>, leaves: Leaves, f: nat, page: Page)
    requires Forest(mem, tab, leaves) && 0 < f < |mem| && f !in tab.Values
    requires forall u :: u in tab || u in leaves ==> u.dir != f
    requires forall i: nat :: i < LOW_ENTRIES ==> page[i] == ZERO
    ensures Forest(mem[f := page], tab[Key(f, []) := f], leaves)
  {
    var root, mem', tab' := Key(f, []), mem[f := page], tab[Key(f, []) := f];
    forall k | k in tab' ensures Links(mem', tab', leaves, k) {
      if k != root {
        assert tab[k] in tab.Values;
        LinksKept(mem, tab, leaves, mem', tab', leaves, k);
      }
    }
    forall k1, k2 | k1 in tab' && k2 in tab' && tab'[k1] == tab'[k2] ensures k1 == k2 {
      assert k1 in tab ==> tab[k1] in tab.Values;
      assert k2 in tab ==> tab[k2] in tab.Values;
    }
  }

  lemma NewRootKeepsKernel(m: Machine, dir: nat, f: nat, page: Page)
    requires KernelShared(m.mem, m.tab, m.reserved, m.kernel) && Key(dir, []) in m.tab
    requires m.tab[Key(dir, [])] == dir < |m.mem|
    requires f < |m.mem| && f !in m.reserved && f !in m.tab.Values && page[LOW_ENTRIES..] == m.mem[dir][LOW_ENTRIES..]
    ensures KernelShared(m.mem[f := page], m.tab[Key(f, []) := f], m.reserved, m.kernel)
  {
    var mem', tab' := m.mem[f := page], m.tab[Key(f, []) := f];
    forall k | k in tab' && k.path == [] && tab'[k] < |m.mem| ensures mem'[tab'[k]][LOW_ENTRIES..] == m.kernel.half {
      assert k in m.tab ==> m.tab[k] in m.tab.Values;
    }
  }

  lemma NewRootReady(m: Machine, dir: nat, f: nat, page: Page)
    requires Good(m) && Key(dir, []) in m.tab && Spare(m, f)
    requires forall s :: s in m.leaves && s.dir == dir ==> !Saturated(m, s)
    ensures ReadyToClone(NewRoot(m, f, page), Key(dir, []), f)
    ensures KeysUnder(NewRoot(m, f, page).tab.Keys, Key(dir, [])) == KeysUnder(m.tab.Keys, Key(dir, []))
  {
    hide Forest, Counts, SamePaths, KernelShared, Owned;
    UnusedDirectory(m, f);
  }

  lemma NewRootCloned(a: Machine, dir: nat, child: nat, page: Page)
    requires Core(a) && Spare(a, child) && Key(child, []) !in a.tab
    ensures Cloned(a, NewRoot(a, child, page), {Key(dir, [])}, {}, dir, child)
  {
    hide Forest, Counts, SamePaths, KernelShared;
    var none: set<Key> := {};
    CloneNothing(a.leaves, dir, child);
    hide CloneLeaves;
    forall u ensures u in Copies({Key(dir, [])}, child) <==> u == Key(child, []) {
      CopyMember({Key(dir, [])}, dir, child, u);
    }
    assert PagesOf(a.leaves, none) == {};
  }

  lemma RootCloned(a: Machine, c: Machine, dir: nat, child: nat, page: Page)
    requires Good(a) && Key(dir, []) in a.tab && Spare(a, child)
    requires Cloned(NewRoot(a, child, page), c, KeysUnder(a.tab.Keys, Key(dir, [])),
      KeysUnder(a.leaves.Keys, Key(dir, [])), dir, child)
    ensures Forked(a, c, dir, child)
  {
    hide Forest, Counts, SamePaths, KernelShared, Owned, Cloned, Closed, KeysUnder, KeysOf, Clonable;
    var b, root := NewRoot(a, child, page), Key(dir, []);
    var none: set<Key> := {};
    RootAndBelow(a, dir);
    RootClonable(a, dir, child);
    NewRootCloned(a, dir, child, page);
    ClonedTwice(a, b, c, {root}, none, KeysUnder(a.tab.Keys, root), KeysUnder(a.leaves.Keys, root), dir, child);
    assert none + KeysUnder(a.leaves.Keys, root) == KeysUnder(a.leaves.Keys, root);
  }

  lemma RootClonable(a: Machine, dir: nat, child: nat)
    requires Good(a) && Key(dir, []) in a.tab && Spare(a, child)
    ensures Key(child, []) !in a.tab
    ensures var none: set<Key> := {};
      Clonable(a, {Key(dir, [])} + KeysUnder(a.tab.Keys, Key(dir, [])), none + KeysUnder(a.leaves.Keys, Key(dir, [])),
        dir, child)
  {
    UnusedDirectory(a, child);
    hide Core, Closed;
  }

  lemma ReadyForLeaves(m: Machine, k: Key, child: nat)
    requires Core(m) && ReadyToClone(m, k, child)
    ensures Clonable(m, {}, KeysUnder(m.leaves.Keys, k), k.dir, child)
    ensures Clonable(m, KeysUnder(m.tab.Keys, k), KeysUnder(m.leaves.Keys, k), k.dir, child)
    ensures forall n: nat :: Clonable(m, {}, KeysBelow(m.leaves.Keys, k, n), k.dir, child)
    ensures forall s :: s in m.leaves ==> |s.path| == 4 && InRange(s.path)
    ensures forall t :: t in m.tab ==> |t.path| <= 3 && InRange(t.path) && m.tab[t] < |m.mem|
  {
    hide Counts, SamePaths, KernelShared;
    forall s | s in m.leaves && Under(k, s) ensures Key(child, s.path) !in m.leaves {
      assert Under(Key(child, k.path), Key(child, s.path));
    }
  }

  lemma CopyKeepsClosed(m: Machine, s: Key, t: Key)
    requires Closed(m.tab, m.leaves) && s in m.leaves && s.path != [] && t.path != [] && Parent(s) in m.tab
    requires Parent(t) in m.tab
    requires CopyLeaf.requires(m, s, t)
    ensures Closed(CopyLeaf(m, s, t).tab, CopyLeaf(m, s, t).leaves)
  {
  }

  lemma OneLeafCloned(b: Machine, c: Machine, s: Key, child: nat)
    requires Core(b) && s in b.leaves && s.path != [] && child != s.dir && Key(child, s.path) !in b.leaves
    requires Parent(s) in b.tab && Parent(Key(child, s.path)) in b.tab
    requires CopyLeaf.requires(b, s, Key(child, s.path)) && c == CopyLeaf(b, s, Key(child, s.path))
    ensures Cloned(b, c, {}, {s}, s.dir, child)
  {
    hide Forest, Counts, SamePaths, KernelShared, Cloned;
    assert b.tab[Parent(s)] in b.tab.Values && b.tab[Parent(Key(child, s.path))] in b.tab.Values;
    ClonedOne(b, c, s, child);
  }

  lemma UnderTransitive(k: Key, i: nat, u: Key)
    ensures Under(Child(k, i), u) || u == Child(k, i) ==> Under(k, u)
  {
    var c := Child(k, i);
    if Under(c, u) {
      assert u.path[..|k.path|] == u.path[..|c.path|][..|k.path|];
    }
  }

  // Entry i of the copy at c has not been touched while the entries before it were copied.
  lemma UntouchedEntry(keys: set<Key>, k: Key, i: nat, child: nat)
    requires child != k.dir && forall u :: u in keys ==> !Under(Key(child, k.path), u)
    ensures var c := Child(Key(child, k.path), i);
      forall u :: u in keys + Copies(KeysBelow(keys, k, i), child) ==> u != c && !Under(c, u)
  {
    var top, c := Key(child, k.path), Child(Key(child, k.path), i);
    forall u | u in keys + Copies(KeysBelow(keys, k, i), child) ensures u != c && !Under(c, u) {
      BelowStep(top, i, u);
      CopyMember(KeysBelow(keys, k, i), k.dir, child, u);
      UnderTransitive(top, i, u);
      if u !in keys {
        assert Below(k, i, Key(k.dir, u.path));
      }
    }
  }

  lemma ClonedKeys(a: Machine, b: Machine, t: set<Key>, r: set<Key>, dir: nat, child: nat)
    requires Cloned(a, b, t, r, dir, child)
    ensures b.tab.Keys == a.tab.Keys + Copies(t, child)
    ensures b.leaves.Keys == a.leaves.Keys + Copies(r, child)
    ensures forall k :: k in a.tab ==> k in b.tab && b.tab[k] == a.tab[k]
  {
  }

  // Entry i: the same children as at the start, and nothing in the way of their copies.
  lemma RoomForSubtree(a: Machine, b: Machine, k: Key, i: nat, child: nat)
    requires child != k.dir && NothingUnder(a, Key(child, k.path))
    requires Cloned(a, b, KeysBelow(a.tab.Keys, k, i), KeysBelow(a.leaves.Keys, k, i), k.dir, child)
    ensures Child(k, i) in b.tab <==> Child(k, i) in a.tab
    ensures Child(Key(child, k.path), i) !in b.tab && NothingUnder(b, Child(Key(child, k.path), i))
    ensures forall j: nat ::
      Child(Child(Key(child, k.path), i), j) !in b.tab && Child(Child(Key(child, k.path), i), j) !in b.leaves
  {
    var c := Child(Key(child, k.path), i);
    ClonedKeys(a, b, KeysBelow(a.tab.Keys, k, i), KeysBelow(a.leaves.Keys, k, i), k.dir, child);
    hide Cloned;
    UntouchedEntry(a.tab.Keys, k, i, child);
    UntouchedEntry(a.leaves.Keys, k, i, child);
    CopyMember(KeysBelow(a.tab.Keys, k, i), k.dir, child, Child(k, i));
    forall j: nat ensures Child(c, j) !in b.tab && Child(c, j) !in b.leaves {
      UnderChild(c, j);
    }
  }

  // Frames enough for the rest are frames enough for entry i.
  lemma FramesForSubtree(keys: set<Key>, k: Key, i: nat)
    requires Child(k, i) in keys
    ensures |KeysBelow(keys, k, i + 1)| ==
      |KeysBelow(keys, k, i)| + 1 + |KeysUnder(keys, Child(k, i))| <= |KeysUnder(keys, k)|
  {
    KeysBelowStep(keys, k, i);
    SubsetSize(KeysBelow(keys, k, i + 1), KeysUnder(keys, k));
  }

  lemma {:induction false} SubsetSize<T>(a: set<T>, b: set<T>)
    requires a <= b
    ensures |a| <= |b|
  {
    assert |b| == |a| + |b - a| by { assert b == a + (b - a); }
  }

  lemma LeafInMemory(leaves: Leaves, refs: seq<nat>, s: Key)
    requires Counts(leaves, refs) && s in leaves && leaves[s].user
    ensures leaves[s].page < |refs|
  {
    assert LeafCounted(leaves, refs, s);
  }

  lemma SubtreeHasRoom(a: Machine, b: Machine, k: Key, i: nat, child: nat)
    requires Core(a) && ReadyToClone(a, k, child)
    requires Cloned(a, b, KeysBelow(a.tab.Keys, k, i), KeysBelow(a.leaves.Keys, k, i), k.dir, child)
    ensures forall u :: u in b.leaves && Under(Child(k, i), u) ==> !Saturated(b, u)
  {
    ReadyForLeaves(a, k, child);
    hide Forest, Counts, KernelShared, SamePaths, Owned;
    NotYetCloned(a, b, KeysBelow(a.tab.Keys, k, i), k, i, child);
    hide Cloned;
    forall u | u in b.leaves && Under(Child(k, i), u) ensures !Saturated(b, u) {
      UnderTransitive(k, i, u);
      BelowStep(k, i, u);
      if b.leaves[u].user {
        LeafInMemory(a.leaves, a.refs, u);
      }
    }
  }

  lemma SubtreeReady(a: Machine, b: Machine, b1: Machine, k: Key, i: nat, child: nat, f: nat)
    requires child != k.dir && NothingUnder(a, Key(child, k.path)) && Child(k, i) in a.tab
    requires Cloned(a, b, KeysBelow(a.tab.Keys, k, i), KeysBelow(a.leaves.Keys, k, i), k.dir, child)
    requires forall u :: u in b.leaves && Under(Child(k, i), u) ==> !Saturated(b, u)
    requires Key(child, k.path) in b.tab && b.tab[Key(child, k.path)] < |b.mem| && i < ENTRIES && f < |b.mem|
    requires b1 == NewTable(b, Key(child, k.path), i, f)
    ensures ReadyToClone(b1, Child(k, i), child)
    ensures KeysUnder(b1.tab.Keys, Child(k, i)) == KeysUnder(a.tab.Keys, Child(k, i))
    ensures KeysUnder(b1.leaves.Keys, Child(k, i)) == KeysUnder(a.leaves.Keys, Child(k, i))
  {
    var s, c := Child(k, i), Child(Key(child, k.path), i);
    var t0, r0 := KeysBelow(a.tab.Keys, k, i), KeysBelow(a.leaves.Keys, k, i);
    ClonedKeys(a, b, t0, r0, k.dir, child);
    hide Cloned;
    RoomForSubtree(a, b, k, i, child);
    UnderIgnoresCopies(a.tab.Keys, t0, child, s);
    UnderIgnoresCopies(a.leaves.Keys, r0, child, s);
    assert b1.tab.Keys == a.tab.Keys + Copies(t0, child) + {c};
    assert Key(child, s.path) == c;
  }

  // Leaf tables have no tables below them.
  lemma NoTablesUnder(m: Machine, s: Key)
    requires Forest(m.mem, m.tab, m.leaves) && |s.path| == 3
    ensures KeysUnder(m.tab.Keys, s) == {}
  {
  }

  lemma NewTableCloned(b: Machine, k: Key, i: nat, child: nat, f: nat)
    requires Core(b) && k.dir != child && Key(child, k.path) in b.tab && i < ENTRIES && f !in b.locked && f < |b.mem|
    requires Child(Key(child, k.path), i) !in b.tab && b.tab[Key(child, k.path)] < |b.mem|
    ensures Cloned(b, NewTable(b, Key(child, k.path), i, f), {Child(k, i)}, {}, k.dir, child)
  {
    hide Forest, Counts, KernelShared, SamePaths;
    var s, c := Child(k, i), Child(Key(child, k.path), i);
    var none: set<Key> := {};
    CloneNothing(b.leaves, k.dir, child);
    hide CloneLeaves;
    forall u ensures u in Copies({s}, child) <==> u == c {
      CopyMember({s}, k.dir, child, u);
    }
    assert b.tab[Key(child, k.path)] in b.tab.Values;
    assert PagesOf(b.leaves, none) == {};
  }

  lemma PartClonable(a: Machine, k: Key, n: nat, child: nat)
    requires Clonable(a, KeysUnder(a.tab.Keys, k), KeysUnder(a.leaves.Keys, k), k.dir, child)
    ensures Clonable(a, KeysBelow(a.tab.Keys, k, n), KeysBelow(a.leaves.Keys, k, n), k.dir, child)
  {
  }

  lemma SmallerClonable(a: Machine, t: set<Key>, r: set<Key>, t': set<Key>, r': set<Key>, dir: nat, child: nat)
    requires Clonable(a, t, r, dir, child) && t' <= t && r' <= r
    ensures Clonable(a, t', r', dir, child)
  {
  }

  lemma SubtreeCloned(a: Machine, b: Machine, b1: Machine, b2: Machine, k: Key, i: nat, child: nat)
    requires Clonable(a, KeysUnder(a.tab.Keys, k), KeysUnder(a.leaves.Keys, k), k.dir, child)
    requires Child(k, i) in a.tab && Child(k, i) !in a.leaves
    requires Cloned(a, b, KeysBelow(a.tab.Keys, k, i), KeysBelow(a.leaves.Keys, k, i), k.dir, child)
    requires Cloned(b, b1, {Child(k, i)}, {}, k.dir, child)
    requires Cloned(b1, b2, KeysUnder(a.tab.Keys, Child(k, i)), KeysUnder(a.leaves.Keys, Child(k, i)), k.dir, child)
    ensures Cloned(a, b2, KeysBelow(a.tab.Keys, k, i + 1), KeysBelow(a.leaves.Keys, k, i + 1), k.dir, child)
  {
    hide Cloned, Forkable;
    var s := Child(k, i);
    var t0, r0 := KeysBelow(a.tab.Keys, k, i), KeysBelow(a.leaves.Keys, k, i);
    var t1, r1 := KeysUnder(a.tab.Keys, s), KeysUnder(a.leaves.Keys, s);
    var none: set<Key> := {};
    KeysBelowStep(a.tab.Keys, k, i);
    KeysBelowStep(a.leaves.Keys, k, i);
    assert KeysBelow(a.tab.Keys, k, i + 1) == t0 + {s} + t1 && KeysBelow(a.leaves.Keys, k, i + 1) == r0 + r1;
    PartClonable(a, k, i + 1, child);
    assert r0 + none == r0;
    SmallerClonable(a, t0 + {s} + t1, r0 + r1, t0 + {s}, r0 + none, k.dir, child);
    ClonedTwice(a, b, b1, t0, r0, {s}, none, k.dir, child);
    ClonedTwice(a, b1, b2, t0 + {s}, r0, t1, r1, k.dir, child);
  }

  // Below a missing table there is nothing.
  lemma {:induction false} MissingMeansNothing(m: Machine, s: Key, u: Key)
    requires Closed(m.tab, m.leaves) && s !in m.tab && (u in m.tab || u in m.leaves)
    ensures !Under(s, u)
    decreases |u.path|
  {
    if Under(s, u) {
      var p := Parent(u);
      if |u.path| > |s.path| + 1 {
        assert u.path[..|s.path|] == p.path[..|s.path|];
        MissingMeansNothing(m, s, p);
      }
    }
  }

  lemma NothingToClone(a: Machine, b: Machine, k: Key, i: nat, child: nat)
    requires Closed(a.tab, a.leaves) && Child(k, i) !in a.tab && Child(k, i) !in a.leaves
    requires Cloned(a, b, KeysBelow(a.tab.Keys, k, i), KeysBelow(a.leaves.Keys, k, i), k.dir, child)
    ensures Cloned(a, b, KeysBelow(a.tab.Keys, k, i + 1), KeysBelow(a.leaves.Keys, k, i + 1), k.dir, child)
    ensures KeysBelow(a.tab.Keys, k, i + 1) == KeysBelow(a.tab.Keys, k, i)
  {
    hide Closed, Cloned;
    var s := Child(k, i);
    forall u | u in a.tab || u in a.leaves ensures !Under(s, u) {
      MissingMeansNothing(a, s, u);
    }
    KeysBelowStep(a.tab.Keys, k, i);
    KeysBelowStep(a.leaves.Keys, k, i);
    assert KeysUnder(a.tab.Keys, s) == {} && KeysUnder(a.leaves.Keys, s) == {};
    assert KeysBelow(a.leaves.Keys, k, i + 1) == KeysBelow(a.leaves.Keys, k, i);
  }
}
