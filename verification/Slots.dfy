/** Looking slots up, and making the tables on the way to them. */
module Slots {
  import opened PageTables
  import opened Wrappers
  import opened CopyOnWrite
  import opened Machines
  import opened Steps
  import opened Forks

  lemma RootInMemory(m: Machine, root: nat)
    requires Good(m) && Key(root, []) in m.tab
    ensures m.tab[Key(root, [])] == root && 0 < root < |m.mem|
  {
  }

  // A walk of three levels, level by level, never leaves memory.
  ghost predicate Stepwise(mem: seq<Page>, root: nat, path: seq<nat>)
    requires |path| == 4
  {
    && root < |mem|
    && match Follow(mem, root, path[0], 0) {
         case None => Walk(mem, root, path[..3]).None?
         case Some(t) =>
           t < |mem| &&
           match Follow(mem, t, path[1], 1) {
             case None => Walk(mem, root, path[..3]).None?
             case Some(u) =>
               u < |mem| &&
               match Follow(mem, u, path[2], 2) {
                 case None => Walk(mem, root, path[..3]).None?
                 case Some(v) => v < |mem| && Walk(mem, root, path[..3]) == Some(v)
               }
           }
       }
  }

  lemma WalkSteps(m: Machine, root: nat, path: seq<nat>)
    requires Good(m) && Key(root, []) in m.tab && |path| == 4 && forall i :: 0 <= i < 4 ==> path[i] < ENTRIES
    ensures Stepwise(m.mem, root, path)
  {
    hide Core, Closed;
    RootInMemory(m, root);
    assert path[..0] == [];
    WalkStep(m.mem, root, path, 0);
    WalkStep(m.mem, root, path, 1);
    WalkStep(m.mem, root, path, 2);
    WalkInMemory(m, root, path, 1);
    WalkInMemory(m, root, path, 2);
    WalkInMemory(m, root, path, 3);
  }

  ghost function SlotAt(mem: seq<Page>, root: nat, path: seq<nat>): Option<(nat, nat)>
    requires |path| == 4
  {
    match Walk(mem, root, path[..3])
    case None => None
    case Some(t) => Some((t, path[3]))
  }

  // Where there is a leaf, the walk finds a slot.
  lemma SlotExists(m: Machine, root: nat, path: seq<nat>)
    requires Good(m) && Key(root, []) in m.tab && |path| == 4 && (forall i :: 0 <= i < 4 ==> path[i] < ENTRIES)
    requires Key(root, path) in m.leaves
    ensures SlotAt(m.mem, root, path).Some?
    ensures SlotOf(m, root, path, SlotAt(m.mem, root, path).value.0)
  {
    if Walk(m.mem, root, path[..3]).None? {
      NoSlot(m, root, path);
    } else {
      SlotWord(m, root, path);
    }
  }

  lemma PathKeys(dir: nat, path: seq<nat>)
    requires |path| == 4
    ensures Key(dir, path[..1]) == Child(Key(dir, []), path[0])
    ensures Key(dir, path[..2]) == Child(Key(dir, path[..1]), path[1])
    ensures Key(dir, path[..3]) == Child(Key(dir, path[..2]), path[2])
    ensures Key(dir, path) == Child(Key(dir, path[..3]), path[3])
  {
    assert path[..2] == path[..1] + [path[1]] && path[..3] == path[..2] + [path[2]];
    assert path == path[..3] + [path[3]];
  }

  // How many tables on the way to a slot do not exist yet.
  ghost function Missing(tab: map<Key, nat>, dir: nat, path: seq<nat>): nat
    requires |path| == 4
  {
    (if Key(dir, path[..1]) in tab then 0 else 1) + (if Key(dir, path[..2]) in tab then 0 else 1)
    + (if Key(dir, path[..3]) in tab then 0 else 1)
  }

  ghost predicate MadeTables(tab: map<Key, nat>, tab': map<Key, nat>, made: set<Key>) {
    && tab'.Keys == tab.Keys + made
    && forall k :: k in tab ==> tab'[k] == tab[k]
  }

  lemma MissingSteps(t0: map<Key, nat>, t1: map<Key, nat>, t2: map<Key, nat>, dir: nat, path: seq<nat>)
    requires |path| == 4
    requires MadeTables(t0, t1, {Key(dir, path[..1])}) && MadeTables(t1, t2, {Key(dir, path[..2])})
    ensures Key(dir, path[..2]) in t1 <==> Key(dir, path[..2]) in t0
    ensures Key(dir, path[..3]) in t2 <==> Key(dir, path[..3]) in t0
  {
    assert |path[..1]| == 1 && |path[..2]| == 2 && |path[..3]| == 3;
  }

  // New tables lie on one path only.
  ghost predicate GrewAlong(tab: map<Key, nat>, tab': map<Key, nat>, dir: nat, path: seq<nat>)
    requires |path| == 4
  {
    && (forall k :: k in tab ==> k in tab' && tab'[k] == tab[k])
    && (forall k :: k in tab' && k !in tab ==> k.dir == dir && 1 <= |k.path| <= 3 && k.path == path[..|k.path|])
  }

  lemma GrewTo(t0: map<Key, nat>, t1: map<Key, nat>, t2: map<Key, nat>, t3: map<Key, nat>, dir: nat, path: seq<nat>)
    requires |path| == 4
    requires MadeTables(t0, t1, {Key(dir, path[..1])}) && MadeTables(t1, t2, {Key(dir, path[..2])})
    requires MadeTables(t2, t3, {Key(dir, path[..3])})
    ensures GrewAlong(t0, t3, dir, path)
  {
  }

  // Only table frames and frames that were free may have changed.
  ghost predicate Kept(m: Machine, n: Machine) {
    && |m.mem| == |n.mem|
    && m.locked <= n.locked
    && m.leaves == n.leaves && m.refs == n.refs && m.reserved == n.reserved && m.kernel == n.kernel
    && (forall f :: f in m.locked && f < |m.mem| && f !in m.tab.Values ==> n.mem[f] == m.mem[f])
    && (forall f :: f in n.tab.Values ==> f in m.tab.Values || f !in m.locked)
  }

  lemma NewTableKept(m: Machine, k: Key, i: nat, f: nat)
    requires k in m.tab && m.tab[k] < |m.mem| && f < |m.mem| && i < ENTRIES && f !in m.locked && Child(k, i) !in m.tab
    ensures Kept(m, NewTable(m, k, i, f))
  {
    assert m.tab[k] in m.tab.Values;
    TablesAdd(m.tab, Child(k, i), f);
  }

  lemma KeptSame(m: Machine)
    ensures Kept(m, m)
  {
  }

  lemma KeptTwice(a: Machine, b: Machine, c: Machine)
    requires Kept(a, b) && Kept(b, c)
    ensures Kept(a, c)
  {
  }

  lemma ChildLink(m: Machine, k: Key, i: nat)
    requires Core(m) && k in m.tab && |k.path| < 3 && i < Limit(|k.path|)
    ensures m.tab[k] < |m.mem| && (m.mem[m.tab[k]][i].present <==> Child(k, i) in m.tab)
    ensures Child(k, i) in m.tab ==> m.mem[m.tab[k]][i].page == m.tab[Child(k, i)] < |m.mem| && !m.mem[m.tab[k]][i].size
  {
    assert Links(m.mem, m.tab, m.leaves, k);
  }

  lemma LeafLink(m: Machine, k: Key, i: nat)
    requires Core(m) && k in m.tab && |k.path| == 3 && i < ENTRIES
    ensures m.tab[k] < |m.mem| && (m.mem[m.tab[k]][i].present <==> Child(k, i) in m.leaves)
    ensures Child(k, i) in m.leaves ==> m.mem[m.tab[k]][i] == m.leaves[Child(k, i)]
  {
    assert Links(m.mem, m.tab, m.leaves, k);
  }

  lemma TableLink(page: Page, tab: map<Key, nat>, k: Key, i: nat)
    requires TableLinks(page, tab, k, i) && i < Limit(|k.path|)
    ensures page[i].present <==> Child(k, i) in tab
    ensures page[i].present ==> page[i].page == tab[Child(k, i)]
  {
  }

  lemma NoLeafThere(m: Machine, k: Key, i: nat)
    requires Forest(m.mem, m.tab, m.leaves) && |k.path| < 3
    ensures Child(k, i) !in m.leaves
  {
  }

  lemma LeafRanges(m: Machine)
    requires Forest(m.mem, m.tab, m.leaves)
    ensures InRangeLeaves(m) && forall k :: k in m.tab ==> InRange(k.path)
  {
  }

  lemma NothingBelowMissing(m: Machine, c: Key)
    requires Closed(m.tab, m.leaves) && c !in m.tab
    ensures forall j: nat :: Child(c, j) !in m.tab && Child(c, j) !in m.leaves
  {
  }

  lemma NewTableKeepsClosed(m: Machine, k: Key, i: nat, f: nat)
    requires Closed(m.tab, m.leaves) && k in m.tab
    ensures Closed(m.tab[Child(k, i) := f], m.leaves)
  {
  }

  lemma StoreSame(mem: seq<Page>, t: nat, i: nat)
    requires t < |mem| && i < ENTRIES
    ensures StoreEntry(mem, t, i, mem[t][i]) == mem
  {
    assert mem[t][i := mem[t][i]] == mem[t];
  }

  // Every directory that has tables or leaves has a root.
  lemma {:induction false} DirectoryHasRoot(m: Machine, u: Key)
    requires Closed(m.tab, m.leaves) && (u in m.tab || u in m.leaves)
    ensures Key(u.dir, []) in m.tab
    decreases |u.path|
  {
    if u.path != [] {
      assert Parent(u) in m.tab;
      DirectoryHasRoot(m, Parent(u));
    } else {
      assert u == Key(u.dir, []);
    }
  }

  lemma UnusedDirectory(m: Machine, f: nat)
    requires Good(m) && f !in m.locked
    ensures forall u :: u in m.tab || u in m.leaves ==> u.dir != f
  {
    hide Forest, Counts, SamePaths, KernelShared;
    forall u | u in m.tab || u in m.leaves ensures u.dir != f {
      DirectoryHasRoot(m, u);
      assert m.tab[Key(u.dir, [])] == u.dir;
      assert m.tab[Key(u.dir, [])] in m.tab.Values;
    }
  }
}
