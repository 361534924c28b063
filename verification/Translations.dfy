/** The four-level walk as a flat map from page numbers to leaf words, step by step. */
module Translations {
  import opened PageTables
  import opened Wrappers
  import opened CopyOnWrite
  import opened Machines
  import opened Steps
  import opened Forks
  import opened Slots
  import opened Clones
  import opened Refinement

  // The present leaf word that a walk of memory from root finds for an address.
  function Translation(mem: seq<Page>, root: nat, address: nat): Option<Word> {
    var path := Indices(address);
    match Walk(mem, root, path[..3])
    case None => None
    case Some(t) => if t < |mem| && mem[t][path[3]].present then Some(mem[t][path[3]]) else None
  }

  // In the lower half of a live directory, walking memory is looking up a flat map.
  lemma TranslationIsFlat(m: Machine, root: nat, address: nat)
    requires Good(m) && Key(root, []) in m.tab && Indices(address)[0] < LOW_ENTRIES
    ensures var s := Key(root, Indices(address));
      Translation(m.mem, root, address) == if s in m.leaves then Some(m.leaves[s]) else None
  {
    hide Counts, SamePaths, KernelShared, Owned;
    var path := Indices(address);
    WalkInMemory(m, root, path, 3);
    ChildOfParent(Key(root, path));
    assert Parent(Key(root, path)) == Key(root, path[..3]);
    if Key(root, path[..3]) in m.tab {
      assert Links(m.mem, m.tab, m.leaves, Key(root, path[..3]));
    }
  }

  // Pages of the same number translate alike; making room on a path changes no translation.
  lemma MakingTranslatesAlike(a: Machine, b: Machine, root: nat, address: nat)
    requires Good(a) && Good(b) && Kept(a, b) && Key(root, []) in a.tab && Key(root, []) in b.tab
    requires Indices(address)[0] < LOW_ENTRIES
    ensures Translation(b.mem, root, address) == Translation(a.mem, root, address)
  {
    hide Good, Kept;
    TranslationIsFlat(a, root, address);
    TranslationIsFlat(b, root, address);
    KeptLeaves(a, b);
  }

  lemma KeptLeaves(a: Machine, b: Machine)
    requires Kept(a, b)
    ensures b.leaves == a.leaves && b.kernel == a.kernel
  {
  }

  // After mmu_clone, every page number of the lower half translates in the child and in the
  // source to what it was in the source, writable user pages turned into copy-on-write ones;
  // nobody else's translations change.
  lemma CloneTranslates(a: Machine, b: Machine, dir: nat, child: nat, address: nat, other: nat)
    requires Good(a) && Next(a, Op.Clone(dir, child), b) && Indices(address)[0] < LOW_ENTRIES
    ensures var t := Translation(a.mem, dir, address);
      var now := if t.Some? then Some(Share(t.value)) else None;
      Translation(b.mem, child, address) == now && Translation(b.mem, dir, address) == now
    ensures Translation(a.mem, dir, address).Some? && !Translation(a.mem, dir, address).value.user ==>
      Translation(b.mem, child, address) == Translation(a.mem, dir, address)
    ensures other != dir && Key(other, []) in a.tab ==>
      Translation(b.mem, other, address) == Translation(a.mem, other, address)
  {
    hide Good, Translation, Forked;
    UnusedDirectory(a, child) by { GoodCore(a); }
    ForkedRoots(a, b, dir, child, dir);
    TranslationIsFlat(a, dir, address);
    TranslationIsFlat(b, dir, address);
    TranslationIsFlat(b, child, address);
    ForkedLeaf(a, b, dir, child, Indices(address));
    if other != dir && Key(other, []) in a.tab {
      ForkedRoots(a, b, dir, child, other);
      TranslationIsFlat(a, other, address);
      TranslationIsFlat(b, other, address);
      ForkedElsewhere(a, b, dir, child, Key(other, Indices(address)));
    }
  }

  lemma GoodCore(m: Machine)
    requires Good(m)
    ensures Core(m)
  {
  }

  lemma ForkedRoots(a: Machine, b: Machine, dir: nat, child: nat, other: nat)
    requires Forked(a, b, dir, child) && Key(dir, []) in a.tab && Key(other, []) in a.tab
    ensures Key(dir, []) in b.tab && Key(child, []) in b.tab && Key(other, []) in b.tab
  {
    CopyMember(KeysOf(a.tab.Keys, dir), dir, child, Key(child, []));
  }

  lemma ForkedLeaf(a: Machine, b: Machine, dir: nat, child: nat, path: seq<nat>)
    requires Forked(a, b, dir, child) && child != dir && Key(child, path) !in a.leaves
    ensures var s, c := Key(dir, path), Key(child, path);
      (c in b.leaves <==> s in a.leaves) && (s in b.leaves <==> s in a.leaves)
      && (s in a.leaves ==> b.leaves[c] == b.leaves[s] == Share(a.leaves[s]))
  {
    CopyMember(KeysOf(a.leaves.Keys, dir), dir, child, Key(child, path));
    CopyMember(KeysOf(a.leaves.Keys, dir), dir, child, Key(dir, path));
  }

  lemma ForkedElsewhere(a: Machine, b: Machine, dir: nat, child: nat, s: Key)
    requires Forked(a, b, dir, child) && s.dir != dir && s.dir != child
    ensures (s in b.leaves <==> s in a.leaves) && (s in a.leaves ==> b.leaves[s] == a.leaves[s])
  {
    CopyMember(KeysOf(a.leaves.Keys, dir), dir, child, s);
  }

  // Table for table, the child's directory is the source's, each in a frame that was free.
  ghost predicate OwnTables(a: Machine, b: Machine, dir: nat, child: nat) {
    && (forall k :: k in b.tab && k.dir == child ==>
        b.tab[k] !in a.locked && b.tab[k] in b.locked && Key(dir, k.path) in a.tab)
    && (forall k :: k in a.tab && k.dir == dir ==> Key(child, k.path) in b.tab)
    && Injective(b.tab)
  }

  // The upper half of the child's root is the source's.
  ghost predicate SharedHalf(a: Machine, b: Machine, dir: nat, child: nat) {
    child < |b.mem| && dir < |a.mem| && b.mem[child][LOW_ENTRIES..] == a.mem[dir][LOW_ENTRIES..]
  }

  lemma CloneIsFresh(a: Machine, b: Machine, dir: nat, child: nat)
    requires Good(a) && Next(a, Op.Clone(dir, child), b)
    ensures OwnTables(a, b, dir, child) && SharedHalf(a, b, dir, child)
  {
    hide Core, Closed, Forked, OwnTables, SharedHalf;
    UnusedDirectory(a, child);
    ForkedTables(a, b, dir, child);
    ForkedHalf(a, b, dir, child);
  }

  lemma ForkedTables(a: Machine, b: Machine, dir: nat, child: nat)
    requires Core(b) && Forked(a, b, dir, child) && forall u :: u in a.tab ==> u.dir != child
    ensures OwnTables(a, b, dir, child)
  {
    hide Counts, SamePaths, KernelShared, CloneLeaves;
    ForestFacts(b.mem, b.tab, b.leaves);
    hide Forest;
    forall k: Key ensures k in Copies(KeysOf(a.tab.Keys, dir), child) <==> k.dir == child && Key(dir, k.path) in a.tab {
      CopyMember(KeysOf(a.tab.Keys, dir), dir, child, k);
    }
    forall k | k in b.tab && k.dir == child ensures b.tab[k] in b.locked {
      assert b.tab[k] in b.tab.Values;
    }
  }

  lemma ForkedHalf(a: Machine, b: Machine, dir: nat, child: nat)
    requires Good(a) && Good(b) && Forked(a, b, dir, child) && Key(dir, []) in a.tab
    ensures SharedHalf(a, b, dir, child)
  {
    hide Counts, SamePaths, CloneLeaves, Owned;
    ForestFacts(a.mem, a.tab, a.leaves);
    ForestFacts(b.mem, b.tab, b.leaves);
    hide Forest;
    CopyMember(KeysOf(a.tab.Keys, dir), dir, child, Key(child, []));
    RootFrame(a, dir);
    RootFrame(b, child);
  }

  lemma RootFrame(m: Machine, dir: nat)
    requires Good(m) && Key(dir, []) in m.tab
    ensures m.tab[Key(dir, [])] == dir < |m.mem|
  {
    hide Counts, SamePaths, KernelShared, Owned;
  }
}
