/** What holds while mmu_free takes a directory apart. */
module Frees {
  import opened PageTables
  import opened CopyOnWrite
  import opened Machines
  import opened Steps
  import opened Forks
  import opened Slots
  import opened Clones

  // No directory lives in frame 0.
  lemma NoNullDirectory(m: Machine)
    requires Good(m)
    ensures KeysOf(m.tab.Keys, 0) == {} && KeysOf(m.leaves.Keys, 0) == {}
  {
    hide Forest, Counts, SamePaths, KernelShared, Owned;
    ForestFacts(m.mem, m.tab, m.leaves);
    forall u | u in m.tab || u in m.leaves ensures u.dir != 0 {
      DirectoryHasRoot(m, u);
    }
  }

  // The root, and then all that is below it, is the whole directory; the others stay closed.
  lemma WholeDirectory(m: Machine, dir: nat)
    requires Closed(m.tab, m.leaves) && Key(dir, []) in m.tab
    ensures ClosedBelow(m.tab - {Key(dir, [])}, m.leaves, Key(dir, []))
    ensures m.tab - {Key(dir, [])} - KeysUnder((m.tab - {Key(dir, [])}).Keys, Key(dir, [])) ==
      m.tab - KeysOf(m.tab.Keys, dir)
    ensures m.leaves - KeysUnder(m.leaves.Keys, Key(dir, [])) == m.leaves - KeysOf(m.leaves.Keys, dir)
    ensures Closed(m.tab - KeysOf(m.tab.Keys, dir), m.leaves - KeysOf(m.leaves.Keys, dir))
  {
    hide Under;
    RootAndBelow(m, dir);
    RestClosed(m, dir);
    hide Closed, ClosedBelow, KeysUnder, KeysOf;
    WithoutRoot(m.tab, Key(dir, []));
  }

  lemma WithoutRoot(tab: map<Key, nat>, root: Key)
    requires root !in KeysUnder(tab.Keys, root)
    ensures KeysUnder((tab - {root}).Keys, root) == KeysUnder(tab.Keys, root)
  {
  }

  lemma RestClosed(m: Machine, dir: nat)
    requires Closed(m.tab, m.leaves) && Key(dir, []) in m.tab
    ensures ClosedBelow(m.tab - {Key(dir, [])}, m.leaves, Key(dir, []))
    ensures Key(dir, []) !in KeysUnder(m.tab.Keys, Key(dir, []))
    ensures Closed(m.tab - KeysOf(m.tab.Keys, dir), m.leaves - KeysOf(m.leaves.Keys, dir))
  {
  }

  // Whatever is below table k hangs on a table of the forest, or on k itself.
  ghost predicate ClosedBelow(tab: map<Key, nat>, leaves: Leaves, k: Key) {
    forall u {:trigger Under(k, u)} :: Under(k, u) && (u in tab || u in leaves) ==> Parent(u) in tab || Parent(u) == k
  }

  // A table taken out of the forest still leads where it did.
  lemma DetachedLinks(m: Machine, s: Key)
    requires Core(m) && s in m.tab
    ensures m.tab[s] < |m.mem|
    ensures if |s.path| < 3 then TableLinks(m.mem[m.tab[s]], m.tab - {s}, s, 0)
      else LeafLinks(m.mem[m.tab[s]], m.leaves, s, 0)
  {
    hide Counts, SamePaths, KernelShared, Owned;
    assert Links(m.mem, m.tab, m.leaves, s);
    assert forall i: nat :: Child(s, i) != s;
  }

  lemma DetachedClosed(tab: map<Key, nat>, leaves: Leaves, k: Key, i: nat)
    requires ClosedBelow(tab, leaves, k)
    ensures ClosedBelow(tab - {Child(k, i)}, leaves, Child(k, i))
  {
    var s := Child(k, i);
    forall u | Under(s, u) && (u in tab || u in leaves) ensures Parent(u) in tab {
      UnderTransitive(k, i, u);
    }
  }

  // Below a missing child of k there is nothing.
  lemma {:induction false} NothingBelowEntry(tab: map<Key, nat>, leaves: Leaves, k: Key, i: nat, u: Key)
    requires ClosedBelow(tab, leaves, k) && Child(k, i) !in tab && (u in tab || u in leaves)
    ensures !Under(Child(k, i), u)
    decreases |u.path|
  {
    var s := Child(k, i);
    if Under(s, u) {
      UnderTransitive(k, i, u);
      var p := Parent(u);
      if |u.path| > |s.path| + 1 {
        assert u.path[..|s.path|] == p.path[..|s.path|];
        NothingBelowEntry(tab, leaves, k, i, p);
      }
    }
  }

  lemma EntryMissing(tab: map<Key, nat>, leaves: Leaves, k: Key, i: nat)
    requires ClosedBelow(tab, leaves, k) && Child(k, i) !in tab
    ensures KeysUnder(tab.Keys, Child(k, i)) == {} && KeysUnder(leaves.Keys, Child(k, i)) == {}
  {
    forall u | u in tab || u in leaves ensures !Under(Child(k, i), u) {
      NothingBelowEntry(tab, leaves, k, i, u);
    }
  }

  lemma ParentUnder(s: Key, u: Key)
    requires u.path != [] && (Parent(u) == s || Under(s, Parent(u)))
    ensures Under(s, u)
  {
    assert u.path[..|s.path|] == Parent(u).path[..|s.path|];
  }

  // Without the child at entry i and all below it, the rest still hangs together.
  lemma EntryGoneClosed(tab: map<Key, nat>, leaves: Leaves, k: Key, i: nat)
    requires ClosedBelow(tab, leaves, k)
    ensures ClosedBelow(tab - ({Child(k, i)} + KeysUnder(tab.Keys, Child(k, i))),
                        leaves - ({Child(k, i)} + KeysUnder(leaves.Keys, Child(k, i))), k)
  {
    var s := Child(k, i);
    var tab' := tab - ({s} + KeysUnder(tab.Keys, s));
    var leaves' := leaves - ({s} + KeysUnder(leaves.Keys, s));
    forall u | Under(k, u) && (u in tab' || u in leaves') ensures Parent(u) in tab' || Parent(u) == k {
      if Parent(u) == s || Under(s, Parent(u)) {
        ParentUnder(s, u);
      }
    }
  }

  lemma EntryGoneLinks(page: Page, tab: map<Key, nat>, k: Key, i: nat)
    requires TableLinks(page, tab, k, i)
    ensures TableLinks(page, tab - ({Child(k, i)} + KeysUnder(tab.Keys, Child(k, i))), k, i + 1)
  {
    var gone := {Child(k, i)} + KeysUnder(tab.Keys, Child(k, i));
    forall j: nat | i + 1 <= j ensures Child(k, j) !in gone {
      assert Last(Child(k, j)) != Last(Child(k, i));
    }
    hide KeysUnder, Under, Child;
  }

  lemma SubtreeDropped<V>(m0: map<Key, V>, m1: map<Key, V>, k: Key, i: nat)
    requires m1 == m0 - KeysBelow(m0.Keys, k, i)
    ensures m1 - ({Child(k, i)} + KeysUnder(m1.Keys, Child(k, i))) == m0 - KeysBelow(m0.Keys, k, i + 1)
  {
    KeysBelowStep(m0.Keys, k, i);
    assert KeysUnder(m1.Keys, Child(k, i)) == KeysUnder(m0.Keys, Child(k, i));
  }

  // What the loop over a leaf table starts from.
  lemma AllBelow(m: Machine, k: Key)
    requires Forest(m.mem, m.tab, m.leaves) && |k.path| == 3
    ensures FourDeep(m.leaves)
    ensures KeysBelow(m.leaves.Keys, k, 0) == {} && KeysBelow(m.leaves.Keys, k, ENTRIES) == KeysUnder(m.leaves.Keys, k)
  {
    ForestFacts(m.mem, m.tab, m.leaves);
    LeafRanges(m);
    KeysBelowAll(m.leaves.Keys, k);
  }

  ghost predicate FourDeep(leaves: Leaves) {
    forall s :: s in leaves ==> |s.path| == 4
  }

  lemma LeafDropped(l0: Leaves, l1: Leaves, k: Key, i: nat)
    requires |k.path| == 3 && l1 == l0 - KeysBelow(l0.Keys, k, i) && FourDeep(l0)
    ensures Child(k, i) in l1 <==> Child(k, i) in l0
    ensures l1 - {Child(k, i)} == l0 - KeysBelow(l0.Keys, k, i + 1)
    ensures Child(k, i) !in l1 ==> l1 == l0 - KeysBelow(l0.Keys, k, i + 1)
  {
    KeysBelowStep(l0.Keys, k, i);
    NoKeysUnderLeaf(l0, Child(k, i));
  }

  lemma LeafLinksDropped(page: Page, l0: Leaves, l1: Leaves, k: Key, i: nat)
    requires LeafLinks(page, l0, k, i) && i < ENTRIES && (l1 == l0 || l1 == l0 - {Child(k, i)})
    ensures LeafLinks(page, l1, k, i + 1)
  {
    forall j: nat | i + 1 <= j < ENTRIES ensures Child(k, j) in l1 <==> Child(k, j) in l0 {
      assert Last(Child(k, j)) != Last(Child(k, i));
    }
  }

  lemma LeafEntry(page: Page, leaves: Leaves, k: Key, i: nat)
    requires LeafLinks(page, leaves, k, i) && i < ENTRIES
    ensures page[i].present <==> Child(k, i) in leaves
    ensures page[i].present ==> page[i] == leaves[Child(k, i)]
    ensures Child(k, i).path != [] && Parent(Child(k, i)) == k
  {
    ChildOfParent(Child(k, i));
  }
}
