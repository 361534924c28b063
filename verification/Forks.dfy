/** What a fork does to the leaves of a whole subtree at once. */
module Forks {
  import opened PageTables
  import opened CopyOnWrite
  import opened Machines

  ghost function Copies(r: set<Key>, child: nat): set<Key> {
    set s | s in r :: Key(child, s.path)
  }

  // The leaves r of directory dir can be given to child.
  ghost predicate Forkable(leaves: Leaves, r: set<Key>, dir: nat, child: nat) {
    && child != dir
    && r <= leaves.Keys
    && forall s :: s in r ==> s.dir == dir && Key(child, s.path) !in leaves
  }

  // Both ends of every copied leaf are shared; nothing else changes.
  ghost function CloneLeaves(leaves: Leaves, r: set<Key>, dir: nat, child: nat): (l: Leaves)
  {
    map s | s in leaves.Keys + Copies(r, child) ::
      if s in r && s in leaves then Share(leaves[s])
      else if s in leaves then leaves[s]
      else if Key(dir, s.path) in leaves then Share(leaves[Key(dir, s.path)])
      else ZERO
  }

  lemma CopyMember(r: set<Key>, dir: nat, child: nat, s: Key)
    requires forall u :: u in r ==> u.dir == dir
    ensures s in Copies(r, child) <==> s.dir == child && Key(dir, s.path) in r
  {
    if s.dir == child && Key(dir, s.path) in r {
      var u := Key(dir, s.path);
      assert Key(child, u.path) == s;
    }
  }

  lemma CloneNothing(leaves: Leaves, dir: nat, child: nat)
    ensures CloneLeaves(leaves, {}, dir, child) == leaves
  {
  }

  lemma CloneOne(leaves: Leaves, s: Key, child: nat)
    requires Forkable(leaves, {s}, s.dir, child)
    ensures CloneLeaves(leaves, {s}, s.dir, child) ==
            leaves[s := Share(leaves[s])][Key(child, s.path) := Share(leaves[s])]
  {
    forall u ensures u in Copies({s}, child) <==> u == Key(child, s.path) {
      CopyMember({s}, s.dir, child, u);
    }
  }

  lemma CloneTwice(leaves: Leaves, r1: set<Key>, r2: set<Key>, dir: nat, child: nat)
    requires Forkable(leaves, r1 + r2, dir, child) && r1 !! r2
    ensures Forkable(CloneLeaves(leaves, r1, dir, child), r2, dir, child)
    ensures CloneLeaves(CloneLeaves(leaves, r1, dir, child), r2, dir, child) == CloneLeaves(leaves, r1 + r2, dir, child)
  {
    var l1 := CloneLeaves(leaves, r1, dir, child);
    forall u ensures u in Copies(r1, child) <==> u.dir == child && Key(dir, u.path) in r1 {
      CopyMember(r1, dir, child, u);
    }
    forall u ensures u in Copies(r2, child) <==> u.dir == child && Key(dir, u.path) in r2 {
      CopyMember(r2, dir, child, u);
    }
    forall u ensures u in Copies(r1 + r2, child) <==> u.dir == child && Key(dir, u.path) in r1 + r2 {
      CopyMember(r1 + r2, dir, child, u);
    }
    var l2, l12 := CloneLeaves(l1, r2, dir, child), CloneLeaves(leaves, r1 + r2, dir, child);
    assert l2.Keys == l12.Keys;
    forall u | u in l2 ensures l2[u] == l12[u] {
      if u in leaves {
      } else if Key(dir, u.path) in r1 {
        assert u in l1 && l1[u] == Share(leaves[Key(dir, u.path)]);
      } else {
        assert l1[Key(dir, u.path)] == leaves[Key(dir, u.path)];
      }
    }
  }

  // ---- The keys of a subtree ----

  ghost function KeysBelow(keys: set<Key>, k: Key, n: nat): set<Key> {
    set s | s in keys && Below(k, n, s)
  }

  ghost function KeysUnder(keys: set<Key>, k: Key): set<Key> {
    set s | s in keys && Under(k, s)
  }

  ghost function KeysOf(keys: set<Key>, dir: nat): set<Key> {
    set s | s in keys && s.dir == dir
  }

  lemma KeysBelowStep(keys: set<Key>, k: Key, i: nat)
    ensures KeysBelow(keys, k, i + 1) ==
            KeysBelow(keys, k, i) + KeysUnder(keys, Child(k, i)) + (if Child(k, i) in keys then {Child(k, i)} else {})
    ensures Child(k, i) !in KeysBelow(keys, k, i) && KeysBelow(keys, k, i) !! KeysUnder(keys, Child(k, i))
    ensures Child(k, i) !in KeysUnder(keys, Child(k, i))
  {
    forall s ensures s in KeysBelow(keys, k, i + 1) <==>
      s in KeysBelow(keys, k, i) || s in KeysUnder(keys, Child(k, i)) || (s == Child(k, i) && s in keys)
    {
      BelowStep(k, i, s);
    }
    forall s | s in KeysUnder(keys, Child(k, i)) ensures s !in KeysBelow(keys, k, i) && s != Child(k, i) {
      BelowStep(k, i, s);
    }
    BelowStep(k, i, Child(k, i));
  }

  lemma KeysBelowAll(keys: set<Key>, k: Key)
    requires forall s :: s in keys ==> InRange(s.path)
    ensures KeysBelow(keys, k, Limit(|k.path|)) == KeysUnder(keys, k)
    ensures KeysBelow(keys, k, 0) == {}
  {
  }

  // Copies of tables and leaves lie in the other directory only.
  lemma UnderIgnoresCopies(keys: set<Key>, r: set<Key>, child: nat, k: Key)
    requires child != k.dir
    ensures KeysUnder(keys + Copies(r, child), k) == KeysUnder(keys, k)
  {
  }

  // ---- How far a clone has come ----

  ghost function PagesOf(leaves: Leaves, r: set<Key>): set<nat> {
    set s | s in r && s in leaves && leaves[s].user :: leaves[s].page
  }

  // From a to b, the tables t and the leaves r of directory dir were given to child: new
  // tables lie in frames that were free, and memory outside tables has not changed.
  ghost predicate Cloned(a: Machine, b: Machine, t: set<Key>, r: set<Key>, dir: nat, child: nat) {
    && b.tab.Keys == a.tab.Keys + Copies(t, child)
    && (forall k :: k in a.tab ==> b.tab[k] == a.tab[k])
    && (forall k :: k in b.tab && k !in a.tab ==> b.tab[k] !in a.locked)
    && b.leaves == CloneLeaves(a.leaves, r, dir, child)
    && b.reserved == a.reserved && b.kernel == a.kernel && a.locked <= b.locked
    && |b.mem| == |a.mem| && |b.refs| == |a.refs| == |a.mem|
    && (forall f :: f in a.locked && f < |a.mem| && f !in a.tab.Values ==> b.mem[f] == a.mem[f])
    && (forall f: nat :: f < |a.refs| && f !in PagesOf(a.leaves, r) ==> b.refs[f] == a.refs[f])
  }

  ghost predicate Clonable(a: Machine, t: set<Key>, r: set<Key>, dir: nat, child: nat) {
    && Forkable(a.leaves, r, dir, child)
    && t <= a.tab.Keys && forall k :: k in t ==> k.dir == dir
  }

  lemma ClonedNothing(a: Machine, dir: nat, child: nat)
    requires |a.refs| == |a.mem|
    ensures Cloned(a, a, {}, {}, dir, child)
  {
    CloneNothing(a.leaves, dir, child);
  }

  lemma ClonedTwice(a: Machine, b: Machine, c: Machine, t1: set<Key>, r1: set<Key>, t2: set<Key>, r2: set<Key>,
                    dir: nat, child: nat)
    requires Clonable(a, t1 + t2, r1 + r2, dir, child) && r1 !! r2
    requires Cloned(a, b, t1, r1, dir, child) && Cloned(b, c, t2, r2, dir, child)
    ensures Cloned(a, c, t1 + t2, r1 + r2, dir, child)
  {
    CloneTwice(a.leaves, r1, r2, dir, child);
    hide CloneLeaves, Forkable;
    assert Copies(t1 + t2, child) == Copies(t1, child) + Copies(t2, child);
    forall f: nat | f < |a.refs| && f !in PagesOf(a.leaves, r1 + r2) ensures c.refs[f] == a.refs[f] {
      RestUntouched(a.leaves, r1, r2, dir, child);
    }
  }

  lemma RestUntouched(leaves: Leaves, r1: set<Key>, r2: set<Key>, dir: nat, child: nat)
    requires Forkable(leaves, r1 + r2, dir, child) && r1 !! r2
    ensures PagesOf(leaves, r1 + r2) == PagesOf(leaves, r1) + PagesOf(leaves, r2)
    ensures PagesOf(CloneLeaves(leaves, r1, dir, child), r2) == PagesOf(leaves, r2)
  {
    var l := CloneLeaves(leaves, r1, dir, child);
    assert forall s :: s in r2 ==> s in leaves && s in l && l[s] == leaves[s];
    assert forall f :: f in PagesOf(leaves, r2) ==> f in PagesOf(l, r2);
  }

  // Sharing one leaf with the same slot of child.
  lemma ClonedOne(b: Machine, c: Machine, s: Key, child: nat)
    requires s in b.leaves && Forkable(b.leaves, {s}, s.dir, child) && |b.refs| == |b.mem|
    requires c.leaves == b.leaves[s := Share(b.leaves[s])][Key(child, s.path) := Share(b.leaves[s])]
    requires c.tab == b.tab && c.locked == b.locked && c.reserved == b.reserved && c.kernel == b.kernel
    requires |c.mem| == |b.mem|
    requires b.leaves[s].user ==> b.leaves[s].page < |b.refs|
    requires c.refs == SharedCounts(b.refs, b.leaves[s])
    requires forall f :: f in b.locked && f < |b.mem| && f !in b.tab.Values ==> c.mem[f] == b.mem[f]
    ensures Cloned(b, c, {}, {s}, s.dir, child)
  {
    CloneOne(b.leaves, s, child);
    PagesOfOne(b.leaves, s);
    hide CloneLeaves;
  }

  // One more leaf slot of the leaf table at k.
  lemma ClonedLeaf(a: Machine, b: Machine, c: Machine, k: Key, i: nat, child: nat)
    requires |k.path| == 3 && child != k.dir
    requires forall s :: s in a.leaves ==> |s.path| == 4
    requires Clonable(a, {}, KeysBelow(a.leaves.Keys, k, i + 1), k.dir, child)
    requires Cloned(a, b, {}, KeysBelow(a.leaves.Keys, k, i), k.dir, child)
    requires if Child(k, i) in a.leaves then Cloned(b, c, {}, {Child(k, i)}, k.dir, child) else c == b
    ensures Cloned(a, c, {}, KeysBelow(a.leaves.Keys, k, i + 1), k.dir, child)
  {
    hide Cloned, Forkable;
    var s := Child(k, i);
    var done, next := KeysBelow(a.leaves.Keys, k, i), KeysBelow(a.leaves.Keys, k, i + 1);
    KeysBelowStep(a.leaves.Keys, k, i);
    NoKeysUnderLeaf(a.leaves, s);
    if s in a.leaves {
      assert next == done + {s};
      var none: set<Key> := {};
      assert none + none == none;
      ClonedTwice(a, b, c, none, done, none, {s}, k.dir, child);
    } else {
      assert next == done;
    }
  }

  // A leaf that has not been reached yet is as it was, and has no copy.
  lemma NotYetCloned(a: Machine, b: Machine, t: set<Key>, k: Key, i: nat, child: nat)
    requires child != k.dir && InRangeLeaves(a) && SamePaths(a.leaves)
    requires Forkable(a.leaves, KeysUnder(a.leaves.Keys, k), k.dir, child)
    requires Cloned(a, b, t, KeysBelow(a.leaves.Keys, k, i), k.dir, child)
    ensures forall s :: s in a.leaves && s.dir == k.dir && !Below(k, i, s) ==>
      && s in b.leaves && b.leaves[s] == a.leaves[s]
      && (Under(k, s) ==> Key(child, s.path) !in b.leaves)
      && (a.leaves[s].user && a.leaves[s].page < |a.refs| ==>
          a.leaves[s].page < |b.refs| && b.refs[a.leaves[s].page] == a.refs[a.leaves[s].page])
    ensures forall s :: s in b.leaves && s.dir == k.dir ==> s in a.leaves
  {
  }

  ghost predicate InRangeLeaves(m: Machine) {
    forall s :: s in m.leaves ==> InRange(s.path)
  }

  lemma PagesOfOne(leaves: Leaves, s: Key)
    requires s in leaves
    ensures PagesOf(leaves, {s}) == if leaves[s].user then {leaves[s].page} else {}
  {
    if leaves[s].user {
      assert s in {s} && s in leaves && leaves[s].user;
    }
  }

  lemma NoKeysUnderLeaf(leaves: Leaves, s: Key)
    requires forall u :: u in leaves ==> |u.path| == 4
    requires |s.path| == 4
    ensures KeysUnder(leaves.Keys, s) == {}
  {
  }
}
