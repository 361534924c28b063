/** The eager machine, whose forks copy every user page, and what lazy steps look like to it. */
module Eager {
  import opened PageTables
  import opened Wrappers
  import opened CopyOnWrite
  import opened Machines
  import opened Steps
  import opened Forks

  // What processes can read: the contents of every user page of every address space.
  type Spaces = map<Key, Page>

  ghost function Visible(m: Machine): Spaces {
    map s | s in m.leaves && m.leaves[s].user && m.leaves[s].page < |m.mem| :: m.mem[m.leaves[s].page]
  }

  // fork: the child gets its own copy of every page.
  ghost function Fork(v: Spaces, dir: nat, child: nat): Spaces {
    map s | s in v.Keys + Copies(OfDirectory(v, dir), child) ::
      if s in v then v[s] else if Key(dir, s.path) in v then v[Key(dir, s.path)] else ZeroPage()
  }

  ghost function OfDirectory(v: Spaces, dir: nat): set<Key> {
    set s | s in v && s.dir == dir
  }

  ghost function Exit(v: Spaces, dir: nat): Spaces {
    v - OfDirectory(v, dir)
  }

  ghost function Write(v: Spaces, s: Key, i: nat, w: Word): Spaces
    requires i < ENTRIES
  {
    if s in v then v[s := v[s][i := w]] else v
  }

  ghost function Read(v: Spaces, s: Key, i: nat): Option<Word>
    requires i < ENTRIES
  {
    if s in v then Some(v[s][i]) else None
  }

  // ---- Lazy steps seen through Visible ----

  lemma UserPages(m: Machine)
    requires Core(m)
    ensures forall s :: s in Visible(m) <==> s in m.leaves && m.leaves[s].user
    ensures forall s :: s in Visible(m) ==> m.leaves[s].page < |m.mem| && m.leaves[s].page in Mapped(m.leaves)
                                            && m.leaves[s].page in m.locked && m.leaves[s].page !in m.tab.Values
                                            && m.leaves[s].page !in m.reserved
  {
    hide Forest, SamePaths, KernelShared;
    forall s | s in m.leaves && m.leaves[s].user
      ensures m.leaves[s].page < |m.mem| && m.leaves[s].page in Mapped(m.leaves)
    {
      assert LeafCounted(m.leaves, m.refs, s);
    }
  }

  // Sharing leaves, pages and all, is the same to every process as copying the pages.
  lemma ForkIsCopy(a: Machine, b: Machine, dir: nat, child: nat)
    requires Core(a) && Core(b) && child != dir
    requires forall u :: u in a.tab || u in a.leaves ==> u.dir != child
    requires Cloned(a, b, KeysOf(a.tab.Keys, dir), KeysOf(a.leaves.Keys, dir), dir, child)
    ensures Visible(b) == Fork(Visible(a), dir, child)
  {
    hide Core, Cloned;
    var v, w := Visible(b), Fork(Visible(a), dir, child);
    forall s ensures Alike(v, w, s) {
      ForkSeenAt(a, b, dir, child, s);
    }
    AlikeEverywhere(v, w);
  }

  lemma ForkSeenAt(a: Machine, b: Machine, dir: nat, child: nat, s: Key)
    requires Core(a) && Core(b) && child != dir
    requires forall u :: u in a.tab || u in a.leaves ==> u.dir != child
    requires Cloned(a, b, KeysOf(a.tab.Keys, dir), KeysOf(a.leaves.Keys, dir), dir, child)
    ensures Alike(Visible(b), Fork(Visible(a), dir, child), s)
  {
    hide Forest, Counts, SamePaths, KernelShared, Owned, Cloned;
    UserPages(a);
    UserPages(b);
    hide Core;
    CopyMember(OfDirectory(Visible(a), dir), dir, child, s);
    ClonedAt(a, b, dir, child, s);
  }

  // What a clone leaves behind at one slot.
  lemma ClonedAt(a: Machine, b: Machine, dir: nat, child: nat, s: Key)
    requires Cloned(a, b, KeysOf(a.tab.Keys, dir), KeysOf(a.leaves.Keys, dir), dir, child)
    ensures var t := if s in a.leaves then s else Key(dir, s.path);
      (s in b.leaves <==> s in a.leaves || (s.dir == child && t in a.leaves))
      && (s in b.leaves && t in a.leaves ==>
          b.leaves[s].page == a.leaves[t].page && b.leaves[s].user == a.leaves[t].user)
    ensures |b.mem| == |a.mem|
    ensures forall f :: f in a.locked && f < |a.mem| && f !in a.tab.Values ==> b.mem[f] == a.mem[f]
  {
    CopyMember(KeysOf(a.leaves.Keys, dir), dir, child, s);
  }

  ghost predicate Alike(v: Spaces, w: Spaces, s: Key) {
    (s in v <==> s in w) && (s in v ==> v[s] == w[s])
  }

  lemma AlikeEverywhere(v: Spaces, w: Spaces)
    requires forall s :: Alike(v, w, s)
    ensures v == w
  {
    forall s ensures s in v <==> s in w {
      assert Alike(v, w, s);
    }
    forall s | s in v ensures v[s] == w[s] {
      assert Alike(v, w, s);
    }
  }

  lemma FreeIsExit(a: Machine, b: Machine, dir: nat)
    requires Core(a) && Core(b) && b.mem == a.mem && b.leaves == a.leaves - KeysOf(a.leaves.Keys, dir)
    ensures Visible(b) == Exit(Visible(a), dir)
  {
    hide Forest, Counts, SamePaths, KernelShared, Owned;
    UserPages(a);
    UserPages(b);
    var vb, va := Visible(b), Exit(Visible(a), dir);
    forall s ensures s in vb <==> s in va {}
  }

  // A write fault changes no process's view, whether it copies or not.
  lemma FaultUnseen(m: Machine, s: Key, spare: nat)
    requires Core(m) && s in m.leaves && s.path != [] && Parent(s) in m.tab && m.leaves[s].user && m.leaves[s].cow
    requires m.leaves[s].page < |m.refs| && m.refs[m.leaves[s].page] != 1 ==> Spare(m, spare)
    requires FaultLeaf.requires(m, s, spare)
    ensures Visible(FaultLeaf(m, s, spare)) == Visible(m)
  {
    hide Core;
    var v, w := Visible(FaultLeaf(m, s, spare)), Visible(m);
    forall u ensures Alike(v, w, u) {
      FaultSeenAt(m, s, spare, u);
    }
    AlikeEverywhere(v, w);
  }

  lemma FaultSeenAt(m: Machine, s: Key, spare: nat, u: Key)
    requires Core(m) && s in m.leaves && s.path != [] && Parent(s) in m.tab && m.leaves[s].user && m.leaves[s].cow
    requires m.leaves[s].page < |m.refs| && m.refs[m.leaves[s].page] != 1 ==> Spare(m, spare)
    requires FaultLeaf.requires(m, s, spare)
    ensures Alike(Visible(FaultLeaf(m, s, spare)), Visible(m), u)
  {
    hide Forest, Counts, SamePaths, KernelShared, Owned;
    UserPages(m);
    TableLocked(m, Parent(s));
    hide Core;
    FaultMemory(m, s, spare);
  }

  lemma FaultMemory(m: Machine, s: Key, spare: nat)
    requires FaultLeaf.requires(m, s, spare) && m.tab[Parent(s)] in m.locked
    requires m.refs[m.leaves[s].page] != 1 ==> spare !in m.locked
    ensures var n := FaultLeaf(m, s, spare);
      (forall f :: f in m.locked && f < |m.mem| && f != m.tab[Parent(s)] ==> n.mem[f] == m.mem[f])
      && (if m.refs[m.leaves[s].page] == 1 then n.leaves[s].page == m.leaves[s].page
          else n.leaves[s].page == spare && n.mem[spare] == m.mem[m.leaves[s].page])
  {
  }

  // A store to a writable page is seen at its own slot and nowhere else.
  lemma StoreSeen(m: Machine, s: Key, i: nat, w: Word)
    requires Core(m) && s in m.leaves && m.leaves[s].user && m.leaves[s].writable && i < ENTRIES
    ensures m.leaves[s].page < |m.mem| && m.leaves[s].page !in m.reserved && m.leaves[s].page !in m.tab.Values
    ensures Visible(StoreData(m, m.leaves[s].page, m.mem[m.leaves[s].page][i := w])) == Write(Visible(m), s, i, w)
  {
    hide Core;
    UserPages(m);
    OnlyMapper(m, s);
  }

  lemma OnlyMapper(m: Machine, s: Key)
    requires Core(m) && s in m.leaves && m.leaves[s].user && m.leaves[s].writable
    ensures forall u :: u in m.leaves && m.leaves[u].user && m.leaves[u].page == m.leaves[s].page ==> u == s
  {
    hide Forest, SamePaths, KernelShared, Owned;
    assert LeafCounted(m.leaves, m.refs, s);
    forall u | u in m.leaves && m.leaves[u].user && m.leaves[u].page == m.leaves[s].page ensures u == s {
      assert u in Mappers(m.leaves, m.leaves[s].page);
    }
  }

  lemma MapSeen(m: Machine, s: Key, w: Word)
    requires Core(m) && |s.path| == 4 && Last(s) < ENTRIES && Parent(s) in m.tab && m.tab[Parent(s)] < |m.mem|
    requires PrivatePage(w)
    requires if s in m.leaves then PrivatePage(m.leaves[s]) && m.leaves[s].page == w.page else Spare(m, w.page)
    ensures Visible(MapLeaf(m, s, w)) == if s in m.leaves then Visible(m) else Visible(m)[s := m.mem[w.page]]
  {
    hide Forest, Counts, SamePaths, KernelShared, Owned;
    UserPages(m);
    TableLocked(m, Parent(s));
  }

  lemma TableLocked(m: Machine, k: Key)
    requires Core(m) && k in m.tab
    ensures m.tab[k] in m.tab.Values && m.tab[k] in m.locked
  {
    assert m.tab[k] in m.tab.Values;
  }
}
