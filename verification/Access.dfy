/** What user-mode code may reach: the bits of the words that link tables. */
module Access {
  import opened PageTables
  import opened CopyOnWrite
  import opened Machines
  import opened Steps

  // ---- The words that link tables ----

  // The word that points at table k.
  ghost function LinkWord(m: Machine, k: Key): Word {
    if k.path != [] && Parent(k) in m.tab && m.tab[Parent(k)] < |m.mem| && Last(k) < ENTRIES
    then m.mem[m.tab[Parent(k)]][Last(k)]
    else ZERO
  }

  // Everything below is as its own words allow, for user-mode loads, stores and fetches alike.
  predicate Open(w: Word) {
    w.present && w.writable && w.user && !w.size && !w.noexec
  }

  // From a to b, tables that were there are linked as before, and new ones by open words.
  ghost predicate AccessKept(a: Machine, b: Machine) {
    forall k :: k in b.tab && k.path != [] ==>
      if k in a.tab then Parent(k) in a.tab ==> Parent(k) in b.tab && LinkWord(b, k) == LinkWord(a, k)
      else Parent(k) in b.tab && Open(LinkWord(b, k))
  }

  lemma AccessSame(m: Machine)
    ensures AccessKept(m, m)
  {
  }

  lemma AccessTwice(a: Machine, b: Machine, c: Machine)
    requires AccessKept(a, b) && AccessKept(b, c) && a.tab.Keys <= b.tab.Keys
    ensures AccessKept(a, c)
  {
    hide LinkWord, Open;
  }

  lemma SpareIsNoTable(m: Machine, f: nat)
    requires Core(m) && Spare(m, f)
    ensures f !in m.tab.Values
  {
    hide Forest, Counts, SamePaths, KernelShared, Mapped;
  }

  lemma NewTableAccess(m: Machine, k: Key, i: nat, f: nat)
    requires Forest(m.mem, m.tab, m.leaves) && k in m.tab && |k.path| < 3 && i < Limit(|k.path|)
    requires f < |m.mem| && f !in m.tab.Values && Child(k, i) !in m.tab
    ensures m.tab[k] < |m.mem| && AccessKept(m, NewTable(m, k, i, f)) && Open(NewTable(m, k, i, f).mem[m.tab[k]][i])
  {
    hide Forest, AccessKept, Child, LinkWord;
    ForestFacts(m.mem, m.tab, m.leaves);
    var n, c := NewTable(m, k, i, f), Child(k, i);
    assert m.tab[k] in m.tab.Values;
    forall u | u in m.tab && u.path != [] && Parent(u) in m.tab ensures LinkWord(n, u) == LinkWord(m, u) {
      OtherLink(m, k, i, f, u);
    }
    NewLink(m, k, i, f);
    OneMoreLink(m, n, c);
  }

  lemma OtherLink(m: Machine, k: Key, i: nat, f: nat, u: Key)
    requires Injective(m.tab) && k in m.tab && m.tab[k] < |m.mem| && f < |m.mem| && i < ENTRIES && f !in m.tab.Values
    requires u in m.tab && u.path != [] && Parent(u) in m.tab && Child(k, i) !in m.tab
    ensures LinkWord(NewTable(m, k, i, f), u) == LinkWord(m, u)
  {
    assert m.tab[Parent(u)] in m.tab.Values && m.tab[k] in m.tab.Values;
    ChildOfParent(u);
    hide Child;
  }

  lemma NewLink(m: Machine, k: Key, i: nat, f: nat)
    requires k in m.tab && m.tab[k] < |m.mem| && f < |m.mem| && i < ENTRIES && f != m.tab[k]
    ensures var n := NewTable(m, k, i, f);
      LinkWord(n, Child(k, i)) == n.mem[m.tab[k]][i] && Open(n.mem[m.tab[k]][i])
  {
    assert Child(k, i) != k;
  }

  lemma OneMoreLink(m: Machine, n: Machine, c: Key)
    requires c !in m.tab && n.tab.Keys == m.tab.Keys + {c} && c.path != [] && Parent(c) in m.tab && Open(LinkWord(n, c))
    requires forall u :: u in m.tab && u.path != [] && Parent(u) in m.tab ==> LinkWord(n, u) == LinkWord(m, u)
    ensures AccessKept(m, n)
  {
    hide LinkWord, Open;
  }

  // Tables and everything but leaf tables and data as before.
  ghost predicate InnerTablesKept(a: Machine, b: Machine) {
    && b.tab == a.tab && |b.mem| == |a.mem|
    && forall k :: k in a.tab && |k.path| < 3 && a.tab[k] < |a.mem| ==> b.mem[a.tab[k]] == a.mem[a.tab[k]]
  }

  lemma InnerAccess(a: Machine, b: Machine)
    requires InnerTablesKept(a, b) && forall k :: k in a.tab ==> |k.path| <= 3
    ensures AccessKept(a, b)
  {
  }

  lemma CopyLeafAccess(m: Machine, s: Key, t: Key)
    requires Forest(m.mem, m.tab, m.leaves) && CopyLeaf.requires(m, s, t) && |s.path| == |t.path| == 4
    ensures AccessKept(m, CopyLeaf(m, s, t))
  {
    ForestFacts(m.mem, m.tab, m.leaves);
    hide Forest;
    InnerAccess(m, CopyLeaf(m, s, t));
  }

  lemma NewRootAccess(m: Machine, n: Machine, f: nat, page: Page)
    requires f < |m.mem| && f !in m.tab.Values && n.mem == m.mem[f := page] && n.tab == m.tab[Key(f, []) := f]
    requires Key(f, []) !in m.tab
    ensures AccessKept(m, n)
  {
    forall u | u in n.tab && u.path != [] && Parent(u) in m.tab ensures LinkWord(n, u) == LinkWord(m, u) {
      assert m.tab[Parent(u)] in m.tab.Values;
    }
  }
}
