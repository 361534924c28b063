/** The memory manager's state as a value: its invariant, and every single step it takes. */
module Machines {
  import opened PageTables
  import opened CopyOnWrite

  // The kernel's own page tables: the root entries every directory shares, and the frames
  // of the tables below them with their depth (1, 2, or 3 for leaf tables).
  datatype Kernel = Kernel(half: seq<Word>, depth: map<nat, nat>)

  datatype Machine = Machine(mem: seq<Page>, refs: seq<nat>, locked: set<nat>, reserved: set<nat>,
                             tab: map<Key, nat>, leaves: Leaves, kernel: Kernel)

  // Every locked frame has exactly one owner: the kernel and its other clients, the page
  // tables of a live directory, or the user leaves that map it.
  ghost predicate Owned(locked: set<nat>, reserved: set<nat>, tables: set<nat>, mapped: set<nat>) {
    && locked == reserved + tables + mapped
    && reserved !! tables
    && reserved !! mapped
    && tables !! mapped
    && 0 in reserved
  }

  ghost predicate KernelTable(page: Page, depth: map<nat, nat>, level: nat) {
    forall i: nat :: i < ENTRIES ==>
      if level == 3 then !page[i].cow && (page[i].present ==> !page[i].user)
      else page[i].present ==> page[i].size || (page[i].page in depth && depth[page[i].page] == level + 1)
  }

  // All directories share the kernel half, and no kernel page is a user page.
  ghost predicate KernelShared(mem: seq<Page>, tab: map<Key, nat>, reserved: set<nat>, kernel: Kernel) {
    && |kernel.half| == ENTRIES - LOW_ENTRIES
    && kernel.depth.Keys <= reserved
    && (forall f :: f in kernel.depth ==>
          f < |mem| && 1 <= kernel.depth[f] <= 3 && KernelTable(mem[f], kernel.depth, kernel.depth[f]))
    && (forall i :: 0 <= i < |kernel.half| && kernel.half[i].present ==>
          kernel.half[i].page in kernel.depth && kernel.depth[kernel.half[i].page] == 1)
    && (forall k :: k in tab && k.path == [] && tab[k] < |mem| ==> mem[tab[k]][LOW_ENTRIES..] == kernel.half)
  }

  // Holds even in the middle of a clone or a free.
  ghost predicate Core(m: Machine) {
    && |m.refs| == |m.mem|
    && (forall f :: f in m.locked ==> f < |m.mem|)
    && Forest(m.mem, m.tab, m.leaves)
    && Counts(m.leaves, m.refs)
    && SamePaths(m.leaves)
    && Owned(m.locked, m.reserved, m.tab.Values, Mapped(m.leaves))
    && KernelShared(m.mem, m.tab, m.reserved, m.kernel)
  }

  ghost predicate Good(m: Machine) {
    Core(m) && Closed(m.tab, m.leaves)
  }

  function StoreEntry(mem: seq<Page>, t: nat, i: nat, w: Word): (r: seq<Page>)
    requires t < |mem| && i < ENTRIES
    ensures |r| == |mem|
  {
    mem[t := mem[t][i := w]]
  }

  // ---- The forest under single stores ----

  ghost predicate SameEntry<V>(a: map<Key, V>, b: map<Key, V>, k: Key) {
    (k in a <==> k in b) && (k in a ==> a[k] == b[k])
  }

  // A table whose page and whose recorded children did not change is still linked.
  lemma LinksKept(mem: seq<Page>, tab: map<Key, nat>, leaves: Leaves,
                  mem': seq<Page>, tab': map<Key, nat>, leaves': Leaves, k: Key)
    requires k in tab && k in tab' && tab'[k] == tab[k] < |mem| == |mem'| && mem'[tab[k]] == mem[tab[k]]
    requires Links(mem, tab, leaves, k)
    requires |k.path| < 3 ==> forall i: nat :: SameEntry(tab, tab', Child(k, i))
    requires |k.path| >= 3 ==> forall i: nat :: SameEntry(leaves, leaves', Child(k, i))
    ensures Links(mem', tab', leaves', k)
  {
    if |k.path| < 3 {
      forall i: nat | i < Limit(|k.path|) ensures SameEntry(tab, tab', Child(k, i)) {}
    } else {
      forall i: nat | i < ENTRIES ensures SameEntry(leaves, leaves', Child(k, i)) {}
    }
  }

  lemma NewTableKeepsForest(mem: seq<Page>, tab: map<Key, nat>, leaves: Leaves, k: Key, i: nat, f: nat)
    requires Forest(mem, tab, leaves) && k in tab && |k.path| < 3 && i < Limit(|k.path|)
    requires Child(k, i) !in tab && 0 < f < |mem| && f !in tab.Values
    requires forall j: nat :: Child(Child(k, i), j) !in tab && Child(Child(k, i), j) !in leaves
    ensures Forest(StoreEntry(mem[f := ZeroPage()], tab[k], i, TableWord(f)), tab[Child(k, i) := f], leaves)
  {
    hide Links;
    var c := Child(k, i);
    var mem' := StoreEntry(mem[f := ZeroPage()], tab[k], i, TableWord(f));
    var tab' := tab[c := f];
    AddKeepsInjective(tab, c, f);
    forall k' | k' in tab' ensures Links(mem', tab', leaves, k') && InRange(k'.path) {
      assert k' in tab ==> tab[k'] in tab.Values;
      if k' == k {
        NewTableLinks(mem, tab, leaves, k, i, f);
      } else if k' == c {
        assert mem'[tab'[c]] == ZeroPage() by { assert tab[k] in tab.Values; }
        EmptyLinks(mem', tab', leaves, c);
      } else {
        LinksKept(mem, tab, leaves, mem', tab', leaves, k');
      }
    }
  }

  lemma AddKeepsInjective(tab: map<Key, nat>, k: Key, f: nat)
    requires Injective(tab) && f !in tab.Values
    ensures Injective(tab[k := f])
  {
    assert forall k' :: k' in tab ==> tab[k'] in tab.Values;
  }

  lemma NewTableLinks(mem: seq<Page>, tab: map<Key, nat>, leaves: Leaves, k: Key, i: nat, f: nat)
    requires k in tab && tab[k] < |mem| && Links(mem, tab, leaves, k) && |k.path| < 3 && i < Limit(|k.path|)
    requires f < |mem| && f !in tab.Values
    ensures Links(StoreEntry(mem[f := ZeroPage()], tab[k], i, TableWord(f)), tab[Child(k, i) := f], leaves, k)
  {
    assert tab[k] in tab.Values;
    var mem' := StoreEntry(mem[f := ZeroPage()], tab[k], i, TableWord(f));
    assert mem'[tab[k]] == mem[tab[k]][i := TableWord(f)];
    assert k != Child(k, i);
  }

  lemma EmptyLinks(mem: seq<Page>, tab: map<Key, nat>, leaves: Leaves, c: Key)
    requires c in tab && tab[c] < |mem| && mem[tab[c]] == ZeroPage()
    requires forall j: nat :: Child(c, j) !in tab && Child(c, j) !in leaves
    ensures Links(mem, tab, leaves, c)
  {
  }

  lemma SetLeafKeepsForest(mem: seq<Page>, tab: map<Key, nat>, leaves: Leaves, s: Key, w: Word)
    requires Forest(mem, tab, leaves) && |s.path| == 4 && InRange(s.path) && Parent(s) in tab && w.present
    requires (w.cow ==> w.user)
    ensures tab[Parent(s)] < |mem|
    ensures Forest(StoreEntry(mem, tab[Parent(s)], Last(s), w), tab, leaves[s := w])
  {
    hide Links;
    var mem' := StoreEntry(mem, tab[Parent(s)], Last(s), w);
    forall k | k in tab ensures Links(mem', tab, leaves[s := w], k) {
      if k == Parent(s) {
        SetLeafLinks(mem, tab, leaves, s, w);
      } else {
        LinksKept(mem, tab, leaves, mem', tab, leaves[s := w], k) by { ChildOfParent(s); }
      }
    }
  }

  lemma SetLeafLinks(mem: seq<Page>, tab: map<Key, nat>, leaves: Leaves, s: Key, w: Word)
    requires |s.path| == 4 && InRange(s.path) && Parent(s) in tab && tab[Parent(s)] < |mem| && w.present
    requires Links(mem, tab, leaves, Parent(s))
    ensures Links(StoreEntry(mem, tab[Parent(s)], Last(s), w), tab, leaves[s := w], Parent(s))
  {
    ChildOfParent(s);
  }

  // A leaf of a table that is no longer recorded can be forgotten.
  lemma DropLeafKeepsForest(mem: seq<Page>, tab: map<Key, nat>, leaves: Leaves, s: Key)
    requires Forest(mem, tab, leaves) && s.path != [] && Parent(s) !in tab
    ensures Forest(mem, tab, leaves - {s})
  {
    forall k | k in tab ensures Links(mem, tab, leaves - {s}, k) {
      LinksKept(mem, tab, leaves, mem, tab, leaves - {s}, k);
    }
  }

  // So can a table that no recorded table points to.
  lemma DetachKeepsForest(mem: seq<Page>, tab: map<Key, nat>, leaves: Leaves, k: Key)
    requires Forest(mem, tab, leaves) && (k.path == [] || Parent(k) !in tab)
    ensures Forest(mem, tab - {k}, leaves)
  {
    forall k' | k' in tab - {k} ensures Links(mem, tab - {k}, leaves, k') {
      LinksKept(mem, tab, leaves, mem, tab - {k}, leaves, k');
    }
  }

  lemma DataKeepsForest(mem: seq<Page>, tab: map<Key, nat>, leaves: Leaves, f: nat, page: Page)
    requires Forest(mem, tab, leaves) && f < |mem| && f !in tab.Values
    ensures Forest(mem[f := page], tab, leaves)
  {
    forall k | k in tab ensures Links(mem[f := page], tab, leaves, k) {
      assert tab[k] in tab.Values;
      LinksKept(mem, tab, leaves, mem[f := page], tab, leaves, k);
    }
  }

  // ---- Ownership ----

  lemma MappedByLeaf(leaves: Leaves, f: nat)
    ensures f in Mapped(leaves) <==> Mappers(leaves, f) != {}
  {
    if f in Mapped(leaves) {
      var s :| s in leaves && leaves[s].user && leaves[s].page == f;
      assert s in Mappers(leaves, f);
    }
    if Mappers(leaves, f) != {} {
      var s :| s in Mappers(leaves, f);
    }
  }

  lemma MappedSet(leaves: Leaves, s: Key, w: Word)
    requires s in leaves ==> leaves[s].user == w.user && leaves[s].page == w.page
    ensures Mapped(leaves[s := w]) == Mapped(leaves) + (if w.user then {w.page} else {})
  {
    var l := leaves[s := w];
    forall f | f in Mapped(leaves) ensures f in Mapped(l) {
      var u :| u in leaves && leaves[u].user && leaves[u].page == f;
      assert u in l && l[u].user && l[u].page == f;
    }
    if w.user {
      assert s in l && l[s].user;
    }
  }

  lemma MappedRemove(leaves: Leaves, s: Key)
    requires s in leaves && leaves[s].user
    ensures Mapped(leaves - {s}) ==
            if Mappers(leaves - {s}, leaves[s].page) == {} then Mapped(leaves) - {leaves[s].page} else Mapped(leaves)
  {
    var l, p := leaves - {s}, leaves[s].page;
    MappedByLeaf(l, p);
    forall f ensures f in Mapped(l) <==> f in Mapped(leaves) && (f == p ==> Mappers(l, p) != {}) {
      MappedByLeaf(l, f);
      MappedByLeaf(leaves, f);
      MappersRemove(leaves, s, f);
      assert f != p ==> s !in Mappers(leaves, f);
      assert s in Mappers(leaves, p);
    }
  }

  lemma TablesAdd(tab: map<Key, nat>, k: Key, f: nat)
    requires k !in tab
    ensures tab[k := f].Values == tab.Values + {f}
  {
    var t := tab[k := f];
    forall v | v in tab.Values ensures v in t.Values {
      var u :| u in tab && tab[u] == v;
      assert t[u] == v;
    }
    assert t[k] == f;
  }

  lemma TablesRemove(tab: map<Key, nat>, k: Key)
    requires k in tab && Injective(tab)
    ensures (tab - {k}).Values == tab.Values - {tab[k]}
  {
    var t := tab - {k};
    forall v | v in tab.Values && v != tab[k] ensures v in t.Values {
      var u :| u in tab && tab[u] == v;
      assert u in t && t[u] == v;
    }
  }

  // ---- The kernel half ----

  lemma KernelKept(mem: seq<Page>, tab: map<Key, nat>, reserved: set<nat>, kernel: Kernel,
                   mem': seq<Page>, tab': map<Key, nat>, reserved': set<nat>)
    requires KernelShared(mem, tab, reserved, kernel) && |mem'| == |mem| && kernel.depth.Keys <= reserved'
    requires forall f :: f in kernel.depth ==> mem'[f] == mem[f]
    requires forall k :: k in tab' && k.path == [] && tab'[k] < |mem| ==>
      k in tab && tab[k] == tab'[k] && mem'[tab[k]][LOW_ENTRIES..] == mem[tab[k]][LOW_ENTRIES..]
    ensures KernelShared(mem', tab', reserved', kernel)
  {
  }
}
