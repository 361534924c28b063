/** The states in which the memory manager begins to run. */
module Boots {
  import opened PageTables
  import opened Wrappers
  import opened CopyOnWrite
  import opened Machines
  import opened Translations

  // What boot leaves behind: directories that map kernel pages at most, no counts yet.
  ghost function Booted(mem: seq<Page>, tab: map<Key, nat>, leaves: Leaves, reserved: set<nat>,
                        kernel: Kernel): Machine {
    Machine(mem, seq(|mem|, _ => 0), reserved + tab.Values, reserved, tab, leaves, kernel)
  }

  lemma BootedIsGood(mem: seq<Page>, tab: map<Key, nat>, leaves: Leaves, reserved: set<nat>, kernel: Kernel)
    requires Forest(mem, tab, leaves) && Closed(tab, leaves) && KernelShared(mem, tab, reserved, kernel)
    requires 0 in reserved && reserved !! tab.Values && forall f :: f in reserved ==> f < |mem|
    requires forall s :: s in leaves ==> !leaves[s].user
    ensures Good(Booted(mem, tab, leaves, reserved, kernel))
  {
    hide Links, KernelShared;
    assert Mapped(leaves) == {};
    assert forall f :: Mappers(leaves, f) == {};
  }

  // new_page | KERNEL_PML_ACCESS
  function KernelWord(frame: nat): Word {
    ZERO.(present := true, writable := true, page := frame)
  }

  // The lower half as mmu_init fills it: frame 512 * j + i at entry i of the j-th leaf table,
  // except that page 0 is not mapped.
  ghost predicate LowHalf(mem: seq<Page>, root: nat, pdp: nat, pd: nat, pts: seq<nat>) {
    && root < |mem| && pdp < |mem| && pd < |mem| && |pts| <= ENTRIES
    && (forall i: nat :: i < LOW_ENTRIES ==> mem[root][i] == if i == 0 then TableWord(pdp) else ZERO)
    && (forall i: nat :: i < ENTRIES ==> mem[pdp][i] == if i == 0 then TableWord(pd) else ZERO)
    && (forall j: nat :: j < ENTRIES ==> mem[pd][j] == if j < |pts| then KernelWord(pts[j]) else ZERO)
    && (forall j :: 0 <= j < |pts| ==> pts[j] < |mem| && IdentityTable(mem[pts[j]], j))
  }

  ghost predicate IdentityTable(page: Page, j: nat) {
    forall i: nat :: i < ENTRIES ==> page[i] == if j == 0 && i == 0 then ZERO else KernelWord(ENTRIES * j + i)
  }

  // The tables and leaves it consists of.
  ghost predicate LowTables(tab: map<Key, nat>, leaves: Leaves, root: nat, pdp: nat, pd: nat, pts: seq<nat>) {
    && (forall k :: k in tab <==>
        k.dir == root && (k.path == [] || k.path == [0] || k.path == [0, 0] || LeafTablePath(k.path, |pts|)))
    && (forall k :: k in tab ==> tab[k] == TableFrame(k.path, root, pdp, pd, pts))
    && (forall s :: s in leaves <==> s.dir == root && LeafPath(s.path, |pts|))
    && (forall s :: s in leaves ==> leaves[s] == KernelWord(ENTRIES * s.path[2] + s.path[3]))
  }

  function TableFrame(path: seq<nat>, root: nat, pdp: nat, pd: nat, pts: seq<nat>): nat
    requires path == [] || path == [0] || path == [0, 0] || LeafTablePath(path, |pts|)
  {
    if path == [] then root else if path == [0] then pdp else if path == [0, 0] then pd else pts[path[2]]
  }

  predicate LeafTablePath(path: seq<nat>, n: nat) {
    |path| == 3 && path[0] == 0 && path[1] == 0 && path[2] < n
  }

  predicate LeafPath(path: seq<nat>, n: nat) {
    |path| == 4 && LeafTablePath(path[..3], n) && path[3] < ENTRIES && !(path[2] == 0 && path[3] == 0)
  }

  ghost predicate DistinctTables(root: nat, pdp: nat, pd: nat, pts: seq<nat>) {
    && 0 < root && 0 < pdp && 0 < pd && root != pdp && root != pd && pdp != pd
    && (forall j :: 0 <= j < |pts| ==> 0 < pts[j] && pts[j] != root && pts[j] != pdp && pts[j] != pd)
    && (forall i, j :: 0 <= i < j < |pts| ==> pts[i] != pts[j])
  }

  lemma LowHalfIsForest(mem: seq<Page>, tab: map<Key, nat>, leaves: Leaves, root: nat, pdp: nat, pd: nat, pts: seq<nat>)
    requires LowHalf(mem, root, pdp, pd, pts) && LowTables(tab, leaves, root, pdp, pd, pts)
    requires DistinctTables(root, pdp, pd, pts)
    ensures Forest(mem, tab, leaves) && Closed(tab, leaves) && forall s :: s in leaves ==> !leaves[s].user
  {
    forall k | k in tab ensures Links(mem, tab, leaves, k) {
      LowFrame(mem, tab, leaves, root, pdp, pd, pts, k);
      LowLinks(mem, tab, leaves, root, pdp, pd, pts, k);
    }
    LowKeys(mem, tab, leaves, root, pdp, pd, pts);
    LowInjective(tab, leaves, root, pdp, pd, pts);
    hide Links, LowHalf, LowTables, DistinctTables, Injective;
  }

  lemma LowFrame(mem: seq<Page>, tab: map<Key, nat>, leaves: Leaves, root: nat, pdp: nat, pd: nat, pts: seq<nat>,
                 k: Key)
    requires LowHalf(mem, root, pdp, pd, pts) && LowTables(tab, leaves, root, pdp, pd, pts)
    requires DistinctTables(root, pdp, pd, pts) && k in tab
    ensures |k.path| <= 3 && InRange(k.path) && 0 < tab[k] < |mem| && (k.path == [] ==> tab[k] == k.dir)
    ensures k.path != [] ==> Parent(k) in tab
  {
    if k.path != [] {
      assert Parent(k).path == k.path[..|k.path| - 1];
    }
  }

  lemma LowKeys(mem: seq<Page>, tab: map<Key, nat>, leaves: Leaves, root: nat, pdp: nat, pd: nat, pts: seq<nat>)
    requires LowHalf(mem, root, pdp, pd, pts) && LowTables(tab, leaves, root, pdp, pd, pts)
    requires DistinctTables(root, pdp, pd, pts)
    ensures forall k :: k in tab ==> |k.path| <= 3 && InRange(k.path) && 0 < tab[k] < |mem|
    ensures Closed(tab, leaves)
    ensures forall s :: s in leaves ==> |s.path| == 4 && InRange(s.path) && !leaves[s].cow && !leaves[s].user
  {
    forall k | k in tab
      ensures |k.path| <= 3 && InRange(k.path) && 0 < tab[k] < |mem| && (k.path == [] ==> tab[k] == k.dir)
      ensures k.path != [] ==> Parent(k) in tab
    {
      LowFrame(mem, tab, leaves, root, pdp, pd, pts, k);
    }
    forall s | s in leaves
      ensures |s.path| == 4 && InRange(s.path) && !leaves[s].cow && !leaves[s].user && Parent(s) in tab
    {
      LowLeaf(mem, tab, leaves, root, pdp, pd, pts, s);
    }
    hide LowHalf, LowTables, DistinctTables, InRange;
  }

  lemma LowLeaf(mem: seq<Page>, tab: map<Key, nat>, leaves: Leaves, root: nat, pdp: nat, pd: nat, pts: seq<nat>, s: Key)
    requires LowHalf(mem, root, pdp, pd, pts) && LowTables(tab, leaves, root, pdp, pd, pts) && s in leaves
    ensures |s.path| == 4 && InRange(s.path) && !leaves[s].cow && !leaves[s].user && Parent(s) in tab
  {
    assert Parent(s).path == s.path[..3];
    assert s.path[0] == s.path[..3][0] && s.path[1] == s.path[..3][1] && s.path[2] == s.path[..3][2];
  }

  lemma LowInjective(tab: map<Key, nat>, leaves: Leaves, root: nat, pdp: nat, pd: nat, pts: seq<nat>)
    requires LowTables(tab, leaves, root, pdp, pd, pts) && DistinctTables(root, pdp, pd, pts)
    ensures Injective(tab)
  {
    forall k1, k2 | k1 in tab && k2 in tab && tab[k1] == tab[k2] ensures k1 == k2 {
      if LeafTablePath(k1.path, |pts|) && LeafTablePath(k2.path, |pts|) {
        var i, j := k1.path[2], k2.path[2];
        assert i == j by {
          assert pts[i] == pts[j];
        }
        assert k1.path == k2.path;
      }
    }
  }

  lemma LowLinks(mem: seq<Page>, tab: map<Key, nat>, leaves: Leaves, root: nat, pdp: nat, pd: nat, pts: seq<nat>,
                 k: Key)
    requires LowHalf(mem, root, pdp, pd, pts) && LowTables(tab, leaves, root, pdp, pd, pts) && k in tab
    requires tab[k] < |mem|
    ensures Links(mem, tab, leaves, k)
  {
    if |k.path| == 3 {
      LowLeafLinks(mem, tab, leaves, root, pdp, pd, pts, k);
    } else {
      LowTableLinks(mem, tab, leaves, root, pdp, pd, pts, k);
    }
    hide LowHalf, LowTables;
  }

  lemma LowLeafLinks(mem: seq<Page>, tab: map<Key, nat>, leaves: Leaves, root: nat, pdp: nat, pd: nat, pts: seq<nat>,
                     k: Key)
    requires LowHalf(mem, root, pdp, pd, pts) && LowTables(tab, leaves, root, pdp, pd, pts)
    requires k in tab && tab[k] < |mem| && |k.path| == 3
    ensures LeafLinks(mem[tab[k]], leaves, k, 0)
  {
    var j := k.path[2];
    var page := mem[pts[j]];
    assert IdentityTable(page, j) && tab[k] == pts[j];
    hide LowHalf;
    forall i: nat | i < ENTRIES
      ensures Child(k, i) in leaves <==> !(j == 0 && i == 0)
      ensures Child(k, i) in leaves ==> leaves[Child(k, i)] == KernelWord(ENTRIES * j + i)
    {
      assert Child(k, i).path == k.path + [i] && Child(k, i).path[..3] == k.path;
    }
    hide LowTables;
  }

  lemma LowTableLinks(mem: seq<Page>, tab: map<Key, nat>, leaves: Leaves, root: nat, pdp: nat, pd: nat, pts: seq<nat>,
                      k: Key)
    requires LowHalf(mem, root, pdp, pd, pts) && LowTables(tab, leaves, root, pdp, pd, pts)
    requires k in tab && tab[k] < |mem| && |k.path| < 3
    ensures TableLinks(mem[tab[k]], tab, k, 0)
  {
    hide LowHalf, LowTables;
    forall i: nat | i < Limit(|k.path|)
      ensures mem[tab[k]][i].present <==> Child(k, i) in tab
      ensures mem[tab[k]][i].present ==> mem[tab[k]][i].page == tab[Child(k, i)] && !mem[tab[k]][i].size
    {
      LowChild(tab, leaves, root, pdp, pd, pts, k, i);
      LowEntry(mem, tab, leaves, root, pdp, pd, pts, k, i);
    }
  }

  function NextTable(path: seq<nat>, i: nat, pdp: nat, pd: nat, pts: seq<nat>): nat {
    if path == [] then pdp else if path == [0] then pd else if i < |pts| then pts[i] else 0
  }

  lemma LowChild(tab: map<Key, nat>, leaves: Leaves, root: nat, pdp: nat, pd: nat, pts: seq<nat>, k: Key, i: nat)
    requires LowTables(tab, leaves, root, pdp, pd, pts) && k in tab && |k.path| < 3
    ensures Child(k, i) in tab <==> i < if |k.path| == 2 then |pts| else 1
    ensures Child(k, i) in tab ==> tab[Child(k, i)] == NextTable(k.path, i, pdp, pd, pts)
  {
    var c := Child(k, i);
    assert c.path == k.path + [i];
  }

  lemma LowEntry(mem: seq<Page>, tab: map<Key, nat>, leaves: Leaves, root: nat, pdp: nat, pd: nat, pts: seq<nat>,
                 k: Key, i: nat)
    requires LowHalf(mem, root, pdp, pd, pts) && LowTables(tab, leaves, root, pdp, pd, pts)
    requires k in tab && tab[k] < |mem| && |k.path| < 3 && i < Limit(|k.path|)
    ensures mem[tab[k]][i].present <==> i < if |k.path| == 2 then |pts| else 1
    ensures mem[tab[k]][i].present ==> mem[tab[k]][i].page == NextTable(k.path, i, pdp, pd, pts) && !mem[tab[k]][i].size
  {
  }

  // mmu_init's directory is a valid start.
  lemma InitIsGood(mem: seq<Page>, tab: map<Key, nat>, leaves: Leaves, root: nat, pdp: nat, pd: nat, pts: seq<nat>,
                   reserved: set<nat>, kernel: Kernel)
    requires LowHalf(mem, root, pdp, pd, pts) && LowTables(tab, leaves, root, pdp, pd, pts)
    requires DistinctTables(root, pdp, pd, pts)
    requires KernelShared(mem, tab, reserved, kernel) && 0 in reserved && reserved !! tab.Values
    requires forall f :: f in reserved ==> f < |mem|
    ensures Good(Booted(mem, tab, leaves, reserved, kernel))
  {
    hide LowHalf, LowTables, DistinctTables, Forest, KernelShared, Closed;
    LowHalfIsForest(mem, tab, leaves, root, pdp, pd, pts);
    BootedIsGood(mem, tab, leaves, reserved, kernel);
  }

  // It maps 2 MiB for each leaf table, but for page 0, to the same physical addresses, for the kernel
  // to read and write, and nothing else below the upper half.
  lemma InitIsIdentity(mem: seq<Page>, root: nat, pdp: nat, pd: nat, pts: seq<nat>, address: nat)
    requires LowHalf(mem, root, pdp, pd, pts) && address < 0x8000_0000_0000
    ensures var t := Translation(mem, root, address);
      && (t.Some? <==> 0x1000 <= address < |pts| * 0x20_0000)
      && (t.Some? ==> t.value.page == address / 0x1000 && t.value.writable && !t.value.user && !t.value.noexec)
  {
    var path := Indices(address);
    PlaceOfLow(address);
    InitWalk(mem, root, pdp, pd, pts, path);
    hide Indices;
    if path[0] == path[1] == 0 && path[2] < |pts| {
      assert IdentityTable(mem[pts[path[2]]], path[2]);
    }
  }

  // Where in the tables an address of the lower half has its word.
  lemma PlaceOfLow(address: nat)
    requires address < 0x8000_0000_0000
    ensures var path := Indices(address);
      && path[0] < LOW_ENTRIES && (path[0] == path[1] == 0 <==> address < 0x4000_0000)
      && (path[0] == path[1] == 0 ==> path[2] == address / 0x20_0000 && ENTRIES * path[2] + path[3] == address / 0x1000)
  {
    var page := address / 0x1000;
    DivideTwice(page);
    DivideTwice(page / 0x200);
  }

  lemma InitWalk(mem: seq<Page>, root: nat, pdp: nat, pd: nat, pts: seq<nat>, path: seq<nat>)
    requires LowHalf(mem, root, pdp, pd, pts) && |path| == 4 && path[0] < LOW_ENTRIES
    requires path[1] < ENTRIES && path[2] < ENTRIES
    ensures Walk(mem, root, path[..3]) ==
      if path[0] == path[1] == 0 && path[2] < |pts| then Some(pts[path[2]]) else None
  {
    assert path[..3][..2] == path[..2] && path[..2][..1] == path[..1] && path[..1][..0] == [];
    assert Walk(mem, root, []) == Some(root);
    assert Walk(mem, root, path[..1]) == Follow(mem, root, path[0], 0);
    assert Walk(mem, root, path[..2]) == if path[0] == 0 then Follow(mem, pdp, path[1], 1) else None;
  }

  lemma SomeMachineIsGood() returns (m: Machine)
    ensures Good(m)
  {
    var page: Page := ZeroPage();
    var mem, kernel := [page, page], Kernel(page[LOW_ENTRIES..], map[]);
    var tab: map<Key, nat>, leaves: Leaves := map[Key(1, []) := 1], map[];
    EmptyForest(mem, tab, leaves);
    hide Forest;
    BootedIsGood(mem, tab, leaves, {0}, kernel);
    m := Booted(mem, tab, leaves, {0}, kernel);
  }

  lemma EmptyForest(mem: seq<Page>, tab: map<Key, nat>, leaves: Leaves)
    requires mem == [ZeroPage(), ZeroPage()] && tab == map[Key(1, []) := 1] && leaves == map[]
    ensures Forest(mem, tab, leaves) && Closed(tab, leaves)
  {
    assert Links(mem, tab, leaves, Key(1, [])) by {
      assert mem[1] == ZeroPage();
    }
  }
}
