/** Page-table words, the four-level walk and the flat view of a forest of page tables. */
module PageTables {
  import opened Wrappers

  const ENTRIES := 512
  const LOW_ENTRIES := 256  // root entries below the kernel half

  // The bit fields of pagemap_entry_t; together they make up the whole 64-bit word, so any
  // word of memory can be read this way.
  datatype Word = Word(present: bool, writable: bool, user: bool, writethrough: bool, nocache: bool,
                       accessed: bool, available0: bool, size: bool, global: bool, cow: bool,
                       available1: nat, page: nat, reserved: nat, available2: nat, noexec: bool)

  const ZERO := Word(false, false, false, false, false, false, false, false, false, false, 0, 0, 0, 0, false)

  // new_page | USER_PML_ACCESS
  function TableWord(frame: nat): Word {
    ZERO.(present := true, writable := true, user := true, page := frame)
  }

  type Page = p: seq<Word> | |p| == ENTRIES witness seq(ENTRIES, _ => ZERO)

  function ZeroPage(): (p: Page)
    ensures forall i: nat :: i < ENTRIES ==> p[i] == ZERO
  {
    seq(ENTRIES, _ => ZERO)
  }

  // A table, or one slot of it: the indices that lead there from the root of directory dir.
  // Tables have paths of length 0 (root) to 3, leaf slots have paths of length 4.
  datatype Key = Key(dir: nat, path: seq<nat>)

  function Child(k: Key, i: nat): (c: Key)
    ensures |c.path| == |k.path| + 1 && c.dir == k.dir
    ensures Parent(c) == k && Last(c) == i
  {
    var c := Key(k.dir, k.path + [i]);
    assert c.path[..|k.path|] == k.path;
    c
  }

  function Parent(c: Key): (k: Key)
    requires c.path != []
    ensures k.dir == c.dir && |k.path| == |c.path| - 1
  {
    Key(c.dir, c.path[..|c.path| - 1])
  }

  function Last(c: Key): nat
    requires c.path != []
  {
    c.path[|c.path| - 1]
  }

  lemma ChildOfParent(c: Key)
    requires c.path != []
    ensures Child(Parent(c), Last(c)) == c
  {
    assert c.path == c.path[..|c.path| - 1] + [Last(c)];
  }

  function Limit(level: nat): nat {
    if level == 0 then LOW_ENTRIES else ENTRIES
  }

  // A path that a walk of the lower half can take.
  predicate InRange(path: seq<nat>) {
    forall n :: 0 <= n < |path| ==> path[n] < Limit(n)
  }

  // s lies in the table at k, below one of its first n entries.
  predicate Below(k: Key, n: nat, s: Key) {
    s.dir == k.dir && |k.path| < |s.path| && s.path[..|k.path|] == k.path && s.path[|k.path|] < n
  }

  predicate Under(k: Key, s: Key) {
    s.dir == k.dir && |k.path| < |s.path| && s.path[..|k.path|] == k.path
  }

  lemma UnderChild(k: Key, i: nat)
    ensures Under(k, Child(k, i)) && Child(k, i) != k
  {
  }

  lemma BelowStep(k: Key, i: nat, s: Key)
    ensures Below(k, i + 1, s) <==> Below(k, i, s) || s == Child(k, i) || Under(Child(k, i), s)
    ensures !Below(k, i, Child(k, i))
    ensures Under(Child(k, i), s) ==> !Below(k, i, s) && s != Child(k, i)
  {
    var c := Child(k, i);
    if Under(k, s) && s.path[|k.path|] == i {
      assert s.path[..|c.path|] == k.path + [i];
      if |s.path| == |c.path| {
        assert s.path == s.path[..|c.path|];
      }
    }
    if Under(c, s) {
      assert s.path[..|k.path|] == s.path[..|c.path|][..|k.path|];
      assert s.path[|k.path|] == s.path[..|c.path|][|k.path|];
    }
  }

  // ---- The forest: tab gives the frame of every table of every live directory ----

  // From entry n on, a non-leaf table points exactly at its recorded children.
  ghost predicate TableLinks(page: Page, tab: map<Key, nat>, k: Key, n: nat) {
    forall i: nat {:trigger Child(k, i)} :: n <= i < Limit(|k.path|) ==>
      && (page[i].present <==> Child(k, i) in tab)
      && (page[i].present ==> page[i].page == tab[Child(k, i)] && !page[i].size)
  }

  // From entry n on, a leaf table holds exactly the recorded leaf words.
  ghost predicate LeafLinks(page: Page, leaves: map<Key, Word>, k: Key, n: nat) {
    forall i: nat {:trigger Child(k, i)} :: n <= i < ENTRIES ==>
      && (page[i].present <==> Child(k, i) in leaves)
      && (page[i].present ==> page[i] == leaves[Child(k, i)])
      && (!page[i].present ==> page[i].page == 0 && !page[i].cow)
  }

  ghost predicate Links(mem: seq<Page>, tab: map<Key, nat>, leaves: map<Key, Word>, k: Key)
    requires k in tab && tab[k] < |mem|
  {
    if |k.path| < 3 then TableLinks(mem[tab[k]], tab, k, 0) else LeafLinks(mem[tab[k]], leaves, k, 0)
  }

  // No two tables in one frame.
  ghost predicate Injective(tab: map<Key, nat>) {
    forall k, k' :: k in tab && k' in tab && tab[k] == tab[k'] ==> k == k'
  }

  ghost predicate Forest(mem: seq<Page>, tab: map<Key, nat>, leaves: map<Key, Word>) {
    && (forall k :: k in tab ==> |k.path| <= 3 && InRange(k.path) && 0 < tab[k] < |mem|)
    && (forall s :: s in leaves ==> |s.path| == 4 && InRange(s.path) && (leaves[s].cow ==> leaves[s].user))
    && Injective(tab)
    && (forall k :: k in tab ==> Links(mem, tab, leaves, k))
  }

  // Nothing in the forest hangs in the air.
  ghost predicate Closed(tab: map<Key, nat>, leaves: map<Key, Word>) {
    && (forall k :: k in tab && k.path == [] ==> tab[k] == k.dir)
    && (forall k {:trigger Parent(k)} :: k in tab && k.path != [] ==> Parent(k) in tab)
    && (forall s :: s in leaves ==> s.path != [] && Parent(s) in tab)
  }

  // ---- The walk, over any memory ----

  // One level of a walk: only second- and third-level entries may be large pages.
  function Follow(mem: seq<Page>, t: nat, i: nat, level: nat): Option<nat> {
    if t < |mem| && i < ENTRIES && mem[t][i].present && !(level > 0 && mem[t][i].size)
    then Some(mem[t][i].page)
    else None
  }

  // The frame of the table at path, as mmu_lookup_frame_from follows it.
  function Walk(mem: seq<Page>, root: nat, path: seq<nat>): Option<nat>
    decreases |path|
  {
    if path == [] then
      if root < |mem| then Some(root) else None
    else
      match Walk(mem, root, path[..|path| - 1])
      case None => None
      case Some(t) => Follow(mem, t, path[|path| - 1], |path| - 1)
  }

  // In the lower half, walking memory and looking the table up in the flat view agree.
  lemma {:induction false} WalkIsLookup(mem: seq<Page>, tab: map<Key, nat>, leaves: map<Key, Word>, dir: nat,
                                        path: seq<nat>)
    requires Forest(mem, tab, leaves) && Closed(tab, leaves) && Key(dir, []) in tab
    requires |path| <= 3 && InRange(path)
    ensures Walk(mem, dir, path) == if Key(dir, path) in tab then Some(tab[Key(dir, path)]) else None
    decreases |path|
  {
    if path != [] {
      var k, last := Key(dir, path[..|path| - 1]), path[|path| - 1];
      WalkIsLookup(mem, tab, leaves, dir, k.path);
      assert Parent(Key(dir, path)) == k;
      ChildOfParent(Key(dir, path));
      var c := Child(k, last);
      if k in tab {
        assert Links(mem, tab, leaves, k);
      }
    }
  }

  // ---- Virtual addresses ----

  const CANONICAL := 0x1_0000_0000_0000

  // The four table indices of a virtual address.
  function Indices(address: nat): (path: seq<nat>)
    ensures |path| == 4 && forall n :: 0 <= n < 4 ==> path[n] < ENTRIES
  {
    var page := address % CANONICAL / 0x1000;
    [page / 0x800_0000 % ENTRIES, page / 0x4_0000 % ENTRIES, page / 0x200 % ENTRIES, page % ENTRIES]
  }

  // (i << 39) | (j << 30) | (k << 21) | (l << 12)
  function Recombine(path: seq<nat>): nat
    requires |path| == 4
  {
    path[0] * 0x80_0000_0000 + path[1] * 0x4000_0000 + path[2] * 0x20_0000 + path[3] * 0x1000
  }

  lemma RecombineSplits(path: seq<nat>)
    requires |path| == 4 && forall n :: 0 <= n < 4 ==> path[n] < ENTRIES
    ensures Recombine(path) < CANONICAL && Indices(Recombine(path)) == path
  {
    var a := path[0];
    var b := a * 0x200 + path[1];
    var c := b * 0x200 + path[2];
    var page := c * 0x200 + path[3];
    OneIndex(a, path[1]);
    OneIndex(b, path[2]);
    OneIndex(c, path[3]);
    assert Recombine(path) == page * 0x1000;
    IndicesOfPage(page);
    DivideTwice(page);
    DivideTwice(page / 0x200);
    hide Indices, Recombine;
    assert page / 0x800_0000 == a && page / 0x4_0000 == b && page / 0x200 == c;
  }

  lemma IndicesOfPage(page: nat)
    requires page < 0x10_0000_0000
    ensures page * 0x1000 < CANONICAL
    ensures Indices(page * 0x1000) ==
      [page / 0x800_0000 % ENTRIES, page / 0x4_0000 % ENTRIES, page / 0x200 % ENTRIES, page % ENTRIES]
  {
    assert page * 0x1000 % CANONICAL / 0x1000 == page;
  }

  lemma DivideTwice(page: nat)
    ensures page / 0x4_0000 == page / 0x200 / 0x200 && page / 0x800_0000 == page / 0x200 / 0x4_0000
  {
  }

  lemma OneIndex(high: nat, low: nat)
    requires low < ENTRIES
    ensures (high * 0x200 + low) / 0x200 == high && (high * 0x200 + low) % ENTRIES == low
  {
  }

  lemma SplitRecombines(address: nat)
    ensures Recombine(Indices(address)) == address % CANONICAL / 0x1000 * 0x1000
  {
    var page := address % CANONICAL / 0x1000;
    DivideTwice(page);
    DivideTwice(page / 0x200);
    assert page / 0x800_0000 < 0x200;
  }

  // Two addresses share a leaf slot of a directory exactly when they are on the same page.
  lemma SlotsAreDistinct(mem: seq<Page>, tab: map<Key, nat>, leaves: map<Key, Word>, dir: nat, a: nat, b: nat)
    requires Forest(mem, tab, leaves) && Closed(tab, leaves) && Key(dir, []) in tab
    requires Indices(a)[0] < LOW_ENTRIES && Indices(b)[0] < LOW_ENTRIES
    requires Walk(mem, dir, Indices(a)[..3]).Some? && Walk(mem, dir, Indices(b)[..3]).Some?
    ensures (Walk(mem, dir, Indices(a)[..3]) == Walk(mem, dir, Indices(b)[..3]) && Indices(a)[3] == Indices(b)[3])
            <==> a % CANONICAL / 0x1000 == b % CANONICAL / 0x1000
  {
    WalkIsLookup(mem, tab, leaves, dir, Indices(a)[..3]);
    WalkIsLookup(mem, tab, leaves, dir, Indices(b)[..3]);
    SplitRecombines(a);
    SplitRecombines(b);
    if Indices(a)[..3] == Indices(b)[..3] && Indices(a)[3] == Indices(b)[3] {
      assert Indices(a) == Indices(a)[..3] + [Indices(a)[3]];
      assert Indices(b) == Indices(b)[..3] + [Indices(b)[3]];
    }
  }
}
