/** What it means for a tmpfs directory to hold a copy of a listing of the boot image. */
module CopiedTrees {
  import opened Ramdisk
  import opened RamdiskReader
  import opened HeapBlocks
  import opened TmpfsStore
  import opened TmpfsObjects
  import opened TmpfsGrowth
  import opened TmpfsEntries
  import opened CopyCosts

  type Items = map<nat, Item>

  // ---- The tree to copy ----

  // A listing without "." and "..", at every depth.
  function StripAll(ls: seq<Node>): seq<Node>
    decreases ls, 0
  {
    if ls == [] then []
    else StripAll(ls[..|ls| - 1]) + (if IsDot(ls[|ls| - 1]) then [] else [Strip(ls[|ls| - 1])])
  }

  function Strip(e: Node): Node
    decreases e, 1
  {
    match e
    case Regular(_, _) => e
    case Directory(name, listing) => Directory(name, StripAll(listing))
  }

  lemma {:induction false} StripIsReal(ls: seq<Node>)
    ensures |StripAll(ls)| == |Reals(ls)| && forall j :: 0 <= j < |Reals(ls)| ==> StripAll(ls)[j] == Strip(Reals(ls)[j])
    decreases |ls|
  {
    if ls != [] {
      StripIsReal(ls[..|ls| - 1]);
    }
  }

  // Names as tmpfs takes them: not empty, and different within a directory.
  ghost predicate Nameable(ls: seq<Node>)
    decreases ls
  {
    && DistinctNames(Reals(ls))
    && forall n :: 0 <= n < |ls| && !IsDot(ls[n]) ==> ls[n].name != [] && (ls[n].Directory? ==> Nameable(ls[n].listing))
  }

  ghost predicate DistinctNames(rs: seq<Node>) {
    forall i, j :: 0 <= i < j < |rs| ==> rs[i].name != rs[j].name
  }

  // What copying entry e asks of it.
  ghost predicate Copyable(e: Node) {
    e.name != [] && (e.Directory? ==> Nameable(e.listing) && Tidy(e.listing))
  }

  lemma RealCopyable(ls: seq<Node>, j: nat)
    requires Nameable(ls) && Tidy(ls) && j < |Reals(ls)|
    ensures Copyable(Reals(ls)[j])
    ensures Reals(ls)[j] in ls
  {
    var n := RealIndex(ls, j);
  }

  // ---- Space ----

  function FileBlocks(size: nat): nat {
    (size + BLOCK_SIZE - 1) / BLOCK_SIZE
  }

  function InodeOf(e: Node): Inode {
    match e
    case Regular(name, _) => File(name, 0, 2, [])
    case Directory(name, _) => Dir(name, 8, [])
  }

  // Entry e copied as number i of its directory. Each request counts, whether the block stays or
  // not: the directory entry and the node read from the image, the new inode, perhaps a larger
  // table for the directory, the node looked up, and then the contents.
  function NodeCost(e: Node, i: nat): Cost
    decreases e, 1
  {
    var entry := Cost(0, 3, 3 + ObjectPages(InodeOf(e)) + Pages((i + 8) * POINTER_SIZE));
    match e
    case Regular(_, contents) => Plus(entry, FileCost(|contents|))
    case Directory(_, listing) => Plus(entry, TreeCost(listing))
  }

  function FileCost(size: nat): Cost {
    Cost(FileBlocks(size), 0, FullSize(2, FileBlocks(size)))
  }

  function TreeCost(ls: seq<Node>): Cost
    decreases ls, 0
  {
    if ls == [] then Cost(0, 0, 0) else Plus(TreeCost(ls[..|ls| - 1]), NodeCost(ls[|ls| - 1], |ls| - 1))
  }

  lemma {:induction false} TreeCostStep(ls: seq<Node>, i: nat)
    requires i < |ls|
    ensures TreeCost(ls[..i + 1]) == Plus(TreeCost(ls[..i]), NodeCost(ls[i], i))
    ensures TreeCost(ls[..i + 1]).pages <= TreeCost(ls).pages
    decreases |ls| - i
  {
    assert ls[..i + 1][..i] == ls[..i];
    if i + 1 < |ls| {
      TreeCostStep(ls, i + 1);
    } else {
      assert ls[..i + 1] == ls;
    }
  }

  // What it comes to: the blocks of all files, three heap blocks for each node.
  function TreeBlocks(ls: seq<Node>): nat
    decreases ls, 0
  {
    if ls == [] then 0 else TreeBlocks(ls[..|ls| - 1]) + NodeBlocks(ls[|ls| - 1])
  }

  function NodeBlocks(e: Node): nat
    decreases e, 1
  {
    match e
    case Regular(_, contents) => FileBlocks(|contents|)
    case Directory(_, listing) => TreeBlocks(listing)
  }

  function TreeNodes(ls: seq<Node>): nat
    decreases ls, 0
  {
    if ls == [] then 0 else TreeNodes(ls[..|ls| - 1]) + NodeNodes(ls[|ls| - 1])
  }

  function NodeNodes(e: Node): nat
    decreases e, 1
  {
    match e
    case Regular(_, _) => 1
    case Directory(_, listing) => 1 + TreeNodes(listing)
  }

  lemma {:induction false} TreeCostIs(ls: seq<Node>)
    ensures TreeCost(ls).blocks == TreeBlocks(ls) && TreeCost(ls).kept == 3 * TreeNodes(ls)
    decreases ls
  {
    if ls != [] {
      var before, last := ls[..|ls| - 1], ls[|ls| - 1];
      TreeCostIs(before);
      if last.Directory? {
        TreeCostIs(last.listing);
      }
    }
  }

  // ---- The copy ----

  // Directory d lists ls: the same names in order, kinds, file bytes and subdirectories.
  ghost predicate Holds(v: Items, d: nat, ls: seq<Node>, within: set<nat>)
    decreases ls, 0
  {
    && d in v && v[d].Folder? && |v[d].files| == |ls|
    && forall i :: 0 <= i < |ls| ==> Child(v, v[d].files[i], ls[i], within)
  }

  // Inode f is a copy of e; it and all below it are among within.
  ghost predicate Child(v: Items, f: nat, e: Node, within: set<nat>)
    decreases e, 1
  {
    && f in within && f in v
    && match e
       case Regular(name, contents) => v[f] == Plain(name, contents)
       case Directory(name, listing) => v[f].Folder? && v[f].name == name && Holds(v, f, listing, within)
  }

  ghost predicate SameWithin(a: Items, b: Items, within: set<nat>) {
    forall p :: p in within && p in a ==> p in b && b[p] == a[p]
  }

  lemma {:induction false} ChildKept(a: Items, b: Items, f: nat, e: Node, within: set<nat>, more: set<nat>)
    requires Child(a, f, e, within) && SameWithin(a, b, within) && within <= more
    ensures Child(b, f, e, more)
    decreases e
  {
    if e.Directory? {
      forall i | 0 <= i < |e.listing| ensures Child(b, b[f].files[i], e.listing[i], more) {
        ChildKept(a, b, a[f].files[i], e.listing[i], within, more);
      }
    }
  }

  lemma HoldsMore(v: Items, d: nat, ls: seq<Node>, within: set<nat>, more: set<nat>)
    requires Holds(v, d, ls, within) && within <= more
    ensures Holds(v, d, ls, more)
  {
    forall i | 0 <= i < |ls| ensures Child(v, v[d].files[i], ls[i], more) {
      ChildKept(v, v, v[d].files[i], ls[i], within, more);
    }
  }

  // All but directory d, which may have got new entries, is as before.
  ghost predicate Untouched(a: Items, b: Items, d: nat) {
    && (forall p :: p in a && p != d ==> p in b && b[p] == a[p])
    && d in a && d in b && a[d].Folder? && b[d].Folder? && b[d].name == a[d].name
  }

  // One more entry copied into d.
  lemma OneMoreHeld(before: Items, a: Items, b: Items, d: nat, ls: seq<Node>, f: nat, e: Node)
    requires Untouched(before, a, d) && Untouched(a, b, d)
    requires Holds(a, d, ls, a.Keys - before.Keys) && b[d].files == a[d].files + [f]
    requires Child(b, f, e, b.Keys - a.Keys)
    ensures Untouched(before, b, d) && Holds(b, d, ls + [e], b.Keys - before.Keys)
  {
    var all := ls + [e];
    var was, now := a.Keys - before.Keys, b.Keys - before.Keys;
    assert forall p :: p in a ==> p in b;
    assert was <= now && b.Keys - a.Keys <= now by {
      assert forall p :: p in before ==> p in a;
    }
    forall i | 0 <= i < |all| ensures Child(b, b[d].files[i], all[i], now) {
      if i < |ls| {
        ChildKept(a, b, a[d].files[i], ls[i], was, now);
      } else {
        ChildKept(b, b, f, e, b.Keys - a.Keys, now);
      }
    }
  }

  // No entry of d has the name of the entry copied next.
  lemma NextName(v: Items, d: nat, rs: seq<Node>, i: nat, ls: seq<Node>, within: set<nat>, f: nat)
    requires DistinctNames(rs) && i < |rs| && |ls| == |rs| && (forall k :: 0 <= k < |rs| ==> ls[k] == Strip(rs[k]))
    requires Holds(v, d, ls[..i], within) && f in v[d].files
    ensures f in v && v[f].name != rs[i].name
  {
    var k :| 0 <= k < |v[d].files| && v[d].files[k] == f;
    assert Child(v, v[d].files[k], ls[..i][k], within);
  }
}
