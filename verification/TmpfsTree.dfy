/** How the directory tree of the in-memory filesystem changes. */
module TmpfsTree {
  import opened ByteStrings
  import opened Wrappers
  import opened TmpfsStore

  // ---- Hanging inodes in directories and taking them out ----

  ghost function Children(inodes: Inodes, d: nat): seq<nat>
    requires d in inodes
  {
    FilesOf(inodes[d])
  }

  // Whether directory d has an entry of that name.
  ghost predicate Listed(inodes: Inodes, d: nat, name: Bytes)
    requires d in inodes
  {
    exists i :: 0 <= i < |Children(inodes, d)| && Children(inodes, d)[i] in inodes
      && inodes[Children(inodes, d)[i]].name == name
  }

  ghost function Hung(s: Store, d: nat, f: nat, n: Inode, capacity: nat): Store
    requires d in s.inodes && s.inodes[d].Dir?
  {
    s.(inodes := s.inodes[f := n][d := Dir(s.inodes[d].name, capacity, s.inodes[d].files + [f])],
      home := s.home[f := d])
  }

  lemma HungTree(s: Store, d: nat, f: nat, n: Inode, capacity: nat)
    requires Tree(s.inodes, s.root, s.home) && d in s.inodes && s.inodes[d].Dir? && f !in s.inodes
    requires FilesOf(n) == [] && !Listed(s.inodes, d, n.name) && |s.inodes[d].files| < capacity
    requires f !in s.home && f !in s.inodes[d].files
    ensures var t := Hung(s, d, f, n, capacity); Tree(t.inodes, t.root, t.home)
  {
    hide Homes, Listing, Listed;
    var t := Hung(s, d, f, n, capacity);
    forall e | e in t.inodes ensures Listing(t.inodes, t.inodes[e]) {
      HungListing(s, d, f, n, capacity, e);
    }
    HungHomes(s, d, f, n, capacity);
  }

  lemma HungListing(s: Store, d: nat, f: nat, n: Inode, capacity: nat, e: nat)
    requires d in s.inodes && s.inodes[d].Dir? && f !in s.inodes && (e in s.inodes || e == f)
    requires Listing(s.inodes, s.inodes[d]) && (e in s.inodes ==> Listing(s.inodes, s.inodes[e]))
    requires FilesOf(n) == [] && !Listed(s.inodes, d, n.name) && |s.inodes[d].files| < capacity
    ensures var t := Hung(s, d, f, n, capacity); Listing(t.inodes, t.inodes[e])
  {
    var a, b := s.inodes, Hung(s, d, f, n, capacity).inodes;
    assert forall q :: q in a ==> q in b && b[q].name == a[q].name;
    if e == d {
      var files := a[d].files;
      forall i | 0 <= i < |files| ensures files[i] != f && b[files[i]].name != n.name {
        assert files[i] in a && Children(a, d)[i] == files[i];
      }
    } else if e != f {
      ListingKept(a, b, a[e], b[e]);
    }
  }

  lemma HungHomes(s: Store, d: nat, f: nat, n: Inode, capacity: nat)
    requires Homes(s.inodes, s.home) && d in s.inodes && s.inodes[d].Dir? && f !in s.inodes && FilesOf(n) == []
    requires f !in s.home
    requires f !in FilesOf(s.inodes[d])
    ensures var t := Hung(s, d, f, n, capacity); Homes(t.inodes, t.home)
  {
    var a, b := s.inodes, Hung(s, d, f, n, capacity).inodes;
    var files := s.inodes[d].files;
    assert FilesOf(b[d]) == files + [f] && FilesOf(a[d]) == files;
    assert forall q :: q in files + [f] <==> q in files || q == f;
    assert forall e :: e in a && e != d ==> FilesOf(b[e]) == FilesOf(a[e]);
    hide FilesOf, Housed, Housing;
    MoreHoused(a, b, s.home, d, f);
    MoreHousing(a, b, s.home, d, f);
  }

  lemma MoreHoused(a: Inodes, b: Inodes, home: map<nat, nat>, d: nat, f: nat)
    requires Housed(a, home) && d in a && b.Keys == a.Keys + {f} && f !in a && f !in home
    requires forall q :: q in FilesOf(b[d]) <==> q in FilesOf(a[d]) || q == f
    requires forall e :: e in a && e != d ==> FilesOf(b[e]) == FilesOf(a[e])
    ensures Housed(b, home[f := d])
  {
    hide FilesOf;
    forall p | p in home && p != f ensures home[p] in b && p in FilesOf(b[home[p]]) {
      var e := home[p];
      assert e in a && p in FilesOf(a[e]);
    }
  }

  lemma MoreHousing(a: Inodes, b: Inodes, home: map<nat, nat>, d: nat, f: nat)
    requires Housing(a, home) && d in a && b.Keys == a.Keys + {f} && f !in a && f !in home && FilesOf(b[f]) == []
    requires forall q :: q in FilesOf(b[d]) <==> q in FilesOf(a[d]) || q == f
    requires forall e :: e in a && e != d ==> FilesOf(b[e]) == FilesOf(a[e])
    ensures Housing(b, home[f := d])
  {
    hide FilesOf;
    forall e, p | e in b && p in FilesOf(b[e]) ensures p in home[f := d] && home[f := d][p] == e {
      assert e == f || p == f || p in FilesOf(a[e]);
    }
  }

  lemma NotYetHung(s: Store, d: nat, f: nat)
    requires Tree(s.inodes, s.root, s.home) && d in s.inodes && f !in s.inodes
    ensures f !in FilesOf(s.inodes[d]) && f !in s.home
  {
    hide Homes;
    assert Listing(s.inodes, s.inodes[d]);
  }

  // A new inode without blocks, hung in directory d.
  lemma HungKeeps(s: Store, d: nat, f: nat, n: Inode, capacity: nat)
    requires Valid(s) && d in s.inodes && s.inodes[d].Dir? && f !in s.inodes
    requires FilesOf(n) == [] && BlocksOf(n) == [] && Roomy(n) && Fitting(n)
    requires !Listed(s.inodes, d, n.name) && |s.inodes[d].files| < capacity
    ensures var t := Hung(s, d, f, n, capacity);
      Valid(t) && View(t) == View(s)[f := ItemOf(s.mem, n)][d := Folder(s.inodes[d].name, s.inodes[d].files + [f])]
  {
    hide Tree, Listed, Apart, Frames, BlockSum, ItemOf;
    NotYetHung(s, d, f);
    HungTree(s, d, f, n, capacity);
    var t := Hung(s, d, f, n, capacity);
    HungFrames(s.inodes, t.inodes, d, f);
    forall q | q in t.inodes ensures Roomy(t.inodes[q]) && Fitting(t.inodes[q]) {
      assert q == d || q == f || (q in s.inodes && t.inodes[q] == s.inodes[q]);
    }
    HungSeen(s, d, f, n, capacity);
  }

  lemma HungSeen(s: Store, d: nat, f: nat, n: Inode, capacity: nat)
    requires d in s.inodes && s.inodes[d].Dir? && f !in s.inodes
    requires forall q :: q in s.inodes ==> Fitting(s.inodes[q])
    requires var t := Hung(s, d, f, n, capacity); forall q :: q in t.inodes ==> Fitting(t.inodes[q])
    ensures Fitting(n)
    ensures View(Hung(s, d, f, n, capacity)) ==
      View(s)[f := ItemOf(s.mem, n)][d := Folder(s.inodes[d].name, s.inodes[d].files + [f])]
  {
    var t := Hung(s, d, f, n, capacity);
    assert t.inodes[f] == n && t.inodes[d] == Dir(s.inodes[d].name, capacity, s.inodes[d].files + [f]);
    assert forall q :: q in s.inodes && q != d ==> t.inodes[q] == s.inodes[q];
    assert ItemOf(t.mem, t.inodes[d]) == Folder(s.inodes[d].name, s.inodes[d].files + [f]);
    hide ItemOf;
  }

  lemma HungFrames(a: Inodes, b: Inodes, d: nat, f: nat)
    requires f !in a && b.Keys == a.Keys + {f} && BlocksOf(b[f]) == []
    requires forall q :: q in a ==> BlocksOf(b[q]) == BlocksOf(a[q])
    ensures Frames(a) == Frames(b) && (Apart(a) ==> Apart(b)) && BlockSum(b, b.Keys) == BlockSum(a, a.Keys)
  {
    var rest := b - {f};
    assert rest.Keys == a.Keys;
    FramesSame(a, rest);
    BlockSumSame(a, rest, a.Keys);
    FramesWithout(b, f);
    BlockSumStep(rest, b, f);
  }

  // ---- Taking out ----

  // --files_count, the entries behind moved up; the inode is freed.
  ghost function Pruned(inodes: Inodes, d: nat, i: nat): Inodes
    requires d in inodes && inodes[d].Dir? && i < |inodes[d].files|
  {
    var n := inodes[d];
    inodes[d := Dir(n.name, n.capacity, n.files[..i] + n.files[i + 1..])] - {n.files[i]}
  }

  lemma PrunedTree(s: Store, d: nat, i: nat)
    requires Tree(s.inodes, s.root, s.home) && d in s.inodes && s.inodes[d].Dir? && i < |s.inodes[d].files|
    requires s.inodes[d].files[i] in s.inodes && !s.inodes[s.inodes[d].files[i]].Dir?
    ensures Tree(Pruned(s.inodes, d, i), s.root, s.home - {s.inodes[d].files[i]})
  {
    hide Homes;
    var f, b := s.inodes[d].files[i], Pruned(s.inodes, d, i);
    assert f in FilesOf(s.inodes[d]) && Listing(s.inodes, s.inodes[d]);
    assert Distinct(s.inodes[d].files);
    hide Listing;
    OneHome(s.inodes, s.home, d, d, f);
    forall e | e in b ensures Listing(b, b[e]) {
      PrunedListing(s, d, i, e);
    }
    PrunedHomes(s, d, i);
  }

  lemma WithoutOne(files: seq<nat>, i: nat)
    requires Distinct(files) && i < |files|
    ensures Distinct(files[..i] + files[i + 1..])
    ensures forall q :: q in files[..i] + files[i + 1..] <==> q in files && q != files[i]
  {
    var rest := files[..i] + files[i + 1..];
    assert forall k :: 0 <= k < |rest| ==> rest[k] == files[if k < i then k else k + 1];
    forall q | q in files && q != files[i] ensures q in rest {
      var k :| 0 <= k < |files| && files[k] == q;
      assert rest[if k < i then k else k - 1] == q;
    }
  }

  lemma OneHome(inodes: Inodes, home: map<nat, nat>, d: nat, e: nat, f: nat)
    requires Homes(inodes, home) && d in inodes && e in inodes && f in FilesOf(inodes[d]) && f in FilesOf(inodes[e])
    ensures d == e == home[f]
  {
  }

  lemma PrunedListing(s: Store, d: nat, i: nat, e: nat)
    requires Homes(s.inodes, s.home) && d in s.inodes && s.inodes[d].Dir? && i < |s.inodes[d].files|
    requires Listing(s.inodes, s.inodes[d]) && e in s.inodes && Listing(s.inodes, s.inodes[e])
    requires e != s.inodes[d].files[i]
    requires s.inodes[d].files[i] != d
    ensures Listing(Pruned(s.inodes, d, i), Pruned(s.inodes, d, i)[e])
  {
    hide Homes;
    var a, b, f := s.inodes, Pruned(s.inodes, d, i), s.inodes[d].files[i];
    var files, now := FilesOf(a[e]), FilesOf(b[e]);
    FilesPruned(s, d, i, e);
    assert forall q :: q in a && q != f ==> q in b && b[q].name == a[q].name;
    WithoutOne(a[d].files, i);
    assert forall k :: 0 <= k < |now| ==> now[k] == files[if e != d || k < i then k else k + 1];
    forall k | 0 <= k < |now| ensures now[k] in b && b[now[k]].name == a[now[k]].name {
      assert now[k] in now;
    }
  }

  lemma FilesPruned(s: Store, d: nat, i: nat, e: nat)
    requires Homes(s.inodes, s.home) && d in s.inodes && s.inodes[d].Dir? && i < |s.inodes[d].files|
    requires Distinct(s.inodes[d].files) && e in s.inodes && e != s.inodes[d].files[i]
    ensures e in Pruned(s.inodes, d, i)
    ensures forall q :: q in FilesOf(Pruned(s.inodes, d, i)[e]) <==>
      q in FilesOf(s.inodes[e]) && q != s.inodes[d].files[i]
  {
    var f := s.inodes[d].files[i];
    assert f in FilesOf(s.inodes[d]);
    if f in FilesOf(s.inodes[e]) {
      OneHome(s.inodes, s.home, d, e, f);
    }
    hide Homes;
    WithoutOne(s.inodes[d].files, i);
  }

  lemma PrunedHomes(s: Store, d: nat, i: nat)
    requires Homes(s.inodes, s.home) && d in s.inodes && s.inodes[d].Dir? && i < |s.inodes[d].files|
    requires Distinct(s.inodes[d].files) && s.inodes[d].files[i] in s.inodes && !s.inodes[s.inodes[d].files[i]].Dir?
    ensures Homes(Pruned(s.inodes, d, i), s.home - {s.inodes[d].files[i]})
  {
    hide Housed, Housing, Distinct;
    var a, b, f := s.inodes, Pruned(s.inodes, d, i), s.inodes[d].files[i];
    forall e | e in b ensures e in a && e != f && forall q :: q in FilesOf(b[e]) <==> q in FilesOf(a[e]) && q != f {
      FilesPruned(s, d, i, e);
    }
    FewerHoused(a, b, s.home, f);
    FewerHousing(a, b, s.home, f);
  }

  lemma FewerHoused(a: Inodes, b: Inodes, home: map<nat, nat>, f: nat)
    requires Housed(a, home) && b.Keys == a.Keys - {f} && (f in a ==> FilesOf(a[f]) == [])
    requires forall e :: e in b ==> forall q :: q in FilesOf(b[e]) <==> q in FilesOf(a[e]) && q != f
    ensures Housed(b, home - {f})
  {
    forall p | p in home && p != f ensures home[p] in b && p in FilesOf(b[home[p]]) {
      var e := home[p];
      assert e in a && p in FilesOf(a[e]);
    }
  }

  lemma FewerHousing(a: Inodes, b: Inodes, home: map<nat, nat>, f: nat)
    requires Housing(a, home) && b.Keys == a.Keys - {f}
    requires forall e :: e in b ==> forall q :: q in FilesOf(b[e]) <==> q in FilesOf(a[e]) && q != f
    ensures Housing(b, home - {f})
  {
    forall e, p | e in b && p in FilesOf(b[e]) ensures p in home && p != f && home[p] == e {
      assert e in a && p in FilesOf(a[e]);
    }
  }

  // The inode at place i of directory d unlinked and its blocks released.
  lemma PrunedKeeps(a: Store, b: Store, d: nat, i: nat)
    requires Valid(a) && d in a.inodes && a.inodes[d].Dir? && i < |a.inodes[d].files|
    requires a.inodes[d].files[i] in a.inodes && !a.inodes[a.inodes[d].files[i]].Dir?
    requires var f := a.inodes[d].files[i];
      && b.inodes == Pruned(a.inodes, d, i) && b.home == a.home - {f} && b.root == a.root && b.mem == a.mem
      && b.reserved == a.reserved
      && b.locked == a.locked - Elements(BlocksOf(a.inodes[f])) && b.total == a.total - |BlocksOf(a.inodes[f])|
    ensures var f := a.inodes[d].files[i]; var files := a.inodes[d].files;
      Valid(b) && View(b) == View(a)[d := Folder(a.inodes[d].name, files[..i] + files[i + 1..])] - {f}
  {
    hide Tree, Held, View;
    PrunedTree(a, d, i);
    PrunedHeld(a, b, d, i);
    PrunedSeen(a, b, d, i);
    forall q | q in b.inodes ensures Roomy(b.inodes[q]) {
      assert q in a.inodes;
    }
  }

  lemma PrunedHeld(a: Store, b: Store, d: nat, i: nat)
    requires Held(a) && d in a.inodes && a.inodes[d].Dir? && i < |a.inodes[d].files|
    requires a.inodes[d].files[i] in a.inodes && !a.inodes[a.inodes[d].files[i]].Dir?
    requires var f := a.inodes[d].files[i];
      && b.inodes == Pruned(a.inodes, d, i) && b.mem == a.mem && b.reserved == a.reserved
      && b.locked == a.locked - Elements(BlocksOf(a.inodes[f])) && b.total == a.total - |BlocksOf(a.inodes[f])|
    ensures Held(b)
  {
    var f, files := a.inodes[d].files[i], a.inodes[d].files;
    var c := a.(inodes := a.inodes[d := Dir(a.inodes[d].name, a.inodes[d].capacity, files[..i] + files[i + 1..])]);
    FramesSame(a.inodes, c.inodes);
    BlockSumSame(a.inodes, c.inodes, a.inodes.Keys);
    assert c.inodes.Keys == a.inodes.Keys;
    hide Apart, Frames, BlockSum, Elements;
    assert Held(c);
    assert b.inodes - {f} == c.inodes - {f};
    ReleasedHeld(c, b, f);
  }

  lemma PrunedSeen(a: Store, b: Store, d: nat, i: nat)
    requires d in a.inodes && a.inodes[d].Dir? && i < |a.inodes[d].files| && a.inodes[d].files[i] in a.inodes
    requires !a.inodes[a.inodes[d].files[i]].Dir?
    requires b.inodes == Pruned(a.inodes, d, i) && b.mem == a.mem
    requires forall q :: q in a.inodes ==> Fitting(a.inodes[q])
    ensures forall q :: q in b.inodes ==> Fitting(b.inodes[q])
    ensures var f := a.inodes[d].files[i]; var files := a.inodes[d].files;
      View(b) == View(a)[d := Folder(a.inodes[d].name, files[..i] + files[i + 1..])] - {f}
  {
    assert ItemOf(b.mem, b.inodes[d]) == Folder(a.inodes[d].name, b.inodes[d].files);
    hide ItemOf;
    assert forall q :: q in b.inodes ==> q in a.inodes && (q != d ==> b.inodes[q] == a.inodes[q]);
  }

  // ---- Directories as callers see them ----

  // A new entry at the end of directory d.
  ghost function Added(a: map<nat, Item>, d: nat, f: nat, item: Item): map<nat, Item>
    requires d in a && a[d].Folder?
  {
    a[f := item][d := a[d].(files := a[d].files + [f])]
  }

  // Entry i of directory d gone, the others in their order.
  ghost function Removed(a: map<nat, Item>, d: nat, i: nat): map<nat, Item>
    requires d in a && a[d].Folder? && i < |a[d].files|
  {
    a[d := a[d].(files := a[d].files[..i] + a[d].files[i + 1..])] - {a[d].files[i]}
  }

  // Where the entries of a directory are after one came or went: a new one is the last, and those
  // behind a removed one move up by one.
  lemma EntriesMove(a: map<nat, Item>, d: nat, f: nat, item: Item, i: nat)
    requires d in a && a[d].Folder? && i < |a[d].files| && f !in a && a[d].files[i] != d
    ensures var files, more, fewer := a[d].files, Added(a, d, f, item), Removed(a, d, i);
      && more.Keys == a.Keys + {f} && more[f] == item && fewer.Keys == a.Keys - {files[i]}
      && more[d].Folder? && more[d].name == a[d].name && fewer[d].Folder? && fewer[d].name == a[d].name
      && |more[d].files| == |files| + 1 && |fewer[d].files| == |files| - 1
      && (forall k :: 0 <= k <= |files| ==> more[d].files[k] == if k < |files| then files[k] else f)
      && (forall k :: 0 <= k < |files| - 1 ==> fewer[d].files[k] == files[if k < i then k else k + 1])
      && forall p :: p in a && p != d ==> more[p] == a[p] && (p != files[i] ==> fewer[p] == a[p])
  {
  }

  ghost predicate Named(v: map<nat, Item>, d: nat, name: Bytes, f: nat) {
    d in v && v[d].Folder? && f in v[d].files && f in v && v[f].name == name
  }

  // The answer to a lookup: the one entry of that name, or that there is none.
  ghost predicate Finds(v: map<nat, Item>, d: nat, name: Bytes, found: Option<nat>) {
    (found.Some? ==> Named(v, d, name, found.value)) && forall f: nat :: Named(v, d, name, f) ==> found == Some(f)
  }

  // Entry number index of a directory as readdir counts: "." and ".." first, except in the root.
  ghost function EntryName(v: map<nat, Item>, root: nat, d: nat, index: nat): Option<Bytes> {
    if d != root && index == 0 then Some(['.' as int])
    else if d != root && index == 1 then Some(['.' as int, '.' as int])
    else
      var k := if d == root then index else index - 2;
      if d in v && v[d].Folder? && k < |v[d].files| && v[d].files[k] in v then Some(v[v[d].files[k]].name) else None
  }

  lemma ViewOfDir(s: Store, d: nat)
    requires Valid(s) && d in s.inodes && s.inodes[d].Dir?
    ensures d in View(s) && View(s)[d] == Folder(s.inodes[d].name, s.inodes[d].files)
    ensures View(s).Keys == s.inodes.Keys
    ensures forall f :: f in s.inodes ==> View(s)[f].name == s.inodes[f].name
    ensures forall k :: 0 <= k < |s.inodes[d].files| ==> s.inodes[d].files[k] in s.inodes
  {
    ChildrenExist(s, d);
    hide Consistent, Flat;
  }

  lemma ChildrenExist(s: Store, d: nat)
    requires Valid(s) && d in s.inodes && s.inodes[d].Dir?
    ensures forall k :: 0 <= k < |s.inodes[d].files| ==> s.inodes[d].files[k] in s.inodes
  {
    hide Homes, Held;
    assert Listing(s.inodes, s.inodes[d]);
  }

  lemma CapacityAt(s: Store, d: nat)
    requires Valid(s) && d in s.inodes && s.inodes[d].Dir?
    ensures |s.inodes[d].files| <= s.inodes[d].capacity
  {
    hide Homes, Held;
    assert Listing(s.inodes, s.inodes[d]);
  }

  lemma NamesUnique(s: Store, d: nat)
    requires Valid(s) && d in s.inodes && s.inodes[d].Dir?
    ensures forall f, g :: f in s.inodes[d].files && g in s.inodes[d].files && f in s.inodes && g in s.inodes ==>
      s.inodes[f].name == s.inodes[g].name ==> f == g
  {
    hide Homes, Held;
    assert Listing(s.inodes, s.inodes[d]);
  }

  // What a directory lists, from index 0 on: "." and ".." outside the root, then the names of its
  // entries in their order, and nothing after them. No name comes twice, and looking one up gives
  // the entry it was listed for.
  lemma DirectoryListing(s: Store, d: nat)
    requires Valid(s) && d in s.inodes && s.inodes[d].Dir?
    ensures d in View(s) && View(s)[d].Folder?
    ensures var v := View(s); var files := v[d].files; var first := if d == s.root then 0 else 2;
      && (d != s.root ==> EntryName(v, s.root, d, 0) == Some(['.' as int]))
      && (d != s.root ==> EntryName(v, s.root, d, 1) == Some(['.' as int, '.' as int]))
      && (forall k: nat :: k < |files| ==>
            files[k] in v && EntryName(v, s.root, d, first + k) == Some(v[files[k]].name))
      && (forall i: nat :: first + |files| <= i ==> EntryName(v, s.root, d, i) == None)
      && (forall k, l :: 0 <= k < l < |files| && files[k] in v && files[l] in v ==>
            v[files[k]].name != v[files[l]].name)
      && forall k: nat, found: Option<nat> :: k < |files| && files[k] in v ==>
           Finds(v, d, v[files[k]].name, found) ==> found == Some(files[k])
  {
    hide Consistent, ItemOf, Roomy, EntryName, Finds;
    ViewOfDir(s, d);
    ChildrenExist(s, d);
    NamesUnique(s, d);
    FilesDiffer(s, d);
    ItemsListed(View(s), s.root, d);
  }

  lemma ItemsListed(v: map<nat, Item>, root: nat, d: nat)
    requires d in v && v[d].Folder? && forall k :: 0 <= k < |v[d].files| ==> v[d].files[k] in v
    ensures var files := v[d].files; var first := if d == root then 0 else 2;
      && (d != root ==> EntryName(v, root, d, 0) == Some(['.' as int]))
      && (d != root ==> EntryName(v, root, d, 1) == Some(['.' as int, '.' as int]))
      && (forall k: nat :: k < |files| ==> EntryName(v, root, d, first + k) == Some(v[files[k]].name))
      && (forall i: nat :: first + |files| <= i ==> EntryName(v, root, d, i) == None)
      && forall k: nat, found: Option<nat> :: k < |files| ==>
           Finds(v, d, v[files[k]].name, found) ==> found == Some(files[k])
  {
    var files := v[d].files;
    forall k: nat, found: Option<nat> | k < |files| && Finds(v, d, v[files[k]].name, found)
      ensures found == Some(files[k])
    {
      assert Named(v, d, v[files[k]].name, files[k]);
    }
  }

  lemma FilesDiffer(s: Store, d: nat)
    requires Valid(s) && d in s.inodes && s.inodes[d].Dir?
    ensures Distinct(s.inodes[d].files)
  {
    hide Homes, Held;
    assert Listing(s.inodes, s.inodes[d]);
  }

  lemma FoundListed(inodes: Inodes, d: nat, name: Bytes, i: nat)
    requires d in inodes && i < |FilesOf(inodes[d])| && FilesOf(inodes[d])[i] in inodes
    requires inodes[FilesOf(inodes[d])[i]].name == name
    ensures Listed(inodes, d, name)
  {
    assert Children(inodes, d)[i] in inodes;
  }

  lemma NotListed(inodes: Inodes, d: nat, name: Bytes)
    requires d in inodes
    requires forall k :: 0 <= k < |FilesOf(inodes[d])| && FilesOf(inodes[d])[k] in inodes ==>
      inodes[FilesOf(inodes[d])[k]].name != name
    ensures !Listed(inodes, d, name)
  {
  }

  lemma EmptyFile(mem: seq<Block>, name: Bytes, pointers: nat)
    ensures ItemOf(mem, File(name, 0, pointers, [])) == Plain(name, [])
  {
  }
}
