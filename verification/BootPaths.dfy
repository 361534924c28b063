/** Paths in the filesystem that the boot image was copied into. */
module BootPaths {
  import opened ByteStrings
  import opened Wrappers
  import opened Ramdisk
  import opened TmpfsStore
  import opened TmpfsTree
  import opened TmpfsObjects
  import opened TmpfsHeap
  import opened TmpfsEntries
  import opened FreeSpace
  import opened Tmpfs
  import opened CopiedTrees
  import opened Paths

  // ---- What the filesystem's finddir makes of names ----

  // The answer to a lookup of name in d; files have no finddir at all.
  ghost predicate Answers(v: Items, d: nat, name: Bytes, answer: Option<nat>) {
    if answer.Some? then Named(v, d, name, answer.value) else forall f :: !Named(v, d, name, f)
  }

  method LookUp(fs: Filesystem, d: nat, name: Bytes) returns (ok: bool, found: Option<nat>, node: nat)
    requires fs.Valid() && fs.IsDir(d)
    modifies fs`reserved, fs.heap`live, fs.heap`reserved, fs.heap.memory, fs.pool.frames
    ensures old(fs.Room()) >= 1 ==> ok
    ensures ok ==> fs.Valid() && fs.Contents() == old(fs.Contents()) && Answers(old(fs.Contents()), d, name, found)
  {
    hide TmpfsStore.Valid, TmpfsHeap.Paired, Handles, View, Listed, Longest, Lent;
    ok, found, node := fs.Finddir(d, name);
  }

  // The names a lookup by path starts from, nothing being mounted yet.
  ghost function NamesOf(v: Items, root: nat): Names {
    Names(root, map e | e in NamedEntries(v) :: ChildNamed(v, e), [])
  }

  ghost function NamedEntries(v: Items): set<(nat, Bytes)> {
    set d, f | d in v && v[d].Folder? && f in v[d].files && f in v :: (d, v[f].name)
  }

  lemma SomeChild(v: Items, e: (nat, Bytes))
    requires e in NamedEntries(v)
    ensures exists f :: Named(v, e.0, e.1, f)
  {
    var d, f :| d in v && v[d].Folder? && f in v[d].files && f in v && (d, v[f].name) == e;
    assert Named(v, e.0, e.1, f);
  }

  ghost function ChildNamed(v: Items, e: (nat, Bytes)): (f: nat)
    requires e in NamedEntries(v)
    ensures Named(v, e.0, e.1, f)
  {
    SomeChild(v, e);
    var f :| Named(v, e.0, e.1, f);
    f
  }

  lemma EntriesAnswer(v: Items, root: nat, d: nat, name: Bytes)
    ensures var n := NamesOf(v, root);
      Answers(v, d, name, if (d, name) in n.entries then Some(n.entries[(d, name)]) else None)
  {
    if f :| Named(v, d, name, f) {
      assert (d, v[f].name) in NamedEntries(v);
    }
  }

  // ---- Where a path leads in the tree ----

  function Pick(ls: seq<Node>, name: Bytes): Option<Node> {
    if ls == [] then None else if ls[0].name == name then Some(ls[0]) else Pick(ls[1..], name)
  }

  function NodeAt(c: seq<Node>, cs: seq<Bytes>): Option<Node>
    requires cs != []
    decreases |cs|, 0
  {
    var ls := ListingAt(c, cs[..|cs| - 1]);
    if ls.None? then None else Pick(ls.value, cs[|cs| - 1])
  }

  function ListingAt(c: seq<Node>, cs: seq<Bytes>): Option<seq<Node>>
    decreases |cs|, 1
  {
    if cs == [] then Some(c)
    else
      var e := NodeAt(c, cs);
      if e.Some? && e.value.Directory? then Some(e.value.listing) else None
  }

  // ---- Both agree ----

  ghost predicate NamesApart(v: Items) {
    forall d, f, g, name :: Named(v, d, name, f) && Named(v, d, name, g) ==> f == g
  }

  lemma NamesAreApart(fs: Filesystem)
    requires fs.Valid()
    ensures NamesApart(fs.Contents())
  {
    hide TmpfsStore.Consistent, Flat;
    forall d, f, g, name | Named(fs.Contents(), d, name, f) && Named(fs.Contents(), d, name, g) ensures f == g {
      NamesUnique(fs.Now(), d);
    }
  }

  lemma {:induction false} PickIndex(ls: seq<Node>, name: Bytes) returns (i: nat)
    ensures Pick(ls, name).Some? ==> i < |ls| && ls[i] == Pick(ls, name).value && ls[i].name == name
    ensures Pick(ls, name).None? ==> forall k :: 0 <= k < |ls| ==> ls[k].name != name
  {
    if ls == [] || ls[0].name == name {
      i := 0;
    } else {
      i := PickIndex(ls[1..], name);
      i := i + 1;
      if Pick(ls, name).None? {
        forall k | 0 <= k < |ls| ensures ls[k].name != name {
          assert k > 0 ==> ls[k] == ls[1..][k - 1];
        }
      }
    }
  }

  // In a directory that holds ls, a lookup finds the copy of what the name stands for in ls.
  lemma LookupInCopy(v: Items, d: nat, ls: seq<Node>, within: set<nat>, name: Bytes, answer: Option<nat>)
    requires Holds(v, d, ls, within) && NamesApart(v) && Answers(v, d, name, answer)
    ensures Pick(ls, name).None? <==> answer.None?
    ensures answer.Some? ==> Child(v, answer.value, Pick(ls, name).value, within)
  {
    var i := PickIndex(ls, name);
    if Pick(ls, name).Some? {
      assert Child(v, v[d].files[i], ls[i], within);
      assert Named(v, d, name, v[d].files[i]);
    } else {
      forall k | 0 <= k < |v[d].files| ensures v[d].files[k] in v && v[v[d].files[k]].name != name {
        assert Child(v, v[d].files[k], ls[k], within);
      }
    }
  }

  // Resolving a path finds the copy of the node it leads to in the tree, and nothing else.
  lemma {:induction false} ResolvedInCopy(v: Items, root: nat, c: seq<Node>, within: set<nat>, cs: seq<Bytes>)
    requires Holds(v, root, c, within) && NamesApart(v) && cs != []
    ensures var w, e := Resolved(NamesOf(v, root), cs), NodeAt(c, cs);
      (w.None? <==> e.None?) && (e.Some? ==> Child(v, w.value, e.value, within))
    decreases |cs|
  {
    hide NamesOf, Pick;
    var n, before, name := NamesOf(v, root), cs[..|cs| - 1], cs[|cs| - 1];
    NothingMounted(v, root, Joined(cs));
    assert |before| < |cs|;
    if before == [] {
      assert ListingAt(c, before) == Some(c);
      EntriesAnswer(v, root, root, name);
      LookupInCopy(v, root, c, within, name, Entry(n, root, name));
    } else {
      ResolvedInCopy(v, root, c, within, before);
      var d := Resolved(n, before);
      if d.Some? {
        EntriesAnswer(v, root, d.value, name);
        InCopy(v, d.value, NodeAt(c, before).value, within, name, Entry(n, d.value, name));
      }
    }
  }

  ghost function Entry(n: Names, d: nat, name: Bytes): Option<nat> {
    if (d, name) in n.entries then Some(n.entries[(d, name)]) else None
  }

  lemma NothingMounted(v: Items, root: nat, path: Bytes)
    ensures var n := NamesOf(v, root);
      n.root == root && MountAt(n.mounts, path).None?
        && forall wd, name :: Step(n, wd, path, name) == Entry(n, wd, name)
  {
  }

  // The next component, from the copy of node e.
  lemma InCopy(v: Items, d: nat, e: Node, within: set<nat>, name: Bytes, answer: Option<nat>)
    requires Child(v, d, e, within) && NamesApart(v) && Answers(v, d, name, answer)
    ensures e.Regular? ==> answer.None?
    ensures e.Directory? ==> (Pick(e.listing, name).None? <==> answer.None?)
    ensures e.Directory? && answer.Some? ==> Child(v, answer.value, Pick(e.listing, name).value, within)
  {
    if e.Directory? {
      LookupInCopy(v, d, e.listing, within, name, answer);
    }
  }

  // After boot, opening the path of any node of the host's tree gives the inode that holds its
  // name, its bytes or its directory; any other path gives nothing.
  lemma BootResolves(fs: Filesystem, c: seq<Node>, within: set<nat>, cs: seq<Bytes>)
    requires fs.Valid() && Holds(fs.Contents(), fs.root, c, within) && Components(cs) && cs != []
    ensures var w, e := Opened(NamesOf(fs.Contents(), fs.root), Joined(cs), false), NodeAt(c, cs);
      (w.None? <==> e.None?) && (e.Some? ==> Child(fs.Contents(), w.value, e.value, within))
  {
    hide TmpfsStore.Valid, View, Holds, Child, NodeAt, NamesOf, NamesApart, Opened, Resolved;
    NamesAreApart(fs);
    ResolvedInCopy(fs.Contents(), fs.root, c, within, cs);
    OpenedIsFold(NamesOf(fs.Contents(), fs.root), cs);
  }
}
