/** Shared user pages: reference counts, the lazy machine, and the eager machine it refines. */
module CopyOnWrite {
  import opened PageTables

  type Leaves = map<Key, Word>

  // ---- Who maps a frame, and what its count must then be ----

  ghost function Mappers(leaves: Leaves, f: nat): set<Key> {
    set s | s in leaves && leaves[s].user && leaves[s].page == f
  }

  ghost function Mapped(leaves: Leaves): set<nat> {
    set s | s in leaves && leaves[s].user :: leaves[s].page
  }

  // A user leaf is either writable, alone on its frame and uncounted, or copy-on-write with
  // the frame's count equal to the number of leaves that map it.
  ghost predicate LeafCounted(leaves: Leaves, refs: seq<nat>, s: Key)
    requires s in leaves
  {
    var w := leaves[s];
    && w.page < |refs|
    && if w.writable then !w.cow && refs[w.page] == 0 && Mappers(leaves, w.page) == {s}
       else w.cow && refs[w.page] == |Mappers(leaves, w.page)|
  }

  ghost predicate Counts(leaves: Leaves, refs: seq<nat>) {
    && (forall s :: s in leaves && leaves[s].user ==> LeafCounted(leaves, refs, s))
    && (forall f: nat :: f < |refs| && Mappers(leaves, f) == {} ==> refs[f] == 0)
  }

  // Sharing starts at a fork, which keeps virtual addresses: one frame, one path.
  ghost predicate SamePaths(leaves: Leaves) {
    forall s, t :: s in leaves && t in leaves && leaves[s].user && leaves[t].user && leaves[s].page == leaves[t].page
      ==> s.path == t.path
  }

  // The count of a frame, read off the leaves.
  lemma CountMeaning(leaves: Leaves, refs: seq<nat>, f: nat)
    requires Counts(leaves, refs) && f < |refs|
    ensures refs[f] == 0 ==> |Mappers(leaves, f)| <= 1
    ensures refs[f] == 0 ==> forall s :: s in Mappers(leaves, f) ==> leaves[s].writable && !leaves[s].cow
    ensures refs[f] > 0 ==> |Mappers(leaves, f)| == refs[f]
    ensures refs[f] > 0 ==> forall s :: s in Mappers(leaves, f) ==> !leaves[s].writable && leaves[s].cow
  {
    var m := Mappers(leaves, f);
    if m != {} {
      var s :| s in m;
      assert LeafCounted(leaves, refs, s);
      forall t | t in m ensures LeafCounted(leaves, refs, t) {}
      if leaves[s].writable {
        assert m == {s};
      }
    }
  }

  lemma MappersUpdate(leaves: Leaves, s: Key, w: Word, f: nat)
    ensures Mappers(leaves[s := w], f) == Mappers(leaves, f) - {s} + (if w.user && w.page == f then {s} else {})
  {
  }

  lemma MappersRemove(leaves: Leaves, s: Key, f: nat)
    ensures Mappers(leaves - {s}, f) == Mappers(leaves, f) - {s}
  {
  }

  lemma UnmappedFrame(leaves: Leaves, f: nat)
    requires Mappers(leaves, f) == {}
    ensures forall u :: u in leaves && leaves[u].user ==> leaves[u].page != f
  {
    forall u | u in leaves && leaves[u].user ensures leaves[u].page != f {
      assert u in Mappers(leaves, leaves[u].page);
    }
  }

  // ---- One leaf at a time ----

  // What _copy_page leaves in both slots, and what it does to the count.
  function Share(w: Word): Word {
    if w.user && w.writable then w.(writable := false, cow := true) else w
  }

  function SharedCounts(refs: seq<nat>, w: Word): seq<nat>
    requires w.user ==> w.page < |refs|
  {
    if !w.user then refs
    else if w.writable then refs[w.page := 2]
    else refs[w.page := refs[w.page] + 1]
  }

  lemma CopyLeafKeepsCounts(leaves: Leaves, refs: seq<nat>, s: Key, t: Key)
    requires Counts(leaves, refs) && s in leaves && t !in leaves
    ensures leaves[s].user ==> leaves[s].page < |refs| && (leaves[s].writable ==> refs[leaves[s].page] == 0)
    ensures Counts(leaves[s := Share(leaves[s])][t := Share(leaves[s])], SharedCounts(refs, leaves[s]))
  {
    var w := leaves[s];
    assert w.user ==> LeafCounted(leaves, refs, s);
    var l2 := leaves[s := Share(w)][t := Share(w)];
    var r2 := SharedCounts(refs, w);
    forall u | u in l2 && l2[u].user ensures LeafCounted(l2, r2, u) {
      assert u in leaves && leaves[u].user ==> LeafCounted(leaves, refs, u);
      CopyLeafCounted(leaves, refs, s, t, u);
    }
    forall f: nat | f < |r2| && Mappers(l2, f) == {} ensures r2[f] == 0 {
      CopyLeafMappers(leaves, s, t, f);
    }
  }

  lemma CopyLeafCounted(leaves: Leaves, refs: seq<nat>, s: Key, t: Key, u: Key)
    requires s in leaves && t !in leaves && (leaves[s].user ==> LeafCounted(leaves, refs, s))
    requires u in leaves && leaves[u].user ==> LeafCounted(leaves, refs, u)
    requires (u in leaves && leaves[u].user) || (u == t && leaves[s].user)
    ensures LeafCounted(leaves[s := Share(leaves[s])][t := Share(leaves[s])], SharedCounts(refs, leaves[s]), u)
  {
    hide Mappers;
    var w := leaves[s];
    var l2 := leaves[s := Share(w)][t := Share(w)];
    CopyLeafMappers(leaves, s, t, l2[u].page);
    MapsItself(leaves, s);
    if u in leaves {
      MapsItself(leaves, u);
    }
  }

  lemma MapsItself(leaves: Leaves, s: Key)
    requires s in leaves
    ensures leaves[s].user <==> s in Mappers(leaves, leaves[s].page)
  {
  }

  lemma CopyLeafMappers(leaves: Leaves, s: Key, t: Key, f: nat)
    requires s in leaves && t !in leaves
    ensures Mappers(leaves[s := Share(leaves[s])][t := Share(leaves[s])], f) ==
            if leaves[s].user && leaves[s].page == f then Mappers(leaves, f) + {t} else Mappers(leaves, f)
    ensures t !in Mappers(leaves, f)
    ensures leaves[s].user && leaves[s].page == f ==> s in Mappers(leaves, f)
  {
    var w := leaves[s];
    MappersUpdate(leaves, s, Share(w), f);
    MappersUpdate(leaves[s := Share(w)], t, Share(w), f);
  }

  function DroppedCounts(refs: seq<nat>, w: Word): seq<nat> {
    if w.writable || w.page >= |refs| || refs[w.page] == 0 then refs else refs[w.page := refs[w.page] - 1]
  }

  // _free_page: the frame is released exactly when no leaf maps it any more.
  lemma DropLeafKeepsCounts(leaves: Leaves, refs: seq<nat>, s: Key)
    requires Counts(leaves, refs) && s in leaves && leaves[s].user
    ensures leaves[s].page < |refs| && (!leaves[s].writable ==> refs[leaves[s].page] > 0)
    ensures Counts(leaves - {s}, DroppedCounts(refs, leaves[s]))
    ensures (leaves[s].writable || refs[leaves[s].page] == 1) <==> Mappers(leaves - {s}, leaves[s].page) == {}
  {
    var w := leaves[s];
    assert LeafCounted(leaves, refs, s) && s in Mappers(leaves, w.page);
    var l1 := leaves - {s};
    var r1 := DroppedCounts(refs, w);
    forall u | u in l1 && l1[u].user ensures LeafCounted(l1, r1, u) {
      MappersRemove(leaves, s, l1[u].page);
      assert LeafCounted(leaves, refs, u);
      assert u in Mappers(leaves, l1[u].page);
    }
    forall f: nat | f < |r1| && Mappers(l1, f) == {} ensures r1[f] == 0 {
      MappersRemove(leaves, s, f);
      assert f != w.page ==> s !in Mappers(leaves, f);
    }
    MappersRemove(leaves, s, w.page);
    if Mappers(leaves, w.page) - {s} == {} {
      assert Mappers(leaves, w.page) == {s};
    } else if refs[w.page] == 1 && !w.writable {
      OneElement(Mappers(leaves, w.page), s);
    }
  }

  lemma MapKeepsCounts(leaves: Leaves, refs: seq<nat>, s: Key, w: Word)
    requires Counts(leaves, refs) && s !in leaves
    requires w.user && w.writable && !w.cow && w.page < |refs| && Mappers(leaves, w.page) == {}
    ensures Counts(leaves[s := w], refs)
  {
    var l1 := leaves[s := w];
    forall u | u in l1 && l1[u].user ensures LeafCounted(l1, refs, u) {
      MappersUpdate(leaves, s, w, l1[u].page);
      if u != s {
        assert LeafCounted(leaves, refs, u);
        assert u in Mappers(leaves, l1[u].page);
      }
    }
    forall f: nat | f < |refs| && Mappers(l1, f) == {} ensures refs[f] == 0 {
      MappersUpdate(leaves, s, w, f);
      assert s !in Mappers(leaves, f);
    }
  }

  // The write fault, both ways out: the last sharer keeps the frame, any other gets a copy.
  function Unshared(w: Word, refs: seq<nat>, spare: nat): Word
    requires w.page < |refs|
  {
    if refs[w.page] == 1 then w.(writable := true, cow := false)
    else w.(page := spare, writable := true, cow := false)
  }

  lemma FaultKeepsCounts(leaves: Leaves, refs: seq<nat>, s: Key, spare: nat)
    requires Counts(leaves, refs) && s in leaves && leaves[s].user && leaves[s].cow && leaves[s].page < |refs|
    requires refs[leaves[s].page] != 1 ==> spare < |refs| && Mappers(leaves, spare) == {}
    ensures refs[leaves[s].page] > 0 && refs[leaves[s].page] == |Mappers(leaves, leaves[s].page)|
    ensures Counts(leaves[s := Unshared(leaves[s], refs, spare)], refs[leaves[s].page := refs[leaves[s].page] - 1])
  {
    var w, w1 := leaves[s], Unshared(leaves[s], refs, spare);
    assert LeafCounted(leaves, refs, s);
    DropLeafKeepsCounts(leaves, refs, s);
    MappersRemove(leaves, s, w1.page);
    MapKeepsCounts(leaves - {s}, DroppedCounts(refs, w), s, w1);
    assert (leaves - {s})[s := w1] == leaves[s := w1];
  }

  lemma OneElement<T>(m: set<T>, s: T)
    requires |m| == 1 && s in m
    ensures m == {s}
  {
    assert |m - {s}| == 0;
  }
}
