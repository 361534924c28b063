/** Which host directories survive the way into the image and out of it again. */
module ImageReadback {
  import opened ByteStrings
  import opened Ramdisk
  import opened RamdiskTool
  import opened RamdiskReader

  // Following the chains from target on gives back exactly the real entries, at every depth.
  ghost predicate ReadsBack(image: Bytes, at: nat, target: nat, ls: seq<Node>)
    decreases ls
  {
    && ChainIs(image, at, target, Reals(ls))
    && forall n :: 0 <= n < |ls| && ls[n].Directory? && !IsDot(ls[n]) ==>
         SubdirectoryReadsBack(image, Place(at, ls, n), ls[n])
  }

  ghost predicate SubdirectoryReadsBack(image: Bytes, p: nat, e: Node)
    requires e.Directory?
    decreases e
  {
    p + ENTRY_SIZE <= |image| && ReadsBack(image, p + ENTRY_SIZE, EntryAt(image, p).target, e.listing)
  }

  ghost predicate ChainIs(image: Bytes, at: nat, target: nat, rs: seq<Node>) {
    forall index: nat :: Walked(image, target, index) == if index < |rs| then At(Place(at, rs, index)) else End
  }

  // Where the record of the j-th real entry points, trailing dots or not.
  lemma RealNext(image: Bytes, at: nat, ls: seq<Node>, j: nat)
    requires Lists(image, at, ls) && at > 0 && j < |Reals(ls)|
    ensures var rs := Reals(ls); var p := Place(at, rs, j);
      && p > 0 && p + ENTRY_SIZE <= |image|
      && EntryAt(image, p).next == (if j + 1 < |rs| || IsDot(ls[|ls| - 1]) then Place(at, rs, j + 1) else 0)
      && Place(at, rs, j + 1) > 0
  {
    hide Lists, Records, Reals, IsDot;
    var rs := Reals(ls);
    SameSize(ls);
    var n := RealIndex(ls, j);
    RecordThere(image, at, ls, n);
    PlaceStep(at, rs, j);
    RealsAfter(ls, n, j);
  }

  lemma RecordThere(image: Bytes, at: nat, ls: seq<Node>, n: nat)
    requires Lists(image, at, ls) && n < |ls| && !IsDot(ls[n])
    ensures var p := Place(at, ls, n);
      && p + ENTRY_SIZE + EntrySize(ls[n]) <= |image|
      && EntryAt(image, p).next == if n + 1 < |ls| then p + Taken(ls[n]) else 0
  {
    assert Records(image, Place(at, ls, n), ls[n], n + 1 < |ls|);
  }

  // Entry n being the j-th real one, others follow it exactly when real ones do or a dot ends the listing.
  lemma RealsAfter(ls: seq<Node>, n: nat, j: nat)
    requires n < |ls| && !IsDot(ls[n]) && |Reals(ls[..n])| == j
    ensures n + 1 < |ls| <==> j + 1 < |Reals(ls)| || IsDot(ls[|ls| - 1])
  {
    if !IsDot(ls[|ls| - 1]) {
      LastReal(ls, n, j);
    }
  }

  // The real entries come out in order; whether the chain then ends is up to the last name.
  lemma {:induction false} RealsWalked(image: Bytes, at: nat, ls: seq<Node>, j: nat, index: nat)
    requires Lists(image, at, ls) && at > 0 && j < |Reals(ls)|
    ensures var rs := Reals(ls); var spot := Walked(image, Place(at, rs, j), index);
      && (j + index < |rs| ==> spot == At(Place(at, rs, j + index)))
      && (j + index == |rs| && IsDot(ls[|ls| - 1]) ==> spot != End)
      && (j + index >= |rs| && !IsDot(ls[|ls| - 1]) ==> spot == End)
    decreases index
  {
    hide Lists, Records, IsDot, EntryAt, Place;
    assert ls != [];
    var rs := Reals(ls);
    RealNext(image, at, ls, j);
    if index > 0 {
      if j + 1 < |rs| {
        RealsWalked(image, at, ls, j + 1, index - 1);
      } else if !IsDot(ls[|ls| - 1]) {
        EndStays(image, index - 1);
      }
    }
  }

  lemma ChainExactly(image: Bytes, at: nat, target: nat, ls: seq<Node>)
    requires Lists(image, at, ls) && at > 0
    requires if Reals(ls) == [] then target == 0 else target == at
    ensures ChainIs(image, at, target, Reals(ls)) <==> (Reals(ls) != [] ==> !IsDot(ls[|ls| - 1]))
  {
    hide Lists, Records, IsDot, EntryAt, Walked;
    assert Reals(ls) != [] ==> ls != [];
    var rs := Reals(ls);
    if rs == [] {
      forall index: nat ensures Walked(image, target, index) == End {
        EndStays(image, index);
      }
    } else {
      assert rs[..0] == [];
      forall index: nat | index < |rs| || !IsDot(ls[|ls| - 1])
        ensures Walked(image, target, index) == if index < |rs| then At(Place(at, rs, index)) else End
      {
        RealsWalked(image, at, ls, 0, index);
      }
      RealsWalked(image, at, ls, 0, |rs|);
    }
  }

  lemma {:induction false} NoReals(ls: seq<Node>)
    ensures ListSize(ls) == 0 <==> Reals(ls) == []
    decreases |ls|
  {
    if ls != [] {
      NoReals(ls[..|ls| - 1]);
    }
  }

  // A listing is read back exactly when it, and every directory below, does not go on with
  // "." or ".." after its last real entry.
  lemma {:induction false} ListingReadsBack(image: Bytes, at: nat, target: nat, ls: seq<Node>)
    requires Lists(image, at, ls) && at > 0
    requires if Reals(ls) == [] then target == 0 else target == at
    ensures ReadsBack(image, at, target, ls) <==> Tidy(ls)
    decreases ls
  {
    ChainExactly(image, at, target, ls);
    forall n | 0 <= n < |ls| && ls[n].Directory? && !IsDot(ls[n])
      ensures SubdirectoryReadsBack(image, Place(at, ls, n), ls[n]) <==> Tidy(ls[n].listing)
    {
      DirectoryThere(image, at, ls, n);
      var p := Place(at, ls, n);
      ListingReadsBack(image, p + ENTRY_SIZE, EntryAt(image, p).target, ls[n].listing);
    }
    hide Lists, ChainIs, SubdirectoryReadsBack;
  }

  lemma DirectoryThere(image: Bytes, at: nat, ls: seq<Node>, n: nat)
    requires Lists(image, at, ls) && n < |ls| && !IsDot(ls[n]) && ls[n].Directory?
    ensures var p := Place(at, ls, n); var inner := ls[n].listing;
      && p + ENTRY_SIZE <= |image| && Lists(image, p + ENTRY_SIZE, inner)
      && EntryAt(image, p).target == if Reals(inner) == [] then 0 else p + ENTRY_SIZE
  {
    assert Records(image, Place(at, ls, n), ls[n], n + 1 < |ls|);
    NoReals(ls[n].listing);
  }

  // The root of an image is read back exactly when moreover it has a real entry: the tool
  // points the root at its first entry whether there is one or not.
  lemma RootReadsBack(image: Bytes, ls: seq<Node>)
    requires IsImage(image, ls)
    ensures ReadsBack(image, HEADER_SIZE + ENTRY_SIZE, EntryAt(image, HEADER_SIZE).target, ls) <==>
      Tidy(ls) && Reals(ls) != []
  {
    var at := HEADER_SIZE + ENTRY_SIZE;
    if Reals(ls) == [] {
      NoReals(ls);
      assert Walked(image, at, 0) == Outside;
    } else {
      ListingReadsBack(image, at, at, ls);
    }
  }

  // A file "a" and then ".": the record of the file points behind the image.
  lemma DotAfterFile(image: Bytes)
    requires IsImage(image, [Regular(['a' as int], []), Directory(['.' as int], [])])
    ensures |image| == 577 && EntryAt(image, 302).next == 577
    ensures Walked(image, 302, 0) == At(302) && Walked(image, 302, 1) == Outside
  {
    var a, dot := Regular(['a' as int], []), Directory(['.' as int], []);
    var ls := [a, dot];
    assert ls[..0] == [] && ls[..1] == [a] && [a][..0] == [];
    assert !IsDot(a) && IsDot(dot) && Taken(a) == 275 && Taken(dot) == 0;
    hide Lists, HasRoot, IsDot, Taken, Records;
    assert ListSize([a]) == 275 && ListSize(ls) == 275;
    RootLists(image, ls);
    RecordThere(image, 302, ls, 0);
  }

  lemma RootLists(image: Bytes, ls: seq<Node>)
    requires IsImage(image, ls)
    ensures |image| == 302 + ListSize(ls) && Lists(image, 302, ls)
  {
  }
}
