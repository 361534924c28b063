/** Lazy sharing refines eager copying over every run; what a fork and an exit cost. */
module Refinement {
  import opened PageTables
  import opened CopyOnWrite
  import opened Machines
  import opened Steps
  import opened Forks
  import opened Slots
  import opened Access
  import opened Clones
  import opened Eager
  import opened Others
  import opened Faults
  import opened Mappings

  datatype Op =
    | Clone(dir: nat, child: nat)
    | Map(s: Key, contents: Page)
    | Store(s: Key, i: nat, w: Word)
    | Fault(s: Key)
    | Free(dir: nat)
    | Elsewhere  // the heap, the filesystem or the rest of the kernel did something

  // What the kernel does: pages are shared by a clone and copied by the first write.
  ghost predicate Next(a: Machine, op: Op, b: Machine) {
    Good(b) &&
    match op
    case Clone(dir, child) =>
      Key(dir, []) in a.tab && Spare(a, child) && Forked(a, b, dir, child) && AccessKept(a, b)
    case Map(s, contents) => exists mid, w ::
      Core(mid) && Kept(a, mid) && AccessKept(a, mid) && Mapped1(mid, b, s, w)
      && (s !in a.leaves ==> mid.mem[w.page] == contents)
    case Store(s, i, w) => exists spare :: Stored(a, b, s, i, w, spare)
    case Fault(s) => exists spare :: Faulted(a, b, s, spare)
    case Free(dir) =>
      && b.mem == a.mem && b.reserved == a.reserved && b.kernel == a.kernel
      && b.tab == a.tab - KeysOf(a.tab.Keys, dir) && b.leaves == a.leaves - KeysOf(a.leaves.Keys, dir)
    case Elsewhere => OthersActed(a, b)
  }

  // A store, after the write fault if the page was not writable yet.
  ghost predicate Stored(a: Machine, b: Machine, s: Key, i: nat, w: Word, spare: nat) {
    && s in a.leaves && a.leaves[s].user && i < ENTRIES
    && if a.leaves[s].writable then Overwritten(a, b, s, i, w)
       else exists mid :: Faulted(a, mid, s, spare) && Overwritten(mid, b, s, i, w)
  }

  ghost predicate Overwritten(a: Machine, b: Machine, s: Key, i: nat, w: Word) {
    && s in a.leaves && i < ENTRIES && a.leaves[s].page < |a.mem|
    && b == StoreData(a, a.leaves[s].page, a.mem[a.leaves[s].page][i := w])
  }

  // What processes are promised: a fork copies every page there and then.
  ghost function EagerStep(v: Spaces, op: Op): Spaces {
    match op
    case Clone(dir, child) => Eager.Fork(v, dir, child)
    case Map(s, contents) => if s in v then v else v[s := contents]
    case Store(s, i, w) => if i < ENTRIES then Write(v, s, i, w) else v
    case Fault(s) => v
    case Free(dir) => Exit(v, dir)
    case Elsewhere => v
  }

  lemma StepRefines(a: Machine, op: Op, b: Machine)
    requires Good(a) && Next(a, op, b)
    ensures Visible(b) == EagerStep(Visible(a), op)
  {
    hide Core, Closed, Visible, Forked;
    match op
    case Clone(dir, child) =>
      UnusedDirectory(a, child);
      ForkRefines(a, b, dir, child);
    case Map(s, contents) =>
      var mid, w :| Core(mid) && Kept(a, mid) && AccessKept(a, mid) && Mapped1(mid, b, s, w)
        && (s !in a.leaves ==> mid.mem[w.page] == contents);
      KeptUnseen(a, mid);
      MapSeen(mid, s, w);
      UserSlots(a);
    case Store(s, i, w) =>
      var spare :| Stored(a, b, s, i, w, spare);
      if a.leaves[s].writable {
        StoreSeen(a, s, i, w);
      } else {
        var mid :| Faulted(a, mid, s, spare) && Overwritten(mid, b, s, i, w);
        FaultLeafKeepsCore(a, s, spare);
        FaultUnseen(a, s, spare);
        StoreSeen(mid, s, i, w);
      }
    case Fault(s) =>
      var spare :| Faulted(a, b, s, spare);
      FaultUnseen(a, s, spare);
    case Free(dir) =>
      FreeIsExit(a, b, dir);
    case Elsewhere =>
      OthersUnseen(a, b);
  }

  lemma ForkRefines(a: Machine, b: Machine, dir: nat, child: nat)
    requires Core(a) && Core(b) && Forked(a, b, dir, child) && Key(dir, []) in a.tab
    requires forall u :: u in a.tab || u in a.leaves ==> u.dir != child
    ensures Visible(b) == Eager.Fork(Visible(a), dir, child)
  {
    hide Core, Visible, Cloned;
    assert child != dir;
    ForkIsCopy(a, b, dir, child);
  }

  ghost function EagerRun(v: Spaces, ops: seq<Op>): Spaces {
    if ops == [] then v else EagerStep(EagerRun(v, ops[..|ops| - 1]), ops[|ops| - 1])
  }

  ghost predicate Run(states: seq<Machine>, ops: seq<Op>) {
    |states| == |ops| + 1 && Good(states[0]) && forall n :: 0 <= n < |ops| ==> Next(states[n], ops[n], states[n + 1])
  }

  // A run of write faults at pages first to last of a directory, and of nothing else.
  ghost predicate Faulting(states: seq<Machine>, ops: seq<Op>, dir: nat, first: nat, last: nat) {
    Run(states, ops) && forall n :: 0 <= n < |ops| ==> FaultWithin(ops[n], dir, first, last)
  }

  ghost predicate FaultWithin(op: Op, dir: nat, first: nat, last: nat) {
    exists page: nat :: first <= page <= last && op == Op.Fault(PageSlot(dir, page))
  }

  lemma NoFault(m: Machine, dir: nat, first: nat, last: nat)
    requires Good(m)
    ensures Faulting([m], [], dir, first, last)
  {
  }

  lemma OneFaultMore(states: seq<Machine>, ops: seq<Op>, dir: nat, first: nat, page: nat, last: nat, c: Machine)
    requires |states| == |ops| + 1 && Faulting(states, ops, dir, first, last) && first <= page <= last
    requires Next(states[|ops|], Op.Fault(PageSlot(dir, page)), c)
    ensures Faulting(states + [c], ops + [Op.Fault(PageSlot(dir, page))], dir, first, last)
  {
    hide Next, Good;
    assert FaultWithin(Op.Fault(PageSlot(dir, page)), dir, first, last);
  }

  // Over any run of clones, mappings, stores, faults and frees, every address space reads
  // exactly what it would had each clone duplicated every user page.
  lemma {:induction false} RunRefinesEager(states: seq<Machine>, ops: seq<Op>)
    requires Run(states, ops)
    ensures Visible(states[|ops|]) == EagerRun(Visible(states[0]), ops)
    decreases |ops|
  {
    hide Next, Good, Visible, EagerStep;
    if |ops| > 0 {
      var n := |ops| - 1;
      RunStates(states, ops, n);
      RunRefinesEager(states[..|ops|], ops[..n]);
      StepRefines(states[n], ops[n], states[n + 1]);
    }
  }

  lemma RunStates(states: seq<Machine>, ops: seq<Op>, n: nat)
    requires Run(states, ops) && n < |ops|
    ensures Good(states[n]) && Next(states[n], ops[n], states[n + 1])
    ensures Run(states[..n + 1], ops[..n])
  {
    hide Next, Good;
    if n > 0 {
      var p := n - 1;
      assert Next(states[p], ops[p], states[p + 1]);
      NextIsGood(states[p], ops[p], states[p + 1]);
    }
  }

  lemma NextIsGood(a: Machine, op: Op, b: Machine)
    requires Next(a, op, b)
    ensures Good(b)
  {
  }

  // ---- Isolation ----

  // Nobody acts in address space dir; it may be cloned from.
  ghost predicate Spares(op: Op, dir: nat) {
    match op
    case Clone(_, child) => child != dir
    case Map(s, _) => s.dir != dir
    case Store(s, _, _) => s.dir != dir
    case Fault(_) => true
    case Free(d) => d != dir
    case Elsewhere => true
  }

  lemma {:induction false} OthersCannotChangeIt(v: Spaces, ops: seq<Op>, s: Key)
    requires forall n :: 0 <= n < |ops| ==> Spares(ops[n], s.dir)
    ensures s in EagerRun(v, ops) <==> s in v
    ensures s in v ==> EagerRun(v, ops)[s] == v[s]
    decreases |ops|
  {
    if ops != [] {
      var n := |ops| - 1;
      OthersCannotChangeIt(v, ops[..n], s);
      assert Spares(ops[n], s.dir);
      var u := EagerRun(v, ops[..n]);
      match ops[n]
      case Clone(d, child) => CopyMember(OfDirectory(u, d), d, child, s);
      case _ =>
    }
  }

  // Whatever other processes do, the pages of a space keep their contents.
  lemma RunIsolates(states: seq<Machine>, ops: seq<Op>, s: Key)
    requires Run(states, ops) && forall n :: 0 <= n < |ops| ==> Spares(ops[n], s.dir)
    ensures s in Visible(states[|ops|]) <==> s in Visible(states[0])
    ensures s in Visible(states[0]) ==> Visible(states[|ops|])[s] == Visible(states[0])[s]
  {
    RunRefinesEager(states, ops);
    OthersCannotChangeIt(Visible(states[0]), ops, s);
  }

  // ---- What a fork and an exit cost ----

  // A frame that mmu_free gives back held a table of the directory, or a user page that no
  // other directory maps; and it gives all of those back.
  lemma FreeReleases(a: Machine, b: Machine, dir: nat)
    requires Good(a) && Next(a, Op.Free(dir), b)
    ensures b.locked <= a.locked
    ensures forall f :: f in a.locked && f !in b.locked <==>
      || (exists k :: k in a.tab && k.dir == dir && a.tab[k] == f)
      || (Mappers(a.leaves, f) != {} && forall s :: s in Mappers(a.leaves, f) ==> s.dir == dir)
  {
    hide Forest, Counts, SamePaths, KernelShared, Closed;
    ForestFacts(a.mem, a.tab, a.leaves);
    forall f ensures f in a.locked && f !in b.locked <==>
      || (exists k :: k in a.tab && k.dir == dir && a.tab[k] == f)
      || (Mappers(a.leaves, f) != {} && forall s :: s in Mappers(a.leaves, f) ==> s.dir == dir)
    {
      TablesLeft(a.tab, b.tab, dir, f);
      MappedLeft(a.leaves, b.leaves, dir, f);
    }
  }

  lemma TablesLeft(t0: map<Key, nat>, t1: map<Key, nat>, dir: nat, f: nat)
    requires t1 == t0 - KeysOf(t0.Keys, dir) && Injective(t0)
    ensures f in t0.Values && f !in t1.Values <==> exists k :: k in t0 && k.dir == dir && t0[k] == f
    ensures f in t1.Values ==> f in t0.Values
  {
    if k :| k in t0 && k.dir == dir && t0[k] == f {
      assert f in t0.Values;
    }
    if f in t0.Values {
      var k :| k in t0 && t0[k] == f;
      assert k.dir != dir ==> k in t1 && t1[k] == f;
    }
  }

  lemma MappedLeft(l0: Leaves, l1: Leaves, dir: nat, f: nat)
    requires l1 == l0 - KeysOf(l0.Keys, dir)
    ensures f in Mapped(l0) && f !in Mapped(l1) <==> Mappers(l0, f) != {} && forall s :: s in Mappers(l0, f) ==>
      s.dir == dir
    ensures f in Mapped(l1) ==> f in Mapped(l0)
  {
    MappedByLeaf(l0, f);
    MappedByLeaf(l1, f);
    assert forall s :: s in Mappers(l1, f) <==> s in Mappers(l0, f) && s.dir != dir;
    if s :| s in Mappers(l1, f) {
      assert s in Mappers(l0, f);
    }
  }

  // fork followed by exit of the child leaves exactly the frames locked that were locked
  // before, and no process can tell.
  lemma ForkThenExit(a: Machine, b: Machine, c: Machine, dir: nat, child: nat)
    requires Good(a) && Next(a, Clone(dir, child), b) && Next(b, Free(child), c)
    ensures c.locked == a.locked && c.tab == a.tab && Visible(c) == Visible(a)
  {
    hide Forest, Counts, SamePaths, KernelShared, Closed, Cloned;
    StepRefines(a, Clone(dir, child), b);
    StepRefines(b, Free(child), c);
    UnusedDirectory(a, child);
    ForkThenExitUnseen(Visible(a), dir, child) by { assert forall s :: s in Visible(a) ==> s in a.leaves; }
    ForkThenExitTables(a, b, c, dir, child);
    SameMapped(a.leaves, c.leaves);
  }

  lemma ForkThenExitUnseen(v: Spaces, dir: nat, child: nat)
    requires forall s :: s in v ==> s.dir != child
    ensures Exit(Eager.Fork(v, dir, child), child) == v
  {
    forall s ensures Alike(Exit(Eager.Fork(v, dir, child), child), v, s) {
      CopyMember(OfDirectory(v, dir), dir, child, s);
    }
    AlikeEverywhere(Exit(Eager.Fork(v, dir, child), child), v);
  }

  lemma ForkThenExitTables(a: Machine, b: Machine, c: Machine, dir: nat, child: nat)
    requires child != dir && forall u :: u in a.tab || u in a.leaves ==> u.dir != child
    requires Forked(a, b, dir, child)
    requires c.tab == b.tab - KeysOf(b.tab.Keys, child) && c.leaves == b.leaves - KeysOf(b.leaves.Keys, child)
    ensures c.tab == a.tab && c.leaves.Keys == a.leaves.Keys && b.reserved == a.reserved
    ensures forall s :: s in a.leaves ==> c.leaves[s].user == a.leaves[s].user && c.leaves[s].page == a.leaves[s].page
  {
    forall u ensures u in b.tab <==> u in a.tab || (u.dir == child && Key(dir, u.path) in a.tab) {
      CopyMember(KeysOf(a.tab.Keys, dir), dir, child, u);
    }
    forall u ensures u in b.leaves <==> u in a.leaves || (u.dir == child && Key(dir, u.path) in a.leaves) {
      CopyMember(KeysOf(a.leaves.Keys, dir), dir, child, u);
    }
    assert c.tab.Keys == a.tab.Keys;
  }

  lemma SameMapped(l0: Leaves, l1: Leaves)
    requires l1.Keys == l0.Keys
    requires forall s :: s in l0 ==> l1[s].user == l0[s].user && l1[s].page == l0[s].page
    ensures Mapped(l1) == Mapped(l0)
  {
    forall f ensures f in Mapped(l1) <==> f in Mapped(l0) {
      MappedByLeaf(l0, f);
      MappedByLeaf(l1, f);
      assert Mappers(l1, f) == Mappers(l0, f);
    }
  }

  // ---- Mapping over a shared page ----

  // After a fork, both ends of a user leaf lie on one frame, copy-on-write if it was writable.
  lemma ForkShares(a: Machine, b: Machine, dir: nat, child: nat, path: seq<nat>)
    requires Good(a) && Next(a, Op.Clone(dir, child), b)
    requires Key(dir, path) in a.leaves && a.leaves[Key(dir, path)].user
    ensures var s, c := Key(dir, path), Key(child, path);
      && s != c && s in b.leaves && c in b.leaves && b.leaves[s] == b.leaves[c] == Share(a.leaves[s])
      && b.leaves[s].cow && s in Visible(b) && c in Visible(b)
  {
    hide Forest, Counts, SamePaths, KernelShared, Owned;
    UnusedDirectory(a, child);
    CopyMember(KeysOf(a.leaves.Keys, dir), dir, child, Key(child, path));
    UserPages(b);
    if !a.leaves[Key(dir, path)].writable {
      LockedOnlyByCow(a, Key(dir, path));
    }
  }

  // mmu_allocate_frame_ex on a slot whose page is in use keeps the page and makes it writable.
  ghost function Remapped(m: Machine, s: Key, flags: Flags): Machine
    requires s in m.leaves && |s.path| == 4 && Last(s) < ENTRIES && Parent(s) in m.tab && m.tab[Parent(s)] < |m.mem|
  {
    Allocated(m, s, Configured(m.leaves[s], m.leaves[s].page, flags))
  }

  // Slot s is mapped over and word i written through it; slot c then shows the word too.
  ghost predicate ShowsAt(m: Machine, s: Key, flags: Flags, i: nat, w: Word, c: Key) {
    && Remapped.requires(m, s, flags) && i < ENTRIES && c in Visible(m)
    && var t := Remapped(m, s, flags);
    && t.leaves[s].user && t.leaves[s].writable && t.leaves[s].page < |t.mem|
    && var u := StoreData(t, t.leaves[s].page, t.mem[t.leaves[s].page][i := w]);
    c in Visible(u) && Visible(u)[c] == Visible(m)[c][i := w]
  }

  // So after a fork a store through either slot, mapped over, shows in the other address space.
  lemma RemapLeaks(a: Machine, b: Machine, dir: nat, child: nat, path: seq<nat>, flags: Flags, i: nat, w: Word)
    requires Good(a) && Next(a, Op.Clone(dir, child), b)
    requires Key(dir, path) in a.leaves && a.leaves[Key(dir, path)].user
    requires flags.writable && !flags.kernel && i < ENTRIES
    ensures ShowsAt(b, Key(dir, path), flags, i, w, Key(child, path))
    ensures ShowsAt(b, Key(child, path), flags, i, w, Key(dir, path)) && child != dir
  {
    hide Forest, Counts, SamePaths, KernelShared, Forked, ShowsAt;
    ForkShares(a, b, dir, child, path);
    LeafShape(b, Key(dir, path));
    LeafShape(b, Key(child, path));
    UserPages(b);
    SharedFrameShows(b, Key(dir, path), Key(child, path), flags, i, w);
    SharedFrameShows(b, Key(child, path), Key(dir, path), flags, i, w);
  }

  lemma SharedFrameShows(m: Machine, s: Key, c: Key, flags: Flags, i: nat, w: Word)
    requires s in m.leaves && |s.path| == 4 && Last(s) < ENTRIES && Parent(s) in m.tab && m.tab[Parent(s)] < |m.mem|
    requires c in m.leaves && m.leaves[c] == m.leaves[s] && c != s && c in Visible(m)
    requires m.leaves[s].page !in m.tab.Values
    requires flags.writable && !flags.kernel && i < ENTRIES && m.leaves[s].user && m.leaves[s].page < |m.mem|
    ensures ShowsAt(m, s, flags, i, w, c)
  {
    assert m.tab[Parent(s)] in m.tab.Values;
  }

  lemma LeafShape(m: Machine, s: Key)
    requires Good(m) && s in m.leaves
    ensures |s.path| == 4 && Last(s) < ENTRIES && Parent(s) in m.tab && m.tab[Parent(s)] < |m.mem|
  {
    hide Counts, SamePaths, KernelShared, Owned;
    assert s.path[3] < Limit(3);
  }
}
