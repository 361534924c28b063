/** What a process reaches: the walk over all four levels, after a fork and over runs. */
module Reach {
  import opened PageTables
  import opened Wrappers
  import opened CopyOnWrite
  import opened Machines
  import opened Steps
  import opened Forks
  import opened Slots
  import opened Clones
  import opened Faults
  import opened Eager
  import opened Others
  import opened Access
  import opened Refinement

  // ---- The processor ----

  // The frame that user-mode code gets at, walking path from table t on: every word on the way
  // must be present and the user's, and for a store writable. Page tables follow section 4.5,
  // access rights section 4.6 of the Intel 64 Software Developer's Manual, Volume 3A.
  function Processor(mem: seq<Page>, t: nat, path: seq<nat>, store: bool): Option<nat>
    requires path != []
    decreases |path|
  {
    if t >= |mem| || path[0] >= ENTRIES then None
    else
      var w := mem[t][path[0]];
      if !w.present || !w.user || (store && !w.writable) then None
      else if |path| == 1 then Some(w.page)
      else if w.size then None
      else Processor(mem, w.page, path[1..], store)
  }

  // All tables of directory dir hang on open words.
  ghost predicate Opened(m: Machine, dir: nat) {
    forall k :: k in m.tab && k.dir == dir && k.path != [] ==> Open(LinkWord(m, k))
  }

  // What the leaf alone allows.
  ghost function LeafGives(m: Machine, s: Key, store: bool): Option<nat> {
    if s in m.leaves && m.leaves[s].user && (store ==> m.leaves[s].writable) then Some(m.leaves[s].page) else None
  }

  // Whether the words that link the tables on a path, from the n-th on, let the access through.
  ghost predicate Allowed(m: Machine, dir: nat, path: seq<nat>, n: nat, store: bool)
    requires |path| == 4
  {
    forall j :: n < j <= 3 ==> LinkAllows(m, Key(dir, path[..j]), store)
  }

  ghost predicate LinkAllows(m: Machine, k: Key, store: bool) {
    LinkWord(m, k).user && (store ==> LinkWord(m, k).writable)
  }

  // At every address of the lower half, the walk gives what the leaf allows, if all tables do.
  lemma ProcessorExactly(m: Machine, dir: nat, path: seq<nat>, store: bool)
    requires Good(m) && Key(dir, []) in m.tab && |path| == 4 && InRange(path)
    ensures Processor(m.mem, dir, path, store) ==
      if Allowed(m, dir, path, 0, store) then LeafGives(m, Key(dir, path), store) else None
  {
    hide Core, Closed, Allowed, Processor, LeafGives;
    RootInMemory(m, dir);
    assert path[..0] == [] && path[0..] == path;
    ReachesFrom(m, dir, path, 0, store);
  }

  // In an opened directory the leaf alone decides.
  lemma ProcessorReaches(m: Machine, dir: nat, path: seq<nat>, store: bool)
    requires Good(m) && Key(dir, []) in m.tab && Opened(m, dir) && |path| == 4 && InRange(path)
    ensures Processor(m.mem, dir, path, store) == LeafGives(m, Key(dir, path), store)
  {
    hide Core, Processor, LinkWord;
    ProcessorExactly(m, dir, path, store);
    forall j | 0 < j <= 3 && Key(dir, path) in m.leaves ensures LinkAllows(m, Key(dir, path[..j]), store) {
      if Key(dir, path[..j]) !in m.tab {
        NothingReached(m, dir, path, j, store);
      } else {
        OpenedAt(m, Key(dir, path[..j]));
      }
    }
  }

  lemma {:induction false} ReachesFrom(m: Machine, dir: nat, path: seq<nat>, n: nat, store: bool)
    requires Good(m) && |path| == 4 && InRange(path) && n <= 3 && Key(dir, path[..n]) in m.tab
    ensures Processor(m.mem, m.tab[Key(dir, path[..n])], path[n..], store) ==
      if Allowed(m, dir, path, n, store) then LeafGives(m, Key(dir, path), store) else None
    decreases 3 - n
  {
    hide Counts, SamePaths, KernelShared, Owned, LeafGives, Allowed;
    var k, i := Key(dir, path[..n]), path[n];
    var c := Child(k, i);
    assert path[..n + 1] == path[..n] + [i] && path[n..][1..] == path[n + 1..];
    assert Links(m.mem, m.tab, m.leaves, k) && i < Limit(n);
    AllowedStep(m, dir, path, n, store);
    if n == 3 {
      LastStep(m, dir, path, store);
    } else if c in m.tab {
      ReachesFrom(m, dir, path, n + 1, store);
    } else {
      NothingReached(m, dir, path, n + 1, store);
    }
  }

  lemma AllowedStep(m: Machine, dir: nat, path: seq<nat>, n: nat, store: bool)
    requires |path| == 4 && n <= 3
    ensures Allowed(m, dir, path, n, store) <==>
      n == 3 || (LinkAllows(m, Key(dir, path[..n + 1]), store) && Allowed(m, dir, path, n + 1, store))
  {
    hide LinkAllows;
  }

  lemma OpenedAt(m: Machine, c: Key)
    requires Opened(m, c.dir) && c in m.tab && c.path != []
    ensures Open(LinkWord(m, c))
  {
  }

  lemma LastStep(m: Machine, dir: nat, path: seq<nat>, store: bool)
    requires Good(m) && |path| == 4 && InRange(path) && Key(dir, path[..3]) in m.tab
    ensures Processor(m.mem, m.tab[Key(dir, path[..3])], path[3..], store) == LeafGives(m, Key(dir, path), store)
  {
    hide Counts, SamePaths, KernelShared, Owned;
    var k := Key(dir, path[..3]);
    assert Links(m.mem, m.tab, m.leaves, k) && path == path[..3] + [path[3]] && Child(k, path[3]) == Key(dir, path);
  }

  // Below a table that is not there, there is no leaf.
  lemma {:induction false} NothingReached(m: Machine, dir: nat, path: seq<nat>, n: nat, store: bool)
    requires Closed(m.tab, m.leaves) && |path| == 4 && 1 <= n <= 3 && Key(dir, path[..n]) !in m.tab
    ensures Key(dir, path) !in m.leaves
    ensures LeafGives(m, Key(dir, path), store) == None
    decreases 3 - n
  {
    if n < 3 {
      assert Parent(Key(dir, path[..n + 1])) == Key(dir, path[..n]) by {
        assert path[..n + 1][..n] == path[..n];
      }
      NothingReached(m, dir, path, n + 1, store);
    } else {
      assert Parent(Key(dir, path)) == Key(dir, path[..3]);
    }
  }

  // ---- What happens to the bits of a leaf ----

  // The fields that say what a leaf is good for, those of sharing aside.
  ghost predicate SameKind(a: Word, b: Word) {
    && b.present == a.present && b.user == a.user && b.noexec == a.noexec
    && b.nocache == a.nocache && b.writethrough == a.writethrough && b.size == a.size && b.global == a.global
    && b.accessed == a.accessed && b.available0 == a.available0 && b.available1 == a.available1
    && b.available2 == a.available2 && b.reserved == a.reserved
  }

  // A fork takes away the right to write, and marks what it took; all else goes to both ends.
  lemma ForkKeepsKind(a: Machine, b: Machine, dir: nat, child: nat, path: seq<nat>)
    requires Good(a) && Next(a, Op.Clone(dir, child), b) && Key(dir, path) in a.leaves
    ensures var s, c := Key(dir, path), Key(child, path);
      && s in b.leaves && c in b.leaves
      && var w := a.leaves[s];
      forall u :: u in {b.leaves[s], b.leaves[c]} ==>
        && SameKind(w, u) && u.page == w.page
        && (w.user && w.writable ==> !u.writable && u.cow)
        && (!(w.user && w.writable) ==> u.writable == w.writable && u.cow == w.cow)
  {
    hide Forest, Counts, SamePaths, KernelShared, Owned;
    UnusedDirectory(a, child);
    CopyMember(KeysOf(a.leaves.Keys, dir), dir, child, Key(child, path));
  }

  // A write fault gives the right back, to the old frame or to a copy.
  lemma FaultKeepsKind(a: Machine, b: Machine, s: Key, spare: nat)
    requires Faulted(a, b, s, spare)
    ensures SameKind(a.leaves[s], b.leaves[s]) && b.leaves[s].writable && !b.leaves[s].cow
    ensures b.leaves[s].page == a.leaves[s].page || b.leaves[s].page == spare
    ensures forall u :: u in a.leaves && u != s ==> u in b.leaves && b.leaves[u] == a.leaves[u]
  {
  }

  // A mapping sets the bits its flags are about, as they say, and leaves all others alone.
  lemma MappingSetsBits(w: Word, page: nat, flags: Flags)
    ensures var v := Configured(w, page, flags);
      && v.present && v.page == page && v.writable == flags.writable && v.user == !flags.kernel
      && v.nocache == flags.nocache && v.writethrough == flags.writethrough && v.noexec == flags.noexecute
      && v.size == flags.spec && v.cow == w.cow && v.global == w.global && v.accessed == w.accessed
      && v.available0 == w.available0 && v.available1 == w.available1 && v.available2 == w.available2
      && v.reserved == w.reserved
  {
  }

  // ---- Every operation keeps access rights ----

  lemma LeafStoreAccess(a: Machine, b: Machine, s: Key, spare: nat)
    requires Forest(a.mem, a.tab, a.leaves) && |s.path| == 4 && Parent(s) in a.tab && spare !in a.tab.Values
    requires b.tab == a.tab && |b.mem| == |a.mem|
    requires forall f :: 0 <= f < |a.mem| && f != spare && f != a.tab[Parent(s)] ==> b.mem[f] == a.mem[f]
    ensures AccessKept(a, b)
  {
    ForestFacts(a.mem, a.tab, a.leaves);
    hide Forest, AccessKept;
    forall k | k in a.tab && |k.path| < 3 && a.tab[k] < |a.mem| ensures b.mem[a.tab[k]] == a.mem[a.tab[k]] {
      assert a.tab[k] in a.tab.Values;
    }
    InnerAccess(a, b);
  }

  lemma FaultAccess(a: Machine, b: Machine, s: Key, spare: nat)
    requires Core(a) && Faulted(a, b, s, spare)
    ensures AccessKept(a, b)
  {
    hide Forest, Counts, SamePaths, KernelShared, Owned, AccessKept;
    if NeedsCopy(a, s) {
      SpareIsNoTable(a, spare);
      LeafStoreAccess(a, b, s, spare);
    } else {
      LeafStoreAccess(a, b, s, |a.mem|) by {
        ForestFacts(a.mem, a.tab, a.leaves);
      }
    }
  }

  lemma DataAccess(a: Machine, b: Machine, s: Key, i: nat, w: Word)
    requires Core(a) && Overwritten(a, b, s, i, w) && a.leaves[s].user
    ensures AccessKept(a, b)
  {
    hide Forest, Counts, SamePaths, KernelShared, AccessKept;
    ForestFacts(a.mem, a.tab, a.leaves);
    assert a.leaves[s].page in Mapped(a.leaves);
    forall k | k in a.tab ensures a.tab[k] in a.tab.Values {}
    InnerAccess(a, b);
  }

  lemma StoreAccess(a: Machine, b: Machine, s: Key, i: nat, w: Word, spare: nat)
    requires Core(a) && Stored(a, b, s, i, w, spare)
    ensures AccessKept(a, b)
  {
    hide Core, AccessKept, Faulted, Overwritten;
    if a.leaves[s].writable {
      DataAccess(a, b, s, i, w);
    } else {
      var mid :| Faulted(a, mid, s, spare) && Overwritten(mid, b, s, i, w);
      FaultAccess(a, mid, s, spare);
      FaultedCore(a, mid, s, spare);
      DataAccess(mid, b, s, i, w);
      AccessTwice(a, mid, b);
    }
  }

  lemma FaultedCore(a: Machine, b: Machine, s: Key, spare: nat)
    requires Core(a) && Faulted(a, b, s, spare)
    ensures Core(b) && s in b.leaves && b.leaves[s].user && b.tab == a.tab
  {
    hide Core;
    FaultLeafKeepsCore(a, s, spare);
  }

  // Tables keep the words that link them as long as they live, and new ones get open words.
  lemma NextKeepsAccess(a: Machine, op: Op, b: Machine)
    requires Good(a) && Next(a, op, b)
    ensures AccessKept(a, b)
  {
    hide Core, AccessKept, Faulted, Stored, Forked, Kept;
    match op
    case Clone(dir, child) =>
    case Map(s, contents) => MapAccess(a, b, s, contents);
    case Store(s, i, w) =>
      var spare :| Stored(a, b, s, i, w, spare);
      StoreAccess(a, b, s, i, w, spare);
    case Fault(s) =>
      var spare :| Faulted(a, b, s, spare);
      FaultAccess(a, b, s, spare);
    case Free(dir) => FreeAccess(a, b, dir);
    case Elsewhere => OthersAccess(a, b);
  }

  lemma MapAccess(a: Machine, b: Machine, s: Key, contents: Page)
    requires Core(a) && Next(a, Op.Map(s, contents), b)
    ensures AccessKept(a, b)
  {
    hide Core, Good, AccessKept;
    var mid, w :| Core(mid) && Kept(a, mid) && AccessKept(a, mid) && Mapped1(mid, b, s, w)
      && (s !in a.leaves ==> mid.mem[w.page] == contents);
    CoreForest(mid);
    ForestFacts(mid.mem, mid.tab, mid.leaves);
    AccessThenInner(a, mid, b);
  }

  lemma CoreForest(m: Machine)
    requires Core(m)
    ensures Forest(m.mem, m.tab, m.leaves)
  {
  }

  lemma AccessThenInner(a: Machine, b: Machine, c: Machine)
    requires AccessKept(a, b) && InnerTablesKept(b, c) && forall k :: k in b.tab ==> |k.path| <= 3
    ensures AccessKept(a, c)
  {
    forall k | k in c.tab && k.path != [] && Parent(k) in b.tab ensures LinkWord(c, k) == LinkWord(b, k) {}
    hide LinkWord, Open;
  }

  lemma FreeAccess(a: Machine, b: Machine, dir: nat)
    requires Good(a) && Next(a, Op.Free(dir), b)
    ensures AccessKept(a, b)
  {
    hide Core, Open;
    forall k | k in b.tab && k.path != [] ensures Parent(k) in b.tab && LinkWord(b, k) == LinkWord(a, k) {
      assert Parent(k) in a.tab;
    }
  }

  lemma OthersAccess(a: Machine, b: Machine)
    requires OthersActed(a, b)
    ensures AccessKept(a, b)
  {
    forall k | k in a.tab ensures a.tab[k] in MmuFrames(a) {
      assert a.tab[k] in a.tab.Values;
    }
    hide Mapped;
  }

  // ---- Forked directories are open, and stay so ----

  lemma ForkOpens(a: Machine, b: Machine, dir: nat, child: nat)
    requires Good(a) && Next(a, Op.Clone(dir, child), b)
    ensures Opened(b, child)
  {
    hide Core, Closed, Forked, LinkWord, Open;
    UnusedDirectory(a, child);
  }

  lemma NextKeepsOpened(a: Machine, op: Op, b: Machine, dir: nat)
    requires Good(a) && Next(a, op, b) && Opened(a, dir)
    ensures Opened(b, dir)
  {
    hide Core, Next, LinkWord, Open;
    NextKeepsAccess(a, op, b);
  }

  // From its fork on, over any run, a directory has open tables only.
  lemma {:induction false} RunKeepsOpened(states: seq<Machine>, ops: seq<Op>, n: nat, dir: nat, child: nat)
    requires Run(states, ops) && n < |ops| && ops[n] == Op.Clone(dir, child)
    ensures Opened(states[|ops|], child)
    decreases |ops|
  {
    hide Good, Next, Opened;
    var last := |ops| - 1;
    RunStates(states, ops, last);
    if n == last {
      ForkOpens(states[last], states[last + 1], dir, child);
    } else {
      RunKeepsOpened(states[..last + 1], ops[..last], n, dir, child);
      NextKeepsOpened(states[last], ops[last], states[last + 1], child);
    }
  }

  // So over any run, as long as it lives, a forked process gets at exactly the pages it is said
  // to see, and stores to exactly the writable ones.
  lemma ForkedProcessReaches(states: seq<Machine>, ops: seq<Op>, n: nat, dir: nat, child: nat, path: seq<nat>)
    requires Run(states, ops) && n < |ops| && ops[n] == Op.Clone(dir, child)
    requires Key(child, []) in states[|ops|].tab && |path| == 4 && InRange(path)
    ensures var m := states[|ops|]; var s := Key(child, path);
      && Processor(m.mem, child, path, false) == (if s in Visible(m) then Some(m.leaves[s].page) else None)
      && (Processor(m.mem, child, path, true).Some? <==> s in Visible(m) && m.leaves[s].writable)
  {
    hide Next, Opened, Processor, Core;
    RunKeepsOpened(states, ops, n, dir, child);
    RunStates(states, ops, |ops| - 1);
    var m := states[|ops|];
    NextIsGood(states[|ops| - 1], ops[|ops| - 1], m);
    ProcessorReaches(m, child, path, false);
    ProcessorReaches(m, child, path, true);
    UserSlots(m);
  }
}
