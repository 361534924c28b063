/** The table of pseudo terminals and the directory that lists them by number. */
module Ptys {
  import opened ByteStrings
  import opened Wrappers
  import opened Numerals

  // pty_t, as far as the directory looks at it.
  datatype Pty = Pty(name: int, slave: nat)

  // pty->name is an intptr_t; itoa cannot take its lowest value.
  predicate Nameable(p: Pty) {
    MIN_INT < p.name <= MAX_INT
  }

  datatype Entry = Entry(index: int, pty: Pty)

  function Got(entries: seq<Entry>, index: int): Option<Pty> {
    if entries == [] then None
    else if entries[0].index == index then Some(entries[0].pty)
    else Got(entries[1..], index)
  }

  function Removed(entries: seq<Entry>, index: int): seq<Entry> {
    if entries == [] then []
    else if entries[0].index == index then entries[1..]
    else [entries[0]] + Removed(entries[1..], index)
  }

  ghost predicate Distinct(entries: seq<Entry>) {
    forall i, j :: 0 <= i < j < |entries| ==> entries[i].index != entries[j].index
  }

  ghost predicate Indexed(entries: seq<Entry>) {
    forall i :: 0 <= i < |entries| ==> entries[i].index == entries[i].pty.name && Nameable(entries[i].pty)
  }

  lemma {:induction false} GotIs(entries: seq<Entry>, k: nat)
    requires Distinct(entries) && k < |entries|
    ensures Got(entries, entries[k].index) == Some(entries[k].pty)
  {
    if k > 0 {
      assert Distinct(entries[1..]) && entries[0].index != entries[k].index;
      GotIs(entries[1..], k - 1);
    }
  }

  // A lookup after a removal, whatever the table.
  lemma {:induction false} RemovedGot(entries: seq<Entry>, index: int, other: int)
    ensures other != index ==> Got(Removed(entries, index), other) == Got(entries, other)
    ensures Distinct(entries) ==> Got(Removed(entries, index), index) == None && Distinct(Removed(entries, index))
    ensures forall e :: e in Removed(entries, index) ==> e in entries
  {
    if entries != [] {
      var rest := entries[1..];
      RemovedGot(rest, index, other);
      if entries[0].index == index {
        if Distinct(entries) {
          NotGot(rest, index);
        }
      } else {
        var all := [entries[0]] + Removed(rest, index);
        assert all[1..] == Removed(rest, index);
        if Distinct(entries) {
          assert Distinct(rest);
          forall i, j | 0 <= i < j < |all| ensures all[i].index != all[j].index {
            assert all[j] in rest;
          }
        }
      }
    }
  }

  lemma {:induction false} NotGot(entries: seq<Entry>, index: int)
    requires forall i :: 0 <= i < |entries| ==> entries[i].index != index
    ensures Got(entries, index) == None
  {
    if entries != [] {
      NotGot(entries[1..], index);
    }
  }

  // The first entry of that index goes, the others stay where they are; or nothing changes.
  lemma {:induction false} RemovedIs(entries: seq<Entry>, index: int, i: nat)
    requires i <= |entries| && forall k :: 0 <= k < i ==> entries[k].index != index
    requires i < |entries| ==> entries[i].index == index
    ensures Removed(entries, index) == if i < |entries| then entries[..i] + entries[i + 1..] else entries
    decreases i
  {
    if i > 0 {
      RemovedIs(entries[1..], index, i - 1);
      if i < |entries| {
        assert entries[..i] + entries[i + 1..] == [entries[0]] + (entries[1..][..i - 1] + entries[1..][i..]);
      }
    }
  }

  // ---- The directory ----

  const DOT: Bytes := ['.' as int]
  const DOTS: Bytes := ['.' as int, '.' as int]

  function Listed(entries: seq<Entry>, index: nat): Option<Bytes> {
    if index == 0 then Some(DOT)
    else if index == 1 then Some(DOTS)
    else if index - 2 < |entries| then Some(Text(entries[index - 2].pty.name, 10))
    else None
  }

  function Found(entries: seq<Entry>, name: Bytes): Option<nat> {
    if name == [] then None
    else
      var pty := Got(entries, Scan(name, 10, 0, false));
      if pty.None? then None else Some(pty.value.slave)
  }

  // Looking up any listed name gives the pty it was listed for.
  lemma FoundAsListed(entries: seq<Entry>, k: nat)
    requires Distinct(entries) && Indexed(entries) && k < |entries|
    ensures Listed(entries, k + 2).Some? && Found(entries, Listed(entries, k + 2).value) == Some(entries[k].pty.slave)
  {
    var x := entries[k].pty.name;
    TextIsString(x, 10);
    RoundTrip(x, 10);
    GotIs(entries, k);
  }

  // ---- Any sequence of additions and removals ----

  datatype Op = Add(pty: Pty) | Remove(index: int)

  function Applied(entries: seq<Entry>, op: Op): seq<Entry> {
    match op
    case Add(p) => entries + [Entry(p.name, p)]
    case Remove(index) => Removed(entries, index)
  }

  function Run(entries: seq<Entry>, ops: seq<Op>): seq<Entry>
    decreases |ops|
  {
    if ops == [] then entries else Run(Applied(entries, ops[0]), ops[1..])
  }

  // Every pty added has a number that is free at that moment.
  ghost predicate Orderly(entries: seq<Entry>, ops: seq<Op>)
    decreases |ops|
  {
    ops == [] || (
      && (ops[0].Add? ==> Nameable(ops[0].pty) && Got(entries, ops[0].pty.name) == None)
      && Orderly(Applied(entries, ops[0]), ops[1..]))
  }

  lemma {:induction false} RunKeeps(entries: seq<Entry>, ops: seq<Op>)
    requires Distinct(entries) && Indexed(entries) && Orderly(entries, ops)
    ensures Distinct(Run(entries, ops)) && Indexed(Run(entries, ops))
    decreases |ops|
  {
    if ops != [] {
      match ops[0] {
        case Add(p) => AddKeeps(entries, p);
        case Remove(index) => RemoveKeeps(entries, index);
      }
      RunKeeps(Applied(entries, ops[0]), ops[1..]);
    }
  }

  lemma AddKeeps(entries: seq<Entry>, p: Pty)
    requires Distinct(entries) && Indexed(entries) && Nameable(p) && Got(entries, p.name) == None
    ensures Distinct(entries + [Entry(p.name, p)]) && Indexed(entries + [Entry(p.name, p)])
  {
    forall k | 0 <= k < |entries| ensures entries[k].index != p.name {
      GotIs(entries, k);
    }
  }

  lemma RemoveKeeps(entries: seq<Entry>, index: int)
    requires Distinct(entries) && Indexed(entries)
    ensures Distinct(Removed(entries, index)) && Indexed(Removed(entries, index))
  {
    RemovedGot(entries, index, index);
    var less := Removed(entries, index);
    forall i | 0 <= i < |less| ensures less[i].index == less[i].pty.name && Nameable(less[i].pty) {
      assert less[i] in entries;
    }
  }

  lemma RunFoundAsListed(ops: seq<Op>, k: nat)
    requires Orderly([], ops) && k < |Run([], ops)|
    ensures var t := Run([], ops);
      Listed(t, k + 2).Some? && Found(t, Listed(t, k + 2).value) == Some(t[k].pty.slave)
  {
    RunKeeps([], ops);
    FoundAsListed(Run([], ops), k);
  }

  // Names are decimal: a sign for negative numbers, then digits weighing powers of ten.
  lemma ListedInDecimal(entries: seq<Entry>, k: nat) returns (ds: seq<nat>)
    requires k < |entries|
    ensures var x, t := entries[k].pty.name, Listed(entries, k + 2); var sign := if x < 0 then 1 else 0;
      && Positional(ds, 10) == (if x < 0 then -x else x) && ds != [] && (|ds| > 1 ==> ds[0] != 0)
      && t.Some? && |t.value| == sign + |ds| && (x < 0 ==> t.value[0] == '-' as int)
      && forall j :: 0 <= j < |ds| ==> ds[j] < 10 && t.value[sign + j] == '0' as int + ds[j]
  {
    ds := TextMeans(entries[k].pty.name, 10);
  }

  // ---- What additions add ----

  // A new entry is found under its number, by lookups, in listings behind all others, and by the
  // name it is listed under; everything else is as before.
  lemma AddedFound(entries: seq<Entry>, p: Pty, other: int, k: nat)
    requires Got(entries, p.name) == None
    ensures var t := Applied(entries, Op.Add(p));
      && Got(t, p.name) == Some(p) && (other != p.name ==> Got(t, other) == Got(entries, other))
      && (k < |entries| + 2 ==> Listed(t, k) == Listed(entries, k)) && Listed(t, |entries| + 3) == None
      && (Nameable(p) ==> Listed(t, |entries| + 2).Some? && Found(t, Listed(t, |entries| + 2).value) == Some(p.slave))
  {
    AddedGot(entries, p, p.name);
    AddedGot(entries, p, other);
    if Nameable(p) {
      TextIsString(p.name, 10);
      RoundTrip(p.name, 10);
    }
  }

  lemma {:induction false} AddedGot(entries: seq<Entry>, p: Pty, other: int)
    ensures Got(entries + [Entry(p.name, p)], other) ==
      if Got(entries, other).Some? then Got(entries, other) else if other == p.name then Some(p) else None
  {
    var t := entries + [Entry(p.name, p)];
    if entries == [] {
      assert t[1..] == [];
    } else {
      assert t[1..] == entries[1..] + [Entry(p.name, p)];
      AddedGot(entries[1..], p, other);
    }
  }

  // The pty added by operation i is not removed by a later one.
  predicate StillThere(ops: seq<Op>, i: nat) {
    i < |ops| && ops[i].Add? && forall j :: i < j < |ops| ==> ops[j] != Op.Remove(ops[i].pty.name)
  }

  // The ptys of the first n operations that are still there, in order of addition.
  function Standing(ops: seq<Op>, n: nat): seq<Entry>
    requires n <= |ops|
  {
    if n == 0 then []
    else
      Standing(ops, n - 1)
      + (if StillThere(ops, n - 1) then [Entry(ops[n - 1].pty.name, ops[n - 1].pty)] else [])
  }

  // After any run the table holds exactly those.
  lemma {:induction false} RunIsStanding(ops: seq<Op>)
    requires Orderly([], ops)
    ensures Run([], ops) == Standing(ops, |ops|)
    decreases |ops|
  {
    hide Run, Standing, StillThere, Removed, Without, Orderly, Distinct, Indexed, Got;
    NoOps();
    if ops != [] {
      var before, op := ops[..|ops| - 1], ops[|ops| - 1];
      assert ops == before + [op];
      OrderlyPrefix([], before, op);
      RunSnoc([], before, op);
      RunIsStanding(before);
      RunKeeps([], before);
      match op {
        case Add(p) => StandingAdd(before, p, |before|);
        case Remove(index) =>
          StandingRemove(before, index, |before|);
          RemovedIsWithout(Run([], before), index);
      }
    }
  }

  lemma NoOps()
    ensures Run([], []) == [] && Standing([], 0) == [] && Distinct([]) && Indexed([])
  {
  }

  lemma {:induction false} RunSnoc(entries: seq<Entry>, ops: seq<Op>, op: Op)
    ensures Run(entries, ops + [op]) == Applied(Run(entries, ops), op)
    decreases |ops|
  {
    var all := ops + [op];
    if ops == [] {
      assert all[1..] == [];
    } else {
      assert all[1..] == ops[1..] + [op];
      RunSnoc(Applied(entries, ops[0]), ops[1..], op);
    }
  }

  lemma {:induction false} OrderlyPrefix(entries: seq<Entry>, ops: seq<Op>, op: Op)
    requires Orderly(entries, ops + [op])
    ensures Orderly(entries, ops)
    decreases |ops|
  {
    if ops != [] {
      assert (ops + [op])[1..] == ops[1..] + [op];
      OrderlyPrefix(Applied(entries, ops[0]), ops[1..], op);
    }
  }

  lemma {:induction false} StandingAdd(ops: seq<Op>, p: Pty, n: nat)
    requires n <= |ops|
    ensures Standing(ops + [Op.Add(p)], n) == Standing(ops, n)
    ensures n == |ops| ==> Standing(ops + [Op.Add(p)], n + 1) == Standing(ops, n) + [Entry(p.name, p)]
  {
    var all := ops + [Op.Add(p)];
    if n > 0 {
      StandingAdd(ops, p, n - 1);
      assert StillThere(all, n - 1) <==> StillThere(ops, n - 1) by {
        assert forall j :: 0 <= j < |ops| ==> all[j] == ops[j];
      }
    }
  }

  function Without(entries: seq<Entry>, index: int): seq<Entry> {
    if entries == [] then []
    else
      Without(entries[..|entries| - 1], index)
      + (if entries[|entries| - 1].index == index then [] else [entries[|entries| - 1]])
  }

  lemma {:induction false} StandingRemove(ops: seq<Op>, index: int, n: nat)
    requires n <= |ops|
    ensures Standing(ops + [Op.Remove(index)], n) == Without(Standing(ops, n), index)
    ensures n == |ops| ==> Standing(ops + [Op.Remove(index)], n + 1) == Without(Standing(ops, n), index)
  {
    var all := ops + [Op.Remove(index)];
    assert all[|ops|] == Op.Remove(index) && !StillThere(all, |ops|);
    if n > 0 {
      StandingRemove(ops, index, n - 1);
      StillThereAfter(ops, index, n - 1);
      var before := Standing(ops, n - 1);
      if StillThere(ops, n - 1) {
        var next := before + [Entry(ops[n - 1].pty.name, ops[n - 1].pty)];
        assert next[..|next| - 1] == before && next[|next| - 1].index == ops[n - 1].pty.name;
      }
      assert all[n - 1] == ops[n - 1] && before + [] == before && Without(before, index) + [] == Without(before, index);
    }
    if n == |ops| {
      assert Standing(all, n + 1) == Standing(all, n) + [];
    }
  }

  lemma StillThereAfter(ops: seq<Op>, index: int, i: nat)
    requires i < |ops|
    ensures StillThere(ops + [Op.Remove(index)], i) <==> StillThere(ops, i) && ops[i].pty.name != index
  {
    var all := ops + [Op.Remove(index)];
    assert forall j :: 0 <= j < |ops| ==> all[j] == ops[j];
    assert all[|ops|] == Op.Remove(index);
  }

  lemma {:induction false} RemovedIsWithout(entries: seq<Entry>, index: int)
    requires Distinct(entries)
    ensures Removed(entries, index) == Without(entries, index)
    decreases |entries|
  {
    hide Removed, Without, Distinct;
    if entries == [] {
      NothingLeft(index);
    } else {
      var before, last := entries[..|entries| - 1], entries[|entries| - 1];
      assert entries == before + [last];
      DistinctPrefix(entries);
      RemovedIsWithout(before, index);
      RemovedSnoc(before, last, index);
      WithoutSnoc(before, last, index);
      if forall i :: 0 <= i < |before| ==> before[i].index != index {
        NothingRemoved(before, index);
      }
    }
  }

  lemma NothingLeft(index: int)
    ensures Removed([], index) == [] && Without([], index) == []
  {
  }

  lemma WithoutSnoc(entries: seq<Entry>, last: Entry, index: int)
    ensures Without(entries + [last], index) == Without(entries, index) + (if last.index == index then [] else [last])
  {
    var all := entries + [last];
    assert all[..|all| - 1] == entries;
  }

  lemma DistinctPrefix(entries: seq<Entry>)
    requires Distinct(entries) && entries != []
    ensures Distinct(entries[..|entries| - 1])
    ensures forall i :: 0 <= i < |entries| - 1 ==> entries[i].index != entries[|entries| - 1].index
  {
  }

  lemma {:induction false} NothingRemoved(entries: seq<Entry>, index: int)
    requires forall i :: 0 <= i < |entries| ==> entries[i].index != index
    ensures Removed(entries, index) == entries
  {
    if entries != [] {
      NothingRemoved(entries[1..], index);
    }
  }

  lemma {:induction false} RemovedSnoc(entries: seq<Entry>, last: Entry, index: int)
    ensures var all := entries + [last];
      Removed(all, index) ==
        if exists i :: 0 <= i < |entries| && entries[i].index == index then Removed(entries, index) + [last]
        else if last.index == index then entries else all
  {
    var all := entries + [last];
    if entries == [] {
      assert all[1..] == [];
    } else {
      assert all[1..] == entries[1..] + [last];
      RemovedSnoc(entries[1..], last, index);
    }
  }

  // ---- The table itself ----

  class PtyTable {
    var table: seq<Entry>
    var capacity: nat

    ghost predicate Valid()
      reads this
    {
      |table| <= capacity
    }

    // pty_init
    constructor ()
      ensures Valid() && table == [] && capacity == 32
    {
      table, capacity := [], 32;
    }

    // pty_add
    method Add(pty: Pty)
      requires Valid()
      modifies this
      ensures Valid() && table == Applied(old(table), Op.Add(pty))
      ensures table == old(table) + [Entry(pty.name, pty)]
      ensures capacity == old(capacity) + (if |old(table)| == old(capacity) then 32 else 0)
    {
      if |table| >= capacity {
        capacity := capacity + 32;
      }
      table := table + [Entry(pty.name, pty)];
    }

    // pty_remove: the first entry of that index, the rest moved up.
    method Remove(index: int)
      requires Valid()
      modifies this`table
      ensures Valid() && table == Applied(old(table), Op.Remove(index))
    {
      var i := 0;
      while true
        invariant i <= |table| && Removed(table, index) == table[..i] + Removed(table[i..], index)
        decreases |table| - i
      {
        if i == |table| {
          return;
        }
        assert table[i..][0] == table[i] && table[i..][1..] == table[i + 1..];
        if table[i].index == index {
          break;
        }
        assert table[..i + 1] == table[..i] + [table[i]];
        i := i + 1;
      }
      table := table[..i] + table[i + 1..];
    }

    // pty_get
    method Get(index: int) returns (pty: Option<Pty>)
      ensures pty == Got(table, index)
    {
      var i := 0;
      while i < |table|
        invariant i <= |table| && Got(table, index) == Got(table[i..], index)
      {
        if table[i].index == index {
          return Some(table[i].pty);
        }
        assert table[i..][1..] == table[i + 1..];
        i := i + 1;
      }
      return None;
    }

    // readdir_pty
    method Readdir(index: nat) returns (name: Option<Bytes>)
      requires Indexed(table)
      ensures name == Listed(table, index)
      ensures index == 0 ==> name == Some(['.' as int])
      ensures index == 1 ==> name == Some(['.' as int, '.' as int])
      ensures name.None? <==> index >= |table| + 2
    {
      if index == 0 {
        return Some(DOT);
      }
      if index == 1 {
        return Some(DOTS);
      }
      if index - 2 >= |table| {
        return None;
      }
      var pty := table[index - 2].pty;
      var n := |Text(pty.name, 10)|;
      var buf := new Byte[n + 1](_ => 0);
      var end := Itoa(pty.name, buf, 10);
      TextIsString(pty.name, 10);
      assert buf[..] == buf[..n + 1];
      CStringOf(Text(pty.name, 10), []);
      assert buf[..] == Text(pty.name, 10) + [0] + [];
      return Some(CString(buf[..]));
    }

    // finddir_pty
    method Finddir(name: Bytes) returns (node: Option<nat>)
      requires 0 !in name
      ensures node == Found(table, name)
    {
      if |name| < 1 {
        return None;
      }
      var buf := new Byte[|name| + 1](i requires 0 <= i <= |name| => if i < |name| then name[i] else 0);
      var n := Atoi(buf, name, 10);
      var pty := Get(n);
      if pty.None? {
        return None;
      }
      return Some(pty.value.slave);
    }
  }
}
