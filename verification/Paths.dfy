/** Path names, the mount table, and what a path resolves to. */
module Paths {
  import opened ByteStrings
  import opened Wrappers

  const SLASH: Byte := '/' as int

  datatype Mount = Mount(path: Bytes, node: nat)

  // The directory entries of all filesystems, and the mount table.
  datatype Names = Names(root: nat, entries: map<(nat, Bytes), nat>, mounts: seq<Mount>)

  // vfs_get_mountpoint: the first entry for exactly this path.
  function MountAt(mounts: seq<Mount>, path: Bytes): Option<nat> {
    if mounts == [] then None
    else if mounts[0].path == path then Some(mounts[0].node)
    else MountAt(mounts[1..], path)
  }

  // One component: a mountpoint at the path so far wins over the directory's own entry.
  function Step(v: Names, wd: nat, path: Bytes, name: Bytes): Option<nat> {
    var mount := MountAt(v.mounts, path);
    if mount.Some? then mount
    else if (wd, name) in v.entries then Some(v.entries[(wd, name)])
    else None
  }

  // ---- The text of a path ----

  function Leading(s: Bytes): (n: nat)
    ensures n <= |s| && (n < |s| ==> s[n] != SLASH)
  {
    if s != [] && s[0] == SLASH then 1 + Leading(s[1..]) else 0
  }

  lemma {:induction false} LeadingSlashes(s: Bytes)
    ensures forall k :: 0 <= k < Leading(s) ==> s[k] == SLASH
  {
    if s != [] && s[0] == SLASH {
      LeadingSlashes(s[1..]);
      forall k | 0 < k < Leading(s) ensures s[k] == SLASH {
        assert s[k] == s[1..][k - 1];
      }
    }
  }

  // Without its trailing slashes.
  function Trimmed(s: Bytes): (t: Bytes)
    ensures t <= s && (t != [] ==> t[|t| - 1] != SLASH)
  {
    if s != [] && s[|s| - 1] == SLASH then Trimmed(s[..|s| - 1]) else s
  }

  lemma {:induction false} TrimmedSlashes(s: Bytes)
    ensures forall k :: |Trimmed(s)| <= k < |s| ==> s[k] == SLASH
    decreases |s|
  {
    if s != [] && s[|s| - 1] == SLASH {
      TrimmedSlashes(s[..|s| - 1]);
    }
  }

  // The first slash from position from on, or the end.
  function End(s: Bytes, from: nat): (e: nat)
    requires from <= |s|
    ensures from <= e <= |s| && (e < |s| ==> s[e] == SLASH)
    ensures forall k :: from <= k < e ==> s[k] != SLASH
    decreases |s| - from
  {
    if from < |s| && s[from] != SLASH then End(s, from + 1) else from
  }

  lemma {:induction false} EndUnique(s: Bytes, from: nat, e: nat)
    requires from <= e <= |s| && (e < |s| ==> s[e] == SLASH) && forall k :: from <= k < e ==> s[k] != SLASH
    ensures End(s, from) == e
    decreases e - from
  {
    if from < e {
      EndUnique(s, from + 1, e);
    }
  }

  // ---- Resolution as the loop does it ----

  // A component has at least one character: the one after a slash is never looked at, so that
  // it belongs to the component even where it is another slash.
  function Lookup(v: Names, s: Bytes, from: nat, wd: nat, parent: bool): Option<nat>
    requires from < |s| && s[|s| - 1] != SLASH
    decreases |s| - from
  {
    var p := End(s, from + 1);
    if p == |s| && parent then Some(wd)
    else
      var node := Step(v, wd, s[..p], s[from..p]);
      if node.None? || p == |s| then node
      else Lookup(v, s, p + 1, node.value, parent)
  }

  lemma LookupStep(v: Names, s: Bytes, from: nat, wd: nat, parent: bool, p: nat)
    requires from < p <= |s| && s[|s| - 1] != SLASH && (p < |s| ==> s[p] == SLASH)
    requires forall k :: from < k < p ==> s[k] != SLASH
    ensures p == |s| && parent ==> Lookup(v, s, from, wd, parent) == Some(wd)
    ensures !(p == |s| && parent) ==> var node := Step(v, wd, s[..p], s[from..p]);
      Lookup(v, s, from, wd, parent) == if node.None? || p == |s| then node else Lookup(v, s, p + 1, node.value, parent)
  {
    EndUnique(s, from + 1, p);
  }

  // Where the last component begins.
  function Last(s: Bytes, from: nat): (b: nat)
    requires from < |s| && s[|s| - 1] != SLASH
    ensures from <= b < |s| && (b == from || s[b - 1] == SLASH)
    ensures forall k :: b < k < |s| ==> s[k] != SLASH
    decreases |s| - from
  {
    var p := End(s, from + 1);
    if p == |s| then from else Last(s, p + 1)
  }

  // _kopen, started at the root.
  function Opened(v: Names, path: Bytes, parent: bool): Option<nat> {
    if Leading(path) == |path| then Some(v.root)
    else TrimmedLonger(path); Lookup(v, Trimmed(path), Leading(path), v.root, parent)
  }

  lemma TrimmedLonger(path: Bytes)
    requires Leading(path) < |path|
    ensures Leading(path) < |Trimmed(path)|
  {
    TrimmedSlashes(path);
  }

  // Parent lookup plus last component is full lookup, for every path.
  lemma {:induction false} ParentThenLast(v: Names, s: Bytes, from: nat, wd: nat)
    requires from < |s| && s[|s| - 1] != SLASH
    ensures var w := Lookup(v, s, from, wd, true);
      Lookup(v, s, from, wd, false) == if w.None? then None else Step(v, w.value, s, s[Last(s, from)..])
    decreases |s| - from
  {
    var p := End(s, from + 1);
    if p < |s| {
      var node := Step(v, wd, s[..p], s[from..p]);
      if node.Some? {
        ParentThenLast(v, s, p + 1, node.value);
      }
    } else {
      assert s[..p] == s;
    }
  }

  function LastComponent(path: Bytes): Bytes
    requires Leading(path) < |path|
  {
    TrimmedLonger(path);
    Trimmed(path)[Last(Trimmed(path), Leading(path))..]
  }

  lemma OpenedFromParent(v: Names, path: Bytes)
    requires Leading(path) < |path|
    ensures var w := Opened(v, path, true);
      Opened(v, path, false) == if w.None? then None else Step(v, w.value, Trimmed(path), LastComponent(path))
  {
    hide Trimmed, Leading, Lookup, Last, Step;
    TrimmedLonger(path);
    ParentThenLast(v, Trimmed(path), Leading(path), v.root);
  }

  // ---- The name create_file and mkdir take from a path ----

  // Behind the last slash that is followed by something else.
  function Base(path: Bytes): Bytes {
    Trimmed(path[BaseAt(path, |path|)..])
  }

  function BaseAt(path: Bytes, n: nat): (b: nat)
    requires n <= |path|
    ensures b <= |path| && (b == 0 || (b <= n && Starts(path, b)))
    ensures forall k :: b < k <= n ==> !Starts(path, k)
  {
    if n == 0 then 0 else if Starts(path, n) then n else BaseAt(path, n - 1)
  }

  predicate Starts(path: Bytes, k: nat) {
    0 < k < |path| && path[k - 1] == SLASH && path[k] != SLASH
  }

  // That name is the component a lookup ends with, unless the latter begins with a slash.
  lemma BaseIsLast(path: Bytes)
    requires Leading(path) < |path|
    ensures Base(path) == LastComponent(path) <==> LastComponent(path)[0] != SLASH
    ensures LastComponent(path)[0] == SLASH ==> Base(path) == LastComponent(path)[1..]
  {
    hide Trimmed, Base, Last, Leading;
    TrimmedLonger(path);
    var s := Trimmed(path);
    var l := Last(s, Leading(path));
    BaseSlice(path);
    Tails(s, if s[l] == SLASH then l + 1 else l, l);
  }

  lemma BaseSlice(path: Bytes)
    requires Leading(path) < |Trimmed(path)|
    ensures var s := Trimmed(path); var l := Last(s, Leading(path));
      Base(path) == s[if s[l] == SLASH then l + 1 else l..]
  {
    hide Trimmed, BaseAt, Starts, Last, Leading;
    BaseStarts(path);
    TrimmedTail(path, BaseAt(path, |path|));
  }

  lemma BaseStarts(path: Bytes)
    requires Leading(path) < |Trimmed(path)|
    ensures var l := Last(Trimmed(path), Leading(path));
      BaseAt(path, |path|) == if Trimmed(path)[l] == SLASH then l + 1 else l
  {
    hide Trimmed, BaseAt, Starts, Last, Leading;
    var s := Trimmed(path);
    LastStarts(s, Leading(path), path);
    BaseStartsAt(path, s, Last(s, Leading(path)));
  }

  lemma BaseStartsAt(path: Bytes, s: Bytes, l: nat)
    requires s == Trimmed(path) && l < |s| && s[|s| - 1] != SLASH && (l == 0 || s[l - 1] == SLASH)
    requires forall k :: l < k < |s| ==> s[k] != SLASH
    ensures BaseAt(path, |path|) == if s[l] == SLASH then l + 1 else l
  {
    hide Trimmed, BaseAt, Starts;
    if s[l] == SLASH {
      BaseFound(path, s, BaseAt(path, |path|), l + 1);
    } else {
      BaseFound(path, s, BaseAt(path, |path|), l);
    }
  }

  lemma Tails(s: Bytes, b: nat, l: nat)
    requires l < |s| && s[|s| - 1] != SLASH && b == if s[l] == SLASH then l + 1 else l
    ensures b < |s| && s[l..][0] == s[l] && (s[b..] == s[l..] <==> s[l] != SLASH)
    ensures s[l] == SLASH ==> s[b..] == s[l..][1..]
  {
  }

  lemma LastStarts(s: Bytes, from: nat, path: Bytes)
    requires from < |s| && s[|s| - 1] != SLASH && s <= path && from == Leading(path)
    ensures var l := Last(s, from); l == 0 || s[l - 1] == SLASH
  {
    LeadingSlashes(path);
    assert forall k :: 0 <= k < |s| ==> path[k] == s[k];
  }

  lemma BaseFound(path: Bytes, s: Bytes, b: nat, at: nat)
    requires s == Trimmed(path) && b == BaseAt(path, |path|)
    requires at < |s| && s[at] != SLASH && (forall k :: at <= k < |s| ==> s[k] != SLASH)
    requires if at == 0 then true else s[at - 1] == SLASH
    ensures b == at
  {
    TrimmedSlashes(path);
    assert forall k :: 0 <= k < |s| ==> path[k] == s[k];
    assert at > 0 ==> Starts(path, at);
  }

  lemma {:induction false} TrimmedTail(path: Bytes, b: nat)
    requires b <= |Trimmed(path)|
    ensures Trimmed(path[b..]) == Trimmed(path)[b..]
    decreases |path|
  {
    var tail := path[b..];
    if path != [] && path[|path| - 1] == SLASH {
      assert tail[|tail| - 1] == SLASH;
      assert tail[..|tail| - 1] == path[..|path| - 1][b..];
      TrimmedTail(path[..|path| - 1], b);
    } else if tail != [] {
      assert tail[|tail| - 1] == path[|path| - 1];
    }
  }

  // ---- Resolution as a fold over components ----

  ghost predicate Component(name: Bytes) {
    name != [] && SLASH !in name && 0 !in name
  }

  ghost predicate Components(cs: seq<Bytes>) {
    forall i :: 0 <= i < |cs| ==> Component(cs[i])
  }

  // "/" + c1 + "/" + c2 + ...
  function Joined(cs: seq<Bytes>): Bytes {
    if cs == [] then [] else Joined(cs[..|cs| - 1]) + [SLASH] + cs[|cs| - 1]
  }

  function Resolved(v: Names, cs: seq<Bytes>): Option<nat> {
    if cs == [] then Some(v.root)
    else
      var w := Resolved(v, cs[..|cs| - 1]);
      if w.None? then None else Step(v, w.value, Joined(cs), cs[|cs| - 1])
  }

  lemma {:induction false} JoinedShape(cs: seq<Bytes>)
    requires Components(cs) && cs != []
    ensures var s := Joined(cs); |s| > 1 && s[0] == SLASH && s[1] != SLASH && s[|s| - 1] != SLASH
    ensures Leading(Joined(cs)) == 1 && Trimmed(Joined(cs)) == Joined(cs)
    decreases |cs|
  {
    var s, last := Joined(cs), cs[|cs| - 1];
    var before := cs[..|cs| - 1];
    assert Component(last) && last[0] in last && last[|last| - 1] in last;
    assert s[|s| - |last|..] == last;
    assert s[|s| - 1] == last[|last| - 1];
    if before != [] {
      assert Components(before);
      JoinedShape(before);
      assert s[0] == Joined(before)[0] && s[1] == Joined(before)[1];
    }
  }

  // t is s with one more component.
  ghost predicate Extends(t: Bytes, s: Bytes, name: Bytes) {
    && |s| < |t| && t[..|s|] == s && t[|s|] == SLASH && t[|s| + 1..] == name && Component(name)
    && t[|t| - 1] != SLASH
  }

  // The parent of the longer path is what the shorter one leads to.
  lemma {:induction false} ExtendedLookup(v: Names, s: Bytes, t: Bytes, from: nat, wd: nat, name: Bytes)
    requires from < |s| && s[|s| - 1] != SLASH && Extends(t, s, name)
    ensures Lookup(v, t, from, wd, true) == Lookup(v, s, from, wd, false)
    decreases |s| - from
  {
    hide End, Step, Component;
    var p := End(s, from + 1);
    EndExtended(s, t, from + 1);
    assert t[..p] == s[..p] && t[from..p] == s[from..p];
    if p < |s| {
      var node := Step(v, wd, s[..p], s[from..p]);
      if node.Some? {
        ExtendedLookup(v, s, t, p + 1, node.value, name);
      }
    } else {
      assert s[..p] == s;
      LastEnd(t, p + 1, name);
    }
  }

  lemma {:induction false} ExtendedLast(s: Bytes, t: Bytes, from: nat, name: Bytes)
    requires from < |s| && s[|s| - 1] != SLASH && Extends(t, s, name)
    ensures Last(t, from) == |s| + 1
    decreases |s| - from
  {
    hide End, Component;
    var p := End(s, from + 1);
    EndExtended(s, t, from + 1);
    if p < |s| {
      ExtendedLast(s, t, p + 1, name);
    } else {
      LastEnd(t, p + 1, name);
    }
  }

  lemma ExtendsJoined(s: Bytes, name: Bytes)
    requires Component(name)
    ensures Extends(s + [SLASH] + name, s, name)
  {
    var t := s + [SLASH] + name;
    assert t[|t| - 1] == name[|name| - 1] && name[|name| - 1] in name;
    assert t[|s| + 1..] == name;
  }

  lemma EndExtended(s: Bytes, t: Bytes, from: nat)
    requires from <= |s| < |t| && s == t[..|s|] && t[|s|] == SLASH
    ensures End(t, from) == End(s, from)
  {
    var p := End(s, from);
    assert forall k :: 0 <= k < |s| ==> t[k] == s[k];
    EndUnique(t, from, p);
  }

  lemma LastEnd(t: Bytes, from: nat, name: Bytes)
    requires from < |t| && t[from..] == name && Component(name)
    ensures End(t, from + 1) == |t|
  {
    forall k | from + 1 <= k < |t| ensures t[k] != SLASH {
      assert t[k] == name[k - from] && name[k - from] in name;
    }
    EndUnique(t, from + 1, |t|);
  }

  // For a path with one leading slash and none repeated, the loop is the fold.
  lemma {:induction false} OpenedIsFold(v: Names, cs: seq<Bytes>)
    requires Components(cs)
    ensures Opened(v, Joined(cs), false) == Resolved(v, cs)
    ensures cs != [] ==> Opened(v, Joined(cs), true) == Resolved(v, cs[..|cs| - 1])
    ensures cs != [] ==>
      Leading(Joined(cs)) < |Joined(cs)| && LastComponent(Joined(cs)) == Base(Joined(cs)) == cs[|cs| - 1]
    decreases |cs|
  {
    if cs != [] {
      var before, last := cs[..|cs| - 1], cs[|cs| - 1];
      var s := Joined(cs);
      assert Component(last) && last[0] in last;
      JoinedShape(cs);
      assert Components(before);
      OpenedIsFold(v, before);
      if before == [] {
        assert s == [SLASH] + last && s[1..] == last;
        LastEnd(s, 1, last);
      } else {
        JoinedShape(before);
        ExtendsJoined(Joined(before), last);
        ExtendedLookup(v, Joined(before), s, 1, v.root, last);
        ExtendedLast(Joined(before), s, 1, last);
        assert s[|Joined(before)| + 1..] == last;
      }
      OpenedFromParent(v, s);
      BaseIsLast(s);
    }
  }

  // ---- A new directory entry ----

  function WithEntry(v: Names, dir: nat, name: Bytes, node: nat): Names {
    v.(entries := v.entries[(dir, name) := node])
  }

  // Whatever resolved before resolves as before, for every text of a path.
  lemma {:induction false} LookupStill(v: Names, s: Bytes, from: nat, wd: nat, parent: bool, dir: nat, name: Bytes,
                                       node: nat)
    requires from < |s| && s[|s| - 1] != SLASH && (dir, name) !in v.entries
    ensures Lookup(v, s, from, wd, parent).Some? ==>
      Lookup(WithEntry(v, dir, name, node), s, from, wd, parent) == Lookup(v, s, from, wd, parent)
    decreases |s| - from
  {
    var p := End(s, from + 1);
    var next := Step(v, wd, s[..p], s[from..p]);
    if next.Some? && p < |s| {
      LookupStill(v, s, p + 1, next.value, parent, dir, name, node);
    }
  }

  lemma OpenedStill(v: Names, path: Bytes, parent: bool, dir: nat, name: Bytes, node: nat)
    requires (dir, name) !in v.entries && Opened(v, path, parent).Some?
    ensures Opened(WithEntry(v, dir, name, node), path, parent) == Opened(v, path, parent)
  {
    if Leading(path) < |path| {
      TrimmedLonger(path);
      LookupStill(v, Trimmed(path), Leading(path), v.root, parent, dir, name, node);
    }
  }

  // After creating path, path leads to the new node; a mountpoint at that path hides it, and a
  // doubled slash in front of the last component keeps lookups from finding it.
  lemma CreatedFound(v: Names, path: Bytes, dir: nat, node: nat)
    requires Leading(path) < |path| && Opened(v, path, true) == Some(dir) && (dir, Base(path)) !in v.entries
    requires forall e :: e in v.entries ==> v.entries[e] != node
    ensures MountAt(v.mounts, Trimmed(path)).None? ==>
      (Opened(WithEntry(v, dir, Base(path), node), path, false) == Some(node) <==> LastComponent(path)[0] != SLASH)
    ensures MountAt(v.mounts, Trimmed(path)).Some? ==>
      Opened(WithEntry(v, dir, Base(path), node), path, false) == MountAt(v.mounts, Trimmed(path))
  {
    var w := WithEntry(v, dir, Base(path), node);
    OpenedStill(v, path, true, dir, Base(path), node);
    OpenedFromParent(w, path);
    BaseIsLast(path);
  }

  // "/a//b": created as b in /a, looked up as "/b" in /a, and not found.
  lemma DoubledSlashLost()
    ensures var a: Byte := 'a' as int; var b: Byte := 'b' as int;
      var path, v := [SLASH, a, SLASH, SLASH, b], Names(0, map[(0, [a]) := 1], []);
      && Opened(v, path, true) == Some(1) && Base(path) == [b]
      && Opened(WithEntry(v, 1, [b], 2), path, false) == None
  {
    var a: Byte := 'a' as int;
    var b: Byte := 'b' as int;
    var path, v := [SLASH, a, SLASH, SLASH, b], Names(0, map[(0, [a]) := 1], []);
    var w := WithEntry(v, 1, [b], 2);
    assert path[1..][0] == a && Leading(path) == 1;
    assert Trimmed(path) == path;
    assert path[1..2] == [a] && path[3..5] == [SLASH, b];
    LookupStep(v, path, 1, 0, true, 2);
    LookupStep(v, path, 3, 1, true, 5);
    LookupStep(w, path, 1, 0, false, 2);
    LookupStep(w, path, 3, 1, false, 5);
    assert Starts(path, 1) && !Starts(path, 2) && !Starts(path, 3) && Starts(path, 4) && !Starts(path, 5);
    assert BaseAt(path, 5) == 4 && path[4..] == [b];
  }

  // A path that did not resolve before only does so through the new entry.
  lemma {:induction false} OnlyThrough(v: Names, cs: seq<Bytes>, dir: nat, name: Bytes, node: nat) returns (k: nat)
    requires (dir, name) !in v.entries
    requires Resolved(v, cs).None? && Resolved(WithEntry(v, dir, name, node), cs).Some?
    ensures 0 < k <= |cs| && Resolved(v, cs[..k - 1]) == Some(dir) && cs[k - 1] == name
    ensures Resolved(WithEntry(v, dir, name, node), cs[..k]) == Some(node)
    decreases |cs|
  {
    hide WithEntry, Joined, MountAt;
    var w := WithEntry(v, dir, name, node);
    var before := cs[..|cs| - 1];
    if Resolved(v, before).None? {
      k := OnlyThrough(v, before, dir, name, node);
      assert before[..k] == cs[..k] && before[..k - 1] == cs[..k - 1];
    } else {
      ResolvedStill(v, before, dir, name, node);
      k := |cs|;
      assert cs[..k] == cs;
      NewStep(v, Resolved(v, before).value, Joined(cs), cs[|cs| - 1], dir, name, node);
    }
  }

  lemma NewStep(v: Names, wd: nat, path: Bytes, component: Bytes, dir: nat, name: Bytes, node: nat)
    requires Step(v, wd, path, component).None? && Step(WithEntry(v, dir, name, node), wd, path, component).Some?
    ensures wd == dir && component == name && Step(WithEntry(v, dir, name, node), wd, path, component) == Some(node)
  {
  }

  lemma {:induction false} ResolvedStill(v: Names, cs: seq<Bytes>, dir: nat, name: Bytes, node: nat)
    requires (dir, name) !in v.entries && Resolved(v, cs).Some?
    ensures Resolved(WithEntry(v, dir, name, node), cs) == Resolved(v, cs)
    decreases |cs|
  {
    if cs != [] {
      ResolvedStill(v, cs[..|cs| - 1], dir, name, node);
    }
  }

  // ---- Mounting ----

  // Lookups that succeeded before give the same node.
  ghost predicate KeepsResolving(v: Names, w: Names) {
    forall path, parent :: Opened(v, path, parent).Some? ==> Opened(w, path, parent) == Opened(v, path, parent)
  }

  lemma EntryKeepsResolving(v: Names, dir: nat, name: Bytes, node: nat)
    requires (dir, name) !in v.entries
    ensures KeepsResolving(v, WithEntry(v, dir, name, node))
  {
    forall path, parent | Opened(v, path, parent).Some?
      ensures Opened(WithEntry(v, dir, name, node), path, parent) == Opened(v, path, parent)
    {
      OpenedStill(v, path, parent, dir, name, node);
    }
  }

  lemma {:induction false} MountAppended(mounts: seq<Mount>, m: Mount, path: Bytes)
    ensures MountAt(mounts + [m], path) == if MountAt(mounts, path).Some? then MountAt(mounts, path)
                                           else if m.path == path then Some(m.node) else None
  {
    if mounts != [] {
      assert (mounts + [m])[1..] == mounts[1..] + [m];
      MountAppended(mounts[1..], m, path);
    }
  }

  // A mount that is not reached on the way leaves the lookup of a parent alone.
  lemma {:induction false} ParentUnmounted(v: Names, m: Mount, s: Bytes, from: nat, wd: nat)
    requires from < |s| && s[|s| - 1] != SLASH && |m.path| >= |s|
    ensures Lookup(v.(mounts := v.mounts + [m]), s, from, wd, true) == Lookup(v, s, from, wd, true)
    decreases |s| - from
  {
    var p := End(s, from + 1);
    if p < |s| {
      MountAppended(v.mounts, m, s[..p]);
      var node := Step(v, wd, s[..p], s[from..p]);
      if node.Some? {
        ParentUnmounted(v, m, s, p + 1, node.value);
      }
    }
  }

  // A mounted path leads to its target, unless the table had that path before.
  lemma MountFound(v: Names, path: Bytes, target: nat)
    requires Leading(path) < |path| && Trimmed(path) == path && Opened(v, path, true).Some?
    ensures Opened(v.(mounts := v.mounts + [Mount(path, target)]), path, false) ==
            if MountAt(v.mounts, path).Some? then MountAt(v.mounts, path) else Some(target)
  {
    var w := v.(mounts := v.mounts + [Mount(path, target)]);
    ParentUnmounted(v, Mount(path, target), path, Leading(path), v.root);
    OpenedFromParent(w, path);
    MountAppended(v.mounts, Mount(path, target), path);
  }

  // ---- Every lookup ends at a node there is ----

  ghost predicate Known(v: Names, nodes: set<nat>) {
    && v.root in nodes
    && (forall e :: e in v.entries ==> v.entries[e] in nodes)
    && (forall i :: 0 <= i < |v.mounts| ==> v.mounts[i].node in nodes)
  }

  lemma {:induction false} MountKnown(mounts: seq<Mount>, path: Bytes, nodes: set<nat>)
    requires forall i :: 0 <= i < |mounts| ==> mounts[i].node in nodes
    ensures MountAt(mounts, path).Some? ==> MountAt(mounts, path).value in nodes
  {
    if mounts != [] {
      MountKnown(mounts[1..], path, nodes);
    }
  }

  lemma {:induction false} LookupKnown(v: Names, s: Bytes, from: nat, wd: nat, parent: bool, nodes: set<nat>)
    requires from < |s| && s[|s| - 1] != SLASH && Known(v, nodes) && wd in nodes
    ensures Lookup(v, s, from, wd, parent).Some? ==> Lookup(v, s, from, wd, parent).value in nodes
    decreases |s| - from
  {
    var p := End(s, from + 1);
    MountKnown(v.mounts, s[..p], nodes);
    var node := Step(v, wd, s[..p], s[from..p]);
    if node.Some? && p < |s| {
      LookupKnown(v, s, p + 1, node.value, parent, nodes);
    }
  }

  lemma OpenedKnown(v: Names, path: Bytes, parent: bool, nodes: set<nat>)
    requires Known(v, nodes)
    ensures Opened(v, path, parent).Some? ==> Opened(v, path, parent).value in nodes
  {
    if Leading(path) < |path| {
      TrimmedLonger(path);
      LookupKnown(v, Trimmed(path), Leading(path), v.root, parent, nodes);
    }
  }
}
