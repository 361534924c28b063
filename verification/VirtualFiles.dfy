/** The virtual filesystem: path lookup in a copied buffer, the mount table, creation by path. */
module VirtualFiles {
  import opened ByteStrings
  import opened Wrappers
  import opened Paths

  const EOK := 0
  const ENOENT := -2
  const EACCES := -13
  const EEXIST := -17
  const EINVAL := -22
  const EROFS := -30

  // An fs_node_t as far as lookups and permission checks look at it; creates and makes tell
  // whether its filesystem has a create and a mkdir operation.
  datatype Attributes = Attributes(mask: nat, uid: nat, gid: nat, creates: bool, makes: bool)

  // Bit 1 of one of the three octal digits of a mode.
  predicate Writable(digit: nat) {
    digit / 2 % 2 == 1
  }

  // The C string that begins at from.
  ghost predicate Holds(buf: seq<Byte>, from: nat, s: Bytes) {
    && from + |s| < |buf| && buf[from..from + |s|] == s && buf[from + |s|] == 0 && 0 !in s
  }

  lemma CStringAt(buf: seq<Byte>, from: nat, s: Bytes)
    requires Holds(buf, from, s)
    ensures CString(buf[from..]) == s
  {
    assert buf[from..] == s + [0] + buf[from + |s| + 1..];
    CStringOf(s, buf[from + |s| + 1..]);
  }

  // strdup
  method Copy(s: Bytes) returns (buf: array<Byte>)
    requires 0 !in s
    ensures fresh(buf) && buf[..] == s + [0]
  {
    buf := new Byte[|s| + 1](i requires 0 <= i <= |s| => if i < |s| then s[i] else 0);
  }

  // for (p = first + strlen(first) - 1; *p == '/'; p--) *p = 0; stopping at the buffer's start.
  method StripSlashes(buf: array<Byte>, s: Bytes)
    requires buf[..] == s + [0] && 0 !in s
    modifies buf
    ensures Buffer(buf[..], Trimmed(s))
  {
    hide Trimmed;
    var n: nat := |s|;
    assert s[..n] == s;
    while n > 0 && buf[n - 1] == SLASH
      invariant n <= |s| && Trimmed(s[..n]) == Trimmed(s)
      invariant buf[..n] == s[..n] && forall k :: n <= k < buf.Length ==> buf[k] == 0
    {
      TrimStep(s, n);
      buf[n - 1] := 0;
      n := n - 1;
    }
    TrimStep(s, n);
  }

  lemma TrimStep(s: Bytes, n: nat)
    requires n <= |s|
    ensures Trimmed(s[..n]) == if n > 0 && s[n - 1] == SLASH then Trimmed(s[..n - 1]) else s[..n]
  {
    if n > 0 {
      assert s[..n][..n - 1] == s[..n - 1] && s[..n][n - 1] == s[n - 1];
    }
  }

  class Vfs {
    const root: nat
    var entries: map<(nat, Bytes), nat>
    var attributes: map<nat, Attributes>
    var mountpoints: seq<Mount>
    var mountpointsCapacity: nat

    ghost function Now(): Names
      reads this
    {
      Names(root, entries, mountpoints)
    }

    // Every node there is has attributes.
    ghost predicate Valid()
      reads this
    {
      Known(Now(), attributes.Keys) && |mountpoints| <= mountpointsCapacity
    }

    // vfs_init
    constructor (rootNode: nat, attrs: Attributes)
      ensures Valid() && Now() == Names(rootNode, map[], []) && attributes == map[rootNode := attrs]
      ensures mountpointsCapacity == 32
    {
      root, entries, attributes := rootNode, map[], map[rootNode := attrs];
      mountpoints, mountpointsCapacity := [], 32;
    }

    // vfs_get_mountpoint
    method GetMountpoint(path: Bytes) returns (node: Option<nat>)
      ensures node == MountAt(mountpoints, path)
    {
      var i := 0;
      while i < |mountpoints|
        invariant i <= |mountpoints| && MountAt(mountpoints, path) == MountAt(mountpoints[i..], path)
      {
        if mountpoints[i].path == path {
          return Some(mountpoints[i].node);
        }
        assert mountpoints[i..][1..] == mountpoints[i + 1..];
        i := i + 1;
      }
      return None;
    }

    method Finddir(wd: nat, name: Bytes) returns (node: Option<nat>)
      ensures node == if (wd, name) in entries then Some(entries[(wd, name)]) else None
    {
      if (wd, name) in entries {
        return Some(entries[(wd, name)]);
      }
      return None;
    }

    // kopen: _kopen from the root. The buffer is cut at each slash and mended again.
    method Open(filename: Bytes, parent: bool) returns (node: Option<nat>)
      requires 0 !in filename
      ensures node == Opened(Now(), filename, parent)
    {
      var name := Copy(filename);
      var nodename := 0;
      while name[nodename] == SLASH
        invariant nodename <= |filename| && forall k :: 0 <= k < nodename ==> filename[k] == SLASH
        decreases |filename| - nodename
      {
        assert name[nodename] == filename[nodename];
        nodename := nodename + 1;
      }
      LeadingIs(filename, nodename);
      if name[nodename] == 0 {
        return Some(root);
      }
      StripSlashes(name, filename);
      TrimmedLonger(filename);
      node := Walk(name, Trimmed(filename), nodename, parent);
    }

    method Walk(name: array<Byte>, ghost s: Bytes, start: nat, parent: bool) returns (node: Option<nat>)
      requires |s| < name.Length && Buffer(name[..], s) && start < |s| && s[start] != SLASH && s[|s| - 1] != SLASH
      modifies name
      ensures node == Lookup(Now(), s, start, root, parent)
    {
      hide Step, Lookup, End;
      var wd: nat, nodename: nat, p: nat := root, start, start;
      while true
        invariant nodename <= p <= |s| && Buffer(name[..], s)
        invariant forall k :: nodename < k < p ==> s[k] != SLASH
        invariant nodename < |s| && (p == nodename ==> s[p] != SLASH)
        invariant Lookup(Now(), s, nodename, wd, parent) == Lookup(Now(), s, start, root, parent)
        decreases |s| - p
      {
        assert p < |s| ==> name[p] == s[p];
        if name[p] == SLASH || name[p] == 0 {
          var token := name[p];
          LookupStep(Now(), s, nodename, wd, parent, p);
          if token == 0 && parent {
            return Some(wd);
          }
          node := Component(name, s, wd, nodename, p);
          if node.None? {
            return None;
          }
          wd := node.value;
          if token == 0 {
            return Some(wd);
          }
          name[p] := SLASH;
          p := p + 1;
          nodename := p;
        }
        p := p + 1;
      }
    }

    // Cut the buffer at p and look the component up.
    method Component(name: array<Byte>, ghost s: Bytes, wd: nat, nodename: nat, p: nat) returns (node: Option<nat>)
      requires |s| < name.Length && Buffer(name[..], s) && nodename < p <= |s|
      modifies name
      ensures node == Step(Now(), wd, s[..p], s[nodename..p])
      ensures name[..] == old(name[..])[p := 0]
    {
      hide CString, MountAt;
      name[p] := 0;
      CutAt(name[..], s, 0, p);
      CutAt(name[..], s, nodename, p);
      node := GetMountpoint(CString(name[..]));
      if node.None? {
        node := Finddir(wd, CString(name[nodename..]));
      }
    }

    // ---- Creation by path ----

    // The loop that picks the file name out of a path, and the copy without trailing slashes.
    method Basename(name: Bytes) returns (base: Bytes)
      requires 0 !in name
      ensures base == Base(name)
    {
      var filename: nat, p: nat := 0, 0;
      while p < |name|
        invariant p <= |name| && filename == BaseAt(name, p)
      {
        if name[p] == SLASH && p + 1 < |name| && name[p + 1] != SLASH {
          filename := p + 1;
        }
        p := p + 1;
      }
      var buf := Copy(name[filename..]);
      StripSlashes(buf, name[filename..]);
      CutAt(buf[..], Trimmed(name[filename..]), 0, |Trimmed(name[filename..])|);
      base := CString(buf[..]);
    }

    // check_permission(node, 02) for the current process
    predicate MayWrite(node: nat, uid: nat, gid: nat)
      requires node in attributes
      reads this
    {
      var a := attributes[node];
      uid == 0 || Writable(a.mask % 8) || (uid == a.uid && Writable(a.mask / 64 % 8))
        || (gid == a.gid && Writable(a.mask / 8 % 8))
    }

    // What create_file and mkdir answer once their own first checks are passed.
    ghost function Answer(path: Bytes, uid: nat, gid: nat, directory: bool): int
      requires Valid()
      reads this
    {
      var parent := Opened(Now(), path, true);
      OpenedKnown(Now(), path, true, attributes.Keys);
      if parent.None? then ENOENT
      else if !MayWrite(parent.value, uid, gid) then EACCES
      else if (parent.value, Base(path)) in entries then EEXIST
      else if !(if directory then attributes[parent.value].makes else attributes[parent.value].creates) then EROFS
      else if directory && Base(path) == [] then EINVAL
      else EOK
    }

    // When which of them is given: only the superuser is not asked for the write bit, bit 1, of
    // one of the classes of the parent's mode that the process belongs to; everyone is of the
    // others' class. The errors come in this order.
    lemma AnswerExactly(path: Bytes, uid: nat, gid: nat, directory: bool)
      requires Valid()
      ensures Opened(Now(), path, true).None? <==> Answer(path, uid, gid, directory) == ENOENT
      ensures Opened(Now(), path, true).Some? ==>
        var parent := Opened(Now(), path, true).value; var result := Answer(path, uid, gid, directory);
        && parent in attributes
        && var a := attributes[parent];
        var refused := uid != 0 && a.mask % 8 !in {2, 3, 6, 7}
          && (uid == a.uid ==> a.mask / 0x40 % 8 !in {2, 3, 6, 7})
          && (gid == a.gid ==> a.mask / 8 % 8 !in {2, 3, 6, 7});
        var taken, able := (parent, Base(path)) in entries, if directory then a.makes else a.creates;
        && (result == EACCES <==> refused)
        && (result == EEXIST <==> !refused && taken)
        && (result == EROFS <==> !refused && !taken && !able)
        && (result == EINVAL <==> !refused && !taken && able && directory && Base(path) == [])
        && (result == EOK <==> !refused && !taken && able && !(directory && Base(path) == []))
    {
      OpenedKnown(Now(), path, true, attributes.Keys);
      hide Opened, Base, Known;
    }

    // A new entry called like the end of path, in the directory the rest of it leads to.
    ghost predicate Entered(v: Names, path: Bytes, node: nat)
      reads this
    {
      var parent := Opened(v, path, true);
      && parent.Some? && (parent.value, Base(path)) !in v.entries
      && Now() == WithEntry(v, parent.value, Base(path), node)
      && KeepsResolving(v, Now())
      && (Leading(path) < |path| && MountAt(v.mounts, Trimmed(path)).None? ==>
            (Opened(Now(), path, false) == Some(node) <==> LastComponent(path)[0] != SLASH))
    }

    method Enter(path: Bytes, a: Attributes, uid: nat, gid: nat, directory: bool) returns (result: int, node: nat)
      requires Valid() && 0 !in path
      modifies this`entries, this`attributes
      ensures Valid() && result == old(Answer(path, uid, gid, directory))
      ensures result != EOK ==> Now() == old(Now()) && attributes == old(attributes)
      ensures result == EOK ==>
        Entered(old(Now()), path, node) && node !in old(attributes) && attributes == old(attributes)[node := a]
    {
      hide Opened, Base, Known;
      ghost var v := Now();
      node := 0;
      OpenedKnown(Now(), path, true, attributes.Keys);
      var parent := Open(path, true);
      if parent.None? {
        return ENOENT, 0;
      }
      if !MayWrite(parent.value, uid, gid) {
        return EACCES, 0;
      }
      var filename := Basename(path);
      var existing := Finddir(parent.value, filename);
      if existing.Some? {
        return EEXIST, 0;
      }
      var able := if directory then attributes[parent.value].makes else attributes[parent.value].creates;
      if !able {
        return EROFS, 0;
      }
      if directory && filename == [] {
        return EINVAL, 0;
      }
      node := NewNode();
      entries := entries[(parent.value, filename) := node];
      attributes := attributes[node := a];
      result := EOK;
      EntryKeepsResolving(v, parent.value, filename, node);
      EntryKnown(v, old(attributes).Keys, parent.value, filename, node);
      assert attributes.Keys == old(attributes).Keys + {node};
      if Leading(path) < |path| {
        CreatedFound(v, path, parent.value, node);
      }
    }

    method NewNode() returns (node: nat)
      ensures node !in attributes
    {
      ghost var address := FreshAddress(attributes.Keys);
      node :| node !in attributes;
    }

    method CreateFile(path: Bytes, a: Attributes, uid: nat, gid: nat) returns (result: int, node: nat)
      requires Valid() && 0 !in path
      modifies this`entries, this`attributes
      ensures Valid()
      ensures result == if path == [] then EINVAL else if path == [SLASH] then EEXIST
        else old(Answer(path, uid, gid, false))
      ensures result != EOK ==> Now() == old(Now()) && attributes == old(attributes)
      ensures result == EOK ==>
        Entered(old(Now()), path, node) && node !in old(attributes) && attributes == old(attributes)[node := a]
    {
      if path == [] {
        return EINVAL, 0;
      }
      if path == [SLASH] {
        return EEXIST, 0;
      }
      result, node := Enter(path, a, uid, gid, false);
    }

    method Mkdir(path: Bytes, a: Attributes, uid: nat, gid: nat) returns (result: int, node: nat)
      requires Valid() && 0 !in path
      modifies this`entries, this`attributes
      ensures Valid()
      ensures result == if path == [] then EINVAL else old(Answer(path, uid, gid, true))
      ensures result != EOK ==> Now() == old(Now()) && attributes == old(attributes)
      ensures result == EOK ==>
        Entered(old(Now()), path, node) && node !in old(attributes) && attributes == old(attributes)[node := a]
    {
      if path == [] {
        return EINVAL, 0;
      }
      result, node := Enter(path, a, uid, gid, true);
    }

    // vfs_mount: the mountpoint is a new, empty file.
    method MountOn(path: Bytes, target: nat, a: Attributes, uid: nat, gid: nat)
      returns (result: int, ghost node: nat)
      requires Valid() && 0 !in path && target in attributes
      modifies this`entries, this`attributes, this`mountpoints, this`mountpointsCapacity
      ensures Valid()
      ensures result == if path == [] then EINVAL else if path == [SLASH] then EEXIST
        else old(Answer(path, uid, gid, false))
      ensures result != EOK ==> Now() == old(Now()) && attributes == old(attributes)
      ensures mountpointsCapacity == old(mountpointsCapacity)
        + (if result == EOK && |old(mountpoints)| == old(mountpointsCapacity) then 32 else 0)
      ensures result == EOK ==> mountpoints == old(mountpoints) + [Mount(path, target)]
      ensures result == EOK ==> node !in old(attributes) && attributes == old(attributes)[node := a]
      ensures result == EOK ==> var parent := old(Opened(Now(), path, true));
        parent.Some? && entries == old(entries)[(parent.value, Base(path)) := node]
      ensures result == EOK && Leading(path) < |path| && Trimmed(path) == path && MountAt(old(mountpoints), path).None?
        ==> Opened(Now(), path, false) == Some(target)
    {
      hide Opened, Known, Base, KeepsResolving, MountAt, Trimmed, LastComponent, Leading;
      if path == [] {
        return EINVAL, 0;
      }
      ghost var v := Now();
      result, node := CreateFile(path, a, uid, gid);
      if result != EOK {
        return;
      }
      ghost var w := Now();
      if |mountpoints| >= mountpointsCapacity {
        mountpointsCapacity := mountpointsCapacity + 32;
      }
      mountpoints := mountpoints + [Mount(path, target)];
      if Leading(path) < |path| && Trimmed(path) == path {
        StillOpens(v, w, path, true);
        MountFound(w, path, target);
      }
      MountedKnown(w, attributes.Keys, Mount(path, target));
    }
  }

  lemma StillOpens(v: Names, w: Names, path: Bytes, parent: bool)
    requires KeepsResolving(v, w) && Opened(v, path, parent).Some?
    ensures Opened(w, path, parent) == Opened(v, path, parent)
  {
  }

  lemma MountedKnown(v: Names, nodes: set<nat>, m: Mount)
    requires Known(v, nodes) && m.node in nodes
    ensures Known(v.(mounts := v.mounts + [m]), nodes)
  {
  }

  lemma EntryKnown(v: Names, nodes: set<nat>, dir: nat, name: Bytes, node: nat)
    requires Known(v, nodes)
    ensures Known(WithEntry(v, dir, name, node), nodes + {node})
    ensures node !in nodes ==> forall e :: e in v.entries ==> v.entries[e] != node
  {
  }

  // s, then zeros.
  ghost predicate Buffer(buf: seq<Byte>, s: Bytes) {
    && |s| < |buf| && buf[..|s|] == s && 0 !in s
    && forall k :: |s| <= k < |buf| ==> buf[k] == 0
  }

  lemma CutAt(buf: seq<Byte>, s: Bytes, from: nat, p: nat)
    requires |s| < |buf| && 0 !in s && from <= p <= |s| && buf[..p] == s[..p] && buf[p] == 0
    ensures CString(buf[from..]) == s[from..p]
    ensures from == 0 ==> buf[from..] == buf
  {
    assert buf[from..p] == s[from..p] by {
      assert buf[from..p] == buf[..p][from..] && s[from..p] == s[..p][from..];
    }
    CStringAt(buf, from, s[from..p]);
  }

  lemma {:induction false} LeadingIs(s: Bytes, n: nat)
    requires n <= |s| && (n < |s| ==> s[n] != SLASH) && forall k :: 0 <= k < n ==> s[k] == SLASH
    ensures Leading(s) == n
  {
    if n > 0 {
      LeadingIs(s[1..], n - 1);
    }
  }
}
