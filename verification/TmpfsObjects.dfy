/** The heap blocks behind the inodes: each has its structure, its name and its table there. */
module TmpfsObjects {
  import opened HeapBlocks
  import opened TmpfsStore

  // The pointers in struct tmpfs_file and struct tmpfs_dir; table is blocks or files.
  datatype Object = Object(name: nat, table: nat, target: nat)

  type Objects = map<nat, Object>

  const FILE_SIZE := 64     // sizeof(struct tmpfs_file)
  const DIR_SIZE := 56      // sizeof(struct tmpfs_dir)
  const POINTER_SIZE := 8

  function StructSize(n: Inode): nat {
    if n.Dir? then DIR_SIZE else FILE_SIZE
  }

  // A symbolic link keeps the table for two blocks that every new file gets.
  function TableSize(n: Inode): nat {
    match n
    case File(_, _, pointers, _) => pointers * POINTER_SIZE
    case Link(_, _) => 2 * POINTER_SIZE
    case Dir(_, capacity, _) => capacity * POINTER_SIZE
  }

  // The blocks of inode f, with the sizes they were requested with.
  function Parts(f: nat, n: Inode, o: Object): Blocks {
    var common := map[f := StructSize(n), o.name := |n.name| + 1, o.table := TableSize(n)];
    if n.Link? then common[o.target := |n.target| + 1] else common
  }

  ghost predicate Separate(f: nat, n: Inode, o: Object) {
    && f != o.name && f != o.table && o.name != o.table
    && (n.Link? ==> o.target != f && o.target != o.name && o.target != o.table)
  }

  ghost predicate Backed(live: Blocks, f: nat, n: Inode, o: Object) {
    Separate(f, n, o) && forall p :: p in Parts(f, n, o) ==> p in live && live[p] == Parts(f, n, o)[p]
  }

  // Every inode is backed by blocks of its own.
  ghost predicate Handles(inodes: Inodes, objects: Objects, live: Blocks) {
    && objects.Keys == inodes.Keys
    && (forall f :: f in inodes ==> Backed(live, f, inodes[f], objects[f]))
    && (forall f, g :: f in inodes && g in inodes && f != g ==>
          Parts(f, inodes[f], objects[f]).Keys !! Parts(g, inodes[g], objects[g]).Keys)
  }

  lemma PartsOwned(inodes: Inodes, objects: Objects, live: Blocks, f: nat)
    requires Handles(inodes, objects, live) && f in inodes
    ensures f in objects && Backed(live, f, inodes[f], objects[f])
    ensures Parts(f, inodes[f], objects[f]).Keys <= live.Keys
  {
  }

  lemma RootHandles(live: Blocks, f: nat, n: Inode, o: Object)
    requires Backed(live, f, n, o)
    ensures Handles(map[f := n], map[f := o], live)
  {
  }

  // Other blocks came or went.
  lemma OthersMoved(inodes: Inodes, objects: Objects, a: Blocks, b: Blocks)
    requires Handles(inodes, objects, a) && forall p :: p in a ==> p in b && b[p] == a[p]
    ensures Handles(inodes, objects, b)
  {
  }

  // An inode changed in a way its blocks do not notice.
  lemma SameParts(inodes: Inodes, objects: Objects, live: Blocks, f: nat, n: Inode)
    requires Handles(inodes, objects, live) && f in inodes && n.Link? == inodes[f].Link?
    requires Parts(f, n, objects[f]) == Parts(f, inodes[f], objects[f])
    ensures Handles(inodes[f := n], objects, live)
  {
    hide Parts;
  }

  // The table of f has moved, and has perhaps another size.
  lemma TableMoved(inodes: Inodes, objects: Objects, a: Blocks, b: Blocks, f: nat, n: Inode, moved: nat)
    requires Handles(inodes, objects, a) && f in inodes && moved !in a
    requires n.name == inodes[f].name && n.Dir? == inodes[f].Dir? && n.Link? == inodes[f].Link?
    requires n.Link? ==> n.target == inodes[f].target
    requires b == a[moved := TableSize(n)] - {objects[f].table}
    ensures Handles(inodes[f := n], objects[f := objects[f].(table := moved)], b)
  {
    var o, now := objects[f], objects[f].(table := moved);
    PartsOwned(inodes, objects, a, f);
    TablePart(a, b, f, inodes[f], n, o, moved);
    forall g | g in inodes && g != f
      ensures Backed(b, g, inodes[g], objects[g])
      ensures Parts(g, inodes[g], objects[g]).Keys !! Parts(f, n, now).Keys
    {
      PartsOwned(inodes, objects, a, g);
      assert Parts(g, inodes[g], objects[g]).Keys !! Parts(f, inodes[f], o).Keys;
      OthersPart(a, b, g, inodes[g], objects[g], o.table, moved);
    }
    hide Backed, Parts;
  }

  lemma TablePart(a: Blocks, b: Blocks, f: nat, was: Inode, n: Inode, o: Object, moved: nat)
    requires Backed(a, f, was, o) && moved !in a && Parts(f, was, o).Keys <= a.Keys
    requires n.name == was.name && n.Dir? == was.Dir? && n.Link? == was.Link? && (n.Link? ==> n.target == was.target)
    requires b == a[moved := TableSize(n)] - {o.table}
    ensures Backed(b, f, n, o.(table := moved)) && o.table in Parts(f, was, o)
    ensures Parts(f, n, o.(table := moved)).Keys <= Parts(f, was, o).Keys + {moved}
  {
    hide TableSize;
    assert f in Parts(f, was, o) && o.name in Parts(f, was, o) && (n.Link? ==> o.target in Parts(f, was, o));
  }

  lemma OthersPart(a: Blocks, b: Blocks, g: nat, n: Inode, o: Object, table: nat, moved: nat)
    requires Backed(a, g, n, o) && moved !in a && table !in Parts(g, n, o) && b.Keys == a.Keys + {moved} - {table}
    requires forall p :: p in b && p != moved ==> b[p] == a[p]
    ensures Backed(b, g, n, o) && moved !in Parts(g, n, o)
  {
    hide Parts;
  }

  // A new inode, backed by blocks that did not exist before.
  lemma ObjectAdded(inodes: Inodes, objects: Objects, a: Blocks, b: Blocks, f: nat, n: Inode, o: Object)
    requires Handles(inodes, objects, a) && forall p :: p in a ==> p in b && b[p] == a[p]
    requires f !in inodes && Backed(b, f, n, o) && Parts(f, n, o).Keys !! a.Keys
    ensures Handles(inodes[f := n], objects[f := o], b)
  {
    forall g | g in inodes
      ensures Backed(b, g, inodes[g], objects[g]) && Parts(g, inodes[g], objects[g]).Keys !! Parts(f, n, o).Keys
    {
      PartsOwned(inodes, objects, a, g);
    }
    hide Backed, Parts;
  }

  // The inode is gone, and of its blocks all or some.
  lemma ObjectRemoved(inodes: Inodes, objects: Objects, a: Blocks, b: Blocks, f: nat)
    requires Handles(inodes, objects, a) && f in inodes
    requires forall p :: p in a && p !in Parts(f, inodes[f], objects[f]) ==> p in b && b[p] == a[p]
    ensures Handles(inodes - {f}, objects - {f}, b)
  {
    forall g | g in inodes && g != f ensures Backed(b, g, inodes[g], objects[g]) {
      PartsOwned(inodes, objects, a, g);
      assert Parts(g, inodes[g], objects[g]).Keys !! Parts(f, inodes[f], objects[f]).Keys;
    }
    hide Backed, Parts;
  }
}
