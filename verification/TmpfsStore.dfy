/** The state of the in-memory filesystem: inodes, frames of blocks, the tree they form. */
module TmpfsStore {
  import opened ByteStrings

  const BLOCK_SIZE := 0x1000

  type Block = b: Bytes | |b| == BLOCK_SIZE witness Zeros(BLOCK_SIZE)

  // struct tmpfs_file and struct tmpfs_dir, by address. Frames in blocks are frame numbers.
  datatype Inode =
    | File(name: Bytes, length: nat, pointers: nat, blocks: seq<nat>)
    | Link(name: Bytes, target: Bytes)
    | Dir(name: Bytes, capacity: nat, files: seq<nat>)

  type Inodes = map<nat, Inode>

  // What a caller sees of an inode.
  datatype Item =
    | Plain(name: Bytes, contents: Bytes)
    | Symlink(name: Bytes, target: Bytes)
    | Folder(name: Bytes, files: seq<nat>)

  datatype Store = Store(inodes: Inodes, mem: seq<Block>, locked: set<nat>, reserved: set<nat>, total: int, root: nat,
    home: map<nat, nat>)

  function BlocksOf(n: Inode): seq<nat> {
    if n.File? then n.blocks else []
  }

  function FilesOf(n: Inode): seq<nat> {
    if n.Dir? then n.files else []
  }

  ghost function Elements(s: seq<nat>): set<nat> {
    set f | f in s
  }

  ghost predicate Distinct(s: seq<nat>) {
    forall i, j :: 0 <= i < j < |s| ==> s[i] != s[j]
  }

  // ---- Frames ----

  ghost function Frames(inodes: Inodes): set<nat> {
    set p, f | p in inodes && f in BlocksOf(inodes[p]) :: f
  }

  // No frame serves two blocks.
  ghost predicate Apart(inodes: Inodes) {
    && (forall p :: p in inodes ==> Distinct(BlocksOf(inodes[p])))
    && (forall p, q, f :: p in inodes && q in inodes && f in BlocksOf(inodes[p]) && f in BlocksOf(inodes[q]) ==> p == q)
  }

  ghost function BlockSum(inodes: Inodes, ps: set<nat>): nat
    requires ps <= inodes.Keys
  {
    if ps == {} then 0
    else var p :| p in ps; |BlocksOf(inodes[p])| + BlockSum(inodes, ps - {p})
  }

  lemma {:induction false} BlockSumSplit(inodes: Inodes, ps: set<nat>, p: nat)
    requires ps <= inodes.Keys && p in ps
    ensures BlockSum(inodes, ps) == |BlocksOf(inodes[p])| + BlockSum(inodes, ps - {p})
  {
    var q :| q in ps && BlockSum(inodes, ps) == |BlocksOf(inodes[q])| + BlockSum(inodes, ps - {q});
    if q != p {
      BlockSumSplit(inodes, ps - {q}, p);
      BlockSumSplit(inodes, ps - {p}, q);
      assert ps - {q} - {p} == ps - {p} - {q};
    }
  }

  lemma {:induction false} BlockSumSame(a: Inodes, b: Inodes, ps: set<nat>)
    requires ps <= a.Keys && ps <= b.Keys && forall p :: p in ps ==> |BlocksOf(a[p])| == |BlocksOf(b[p])|
    ensures BlockSum(a, ps) == BlockSum(b, ps)
  {
    if p :| p in ps {
      BlockSumSplit(a, ps, p);
      BlockSumSplit(b, ps, p);
      BlockSumSame(a, b, ps - {p});
    }
  }

  // One inode changes, appears (before.None) or goes (after.None).
  lemma BlockSumStep(a: Inodes, b: Inodes, p: nat)
    requires a - {p} == b - {p}
    ensures BlockSum(b, b.Keys) - (if p in b then |BlocksOf(b[p])| else 0) ==
            BlockSum(a, a.Keys) - (if p in a then |BlocksOf(a[p])| else 0)
  {
    var ps := a.Keys - {p};
    assert ps == (a - {p}).Keys == (b - {p}).Keys == b.Keys - {p};
    forall q | q in ps ensures a[q] == b[q] {
      assert (a - {p})[q] == (b - {p})[q];
    }
    BlockSumSame(a, b, ps);
    if p in a { BlockSumSplit(a, a.Keys, p); } else { assert a.Keys == ps; }
    if p in b { BlockSumSplit(b, b.Keys, p); } else { assert b.Keys == ps; }
  }

  lemma {:induction false} DistinctCount(s: seq<nat>)
    requires Distinct(s)
    ensures |Elements(s)| == |s|
  {
    if s != [] {
      var before, last := s[..|s| - 1], s[|s| - 1];
      assert Distinct(before) && s == before + [last];
      assert last !in before by {
        hide Elements;
      }
      DistinctCount(before);
      hide Distinct;
      assert Elements(s) == Elements(before) + {last};
    }
  }

  lemma FramesSplit(inodes: Inodes, p: nat)
    requires Apart(inodes) && p in inodes
    ensures Apart(inodes - {p}) && Distinct(BlocksOf(inodes[p]))
    ensures var own := Elements(BlocksOf(inodes[p]));
      Frames(inodes) == Frames(inodes - {p}) + own && Frames(inodes - {p}) !! own
  {
    var rest := inodes - {p};
    assert forall q :: q in rest ==> q in inodes && rest[q] == inodes[q];
  }

  lemma NoFrames(inodes: Inodes)
    requires inodes == map[]
    ensures Frames(inodes) == {} && BlockSum(inodes, inodes.Keys) == 0
  {
  }

  // The total counts the frames: each block has one of its own.
  lemma {:induction false} TotalCountsFrames(inodes: Inodes)
    requires Apart(inodes)
    ensures |Frames(inodes)| == BlockSum(inodes, inodes.Keys)
    decreases |inodes|
  {
    hide Apart, Frames, Elements, BlockSum, Distinct;
    if p :| p in inodes {
      var rest := inodes - {p};
      FramesSplit(inodes, p);
      TotalCountsFrames(rest);
      BlockSumStep(inodes, rest, p);
      DistinctCount(BlocksOf(inodes[p]));
    } else {
      assert inodes.Keys == {};
      NoFrames(inodes);
    }
  }

  // The filesystem's frames and those of the rest of the system share the bitmap.
  ghost predicate Held(s: Store) {
    && Apart(s.inodes)
    && s.locked == s.reserved + Frames(s.inodes)
    && s.reserved !! Frames(s.inodes)
    && s.total == BlockSum(s.inodes, s.inodes.Keys)
    && forall f :: f in Frames(s.inodes) ==> f < |s.mem|
  }

  // block_count <= pointers, the blocks array never being too small, and length <= block_count * 4096.
  ghost predicate Roomy(n: Inode) {
    n.File? ==> |n.blocks| <= n.pointers && 2 <= n.pointers
  }

  ghost predicate Fitting(n: Inode) {
    n.File? ==> n.length <= |n.blocks| * BLOCK_SIZE
  }

  // ---- The tree ----

  // Every inode but the root hangs in one directory, once, under a name of its own.
  ghost predicate Tree(inodes: Inodes, root: nat, home: map<nat, nat>) {
    && root in inodes && inodes[root].Dir?
    && home.Keys == inodes.Keys - {root}
    && Homes(inodes, home)
    && forall d :: d in inodes ==> Listing(inodes, inodes[d])
  }

  ghost predicate Homes(inodes: Inodes, home: map<nat, nat>) {
    Housed(inodes, home) && Housing(inodes, home)
  }

  ghost predicate Housed(inodes: Inodes, home: map<nat, nat>) {
    forall p :: p in home ==> home[p] in inodes && p in FilesOf(inodes[home[p]])
  }

  ghost predicate Housing(inodes: Inodes, home: map<nat, nat>) {
    forall d, p :: d in inodes && p in FilesOf(inodes[d]) ==> p in home && home[p] == d
  }

  ghost predicate Listing(inodes: Inodes, n: Inode) {
    && Distinct(FilesOf(n)) && NamesDiffer(inodes, FilesOf(n))
    && (n.Dir? ==> |n.files| <= n.capacity)
  }

  ghost predicate NamesDiffer(inodes: Inodes, files: seq<nat>) {
    && (forall i :: 0 <= i < |files| ==> files[i] in inodes)
    && (forall i, j :: 0 <= i < j < |files| ==> inodes[files[i]].name != inodes[files[j]].name)
  }

  ghost predicate Valid(s: Store) {
    Consistent(s) && forall p :: p in s.inodes ==> Fitting(s.inodes[p])
  }

  // All but the lengths, which a write sets ahead of the blocks.
  ghost predicate Consistent(s: Store) {
    && Held(s)
    && Tree(s.inodes, s.root, s.home)
    && forall p :: p in s.inodes ==> Roomy(s.inodes[p])
  }

  // ---- Files as byte sequences ----

  // The blocks of a file, end to end.
  ghost function Flat(mem: seq<Block>, blocks: seq<nat>): (bytes: Bytes)
    ensures |bytes| == |blocks| * BLOCK_SIZE
  {
    seq(|blocks| * BLOCK_SIZE, i requires 0 <= i < |blocks| * BLOCK_SIZE =>
      ByteAt(mem, blocks[i / BLOCK_SIZE], i % BLOCK_SIZE))
  }

  // Every block of a consistent store lies in memory.
  ghost function ByteAt(mem: seq<Block>, frame: nat, at: nat): Byte
    requires at < BLOCK_SIZE
  {
    if frame < |mem| then mem[frame][at] else 0
  }

  ghost function ItemOf(mem: seq<Block>, n: Inode): Item
    requires Fitting(n)
  {
    match n
    case File(name, length, _, blocks) => Plain(name, Flat(mem, blocks)[..length])
    case Link(name, target) => Symlink(name, target)
    case Dir(name, _, files) => Folder(name, files)
  }

  lemma FramesIn(inodes: Inodes, p: nat)
    requires p in inodes
    ensures forall i :: 0 <= i < |BlocksOf(inodes[p])| ==> BlocksOf(inodes[p])[i] in Frames(inodes)
  {
    forall i | 0 <= i < |BlocksOf(inodes[p])| ensures BlocksOf(inodes[p])[i] in Frames(inodes) {
      var f := BlocksOf(inodes[p])[i];
      assert f in BlocksOf(inodes[p]);
    }
  }

  ghost function View(s: Store): map<nat, Item>
    requires forall p :: p in s.inodes ==> Fitting(s.inodes[p])
  {
    map p | p in s.inodes :: ItemOf(s.mem, s.inodes[p])
  }

  // after is before with bytes at position at; bytes of a hole are whatever the frames held.
  ghost predicate Wrote(before: Bytes, after: Bytes, at: nat, bytes: Bytes) {
    && at + |bytes| <= |after| && |before| <= |after|
    && after[at..at + |bytes|] == bytes
    && (forall i :: 0 <= i < |before| && (i < at || at + |bytes| <= i) ==> after[i] == before[i])
  }

  lemma WroteTwice(a: Bytes, b: Bytes, c: Bytes, at: nat, x: Bytes, y: Bytes)
    requires Wrote(a, b, at, x) && Wrote(b, c, at + |x|, y)
    ensures Wrote(a, c, at, x + y)
  {
    forall i | 0 <= i < |x + y| ensures c[at + i] == (x + y)[i] {
      if i < |x| {
        var k := at + i;
        assert c[k] == b[k] && b[k] == b[at..at + |x|][i];
      } else {
        assert c[at + i] == c[at + |x|..at + |x| + |y|][i - |x|];
      }
    }
  }

  lemma WroteIsOverlay(before: Bytes, after: Bytes, at: nat, bytes: Bytes)
    requires Wrote(before, after, at, bytes) && at <= |before|
    requires |after| == if at + |bytes| > |before| then at + |bytes| else |before|
    ensures after == Overlay(before, at, bytes)
  {
    var o := Overlay(before, at, bytes);
    forall i | 0 <= i < |after| ensures after[i] == o[i] {
      if at <= i < at + |bytes| {
        assert after[i] == after[at..at + |bytes|][i - at] && o[i] == o[at..at + |bytes|][i - at];
      }
    }
  }

  // memcpy into one block.
  lemma FlatAt(mem: seq<Block>, blocks: seq<nat>, k: nat, j: nat)
    requires k < |blocks| && j < BLOCK_SIZE
    ensures k * BLOCK_SIZE + j < |blocks| * BLOCK_SIZE
    ensures Flat(mem, blocks)[k * BLOCK_SIZE + j] == ByteAt(mem, blocks[k], j)
  {
    var i := k * BLOCK_SIZE + j;
    assert i / BLOCK_SIZE == k && i % BLOCK_SIZE == j;
  }

  lemma FlatPut(mem: seq<Block>, blocks: seq<nat>, k: nat, at: nat, bytes: Bytes)
    requires Distinct(blocks) && k < |blocks| && blocks[k] < |mem| && at + |bytes| <= BLOCK_SIZE
    ensures Wrote(Flat(mem, blocks), Flat(mem[blocks[k] := Overlay(mem[blocks[k]], at, bytes)], blocks),
      k * BLOCK_SIZE + at, bytes)
  {
    hide Flat, Overlay, Distinct, Wrote;
    var o: Block := Overlay(mem[blocks[k]], at, bytes);
    var was, now := Flat(mem, blocks), Flat(mem[blocks[k] := o], blocks);
    var lo := k * BLOCK_SIZE + at;
    forall i | 0 <= i < |now| ensures now[i] == if lo <= i < lo + |bytes| then bytes[i - lo] else was[i] {
      FlatPutAt(mem, blocks, k, at, bytes, o, i / BLOCK_SIZE, i % BLOCK_SIZE);
    }
    assert (k + 1) * BLOCK_SIZE <= |blocks| * BLOCK_SIZE;
    WrotePointwise(was, now, lo, bytes);
  }

  lemma WrotePointwise(was: Bytes, now: Bytes, lo: nat, bytes: Bytes)
    requires |was| == |now| && lo + |bytes| <= |now|
    requires forall i :: 0 <= i < |now| ==> now[i] == if lo <= i < lo + |bytes| then bytes[i - lo] else was[i]
    ensures Wrote(was, now, lo, bytes)
  {
    assert now[lo..lo + |bytes|] == bytes;
  }

  lemma FlatPutAt(mem: seq<Block>, blocks: seq<nat>, k: nat, at: nat, bytes: Bytes, o: Block, b: nat, j: nat)
    requires Distinct(blocks) && k < |blocks| && blocks[k] < |mem| && at + |bytes| <= BLOCK_SIZE
    requires o == Overlay(mem[blocks[k]], at, bytes)
    requires b < |blocks| && j < BLOCK_SIZE
    ensures var i := b * BLOCK_SIZE + j; var lo := k * BLOCK_SIZE + at;
      && i < |blocks| * BLOCK_SIZE
      && Flat(mem[blocks[k] := o], blocks)[i] == if lo <= i < lo + |bytes| then bytes[i - lo] else Flat(mem, blocks)[i]
  {
    FlatAt(mem, blocks, b, j);
    FlatAt(mem[blocks[k] := o], blocks, b, j);
    hide Flat;
    if b == k {
      if at <= j < at + |bytes| {
        assert o[at..at + |bytes|][j - at] == o[j];
      }
    } else {
      assert blocks[b] != blocks[k];
    }
  }

  lemma FlatUntouched(mem: seq<Block>, blocks: seq<nat>, f: nat, block: Block)
    requires f < |mem| && f !in blocks
    ensures Flat(mem[f := block], blocks) == Flat(mem, blocks)
  {
  }

  lemma FlatGrown(mem: seq<Block>, blocks: seq<nat>, more: seq<nat>)
    requires blocks <= more
    ensures Flat(mem, blocks) <= Flat(mem, more)
  {
  }

  // ---- What the steps keep ----

  // A change to one file: the tree does not notice.
  ghost predicate SameNode(a: Inode, b: Inode) {
    a.name == b.name && a.Dir? == b.Dir? && FilesOf(a) == FilesOf(b) && (a.Dir? ==> a == b)
  }

  lemma TreeKept(inodes: Inodes, root: nat, home: map<nat, nat>, p: nat, n: Inode)
    requires Tree(inodes, root, home) && p in inodes && SameNode(inodes[p], n)
    ensures Tree(inodes[p := n], root, home)
  {
    hide Homes;
    var after := inodes[p := n];
    assert after.Keys == inodes.Keys;
    forall d | d in after ensures Listing(after, after[d]) && FilesOf(after[d]) == FilesOf(inodes[d]) {
      ListingKept(inodes, after, inodes[d], after[d]);
    }
    HomesKept(inodes, after, home);
    hide Listing, FilesOf;
  }

  lemma HomesKept(a: Inodes, b: Inodes, home: map<nat, nat>)
    requires Homes(a, home) && b.Keys == a.Keys && forall d :: d in a ==> FilesOf(b[d]) == FilesOf(a[d])
    ensures Homes(b, home)
  {
  }

  lemma ListingKept(a: Inodes, b: Inodes, n: Inode, m: Inode)
    requires Listing(a, n) && SameNode(n, m)
    requires forall i :: 0 <= i < |FilesOf(n)| && FilesOf(n)[i] in a ==>
      FilesOf(n)[i] in b && b[FilesOf(n)[i]].name == a[FilesOf(n)[i]].name
    ensures Listing(b, m)
  {
  }

  // f = mmu_allocate_frame(); ++tmpfs_total_blocks; blocks[block_count++] = f
  ghost function Grown(s: Store, p: nat, f: nat): Store
    requires p in s.inodes && s.inodes[p].File?
  {
    s.(inodes := s.inodes[p := s.inodes[p].(blocks := s.inodes[p].blocks + [f])], locked := s.locked + {f},
      total := s.total + 1)
  }

  lemma GrownKeeps(s: Store, p: nat, f: nat)
    requires Consistent(s) && p in s.inodes && s.inodes[p].File? && |s.inodes[p].blocks| < s.inodes[p].pointers
    requires f < |s.mem| && f !in s.locked
    ensures Consistent(Grown(s, p, f))
  {
    var n := s.inodes[p].(blocks := s.inodes[p].blocks + [f]);
    TreeKept(s.inodes, s.root, s.home, p, n);
    GrownHeld(s, p, f);
    hide Held, Tree;
  }

  lemma GrownHeld(s: Store, p: nat, f: nat)
    requires Held(s) && p in s.inodes && s.inodes[p].File? && f < |s.mem| && f !in s.locked
    ensures Held(Grown(s, p, f))
  {
    var after := Grown(s, p, f).inodes;
    assert after - {p} == s.inodes - {p};
    BlockSumStep(s.inodes, after, p);
    FramesGrown(s.inodes, p, f);
    hide Apart, Frames, BlockSum;
  }

  lemma FramesGrown(inodes: Inodes, p: nat, f: nat)
    requires Apart(inodes) && p in inodes && inodes[p].File? && f !in Frames(inodes)
    ensures var after := inodes[p := inodes[p].(blocks := inodes[p].blocks + [f])];
      Apart(after) && Frames(after) == Frames(inodes) + {f}
  {
    var blocks := inodes[p].blocks;
    var after := inodes[p := inodes[p].(blocks := blocks + [f])];
    FramesIn(inodes, p);
    assert f !in blocks;
    assert BlocksOf(after[p]) == blocks + [f] && BlocksOf(inodes[p]) == blocks;
    assert forall b :: b in blocks + [f] <==> b in blocks || b == f;
    assert forall q :: q in after && q != p ==> BlocksOf(after[q]) == BlocksOf(inodes[q]);
    hide BlocksOf;
    GrownFrames(inodes, after, p, f);
    GrownApart(inodes, after, p, f);
  }

  lemma GrownFrames(a: Inodes, b: Inodes, p: nat, f: nat)
    requires b.Keys == a.Keys && p in a && forall q :: q in a && q != p ==> BlocksOf(b[q]) == BlocksOf(a[q])
    requires forall g :: g in BlocksOf(b[p]) <==> g in BlocksOf(a[p]) || g == f
    ensures Frames(b) == Frames(a) + {f}
  {
    hide BlocksOf;
    forall g ensures g in Frames(b) <==> g in Frames(a) || g == f {
      if q :| q in a && g in BlocksOf(a[q]) {
        assert g in BlocksOf(b[q]);
      }
      if g == f {
        assert g in BlocksOf(b[p]);
      }
    }
  }

  lemma GrownApart(a: Inodes, b: Inodes, p: nat, f: nat)
    requires Apart(a) && b.Keys == a.Keys && p in a && forall q :: q in a && q != p ==> BlocksOf(b[q]) == BlocksOf(a[q])
    requires BlocksOf(b[p]) == BlocksOf(a[p]) + [f] && f !in Frames(a)
    requires forall g :: g in BlocksOf(b[p]) <==> g in BlocksOf(a[p]) || g == f
    ensures Apart(b)
  {
    hide BlocksOf;
    forall q | q in a ensures f !in BlocksOf(a[q]) {
      assert f in BlocksOf(a[q]) ==> f in Frames(a);
    }
  }

  // f->blocks may have grown, to count blocks.
  ghost predicate Enlarged(a: Store, b: Store, p: nat, count: nat) {
    && p in a.inodes && a.inodes[p].File? && p in b.inodes && b.inodes[p].File?
    && b.inodes == a.inodes[p := a.inodes[p].(pointers := b.inodes[p].pointers, blocks := b.inodes[p].blocks)]
    && a.inodes[p].blocks <= b.inodes[p].blocks && |b.inodes[p].blocks| == count
    && b.mem == a.mem && b.root == a.root && b.home == a.home
  }

  // Bytes of one file written, its length aside; its block table may have grown.
  ghost predicate Patched(a: Store, b: Store, p: nat, at: nat, bytes: Bytes) {
    && p in a.inodes && a.inodes[p].File? && p in b.inodes && b.inodes[p].File?
    && b.inodes == a.inodes[p := a.inodes[p].(pointers := b.inodes[p].pointers, blocks := b.inodes[p].blocks)]
    && a.inodes[p].blocks <= b.inodes[p].blocks
    && Wrote(Flat(a.mem, a.inodes[p].blocks), Flat(b.mem, b.inodes[p].blocks), at, bytes)
    && OthersUntouched(a, b, p) && OnlyIn(a.mem, b.mem, b.inodes[p].blocks)
    && b.root == a.root && b.home == a.home
  }

  // Memory changed in these frames at most.
  ghost predicate OnlyIn(a: seq<Block>, b: seq<Block>, frames: seq<nat>) {
    |a| == |b| && forall f :: 0 <= f < |a| && f !in frames ==> b[f] == a[f]
  }

  ghost predicate OthersUntouched(a: Store, b: Store, p: nat) {
    forall q :: q in a.inodes && q in b.inodes && q != p ==>
      Flat(b.mem, BlocksOf(b.inodes[q])) == Flat(a.mem, BlocksOf(a.inodes[q]))
  }

  lemma PatchedTwice(a: Store, b: Store, c: Store, p: nat, at: nat, x: Bytes, y: Bytes)
    requires Patched(a, b, p, at, x) && Patched(b, c, p, at + |x|, y)
    ensures Patched(a, c, p, at, x + y)
  {
    WroteTwice(Flat(a.mem, a.inodes[p].blocks), Flat(b.mem, b.inodes[p].blocks), Flat(c.mem, c.inodes[p].blocks), at,
      x, y);
    assert forall f :: f in b.inodes[p].blocks ==> f in c.inodes[p].blocks;
    hide Wrote;
    forall q | q in a.inodes && q in c.inodes && q != p
      ensures Flat(c.mem, BlocksOf(c.inodes[q])) == Flat(a.mem, BlocksOf(a.inodes[q]))
    {
      assert q in b.inodes;
    }
  }

  // The block table grown, then bytes put into its block k.
  lemma PatchedBlock(a: Store, b: Store, p: nat, k: nat, at: nat, bytes: Bytes, block: Block)
    requires Consistent(b) && p in b.inodes && b.inodes[p].File? && Enlarged(a, b, p, |b.inodes[p].blocks|)
    requires k < |b.inodes[p].blocks| && at + |bytes| <= BLOCK_SIZE
    requires b.inodes[p].blocks[k] < |b.mem| && block == Overlay(b.mem[b.inodes[p].blocks[k]], at, bytes)
    ensures Patched(a, b.(mem := b.mem[b.inodes[p].blocks[k] := block]), p, k * BLOCK_SIZE + at, bytes)
  {
    var blocks := b.inodes[p].blocks;
    var f := blocks[k];
    FlatGrown(a.mem, a.inodes[p].blocks, blocks);
    assert f in BlocksOf(b.inodes[p]);
    assert Distinct(BlocksOf(b.inodes[p]));
    FlatPut(b.mem, blocks, k, at, bytes);
    forall q | q in a.inodes && q != p
      ensures Flat(b.mem[f := block], BlocksOf(b.inodes[q])) == Flat(a.mem, BlocksOf(a.inodes[q]))
    {
      assert f !in BlocksOf(b.inodes[q]);
      FlatUntouched(b.mem, BlocksOf(b.inodes[q]), f, block);
    }
  }

  lemma RoomyAt(s: Store, p: nat)
    requires Consistent(s) && p in s.inodes
    ensures Roomy(s.inodes[p])
  {
  }

  lemma PointersKept(s: Store, p: nat, pointers: nat)
    requires Consistent(s) && p in s.inodes && s.inodes[p].File? && s.inodes[p].pointers <= pointers
    ensures Consistent(s.(inodes := s.inodes[p := s.inodes[p].(pointers := pointers)]))
  {
    FileKept(s, p, s.inodes[p].(pointers := pointers));
  }

  lemma LengthKept(s: Store, p: nat, length: nat)
    requires Consistent(s) && p in s.inodes && s.inodes[p].File?
    ensures Consistent(s.(inodes := s.inodes[p := s.inodes[p].(length := length)]))
  {
    FileKept(s, p, s.inodes[p].(length := length));
  }

  // The blocks of a file stay as they are.
  lemma FileKept(s: Store, p: nat, n: Inode)
    requires Consistent(s) && p in s.inodes && SameNode(s.inodes[p], n) && BlocksOf(n) == BlocksOf(s.inodes[p])
    requires Roomy(n)
    ensures Consistent(s.(inodes := s.inodes[p := n]))
  {
    TreeKept(s.inodes, s.root, s.home, p, n);
    var after := s.inodes[p := n];
    assert after - {p} == s.inodes - {p};
    BlockSumStep(s.inodes, after, p);
    FramesSame(s.inodes, after);
    hide Tree, Apart, Frames, BlockSum;
  }

  lemma FramesSame(a: Inodes, b: Inodes)
    requires a.Keys == b.Keys && forall q :: q in a ==> BlocksOf(b[q]) == BlocksOf(a[q])
    ensures Frames(a) == Frames(b) && (Apart(a) ==> Apart(b))
  {
  }

  lemma BlockInMemory(s: Store, p: nat, k: nat)
    requires Consistent(s) && p in s.inodes && k < |BlocksOf(s.inodes[p])|
    ensures BlocksOf(s.inodes[p])[k] < |s.mem|
  {
    FramesIn(s.inodes, p);
  }

  lemma MemoryChanged(a: Store, b: Store)
    requires Consistent(a) && b == a.(mem := b.mem) && |b.mem| == |a.mem|
    ensures Consistent(b)
  {
  }

  // A write as callers see it: one file changes, by exactly those bytes.
  ghost predicate Rewritten(a: map<nat, Item>, b: map<nat, Item>, p: nat, offset: nat, bytes: Bytes) {
    && p in a && a[p].Plain? && p in b && b[p].Plain?
    && b == a[p := a[p].(contents := b[p].contents)]
    && Wrote(a[p].contents, b[p].contents, offset, bytes)
    && |b[p].contents| == (if offset + |bytes| > |a[p].contents| then offset + |bytes| else |a[p].contents|)
    && (offset <= |a[p].contents| ==> b[p].contents == Overlay(a[p].contents, offset, bytes))
  }

  lemma WriteSeen(a: Store, b: Store, p: nat, offset: nat, bytes: Bytes)
    requires Valid(a) && Consistent(b) && p in a.inodes && a.inodes[p].File? && p in b.inodes && b.inodes[p].File?
    requires var length := if offset + |bytes| > a.inodes[p].length then offset + |bytes| else a.inodes[p].length;
      && Patched(a.(inodes := a.inodes[p := a.inodes[p].(length := length)]), b, p, offset, bytes)
      && length <= |b.inodes[p].blocks| * BLOCK_SIZE
    ensures Valid(b) && Rewritten(View(a), View(b), p, offset, bytes)
  {
    hide Consistent, Overlay, Wrote, Flat, OnlyIn;
    forall q | q in b.inodes ensures Fitting(b.inodes[q]) {
      assert q in a.inodes && Fitting(a.inodes[q]) && (q != p ==> b.inodes[q] == a.inodes[q]);
    }
    WrittenContents(a, b, p, offset, bytes);
    OthersSeen(a, b, p);
  }

  lemma OthersSeen(a: Store, b: Store, p: nat)
    requires forall q :: q in a.inodes ==> Fitting(a.inodes[q])
    requires forall q :: q in b.inodes ==> Fitting(b.inodes[q])
    requires p in a.inodes && a.inodes[p].File? && p in b.inodes && b.inodes[p].File?
    requires b.inodes[p].name == a.inodes[p].name && b.inodes - {p} == a.inodes - {p} && OthersUntouched(a, b, p)
    ensures View(b) == View(a)[p := View(a)[p].(contents := View(b)[p].contents)]
  {
    hide Flat;
    forall q | q in b.inodes && q != p
      ensures q in a.inodes && ItemOf(b.mem, b.inodes[q]) == ItemOf(a.mem, a.inodes[q])
    {
      assert q in b.inodes - {p} && (b.inodes - {p})[q] == b.inodes[q] == a.inodes[q];
    }
    assert b.inodes.Keys == (b.inodes - {p}).Keys + {p} == a.inodes.Keys;
  }

  lemma WrittenContents(a: Store, b: Store, p: nat, offset: nat, bytes: Bytes)
    requires p in a.inodes && a.inodes[p].File? && p in b.inodes && b.inodes[p].File?
    requires Fitting(a.inodes[p]) && Fitting(b.inodes[p])
    requires Wrote(Flat(a.mem, a.inodes[p].blocks), Flat(b.mem, b.inodes[p].blocks), offset, bytes)
    requires b.inodes[p].length ==
             if offset + |bytes| > a.inodes[p].length then offset + |bytes| else a.inodes[p].length
    ensures var before, after := ItemOf(a.mem, a.inodes[p]).contents, ItemOf(b.mem, b.inodes[p]).contents;
      && Wrote(before, after, offset, bytes) && |before| == a.inodes[p].length && |after| == b.inodes[p].length
      && (offset <= |before| ==> after == Overlay(before, offset, bytes))
  {
    hide Overlay, Wrote, Flat;
    var before, after := ItemOf(a.mem, a.inodes[p]).contents, ItemOf(b.mem, b.inodes[p]).contents;
    WroteShortened(Flat(a.mem, a.inodes[p].blocks), Flat(b.mem, b.inodes[p].blocks), offset, bytes,
      a.inodes[p].length, b.inodes[p].length);
    if offset <= |before| {
      WroteIsOverlay(before, after, offset, bytes);
    }
  }

  lemma WroteShortened(before: Bytes, after: Bytes, at: nat, bytes: Bytes, m: nat, n: nat)
    requires Wrote(before, after, at, bytes) && m <= |before| && m <= n <= |after| && at + |bytes| <= n
    ensures Wrote(before[..m], after[..n], at, bytes)
  {
    assert after[..n][at..at + |bytes|] == after[at..at + |bytes|];
  }

  lemma FlatSlice(mem: seq<Block>, blocks: seq<nat>, k: nat, at: nat, n: nat)
    requires k < |blocks| && blocks[k] < |mem| && at + n <= BLOCK_SIZE
    ensures Flat(mem, blocks)[k * BLOCK_SIZE + at..k * BLOCK_SIZE + at + n] == mem[blocks[k]][at..at + n]
  {
    var flat, lo := Flat(mem, blocks), k * BLOCK_SIZE + at;
    hide Flat;
    if n != 0 {
      FlatAt(mem, blocks, k, at + n - 1);
    }
    var left, right := flat[lo..lo + n], mem[blocks[k]][at..at + n];
    forall i | 0 <= i < n ensures left[i] == right[i] {
      FlatAt(mem, blocks, k, at + i);
    }
  }

  // done bytes of a read are in place, the rest of the buffer is as it was.
  ghost predicate Fetched(buffer: Bytes, after: Bytes, flat: Bytes, offset: nat, done: nat) {
    && |after| == |buffer| && done <= |buffer| && offset + done <= |flat|
    && after[..done] == flat[offset..offset + done] && after[done..] == buffer[done..]
  }

  lemma FetchedNone(buffer: Bytes, flat: Bytes, offset: nat)
    requires offset <= |flat|
    ensures Fetched(buffer, buffer, flat, offset, 0)
  {
  }

  lemma FetchedMore(buffer: Bytes, was: Bytes, after: Bytes, flat: Bytes, offset: nat, done: nat, n: nat)
    requires Fetched(buffer, was, flat, offset, done) && done + n <= |buffer| && offset + done + n <= |flat|
    requires after == was[..done] + flat[offset + done..offset + done + n] + was[done + n..]
    ensures Fetched(buffer, after, flat, offset, done + n)
  {
    assert was[done + n..] == was[done..][n..] && buffer[done + n..] == buffer[done..][n..];
  }

  lemma FetchedAll(buffer: Bytes, after: Bytes, flat: Bytes, length: nat, offset: nat, count: nat)
    requires Fetched(buffer, after, flat, offset, count) && offset + count <= length <= |flat|
    ensures |after| == |buffer| && after[..count] == flat[..length][offset..offset + count]
    ensures after[count..] == buffer[count..]
  {
    SliceOfSlice(flat, 0, length, offset, offset + count);
  }

  lemma BlocksInMemory(s: Store, p: nat)
    requires Valid(s) && p in s.inodes
    ensures forall k :: 0 <= k < |BlocksOf(s.inodes[p])| ==> BlocksOf(s.inodes[p])[k] < |s.mem|
  {
    forall k | 0 <= k < |BlocksOf(s.inodes[p])| ensures BlocksOf(s.inodes[p])[k] < |s.mem| {
      BlockInMemory(s, p, k);
    }
  }

  // ---- Giving blocks back ----

  // b is a with the frames of p released, and p without blocks or gone.
  lemma ReleasedHeld(a: Store, b: Store, p: nat)
    requires Held(a) && p in a.inodes && b.inodes - {p} == a.inodes - {p}
    requires (p in b.inodes ==> BlocksOf(b.inodes[p]) == [])
    requires b.locked == a.locked - Elements(BlocksOf(a.inodes[p])) && b.reserved == a.reserved
    requires b.total == a.total - |BlocksOf(a.inodes[p])| && |b.mem| == |a.mem|
    ensures Held(b)
  {
    FramesSplit(a.inodes, p);
    BlockSumStep(a.inodes, b.inodes, p);
    FramesWithout(b.inodes, p);
    hide Apart, Frames, BlockSum, Elements;
  }

  lemma FramesWithout(inodes: Inodes, p: nat)
    requires p in inodes ==> BlocksOf(inodes[p]) == []
    ensures Frames(inodes) == Frames(inodes - {p}) && (Apart(inodes - {p}) ==> Apart(inodes))
  {
    var rest := inodes - {p};
    assert forall q :: q in rest ==> q in inodes && rest[q] == inodes[q];
    assert forall q :: q in inodes && q != p ==> q in rest;
  }

  lemma ElementsStep(s: seq<nat>, i: nat)
    requires i < |s|
    ensures Elements(s[..i + 1]) == Elements(s[..i]) + {s[i]}
  {
    assert s[..i + 1] == s[..i] + [s[i]];
  }

  lemma NoElements()
    ensures Elements([]) == {}
  {
  }

  lemma TruncatedSeen(a: Store, b: Store, p: nat)
    requires Valid(a) && p in a.inodes && a.inodes[p].File?
    requires b.inodes == a.inodes[p := a.inodes[p].(length := 0, blocks := [])] && b.mem == a.mem
    requires b.locked == a.locked - Elements(a.inodes[p].blocks) && b.reserved == a.reserved
    requires b.total == a.total - |a.inodes[p].blocks| && b.root == a.root && b.home == a.home
    ensures Valid(b) && View(b) == View(a)[p := Plain(a.inodes[p].name, [])]
  {
    hide Held, Tree, Flat, Elements;
    assert b.inodes - {p} == a.inodes - {p};
    ReleasedHeld(a, b, p);
    TreeKept(a.inodes, a.root, a.home, p, b.inodes[p]);
    assert Flat(b.mem, [])[..0] == [];
    forall q | q in a.inodes && q != p ensures View(b)[q] == View(a)[q] {
      assert b.inodes[q] == a.inodes[q];
    }
  }

  lemma FittingAt(s: Store, p: nat)
    requires Valid(s) && p in s.inodes && s.inodes[p].File?
    ensures s.inodes[p].length <= |s.inodes[p].blocks| * BLOCK_SIZE
    ensures View(s)[p].Plain? && |View(s)[p].contents| == s.inodes[p].length
    ensures View(s)[p].contents == Flat(s.mem, s.inodes[p].blocks)[..s.inodes[p].length]
  {
  }
}
