/** The filesystem's operations as a relation on its states, and runs of them. */
module TmpfsOps {
  import opened ByteStrings
  import opened TmpfsStore
  import opened TmpfsTree

  datatype FileOp =
    | Write(p: nat, offset: nat, bytes: Bytes)
    | Truncate(p: nat)
    | Add(d: nat, f: nat, item: Item)
    | Unlink(d: nat, i: nat, f: nat)
    | Failed
    | Elsewhere  // another client of the bitmap did something

  // The operations of tmpfs touch frames of their own only.
  ghost predicate Own(a: Store, b: Store) {
    && b.reserved == a.reserved && |b.mem| == |a.mem|
    && forall f :: 0 <= f < |a.mem| && f !in Frames(b.inodes) ==> b.mem[f] == a.mem[f]
  }

  // Someone else locked, released and wrote frames, but no blocks of files.
  ghost predicate FilesLeftAlone(a: Store, b: Store) {
    && b.inodes == a.inodes && b.total == a.total && b.home == a.home && |b.mem| == |a.mem|
    && (forall f :: f in Frames(a.inodes) && f < |a.mem| ==> b.mem[f] == a.mem[f])
    && Frames(a.inodes) <= b.locked && b.reserved == b.locked - Frames(a.inodes)
  }

  ghost predicate FilesNext(a: Store, op: FileOp, b: Store)
    requires Valid(a)
  {
    && Valid(b) && b.root == a.root
    && (op.Elsewhere? || Own(a, b))
    && match op
       case Write(p, offset, bytes) => Rewritten(View(a), View(b), p, offset, bytes) && b.home == a.home
       case Truncate(p) =>
         && p in View(a) && View(a)[p].Plain? && View(b) == View(a)[p := View(a)[p].(contents := [])]
         && b.locked == a.locked - Elements(BlocksOf(a.inodes[p])) && b.home == a.home
       case Add(d, f, item) =>
         && d in View(a) && View(a)[d].Folder? && f !in a.inodes
         && View(b) == Added(View(a), d, f, item) && b.locked == a.locked && b.home == a.home[f := d]
       case Unlink(d, i, f) =>
         && d in View(a) && View(a)[d].Folder? && i < |View(a)[d].files| && View(a)[d].files[i] == f && f in a.inodes
         && View(b) == Removed(View(a), d, i) && b.home == a.home - {f}
         && b.locked == a.locked - Elements(BlocksOf(a.inodes[f]))
       case Failed => b == a
       case Elsewhere => FilesLeftAlone(a, b)
  }

  lemma PatchedOwn(a: Store, b: Store, p: nat, at: nat, bytes: Bytes)
    requires Patched(a, b, p, at, bytes)
    ensures Own(a.(reserved := b.reserved), b)
  {
    FramesIn(b.inodes, p);
    hide Frames, Wrote, Flat;
    var blocks := b.inodes[p].blocks;
    forall f | f in blocks ensures f in Frames(b.inodes) {
      var k :| 0 <= k < |blocks| && blocks[k] == f;
      assert BlocksOf(b.inodes[p])[k] in Frames(b.inodes);
    }
  }

  lemma LeftAloneKeepsValid(a: Store, b: Store)
    requires Valid(a) && FilesLeftAlone(a, b) && b.root == a.root
    ensures Valid(b) && View(b) == View(a)
  {
    hide Tree, Frames, Apart, BlockSum;
    forall q | q in a.inodes ensures Flat(b.mem, BlocksOf(a.inodes[q])) == Flat(a.mem, BlocksOf(a.inodes[q])) {
      SameBlocks(a, b, q);
    }
    hide Flat;
  }

  // An operation, and before it steps of others: the heap's, where the operation allocates.
  ghost predicate FilesDone(a: Store, op: FileOp, b: Store)
    requires Valid(a)
  {
    exists mid :: FilesNext(a, FileOp.Elsewhere, mid) && FilesNext(mid, op, b)
  }

  // The others having locked and released until reserved is theirs.
  ghost function Interrupted(a: Store, reserved: set<nat>): Store {
    a.(locked := reserved + Frames(a.inodes), reserved := reserved)
  }

  lemma InterruptedIs(a: Store, reserved: set<nat>)
    requires Valid(a) && reserved !! Frames(a.inodes)
    ensures var mid := Interrupted(a, reserved);
      Valid(mid) && View(mid) == View(a) && FilesNext(a, FileOp.Elsewhere, mid)
  {
    hide Frames, Apart, Tree, BlockSum, Flat;
    LeftAloneKeepsValid(a, Interrupted(a, reserved));
  }

  lemma FailedNext(s: Store)
    requires Valid(s)
    ensures FilesNext(s, FileOp.Failed, s)
  {
  }

  // A new entry is there, and no blocks of files came or went.
  lemma AddDone(a: Store, b: Store, d: nat, f: nat, item: Item)
    requires Valid(a) && Valid(b) && b.root == a.root && b.mem == a.mem && b.home == a.home[f := d]
    requires d in View(a) && View(a)[d].Folder? && f !in a.inodes && View(b) == Added(View(a), d, f, item)
    requires Frames(b.inodes) == Frames(a.inodes)
    ensures FilesDone(a, FileOp.Add(d, f, item), b)
  {
    hide Valid, View, Frames, Rewritten, Removed, Added, Elements, FilesLeftAlone;
    HeldNow(b);
    InterruptedIs(a, b.reserved);
    assert FilesNext(Interrupted(a, b.reserved), FileOp.Add(d, f, item), b);
  }

  lemma HeldNow(s: Store)
    requires Valid(s)
    ensures s.locked == s.reserved + Frames(s.inodes) && s.reserved !! Frames(s.inodes) && Apart(s.inodes)
  {
  }

  // A write has kept a file's blocks and added some, and is done.
  lemma WriteDone(a: Store, longer: Store, b: Store, p: nat, offset: nat, bytes: Bytes)
    requires Valid(a) && Valid(b) && b.root == a.root && b.home == a.home && p in a.inodes && a.inodes[p].File?
    requires p in longer.inodes && longer.inodes[p].File?
    requires longer == a.(inodes := a.inodes[p := a.inodes[p].(length := longer.inodes[p].length)])
    requires Patched(longer, b, p, offset, bytes) && Rewritten(View(a), View(b), p, offset, bytes)
    ensures Frames(b.inodes) == Frames(a.inodes) + Elements(b.inodes[p].blocks)
    ensures FilesDone(a, FileOp.Write(p, offset, bytes), b)
  {
    hide Valid, View, Frames, Apart, Flat, Wrote, Rewritten, Removed, Added, FilesLeftAlone;
    HeldNow(a);
    HeldNow(b);
    FramesAdded(a.inodes, b.inodes, p);
    PatchedOwn(longer, b, p, offset, bytes);
    InterruptedIs(a, b.reserved);
    assert FilesNext(Interrupted(a, b.reserved), FileOp.Write(p, offset, bytes), b);
  }

  lemma FramesAdded(a: Inodes, b: Inodes, p: nat)
    requires Apart(a) && Apart(b) && p in a && p in b && b - {p} == a - {p}
    requires BlocksOf(a[p]) <= BlocksOf(b[p])
    ensures Frames(b) == Frames(a) + Elements(BlocksOf(b[p]))
  {
    FramesSplit(a, p);
    FramesSplit(b, p);
    hide Frames, Apart;
    assert forall f :: f in BlocksOf(a[p]) ==> f in BlocksOf(b[p]);
  }

  lemma SameBlocks(a: Store, b: Store, q: nat)
    requires q in a.inodes && |b.mem| == |a.mem| && forall f :: f in Frames(a.inodes) && f < |a.mem| ==>
      b.mem[f] == a.mem[f]
    ensures Flat(b.mem, BlocksOf(a.inodes[q])) == Flat(a.mem, BlocksOf(a.inodes[q]))
  {
    FramesIn(a.inodes, q);
    hide Frames;
    var blocks := BlocksOf(a.inodes[q]);
    assert forall k :: 0 <= k < |blocks| ==> blocks[k] in Frames(a.inodes);
  }

  // ---- Runs ----

  ghost predicate FilesRun(states: seq<Store>, ops: seq<FileOp>) {
    && |states| == |ops| + 1 && (forall n :: 0 <= n < |states| ==> Valid(states[n]))
    && forall n :: 0 <= n < |ops| ==> FilesNext(states[n], ops[n], states[n + 1])
  }

  // Whether op may change inode p.
  predicate Touches(op: FileOp, p: nat) {
    match op
    case Write(q, _, _) => q == p
    case Truncate(q) => q == p
    case Add(d, _, _) => d == p
    case Unlink(d, _, f) => d == p || f == p
    case Failed => false
    case Elsewhere => false
  }

  // A file nobody writes keeps its bytes, whatever happens to other files and other frames.
  lemma {:induction false} RunKeepsFile(states: seq<Store>, ops: seq<FileOp>, p: nat)
    requires FilesRun(states, ops) && p in states[0].inodes && forall n :: 0 <= n < |ops| ==> !Touches(ops[n], p)
    ensures p in states[|ops|].inodes && View(states[|ops|])[p] == View(states[0])[p]
    decreases |ops|
  {
    hide Valid, View, FilesNext;
    if ops != [] {
      var n := |ops| - 1;
      RunKeepsFile(states[..n + 1], ops[..n], p);
      assert FilesNext(states[n], ops[n], states[n + 1]) && !Touches(ops[n], p);
      StepKeepsItem(states[n], ops[n], states[n + 1], p);
    }
  }

  lemma StepKeepsItem(a: Store, op: FileOp, b: Store, p: nat)
    requires Valid(a) && FilesNext(a, op, b) && p in a.inodes && !Touches(op, p)
    ensures p in b.inodes && View(b)[p] == View(a)[p]
  {
    hide Consistent, Own, FilesLeftAlone, ItemOf, Wrote;
    if op.Elsewhere? {
      LeftAloneKeepsValid(a, b);
    }
    SameKeys(a);
    SameKeys(b);
    hide View;
  }

  lemma SameKeys(s: Store)
    requires Valid(s)
    ensures View(s).Keys == s.inodes.Keys
  {
  }
}
