/** The in-memory filesystem: files as growable tables of frames, directories as arrays. */
module Tmpfs {
  import opened ByteStrings
  import opened Wrappers
  import opened FramePool
  import opened FreeSpace
  import opened HeapBlocks
  import opened Heaps
  import opened TmpfsStore
  import opened TmpfsObjects
  import opened TmpfsHeap
  import opened TmpfsGrowth
  import opened TmpfsEntries
  import opened TmpfsTree
  import opened TmpfsOps
  import HeapOps

  const EOK := 0
  const EINVAL := -22
  const ENOENT := -2
  const EEXIST := -17
  const ENOTEMPTY := -39
  const DIRENT_SIZE := 260  // sizeof(struct dirent)
  const NODE_SIZE := 448    // sizeof(fs_node_t)
  const MAX_SIZE := 0x1_0000_0000_0000_0000

  function Max(a: nat, b: nat): nat {
    if a > b then a else b
  }

  // The blocks a file has at least after a write. An empty write creates the block it points at.
  function BlocksNeeded(offset: nat, size: nat): nat {
    if size == 0 then offset / BLOCK_SIZE + 1 else (offset + size + BLOCK_SIZE - 1) / BLOCK_SIZE
  }

  class Filesystem {
    const pool: Pool
    const memory: array<Block>
    const heap: Heap

    var inodes: Inodes
    var objects: Objects
    var root: nat
    var totalBlocks: int

    // The directory each inode hangs in, and the frames of all others, the heap included.
    ghost var home: map<nat, nat>
    ghost var reserved: set<nat>

    ghost function Footprint(): set<object>
      reads this
    {
      {this, pool, pool.frames, memory, heap, heap.memory}
    }

    ghost predicate Sized()
      reads Footprint()
    {
      && pool.Valid() && memory.Length == pool.frameCount && (memory as object) != pool.frames
      && heap.pool == pool && (heap.memory as object) != memory && heap.Sized()
    }

    ghost function Now(): Store
      requires Sized()
      reads Footprint()
    {
      Store(inodes, memory[..], pool.Locked(), reserved, totalBlocks, root, home)
    }

    ghost function All(): Whole
      requires Sized()
      reads Footprint()
    {
      Whole(Now(), heap.Now(), objects)
    }

    // The longest free run of the bitmap.
    ghost function Room(): nat
      requires pool.Valid()
      reads pool, pool.frames
    {
      Longest(pool.Locked(), pool.frameCount)
    }

    // The heap and the files hold frames of their own.
    ghost predicate Paired()
      reads Footprint()
    {
      Sized() && TmpfsHeap.Paired(Now(), heap.Now())
    }

    ghost predicate Consistent()
      reads Footprint()
    {
      Paired() && TmpfsStore.Consistent(Now()) && Handles(inodes, objects, heap.live)
    }

    ghost predicate Valid()
      reads Footprint()
    {
      Paired() && TmpfsStore.Valid(Now()) && Handles(inodes, objects, heap.live)
    }

    ghost predicate IsFile(p: nat)
      reads this
    {
      p in inodes && inodes[p].File?
    }

    ghost function Contents(): map<nat, Item>
      requires Valid()
      reads Footprint()
    {
      View(Now())
    }

    // The empty root, for a directory whose blocks are already there.
    constructor (bytes: seq<Block>, kernelHeap: Heap, name: Bytes, address: nat, o: Object)
      requires kernelHeap.Valid() && |bytes| == kernelHeap.pool.frameCount
      requires Backed(kernelHeap.live, address, Dir(name, 8, []), o)
      ensures Valid() && pool == kernelHeap.pool && heap == kernelHeap && fresh(memory)
      ensures root == address && Contents() == map[root := Folder(name, [])] && totalBlocks == 0
      ensures objects == map[root := o] && reserved == pool.Locked()
    {
      hide HeapOps.HeapOk, Backed, Handles, Tree, Frames, Apart, BlockSum, Taken, View;
      pool, heap := kernelHeap.pool, kernelHeap;
      memory := new Block[|bytes|](i requires 0 <= i < |bytes| => bytes[i]);
      inodes, root, totalBlocks := map[address := Dir(name, 8, [])], address, 0;
      objects := map[address := o];
      home, reserved := map[], kernelHeap.pool.Locked();
      new;
      EmptyRoot(Now(), address, name, 8);
      RootHandles(heap.live, address, inodes[address], o);
    }

    // Other users of the bitmap have acted, the heap among them, since the filesystem was in
    // state was.
    ghost method Resume(was: Store)
      requires TmpfsStore.Valid(was) && Sized() && root == was.root
      requires FilesLeftAlone(was, Now().(reserved := pool.Locked() - Frames(was.inodes)))
      requires heap.Valid() && Frames(inodes) !! Taken(heap.live, pool.frameCount)
      requires Handles(inodes, objects, heap.live)
      modifies this`reserved
      ensures Valid() && FilesNext(was, FileOp.Elsewhere, Now()) && Contents() == View(was)
    {
      hide View, Handles, Tree, HeapOps.HeapOk;
      reserved := pool.Locked() - Frames(inodes);
      LeftAloneKeepsValid(was, Now());
    }

    // ---- Heap blocks ----

    // malloc. No answer means that it faulted.
    method Allocate(size: nat) returns (ptr: Option<nat>)
      requires Paired() && Pages(size) < 0x8000_0000
      modifies this`reserved, heap`live, heap`reserved, heap.memory, pool.frames
      ensures old(Room()) >= Pages(size) ==> ptr.Some?
      ensures ptr.Some? ==> Paired() && Allocated(old(All()), All(), size, ptr.value)
    {
      hide Held, HeapOps.HeapOk, Longest, Pages, Taken, Frames, HeapOps.Own, HeapOps.PagesBut;
      ghost var was := All();
      ptr := heap.Malloc(size);
      if ptr.None? {
        return;
      }
      reserved := pool.Locked() - Frames(inodes);
      HeapActed(was.store, was.heap, heap.Now());
    }

    // free, for a block that is live
    method Release(ptr: nat)
      requires Paired() && ptr in heap.live
      modifies this`reserved, heap`live, heap`reserved, pool`lowestAvailable, pool.frames
      ensures Paired() && Released(old(All()), All(), ptr)
    {
      hide Held, HeapOps.HeapOk, Longest, Taken, Frames, HeapOps.Own, HeapOps.PagesBut;
      ghost var was := All();
      LiveInMemory(was.heap, ptr);
      heap.Free(ptr);
      reserved := pool.Locked() - Frames(inodes);
      HeapActed(was.store, was.heap, heap.Now());
    }

    // realloc of a table
    method Resize(ptr: nat, size: nat) returns (moved: Option<nat>)
      requires Paired() && ptr in heap.live && 0 < size && Pages(size) < 0x8000_0000
      modifies this`reserved, heap`live, heap`reserved, heap.memory, pool`lowestAvailable, pool.frames
      ensures old(Room()) >= Pages(size) ==> moved.Some?
      ensures moved.Some? ==> Paired() && Resized(old(All()), All(), ptr, size, moved.value)
    {
      hide Held, HeapOps.HeapOk, Longest, Pages, Taken, Frames, HeapOps.Own, HeapOps.PagesBut, SamePayloads;
      ghost var was := All();
      LiveInMemory(was.heap, ptr);
      moved := heap.Realloc(ptr, size);
      if moved.None? {
        return;
      }
      reserved := pool.Locked() - Frames(inodes);
      HeapActed(was.store, was.heap, heap.Now());
    }

    // ---- Blocks ----

    // tmpfs_file_getset_block, when it may not create blocks.
    method GetBlock(p: nat, blockid: nat) returns (frame: Option<nat>)
      requires IsFile(p)
      ensures frame == if blockid < |inodes[p].blocks| then Some(inodes[p].blocks[blockid]) else None
    {
      if blockid >= |inodes[p].blocks| {
        return None;
      }
      return Some(inodes[p].blocks[blockid]);
    }

    // tmpfs_file_blocks_embiggen
    method Embiggen(p: nat) returns (ok: bool)
      requires Consistent() && IsFile(p)
      modifies this`inodes, this`objects, this`reserved
      modifies heap`live, heap`reserved, heap.memory, pool`lowestAvailable, pool.frames
      ensures AffordsDoubling(old(All()), p) ==> ok
      ensures ok ==> Consistent() && Embiggening(old(All()), All(), p)
    {
      hide TmpfsStore.Consistent, TmpfsHeap.Paired, Longest, Pages, Handles, AffordsDoubling, Resized, Embiggening;
      ghost var was := All();
      DoubledTable(was, p);
      var n := inodes[p].(pointers := inodes[p].pointers * 2);
      var moved := Resize(objects[p].table, TableSize(n));
      if moved.None? {
        return false;
      }
      Embiggened(was, All(), p, moved.value);
      ghost var after := Repointed(All(), p, moved.value);
      inodes := inodes[p := n];
      objects := objects[p := objects[p].(table := moved.value)];
      assert All() == after;
      ok := true;
    }

    // while (blockid >= f->pointers) tmpfs_file_blocks_embiggen(f);
    method MakePointers(p: nat, blockid: nat) returns (ok: bool)
      requires Consistent() && IsFile(p)
      modifies this`inodes, this`objects, this`reserved
      modifies heap`live, heap`reserved, heap.memory, pool`lowestAvailable, pool.frames
      ensures Affords(old(All()), p, blockid + 1) ==> ok
      ensures ok ==> Consistent() && Filling(old(All()), All(), p, blockid + 1)
    {
      hide TmpfsStore.Consistent, TmpfsHeap.Paired, Handles, Grew, Affords, AffordsDoubling, Enlarged, Doubled;
      ghost var was := All();
      FileHandle(was, p);
      DoublingStart(was, p, blockid + 1);
      while blockid >= inodes[p].pointers
        invariant Consistent() && IsFile(p) && Doubling(was, All(), p, blockid + 1)
        decreases blockid - inodes[p].pointers
      {
        ghost var before := All();
        if Affords(was, p, blockid + 1) {
          DoublingAffords(was, before, p, blockid + 1);
        }
        ok := Embiggen(p);
        if !ok {
          return;
        }
        DoublingStep(was, before, All(), p, blockid + 1);
      }
      FillingStart(was, All(), p, blockid + 1);
      ok := true;
    }

    method AddBlock(p: nat) returns (ok: bool)
      requires Consistent() && IsFile(p) && |inodes[p].blocks| < inodes[p].pointers
      modifies this`inodes, this`totalBlocks, heap`reserved, pool`lowestAvailable, pool.frames
      ensures ok <==> old(pool.Free()) != {}
      ensures old(Room()) >= 1 ==> ok
      ensures ok ==> Consistent() && Extending(old(All()), All(), p)
    {
      hide TmpfsStore.Consistent, TmpfsHeap.Paired, Longest, FreeFrames, Handles, Extending;
      ghost var was := All();
      if Room() >= 1 {
        FrameMet(was.store.locked, pool.frameCount);
      }
      var index := pool.AllocateFrame();
      if index == NO_FRAME {
        return false;
      }
      InFree(index, was.store.locked, pool.frameCount);
      BlockAdded(was, p, index);
      totalBlocks := totalBlocks + 1;
      inodes := inodes[p := inodes[p].(blocks := inodes[p].blocks + [index])];
      heap.reserved := heap.reserved + {index};
      assert All() == Extended(was, p, index);
      ok := true;
    }

    // The filesystem has locked or released frames of its own: they are now among those that the
    // heap takes for someone else's, or no longer.
    ghost method Settle(was: Whole)
      requires Sized() && TmpfsHeap.Paired(was.store, was.heap) && TmpfsStore.Consistent(Now())
      requires reserved == was.store.reserved
      requires was.heap == heap.Now().(locked := was.heap.locked) && heap.live == was.heap.live
      modifies heap`reserved
      ensures Paired() && Rest(All()) == Rest(was) && heap.Now().live == was.heap.live
    {
      hide TmpfsStore.Consistent, Held, HeapOps.HeapOk, Taken, Frames;
      StillHeld(Now());
      ghost var taken := Taken(heap.live, pool.frameCount);
      ghost var after := was.heap.(locked := pool.Locked(), reserved := pool.Locked() - taken);
      FilesActed(was.store, Now(), was.heap, after);
      heap.Resume(was.heap);
    }

    // tmpfs_file_getset_block, when it may create blocks.
    method MakeBlock(p: nat, blockid: nat) returns (ok: bool, frame: nat)
      requires Consistent() && IsFile(p)
      modifies this`inodes, this`objects, this`reserved, this`totalBlocks
      modifies heap`live, heap`reserved, heap.memory, pool`lowestAvailable, pool.frames
      ensures Affords(old(All()), p, blockid + 1) ==> ok
      ensures ok ==> Consistent() && Made(old(All()), All(), p, blockid + 1)
      ensures ok ==> IsFile(p) && blockid < |inodes[p].blocks| && frame == inodes[p].blocks[blockid]
    {
      hide TmpfsStore.Consistent, TmpfsHeap.Paired, Handles, Grew, Affords, Longest, FreeFrames, Extending, Made;
      ghost var was := All();
      ok := MakePointers(p, blockid);
      if !ok {
        return false, 0;
      }
      while blockid >= |inodes[p].blocks|
        invariant Consistent() && IsFile(p) && Filling(was, All(), p, blockid + 1)
        decreases blockid + 1 - |inodes[p].blocks|
      {
        ghost var before := All();
        if Affords(was, p, blockid + 1) {
          FillingAffords(was, before, p, blockid + 1);
        }
        ok := AddBlock(p);
        if !ok {
          return false, 0;
        }
        FillingStep(was, before, All(), p, blockid + 1);
      }
      FillingEnd(was, All(), p, blockid + 1);
      return true, inodes[p].blocks[blockid];
    }

    // memcpy into a block
    method PutBytes(frame: nat, at: nat, bytes: Bytes)
      requires frame < memory.Length && at + |bytes| <= BLOCK_SIZE
      modifies memory
      ensures memory[..] == old(memory[..])[frame := Overlay(old(memory[frame]), at, bytes)]
    {
      memory[frame] := Overlay(memory[frame], at, bytes);
    }

    // One iteration of the copying loop of write_tmpfs.
    method PutBlock(p: nat, blockid: nat, at: nat, bytes: Bytes) returns (ok: bool)
      requires Consistent() && IsFile(p) && at + |bytes| <= BLOCK_SIZE
      modifies this`inodes, this`objects, this`reserved, this`totalBlocks, memory
      modifies heap`live, heap`reserved, heap.memory, pool`lowestAvailable, pool.frames
      ensures Affords(old(All()), p, blockid + 1) ==> ok
      ensures ok ==> Consistent() && IsFile(p) && BlockPut(old(All()), All(), p, blockid, at, bytes)
    {
      hide TmpfsStore.Consistent, TmpfsHeap.Paired, Handles, Made, Affords, Overlay;
      ghost var was := All();
      var frame;
      ok, frame := MakeBlock(p, blockid);
      if !ok {
        return;
      }
      ghost var grown := All();
      BlockInMemory(grown.store, p, blockid);
      ghost var block := Overlay(memory[frame], at, bytes);
      PutBytes(frame, at, bytes);
      PutIntoBlock(was, grown, All(), p, blockid, at, bytes, block);
    }

    // ---- Writing ----

    // One memcpy of write_tmpfs: n more bytes of the buffer, into block blockid.
    method PutPiece(ghost was: Whole, p: nat, blockid: nat, at: nat, buffer: Bytes, offset: nat, done: nat, n: nat,
                    ghost begun: bool, ghost count: nat) returns (ok: bool)
      requires done + n <= |buffer| && at + n <= BLOCK_SIZE && blockid * BLOCK_SIZE + at == offset + done
      requires blockid < count && (!begun ==> done == 0)
      requires Consistent() && IsFile(p) && Written(was, All(), p, offset, buffer[..done], begun)
      requires NoMore(was, All(), p, count)
      modifies this`inodes, this`objects, this`reserved, this`totalBlocks, memory
      modifies heap`live, heap`reserved, heap.memory, pool`lowestAvailable, pool.frames
      ensures Affords(was, p, count) ==> ok
      ensures ok ==> Consistent() && IsFile(p) && Written(was, All(), p, offset, buffer[..done + n], true)
      ensures ok ==> |inodes[p].blocks| == Max(|old(inodes)[p].blocks|, blockid + 1)
    {
      hide TmpfsStore.Consistent, TmpfsHeap.Paired, Handles, Written, Affords;
      ghost var before := All();
      if Affords(was, p, count) {
        WriteAffords(was, before, p, offset, buffer[..done], begun, blockid, count);
      }
      ok := PutBlock(p, blockid, at, buffer[done..done + n]);
      if !ok {
        return;
      }
      WriteStep(was, before, All(), p, offset, buffer[..done], begun, blockid, at, buffer[done..done + n]);
      assert buffer[..done + n] == buffer[..done] + buffer[done..done + n];
    }

    // write_tmpfs
    method Write(p: nat, offset: nat, buffer: Bytes) returns (ok: bool, written: nat)
      requires Valid() && IsFile(p) && offset + |buffer| < MAX_SIZE
      modifies this`inodes, this`objects, this`reserved, this`totalBlocks, memory
      modifies heap`live, heap`reserved, heap.memory, pool`lowestAvailable, pool.frames
      ensures Affords(old(All()), p, BlocksNeeded(offset, |buffer|)) ==> ok
      ensures ok ==> Valid() && written == |buffer| && IsFile(p)
      ensures ok ==> Rewritten(old(Contents()), Contents(), p, offset, buffer)
      ensures ok ==> |inodes[p].blocks| == Max(|old(inodes)[p].blocks|, BlocksNeeded(offset, |buffer|))
      ensures ok ==> Extends(old(All()), All(), p) && root == old(root) && home == old(home)
      ensures ok ==> Frames(inodes) == old(Frames(inodes)) + Elements(inodes[p].blocks)
      ensures ok ==> FilesDone(old(Now()), FileOp.Write(p, offset, buffer), Now())
    {
      hide TmpfsStore.Consistent, TmpfsHeap.Paired, Frames, Handles, Affords, Grew;
      ghost var was := All();
      var length := Max(inodes[p].length, offset + |buffer|);
      Lengthened(was, p, length, BlocksNeeded(offset, |buffer|));
      inodes := inodes[p := inodes[p].(length := length)];
      ghost var longer := All();
      assert longer == WithLength(was, p, length);
      ok := WriteBlocks(p, offset, buffer);
      if !ok {
        return false, 0;
      }
      written := |buffer|;
      ExtendsLonger(was, longer, All(), p, offset, buffer, length);
      WriteSeen(was.store, Now(), p, offset, buffer);
      WriteDone(was.store, longer.store, Now(), p, offset, buffer);
    }

    method WriteBlocks(p: nat, offset: nat, buffer: Bytes) returns (ok: bool)
      requires Consistent() && IsFile(p)
      modifies this`inodes, this`objects, this`reserved, this`totalBlocks, memory
      modifies heap`live, heap`reserved, heap.memory, pool`lowestAvailable, pool.frames
      ensures Affords(old(All()), p, BlocksNeeded(offset, |buffer|)) ==> ok
      ensures ok ==> Consistent() && IsFile(p) && Written(old(All()), All(), p, offset, buffer, true)
      ensures ok ==> |inodes[p].blocks| == Max(|old(inodes)[p].blocks|, BlocksNeeded(offset, |buffer|))
    {
      hide TmpfsStore.Consistent, TmpfsHeap.Paired, Handles, Written, Affords, Growable, Flat, BlocksOf;
      ghost var was := All();
      FileHandle(was, p);
      WriteStart(was, p, offset);
      ghost var count := BlocksNeeded(offset, |buffer|);
      var end := offset + |buffer|;
      var startBlock, endBlock := offset / BLOCK_SIZE, end / BLOCK_SIZE;
      var endSize := end - endBlock * BLOCK_SIZE;
      assert buffer[..|buffer|] == buffer && buffer[..0] == [];
      if startBlock == endBlock {
        ok := PutPiece(was, p, startBlock, offset % BLOCK_SIZE, buffer, offset, 0, |buffer|, false, count);
        return;
      }
      var blockOffset, blocksRead := startBlock, 0;
      while blockOffset < endBlock
        invariant startBlock <= blockOffset <= endBlock && blocksRead == blockOffset - startBlock
        invariant Consistent() && IsFile(p)
        invariant Written(was, All(), p, offset,
          buffer[..if blocksRead == 0 then 0 else BLOCK_SIZE * blocksRead - offset % BLOCK_SIZE], blocksRead != 0)
        invariant |inodes[p].blocks| == Max(|old(inodes)[p].blocks|, if blocksRead == 0 then 0 else blockOffset)
      {
        if blockOffset == startBlock {
          ok := PutPiece(was, p, blockOffset, offset % BLOCK_SIZE, buffer, offset, 0,
            BLOCK_SIZE - offset % BLOCK_SIZE, false, count);
        } else {
          ok := PutPiece(was, p, blockOffset, 0, buffer, offset, BLOCK_SIZE * blocksRead - offset % BLOCK_SIZE,
            BLOCK_SIZE, true, count);
        }
        if !ok {
          return;
        }
        blockOffset, blocksRead := blockOffset + 1, blocksRead + 1;
      }
      ok := true;
      if endSize != 0 {
        ok := PutPiece(was, p, endBlock, 0, buffer, offset, BLOCK_SIZE * blocksRead - offset % BLOCK_SIZE, endSize,
          true, count);
      }
    }

    // ---- Reading ----

    ghost predicate InMemory(p: nat)
      reads this
    {
      p in inodes && forall k :: 0 <= k < |BlocksOf(inodes[p])| ==> BlocksOf(inodes[p])[k] < memory.Length
    }

    // One memcpy of read_tmpfs: n more bytes from block blockid.
    method GetPiece(p: nat, blockid: nat, at: nat, ghost start: Bytes, buffer: Bytes, ghost offset: nat, done: nat,
                    n: nat) returns (after: Bytes)
      requires IsFile(p) && InMemory(p) && blockid < |inodes[p].blocks| && at + n <= BLOCK_SIZE
      requires done + n <= |start| && blockid * BLOCK_SIZE + at == offset + done
      requires Fetched(start, buffer, Flat(memory[..], inodes[p].blocks), offset, done)
      ensures Fetched(start, after, Flat(memory[..], inodes[p].blocks), offset, done + n)
    {
      var frame := GetBlock(p, blockid);
      assert BlocksOf(inodes[p])[blockid] < memory.Length;
      FlatSlice(memory[..], inodes[p].blocks, blockid, at, n);
      after := buffer[..done] + memory[frame.value][at..at + n] + buffer[done + n..];
      FetchedMore(start, buffer, after, Flat(memory[..], inodes[p].blocks), offset, done, n);
    }

    // read_tmpfs, up to the end of the file.
    method Read(p: nat, offset: nat, size: nat, buffer: Bytes) returns (count: nat, after: Bytes)
      requires Valid() && IsFile(p) && offset <= inodes[p].length && offset + size < MAX_SIZE && size <= |buffer|
      ensures Valid() && count == (if offset + size > inodes[p].length then inodes[p].length - offset else size)
      ensures |after| == |buffer| && after[count..] == buffer[count..]
      ensures after[..count] == Contents()[p].contents[offset..offset + count]
    {
      hide TmpfsStore.Valid, TmpfsHeap.Paired, Handles, View, Flat, Fetched;
      var end := if offset + size > inodes[p].length then inodes[p].length else offset + size;
      FittingAt(Now(), p);
      BlocksInMemory(Now(), p);
      after := ReadBlocks(p, offset, end, buffer);
      count := end - offset;
      FetchedAll(buffer, after, Flat(memory[..], inodes[p].blocks), inodes[p].length, offset, count);
    }

    method ReadBlocks(p: nat, offset: nat, end: nat, buffer: Bytes) returns (after: Bytes)
      requires IsFile(p) && InMemory(p) && offset <= end <= |inodes[p].blocks| * BLOCK_SIZE && end - offset <= |buffer|
      ensures Fetched(buffer, after, Flat(memory[..], inodes[p].blocks), offset, end - offset)
    {
      after := buffer;
      ghost var flat := Flat(memory[..], inodes[p].blocks);
      hide Flat, Fetched;
      FetchedNone(buffer, flat, offset);
      var startBlock, endBlock := offset / BLOCK_SIZE, end / BLOCK_SIZE;
      var endSize := end - endBlock * BLOCK_SIZE;
      if startBlock == endBlock && offset == end {
        return;
      }
      if startBlock == endBlock {
        after := GetPiece(p, startBlock, offset % BLOCK_SIZE, buffer, after, offset, 0, end - offset);
        return;
      }
      var blocksRead;
      after, blocksRead := ReadWholeBlocks(p, offset, startBlock, endBlock, buffer);
      if endSize != 0 {
        after := GetPiece(p, endBlock, 0, buffer, after, offset, BLOCK_SIZE * blocksRead - offset % BLOCK_SIZE,
          endSize);
      }
    }

    // All but the last, partial block.
    method ReadWholeBlocks(p: nat, offset: nat, startBlock: nat, endBlock: nat, buffer: Bytes) returns (after: Bytes,
                           blocksRead: nat)
      requires IsFile(p) && InMemory(p) && offset / BLOCK_SIZE == startBlock < endBlock <= |inodes[p].blocks|
      requires endBlock * BLOCK_SIZE - offset <= |buffer|
      ensures blocksRead == endBlock - startBlock
      ensures Fetched(buffer, after, Flat(memory[..], inodes[p].blocks), offset, endBlock * BLOCK_SIZE - offset)
    {
      ghost var flat := Flat(memory[..], inodes[p].blocks);
      hide Flat, Fetched;
      FetchedNone(buffer, flat, offset);
      after, blocksRead := buffer, 0;
      var within := offset % BLOCK_SIZE;
      assert offset == startBlock * BLOCK_SIZE + within && within < BLOCK_SIZE;
      var blockOffset := startBlock;
      while blockOffset < endBlock
        invariant startBlock <= blockOffset <= endBlock && blocksRead == blockOffset - startBlock
        invariant Fetched(buffer, after, flat, offset, if blocksRead == 0 then 0 else blockOffset * BLOCK_SIZE - offset)
      {
        if blockOffset == startBlock {
          after := GetPiece(p, blockOffset, within, buffer, after, offset, 0, BLOCK_SIZE - within);
        } else {
          after := GetPiece(p, blockOffset, 0, buffer, after, offset, BLOCK_SIZE * blocksRead - within, BLOCK_SIZE);
        }
        blockOffset, blocksRead := blockOffset + 1, blocksRead + 1;
      }
    }

    // ---- Giving blocks back ----

    // truncate_tmpfs
    method Truncate(p: nat)
      requires Valid() && IsFile(p)
      modifies this`inodes, this`totalBlocks, heap`reserved, pool`lowestAvailable, pool.frames
      ensures Valid() && Contents() == old(Contents())[p := Plain(old(inodes)[p].name, [])]
      ensures pool.Locked() == old(pool.Locked()) - Elements(old(inodes)[p].blocks)
      ensures totalBlocks == old(totalBlocks) - |old(inodes)[p].blocks|
      ensures root == old(root) && home == old(home) && reserved == old(reserved)
      ensures Beside(old(All()), All(), {}) && Room() >= old(Room())
      ensures FilesNext(old(Now()), FileOp.Truncate(p), Now())
    {
      hide TmpfsStore.Consistent, TmpfsHeap.Paired, Handles, Frames, Elements, Longest, Beside;
      ghost var was := All();
      ReleaseBlocks(p);
      inodes := inodes[p := inodes[p].(length := 0, blocks := [])];
      TruncatedSeen(was.store, Now(), p);
      ValidIsConsistent(Now());
      Settle(was);
      Truncated(was, All(), p);
    }

    method ReleaseBlocks(p: nat)
      requires Sized() && TmpfsStore.Valid(Now()) && IsFile(p)
      modifies this`inodes, this`totalBlocks, pool`lowestAvailable, pool.frames
      ensures Sized() && IsFile(p) && inodes == old(inodes)[p := old(inodes)[p].(blocks := inodes[p].blocks)]
      ensures pool.Locked() == old(pool.Locked()) - Elements(old(inodes)[p].blocks)
      ensures totalBlocks == old(totalBlocks) - |old(inodes)[p].blocks|
    {
      hide TmpfsStore.Consistent, Frames, FreeFrames, Elements;
      ghost var was := Now();
      ghost var blocks := inodes[p].blocks;
      var i := 0;
      NoElements();
      assert blocks[..0] == [] && blocks[..|blocks|] == blocks;
      while i < |inodes[p].blocks|
        invariant pool.Valid() && i <= |blocks| && IsFile(p) && |inodes[p].blocks| == |blocks|
        invariant inodes == was.inodes[p := was.inodes[p].(blocks := inodes[p].blocks)]
        invariant inodes[p].blocks[i..] == blocks[i..]
        invariant pool.Locked() == was.locked - Elements(blocks[..i]) && totalBlocks == was.total - i
      {
        ElementsStep(blocks, i);
        BlockInMemory(was, p, i);
        assert inodes[p].blocks[i] == inodes[p].blocks[i..][0] == blocks[i];
        pool.Release(inodes[p].blocks[i] * PAGE_SIZE);
        totalBlocks := totalBlocks - 1;
        ghost var before := inodes[p].blocks;
        inodes := inodes[p := inodes[p].(blocks := inodes[p].blocks[i := 0])];
        assert inodes[p].blocks[i + 1..] == before[i..][1..] == blocks[i + 1..];
        i := i + 1;
      }
    }

    // tmpfs_free_file
    method FreeFile(p: nat)
      requires Sized() && TmpfsStore.Valid(Now()) && p in inodes && !inodes[p].Dir?
      modifies this`totalBlocks, pool`lowestAvailable, pool.frames
      ensures pool.Valid() && pool.Locked() == old(pool.Locked()) - Elements(BlocksOf(inodes[p]))
      ensures totalBlocks == old(totalBlocks) - |BlocksOf(inodes[p])|
    {
      hide TmpfsStore.Consistent, Frames, FreeFrames, Elements;
      ghost var was := Now();
      var blocks := BlocksOf(inodes[p]);
      var i := 0;
      NoElements();
      assert blocks[..0] == [] && blocks[..|blocks|] == blocks;
      while i < |blocks|
        invariant pool.Valid() && i <= |blocks|
        invariant pool.Locked() == was.locked - Elements(blocks[..i]) && totalBlocks == was.total - i
      {
        ElementsStep(blocks, i);
        BlockInMemory(was, p, i);
        pool.Release(blocks[i] * PAGE_SIZE);
        totalBlocks := totalBlocks - 1;
        i := i + 1;
      }
    }

    // ---- Directories ----

    ghost predicate IsDir(d: nat)
      reads this
    {
      d in inodes && inodes[d].Dir?
    }

    // The loop every directory operation begins with: the entry called name, or files_count.
    method Search(d: nat, name: Bytes) returns (i: nat)
      requires Valid() && IsDir(d)
      ensures i <= |inodes[d].files| && forall k :: 0 <= k < |inodes[d].files| ==> inodes[d].files[k] in inodes
      ensures forall k :: 0 <= k < i ==> inodes[inodes[d].files[k]].name != name
      ensures i < |inodes[d].files| ==> inodes[inodes[d].files[i]].name == name
    {
      hide TmpfsStore.Valid, TmpfsHeap.Paired, Handles;
      ChildrenExist(Now(), d);
      i := 0;
      while i < |inodes[d].files|
        invariant i <= |inodes[d].files|
        invariant forall k :: 0 <= k < i ==> inodes[inodes[d].files[k]].name != name
      {
        if inodes[inodes[d].files[i]].name == name {
          return;
        }
        i := i + 1;
      }
    }

    // tmpfs_new_file and tmpfs_new_dir: the structure, the name, the table and the target of a link.
    method NewObject(n: Inode) returns (ok: bool, f: nat, o: Object)
      requires Paired() && Moderate(n)
      modifies this`reserved, heap`live, heap`reserved, heap.memory, pool.frames
      ensures old(Room()) >= ObjectPages(n) ==> ok
      ensures ok ==> Paired() && Objected(old(All()), All(), f, n, o)
    {
      hide TmpfsHeap.Paired, Longest, Pages, Objected, Undisturbed, SamePayloads, TableSize;
      o := Object(0, 0, 0);
      ghost var a := All();
      ModeratePages(n);
      var structure := Allocate(StructSize(n));
      if structure.None? {
        return false, 0, o;
      }
      ghost var b := All();
      var name := Allocate(|n.name| + 1);
      if name.None? {
        return false, 0, o;
      }
      ghost var c := All();
      var table := Allocate(TableSize(n));
      if table.None? {
        return false, 0, o;
      }
      ghost var d := All();
      var target: Option<nat> := Some(0);
      if n.Link? {
        target := Allocate(|n.target| + 1);
        if target.None? {
          return false, 0, o;
        }
      }
      ok, f, o := true, structure.value, Object(name.value, table.value, target.value);
      ObjectDone(a, b, c, d, All(), f, n, o);
    }

    // d->files[d->files_count++] = f, after growing the array where it is full.
    method Append(d: nat, n: Inode) returns (ok: bool, f: nat)
      requires Valid() && IsDir(d) && FilesOf(n) == [] && BlocksOf(n) == [] && Roomy(n) && Fitting(n)
      requires !Listed(inodes, d, n.name) && Moderate(n)
      modifies this`inodes, this`objects, this`home, this`reserved
      modifies heap`live, heap`reserved, heap.memory, pool`lowestAvailable, pool.frames
      ensures old(Room()) >= ObjectPages(n) + TablePages(old(inodes)[d]) ==> ok
      ensures ok ==> Valid() && f !in old(inodes) && home == old(home)[f := d] && root == old(root)
      ensures ok ==> f in inodes && inodes[f] == n && IsDir(d) && Entered(old(All()), All(), d, f, n)
      ensures ok ==> Contents() == old(Contents())[f := ItemOf(memory[..], n)][
        d := Folder(old(inodes)[d].name, old(inodes)[d].files + [f])]
    {
      hide TmpfsStore.Valid, TmpfsStore.Consistent, TmpfsHeap.Paired, Handles, Listed, Longest, Pages, Entered, View;
      hide ItemOf, Objected, TableReady;
      ghost var was := All();
      ValidIsConsistent(was.store);
      var o;
      ok, f, o := NewObject(n);
      if !ok {
        return;
      }
      ghost var made := All();
      TableFits(was, made, d, f, n, o);
      var capacity, table;
      ok, capacity, table := GrowFiles(d);
      if !ok {
        return;
      }
      ghost var ready := All();
      NewAddress(was, made, f, n, o);
      ReadyUndisturbed(was, made, ready, d, f, n, o, capacity, table);
      EnteringIsSound(was, made, ready, d, f, n, o, capacity, table);
      Hang(d, f, n, o, capacity, table);
    }

    // realloc of a full files array
    method GrowFiles(d: nat) returns (ok: bool, capacity: nat, table: nat)
      requires Paired() && IsDir(d) && d in objects && objects[d].table in heap.live
      requires Pages((inodes[d].capacity + 8) * POINTER_SIZE) < 0x8000_0000
      modifies this`reserved, heap`live, heap`reserved, heap.memory, pool`lowestAvailable, pool.frames
      ensures old(Room()) >= TablePages(inodes[d]) ==> ok
      ensures ok ==> Paired() && TableReady(old(All()), All(), d, capacity, table)
    {
      hide TmpfsHeap.Paired, Longest, Pages, Resized;
      capacity, table := inodes[d].capacity, objects[d].table;
      if |inodes[d].files| >= capacity {
        capacity := capacity + 8;
        var moved := Resize(table, capacity * POINTER_SIZE);
        if moved.None? {
          return false, 0, 0;
        }
        table := moved.value;
      }
      ok := true;
    }

    method Hang(d: nat, f: nat, n: Inode, o: Object, capacity: nat, table: nat)
      requires Sized() && IsDir(d) && d in objects
      modifies this`inodes, this`objects, this`home
      ensures Sized() && All() == Entering(old(All()), d, f, n, o, capacity, table)
    {
      inodes := inodes[f := n][d := Dir(inodes[d].name, capacity, inodes[d].files + [f])];
      objects := objects[d := objects[d].(table := table)][f := o];
      home := home[f := d];
    }

    // create_tmpfs
    method Create(d: nat, name: Bytes) returns (ok: bool, result: int, f: nat)
      requires Valid() && IsDir(d) && Pages(|name| + 1) < 0x8000_0000
      modifies this`inodes, this`objects, this`home, this`reserved
      modifies heap`live, heap`reserved, heap.memory, pool`lowestAvailable, pool.frames
      ensures var n := File(name, 0, 2, []);
        old(Room()) >= ObjectPages(n) + TablePages(old(inodes)[d]) ==> ok
      ensures old(Listed(inodes, d, name)) ==> ok
      ensures ok ==> Valid() && result == if old(Listed(inodes, d, name)) then EEXIST else EOK
      ensures ok && result == EEXIST ==> All() == old(All()) && FilesNext(old(Now()), FileOp.Failed, Now())
      ensures ok && result == EOK ==> f !in old(inodes) && home == old(home)[f := d] && root == old(root)
      ensures ok && result == EOK ==> IsDir(d) && IsFile(f) && inodes[f] == File(name, 0, 2, [])
      ensures ok && result == EOK ==> Contents() == Added(old(Contents()), d, f, Plain(name, []))
      ensures ok && result == EOK ==> Entered(old(All()), All(), d, f, inodes[f])
      ensures ok && result == EOK ==> FilesDone(old(Now()), FileOp.Add(d, f, Plain(name, [])), Now())
    {
      hide TmpfsStore.Valid, TmpfsHeap.Paired, Handles, Listed, Longest, Entered, View;
      ghost var was := All();
      var i := Search(d, name);
      if i < |inodes[d].files| {
        FoundListed(inodes, d, name, i);
        FailedNext(was.store);
        return true, EEXIST, 0;
      }
      NotListed(inodes, d, name);
      ViewOfDir(Now(), d);
      ok, f := Append(d, File(name, 0, 2, []));
      if !ok {
        return false, 0, 0;
      }
      result := EOK;
      EnteredFrames(was, All(), d, f, inodes[f]);
      EmptyFile(memory[..], name, 2);
      AddDone(was.store, Now(), d, f, Plain(name, []));
    }

    // symlink_tmpfs
    method MakeSymlink(d: nat, target: Bytes, name: Bytes) returns (ok: bool, result: int, f: nat)
      requires Valid() && IsDir(d) && Pages(|name| + 1) < 0x8000_0000 && Pages(|target| + 1) < 0x8000_0000
      modifies this`inodes, this`objects, this`home, this`reserved
      modifies heap`live, heap`reserved, heap.memory, pool`lowestAvailable, pool.frames
      ensures old(Room()) >= ObjectPages(Link(name, target)) + TablePages(old(inodes)[d]) ==> ok
      ensures old(Listed(inodes, d, name)) ==> ok
      ensures ok ==> Valid() && result == if old(Listed(inodes, d, name)) then EEXIST else EOK
      ensures ok && result == EEXIST ==> All() == old(All()) && FilesNext(old(Now()), FileOp.Failed, Now())
      ensures ok && result == EOK ==> f !in old(inodes) && home == old(home)[f := d] && root == old(root)
      ensures ok && result == EOK ==> Contents() == Added(old(Contents()), d, f, Symlink(name, target))
      ensures ok && result == EOK ==> Entered(old(All()), All(), d, f, Link(name, target))
      ensures ok && result == EOK ==> FilesDone(old(Now()), FileOp.Add(d, f, Symlink(name, target)), Now())
    {
      hide TmpfsStore.Valid, TmpfsHeap.Paired, Handles, Listed, Longest, Entered, View;
      ghost var was := All();
      var i := Search(d, name);
      if i < |inodes[d].files| {
        FoundListed(inodes, d, name, i);
        FailedNext(was.store);
        return true, EEXIST, 0;
      }
      NotListed(inodes, d, name);
      ViewOfDir(Now(), d);
      ok, f := Append(d, Link(name, target));
      if !ok {
        return false, 0, 0;
      }
      result := EOK;
      EnteredFrames(was, All(), d, f, inodes[f]);
      AddDone(was.store, Now(), d, f, Symlink(name, target));
    }

    // mkdir_tmpfs
    method Mkdir(d: nat, name: Bytes) returns (ok: bool, result: int, f: nat)
      requires Valid() && IsDir(d) && Pages(|name| + 1) < 0x8000_0000
      modifies this`inodes, this`objects, this`home, this`reserved
      modifies heap`live, heap`reserved, heap.memory, pool`lowestAvailable, pool.frames
      ensures old(Room()) >= ObjectPages(Dir(name, 8, [])) + TablePages(old(inodes)[d]) ==> ok
      ensures name == [] || old(Listed(inodes, d, name)) ==> ok
      ensures ok ==>
        Valid() && result == if name == [] then EINVAL else if old(Listed(inodes, d, name)) then EEXIST else EOK
      ensures ok && result != EOK ==> All() == old(All()) && FilesNext(old(Now()), FileOp.Failed, Now())
      ensures ok && result == EOK ==> f !in old(inodes) && home == old(home)[f := d] && root == old(root)
      ensures ok && result == EOK ==> IsDir(d) && IsDir(f) && inodes[f] == Dir(name, 8, [])
      ensures ok && result == EOK ==> Contents() == Added(old(Contents()), d, f, Folder(name, []))
      ensures ok && result == EOK ==> Entered(old(All()), All(), d, f, inodes[f])
      ensures ok && result == EOK ==> FilesDone(old(Now()), FileOp.Add(d, f, Folder(name, [])), Now())
    {
      hide TmpfsStore.Valid, TmpfsHeap.Paired, Handles, Listed, Longest, Entered, View;
      ghost var was := All();
      if name == [] {
        FailedNext(was.store);
        return true, EINVAL, 0;
      }
      var i := Search(d, name);
      if i < |inodes[d].files| {
        FoundListed(inodes, d, name, i);
        FailedNext(was.store);
        return true, EEXIST, 0;
      }
      NotListed(inodes, d, name);
      ViewOfDir(Now(), d);
      ok, f := Append(d, Dir(name, 8, []));
      if !ok {
        return false, 0, 0;
      }
      result := EOK;
      EnteredFrames(was, All(), d, f, inodes[f]);
      AddDone(was.store, Now(), d, f, Folder(name, []));
    }

    // unlink_tmpfs. The files array of a directory is never null, so no directory can go. Of a
    // file's heap blocks its table stays behind, and is nobody's.
    method Unlink(d: nat, name: Bytes) returns (result: int, i: nat)
      requires Valid() && IsDir(d)
      modifies this`inodes, this`objects, this`home, this`totalBlocks, this`reserved
      modifies heap`live, heap`reserved, pool`lowestAvailable, pool.frames
      ensures Valid() && (result == ENOENT <==> !old(Listed(inodes, d, name)))
      ensures result != EOK ==> All() == old(All()) && FilesNext(old(Now()), FileOp.Failed, Now())
      ensures result == ENOENT || (i < |old(inodes)[d].files| && old(inodes)[d].files[i] in old(inodes))
      ensures result != ENOENT ==> old(inodes)[old(inodes)[d].files[i]].name == name
      ensures result != ENOENT ==> result == if old(inodes)[old(inodes)[d].files[i]].Dir? then ENOTEMPTY else EOK
      ensures result == EOK ==>
        Contents() == Removed(old(Contents()), d, i) && home == old(home) - {old(inodes)[d].files[i]}
      ensures result == EOK ==> Unlinked(old(All()), All(), old(inodes)[d].files[i])
      ensures result == EOK ==> FilesDone(old(Now()), FileOp.Unlink(d, i, old(inodes)[d].files[i]), Now())
    {
      hide TmpfsStore.Consistent, TmpfsHeap.Paired, Handles, Flat, View, Elements, Longest, Unlinked, Listed;
      ghost var was := All();
      ViewOfDir(was.store, d);
      i := Search(d, name);
      var files := inodes[d].files;
      if i >= |files| {
        NotListed(inodes, d, name);
        FailedNext(was.store);
        return ENOENT, 0;
      }
      FoundListed(inodes, d, name, i);
      var f := files[i];
      if inodes[f].Dir? {
        FailedNext(was.store);
        return ENOTEMPTY, i;
      }
      Remove(d, i, f);
      result := EOK;
    }

    // tmpfs_free_file, the entry taken out, free(f->name), free(f)
    method Remove(d: nat, i: nat, f: nat)
      requires Valid() && IsDir(d)
      requires i < |inodes[d].files| && inodes[d].files[i] == f && f in inodes && !inodes[f].Dir?
      modifies this`inodes, this`objects, this`home, this`totalBlocks, this`reserved
      modifies heap`live, heap`reserved, pool`lowestAvailable, pool.frames
      ensures Valid() && d in old(Contents()) && old(Contents())[d].Folder? && i < |old(Contents())[d].files|
      ensures Contents() == Removed(old(Contents()), d, i) && home == old(home) - {f} && root == old(root)
      ensures Unlinked(old(All()), All(), f)
      ensures FilesDone(old(Now()), FileOp.Unlink(d, i, f), Now())
    {
      hide TmpfsStore.Valid, TmpfsStore.Consistent, TmpfsHeap.Paired, Handles, View, Elements, Longest, Unlinked;
      hide Separate, Released, TakenOut;
      ghost var was := All();
      ValidIsConsistent(was.store);
      ObjectParts(inodes, objects, heap.live, f);
      TableIs(inodes, objects, heap.live, d);
      var name := objects[f].name;
      FreeTarget(f);
      ghost var freed := All();
      TakeOut(d, i, f);
      ghost var pruned := All();
      StillThere(was, freed, pruned, d, i, f);
      FreeInode(f, name);
      ghost var nameless :|
        Released(pruned, nameless, name) && Released(nameless, All().(objects := pruned.objects), f);
      RemovedAll(was, freed, pruned, nameless, All(), d, i, f);
    }

    method FreeTarget(f: nat)
      requires Valid() && f in inodes
      modifies this`reserved, heap`live, heap`reserved, pool`lowestAvailable, pool.frames
      ensures Paired() && TmpfsStore.Valid(Now()) && TargetFreed(old(All()), All(), f)
    {
      hide TmpfsStore.Valid, TmpfsHeap.Paired, Handles, Longest;
      ghost var was := All();
      ObjectParts(inodes, objects, heap.live, f);
      HeapIsOk(was.store, was.heap);
      if inodes[f].Link? {
        Release(objects[f].target);
        HeapIsOk(Now(), heap.Now());
        SameFiles(was.store, Now());
      }
    }

    // free(f->name); free(f);
    method FreeInode(f: nat, name: nat)
      requires Paired() && f in heap.live && name in heap.live && f != name
      modifies this`objects, this`reserved, heap`live, heap`reserved, pool`lowestAvailable, pool.frames
      ensures Paired() && objects == old(objects) - {f}
      ensures exists mid ::
        Released(old(All()), mid, name) && Released(mid, All().(objects := old(objects)), f)
    {
      hide TmpfsHeap.Paired, Longest;
      ghost var was := All();
      Release(name);
      ghost var mid := All();
      Release(f);
      ghost var end := All();
      objects := objects - {f};
      assert Released(was, mid, name) && Released(mid, end, f) && end == All().(objects := was.objects);
    }

    method TakeOut(d: nat, i: nat, f: nat)
      requires Paired() && TmpfsStore.Valid(Now()) && IsDir(d)
      requires i < |inodes[d].files| && inodes[d].files[i] == f && f in inodes && !inodes[f].Dir?
      modifies this`inodes, this`home, this`totalBlocks, heap`reserved, pool`lowestAvailable, pool.frames
      ensures Paired() && TakenOut(old(All()), All(), d, i)
    {
      hide TmpfsStore.Consistent, TmpfsHeap.Paired, Elements, Longest, View;
      ghost var was := All();
      ViewOfDir(was.store, d);
      FreeFile(f);
      var files := inodes[d].files;
      inodes := inodes[d := Dir(inodes[d].name, inodes[d].capacity, files[..i] + files[i + 1..])] - {f};
      home := home - {f};
      PrunedKeeps(was.store, Now(), d, i);
      ValidIsConsistent(Now());
      Settle(was);
      MoreFree(was.store.locked, pool.Locked(), pool.frameCount);
    }

    // ---- Blocks for callers ----

    // malloc for a node or a directory entry, which the caller will free.
    method Lend(size: nat) returns (ok: bool, ptr: nat)
      requires Valid() && Pages(size) < 0x8000_0000
      modifies this`reserved, heap`live, heap`reserved, heap.memory, pool.frames
      ensures old(Room()) >= Pages(size) ==> ok
      ensures ok ==> Valid() && Contents() == old(Contents()) && Lent(old(All()), All(), size, ptr)
    {
      hide TmpfsStore.Valid, TmpfsHeap.Paired, Handles, Longest, Pages, Allocated, Lent, View;
      ghost var was := All();
      var p := Allocate(size);
      if p.None? {
        return false, 0;
      }
      LentIs(was, All(), size, p.value);
      return true, p.value;
    }

    // free, by whoever the block was lent to
    method GiveBack(ptr: nat)
      requires Valid() && ptr in heap.live && !InObject(All(), ptr)
      modifies this`reserved, heap`live, heap`reserved, pool`lowestAvailable, pool.frames
      ensures Valid() && Contents() == old(Contents()) && Returned(old(All()), All(), ptr)
    {
      hide TmpfsStore.Valid, TmpfsHeap.Paired, Handles, Longest, Released, Returned, View, InObject;
      ghost var was := All();
      Release(ptr);
      ReturnedIs(was, All(), ptr);
    }

    // readdir_tmpfs: "." and ".." first, except in the root.
    method Readdir(d: nat, index: nat) returns (ok: bool, name: Option<Bytes>, dirent: nat)
      requires Valid() && IsDir(d)
      modifies this`reserved, heap`live, heap`reserved, heap.memory, pool.frames
      ensures old(Room()) >= 1 ==> ok
      ensures ok ==> Valid() && Contents() == old(Contents()) && name == EntryName(old(Contents()), root, d, index)
      ensures ok ==> if name.Some? then Lent(old(All()), All(), DIRENT_SIZE, dirent) else All() == old(All())
    {
      hide TmpfsStore.Valid, TmpfsHeap.Paired, Handles, View, Lent, EntryName, Longest;
      name := EntryAt(d, index);
      if name.None? {
        return true, name, 0;
      }
      ok, dirent := Lend(DIRENT_SIZE);
    }

    method EntryAt(d: nat, index: nat) returns (name: Option<Bytes>)
      requires Valid() && IsDir(d)
      ensures Valid() && name == EntryName(Contents(), root, d, index)
    {
      hide TmpfsHeap.Paired, Handles, TmpfsStore.Valid, View;
      var k: int := index;
      if d != root {
        if index == 0 {
          return Some(['.' as int]);
        }
        if index == 1 {
          return Some(['.' as int, '.' as int]);
        }
        k := index - 2;
      }
      ViewOfDir(Now(), d);
      if k >= |inodes[d].files| {
        return None;
      }
      return Some(inodes[inodes[d].files[k]].name);
    }

    // finddir_tmpfs. Names differ, so the entry found is the only one of that name.
    method Finddir(d: nat, name: Bytes) returns (ok: bool, found: Option<nat>, node: nat)
      requires Valid() && IsDir(d)
      modifies this`reserved, heap`live, heap`reserved, heap.memory, pool.frames
      ensures old(Room()) >= 1 || !Listed(inodes, d, name) ==> ok
      ensures ok ==> Valid() && Contents() == old(Contents()) && Finds(old(Contents()), d, name, found)
      ensures ok ==> if found.Some? then Lent(old(All()), All(), NODE_SIZE, node) else All() == old(All())
    {
      hide TmpfsStore.Valid, TmpfsHeap.Paired, Handles, View, Listed, Lent, Finds, Longest;
      found := EntryNamed(d, name);
      if found.None? {
        return true, found, 0;
      }
      ok, node := Lend(NODE_SIZE);
    }

    method EntryNamed(d: nat, name: Bytes) returns (found: Option<nat>)
      requires Valid() && IsDir(d)
      ensures Valid() && (found.None? <==> !Listed(inodes, d, name)) && Finds(Contents(), d, name, found)
    {
      hide TmpfsHeap.Paired, Handles, TmpfsStore.Valid, View, Listed;
      ViewOfDir(Now(), d);
      NamesUnique(Now(), d);
      var i := Search(d, name);
      if i < |inodes[d].files| {
        FoundListed(inodes, d, name, i);
        return Some(inodes[d].files[i]);
      }
      NotListed(inodes, d, name);
      return None;
    }
  }

  // tmpfs_create: an empty root.
  method TmpfsCreate(heap: Heap, bytes: seq<Block>, name: Bytes) returns (fs: Option<Filesystem>, node: nat)
    requires heap.Valid() && |bytes| == heap.pool.frameCount && Pages(|name| + 1) < 0x8000_0000
    modifies heap`live, heap`reserved, heap.memory, heap.pool.frames
    ensures old(heap.Room()) >= ObjectPages(Dir(name, 8, [])) + 1 ==> fs.Some?
    ensures fs.Some? ==> fresh(fs.value) && fs.value.heap == heap && fs.value.pool == heap.pool
    ensures fs.Some? ==> fs.value.Valid() && fs.value.Contents() == map[fs.value.root := Folder(name, [])]
    ensures fs.Some? ==> node in heap.live && !InObject(fs.value.All(), node) && fs.value.totalBlocks == 0
  {
    hide HeapOps.HeapOk, HeapOps.HeapNext, HeapOps.PagesBut, HeapOps.BlockFrames, FreeRun, Longest, Pages;
    hide TmpfsStore.Valid, TmpfsHeap.Paired, Handles, View, InObject, Beside;
    var ok, structure, o := RootObject(heap, name);
    if !ok {
      return None, 0;
    }
    var f := new Filesystem(bytes, heap, name, structure, o);
    ok, node := f.Lend(NODE_SIZE);
    if !ok {
      return None, 0;
    }
    return Some(f), node;
  }

  // tmpfs_new_dir, before there is a filesystem
  method RootObject(heap: Heap, name: Bytes) returns (ok: bool, f: nat, o: Object)
    requires heap.Valid() && Pages(|name| + 1) < 0x8000_0000
    modifies heap`live, heap`reserved, heap.memory, heap.pool.frames
    ensures old(heap.Room()) >= ObjectPages(Dir(name, 8, [])) ==> ok
    ensures ok ==> heap.Valid() && Backed(heap.live, f, Dir(name, 8, []), o)
    ensures ok ==> heap.Room() + ObjectPages(Dir(name, 8, [])) >= old(heap.Room())
  {
    hide HeapOps.HeapOk, HeapOps.PagesBut, HeapOps.BlockFrames, FreeRun, Longest, Pages, HeapOps.Own, Backed, Parts;
    hide SamePayloads, Separate, Taken, First;
    ghost var live := heap.live;
    o := Object(0, 0, 0);
    ModeratePages(Dir(name, 8, []));
    var structure := heap.Malloc(DIR_SIZE);
    if structure.None? {
      return false, 0, o;
    }
    var text := heap.Malloc(|name| + 1);
    if text.None? {
      return false, 0, o;
    }
    var table := heap.Malloc(8 * POINTER_SIZE);
    if table.None? {
      return false, 0, o;
    }
    OneByOne(live, structure.value, Dir(name, 8, []), Object(text.value, table.value, 0));
    BackedByParts(live, structure.value, Dir(name, 8, []), Object(text.value, table.value, 0));
    return true, structure.value, Object(text.value, table.value, 0);
  }
}
