/** Mapping pages, write faults, and ranges of user pages. */
module Faults {
  import opened FramePool
  import opened PageTables
  import opened CopyOnWrite
  import opened Machines
  import opened Steps
  import opened Slots
  import opened Clones
  import opened Eager

  datatype Flags = Flags(kernel: bool, writable: bool, nocache: bool, writethrough: bool, spec: bool, noexecute: bool)

  // A write to s would have to copy its page.
  ghost predicate NeedsCopy(m: Machine, s: Key) {
    s in m.leaves && m.leaves[s].cow && m.leaves[s].page < |m.refs| && m.refs[m.leaves[s].page] != 1
  }

  // From m to n, the copy-on-write leaf s was made private.
  ghost predicate Faulted(m: Machine, n: Machine, s: Key, spare: nat) {
    && s in m.leaves && m.leaves[s].user && m.leaves[s].cow && s.path != [] && Parent(s) in m.tab
    && (NeedsCopy(m, s) ==> Spare(m, spare))
    && FaultLeaf.requires(m, s, spare) && n == FaultLeaf(m, s, spare)
  }

  lemma FaultKeepsClosed(m: Machine, s: Key, spare: nat)
    requires Closed(m.tab, m.leaves) && FaultLeaf.requires(m, s, spare)
    ensures Closed(FaultLeaf(m, s, spare).tab, FaultLeaf(m, s, spare).leaves)
  {
  }

  // A user page that may not be written is waiting to be copied.
  lemma LockedOnlyByCow(m: Machine, s: Key)
    requires Core(m) && s in m.leaves && m.leaves[s].user && !m.leaves[s].writable
    ensures m.leaves[s].cow
  {
    assert LeafCounted(m.leaves, m.refs, s);
  }

  // Only the leaf at s changed: its page may now be written.
  ghost predicate MadePrivate(l0: Leaves, l1: Leaves, s: Key) {
    && l1.Keys == l0.Keys && s in l1 && l1[s].user && l1[s].writable && !l1[s].cow
    && forall u :: u in l1 && u != s ==> l1[u] == l0[u]
  }

  lemma UserSlots(m: Machine)
    requires Good(m)
    ensures forall s :: s in Visible(m) <==> s in m.leaves && m.leaves[s].user
    ensures forall s: Key, i: nat, w :: s !in Visible(m) && i < ENTRIES ==> Write(Visible(m), s, i, w) == Visible(m)
  {
    UserPages(m);
  }

  lemma FaultedIsPrivate(m: Machine, n: Machine, s: Key, spare: nat)
    requires Faulted(m, n, s, spare)
    ensures MadePrivate(m.leaves, n.leaves, s)
  {
  }

  function Configured(w: Word, page: nat, flags: Flags): Word {
    w.(page := page, present := true, writable := flags.writable, user := !flags.kernel, nocache := flags.nocache,
       writethrough := flags.writethrough, size := flags.spec, noexec := flags.noexecute)
  }

  // From m to n, a private page was put in the slot of s: a fresh one, or the one that was there.
  ghost predicate Mapped1(m: Machine, n: Machine, s: Key, w: Word) {
    && |s.path| == 4 && Last(s) < ENTRIES && Parent(s) in m.tab && m.tab[Parent(s)] < |m.mem|
    && PrivatePage(w)
    && (if s in m.leaves then PrivatePage(m.leaves[s]) && m.leaves[s].page == w.page else Spare(m, w.page))
    && n == MapLeaf(m, s, w)
  }

  lemma EmptySlot(m: Machine, s: Key)
    requires Core(m) && |s.path| == 4 && Parent(s) in m.tab && m.tab[Parent(s)] < |m.mem| && Last(s) < ENTRIES
    ensures s !in m.leaves ==> m.mem[m.tab[Parent(s)]][Last(s)].page == 0 && !m.mem[m.tab[Parent(s)]][Last(s)].cow
    ensures s in m.leaves && m.leaves[s].user ==> m.leaves[s].page != 0
  {
    ChildOfParent(s);
    assert Links(m.mem, m.tab, m.leaves, Parent(s));
    assert s in m.leaves && m.leaves[s].user ==> m.leaves[s].page in Mapped(m.leaves);
  }

  lemma MappedPageLocked(m: Machine, s: Key)
    requires Core(m) && s in m.leaves && m.leaves[s].user
    ensures m.locked + {m.leaves[s].page} == m.locked
  {
    assert m.leaves[s].page in Mapped(m.leaves);
  }

  lemma MapKeepsClosed(m: Machine, s: Key, w: Word)
    requires Closed(m.tab, m.leaves) && |s.path| == 4 && Parent(s) in m.tab
    ensures Closed(m.tab, m.leaves[s := w])
  {
  }

  // Mapping over a page in use, as sbrk does after shrinking, keeps the counts true exactly
  // when that page is not copy-on-write.
  lemma RemapKeepsCounts(m: Machine, s: Key, flags: Flags)
    requires Core(m) && s in m.leaves && m.leaves[s].user && flags.writable && !flags.kernel
    ensures Counts(m.leaves[s := Configured(m.leaves[s], m.leaves[s].page, flags)], m.refs) <==> !m.leaves[s].cow
  {
    var w := Configured(m.leaves[s], m.leaves[s].page, flags);
    assert LeafCounted(m.leaves, m.refs, s);
    if m.leaves[s].cow {
      assert m.leaves[s := w][s] == w;
      assert !LeafCounted(m.leaves[s := w], m.refs, s);
    } else {
      ReflagKeepsCounts(m.leaves, m.refs, s, w);
    }
  }

  // Mapping a fresh user page keeps the counts true exactly when the page may be written.
  lemma MapKeepsCountsExactly(m: Machine, s: Key, w: Word, f: nat, flags: Flags)
    requires Core(m) && s !in m.leaves && Spare(m, f) && !w.cow && !flags.kernel
    ensures Counts(m.leaves[s := Configured(w, f, flags)], m.refs) <==> flags.writable
  {
    hide Forest, SamePaths, KernelShared;
    var l1 := m.leaves[s := Configured(w, f, flags)];
    if flags.writable {
      forall u ensures u !in Mappers(m.leaves, f) {
        assert u in Mappers(m.leaves, f) ==> f in Mapped(m.leaves);
      }
      MapKeepsCounts(m.leaves, m.refs, s, Configured(w, f, flags));
    } else {
      assert s in l1 && l1[s].user && !LeafCounted(l1, m.refs, s);
    }
  }

  lemma KeptUnseen(m: Machine, n: Machine)
    requires Core(m) && Core(n) && Kept(m, n)
    ensures Visible(n) == Visible(m)
  {
    hide Forest, Counts, SamePaths, KernelShared, Owned;
    UserPages(m);
    UserPages(n);
    forall s ensures Alike(Visible(n), Visible(m), s) {}
    AlikeEverywhere(Visible(n), Visible(m));
  }

  // The last byte of a range, in 64-bit arithmetic.
  function RangeEnd(addr: nat, size: nat): nat {
    if size != 0 then (addr + (size - 1)) % ADDRESS_SPACE else addr
  }

  function PageSlot(dir: nat, page: nat): Key {
    Key(dir, Indices(page * PAGE_SIZE))
  }

  ghost predicate UserPage(v: Spaces, dir: nat, page: nat) {
    (page / 0x8_0000_0000 == 0 || page / 0x8_0000_0000 == 0x1_FFFF) && PageSlot(dir, page) in v
  }

  // The processor takes only addresses whose upper bits are all alike: those of the lower and of
  // the upper 128 TiB. A byte anywhere else is on no user page, and a range with one is refused.
  predicate Canonical(a: nat) {
    a < 0x8000_0000_0000 || 0xFFFF_8000_0000_0000 <= a < ADDRESS_SPACE
  }

  lemma UserPagesAreCanonical(v: Spaces, dir: nat, a: nat)
    ensures UserPage(v, dir, a / PAGE_SIZE) <==> Canonical(a) && PageSlot(dir, a / PAGE_SIZE) in v
  {
  }

  lemma OtherBytesRefused(v: Spaces, dir: nat, addr: nat, size: nat, a: nat)
    requires addr <= a <= RangeEnd(addr, size) && !Canonical(a)
    ensures !Validated(v, dir, addr, size)
  {
    UserPagesAreCanonical(v, dir, a);
    assert addr / PAGE_SIZE <= a / PAGE_SIZE <= RangeEnd(addr, size) / PAGE_SIZE;
  }

  // What the loop of mmu_validate_user finds out, and what its callers rely on.
  ghost predicate Validated(v: Spaces, dir: nat, addr: nat, size: nat) {
    forall page: nat :: addr / PAGE_SIZE <= page <= RangeEnd(addr, size) / PAGE_SIZE ==> UserPage(v, dir, page)
  }

  ghost predicate Covered(v: Spaces, dir: nat, addr: nat, size: nat) {
    forall a: nat :: addr <= a < addr + size ==> UserPage(v, dir, a / PAGE_SIZE)
  }

  // Success means that every byte of the range is the user's exactly when the range does not wrap.
  lemma ValidatedCovers(addr: nat, size: nat)
    requires addr < ADDRESS_SPACE && 0 < size <= 0x8000_0000_0000
    ensures (forall v: Spaces, dir: nat :: Validated(v, dir, addr, size) ==> Covered(v, dir, addr, size)) <==>
      RangeEnd(addr, size) >= addr
  {
    if RangeEnd(addr, size) >= addr {
      forall v: Spaces, dir: nat | Validated(v, dir, addr, size) ensures Covered(v, dir, addr, size) {
        forall a: nat | addr <= a < addr + size ensures UserPage(v, dir, a / PAGE_SIZE) {
          assert addr / PAGE_SIZE <= a / PAGE_SIZE <= RangeEnd(addr, size) / PAGE_SIZE;
        }
      }
    } else {
      var v: Spaces := map[];
      assert Validated(v, 0, addr, size) && !UserPage(v, 0, addr / PAGE_SIZE);
      assert !Covered(v, 0, addr, size) by {
        assert addr <= addr < addr + size;
      }
    }
  }

  // The last half terabyte and one byte more: the loop has nothing to look at, in any address space.
  lemma WrappedRangePasses(v: Spaces, dir: nat)
    ensures RangeEnd(0xFFFF_FF80_0000_0000, 0x80_0000_0001) == 0
    ensures Validated(v, dir, 0xFFFF_FF80_0000_0000, 0x80_0000_0001)
    ensures !Covered(v, dir, 0xFFFF_FF80_0000_0000, 0x80_0000_0001)
  {
    var a: nat := ADDRESS_SPACE;
    assert !UserPage(v, dir, a / PAGE_SIZE);
  }

  ghost predicate WritablePage(leaves: Leaves, dir: nat, page: nat) {
    PageSlot(dir, page) in leaves && leaves[PageSlot(dir, page)].writable
  }

  // The pages of a range that a write would have to make private.
  ghost function CowPages(leaves: Leaves, dir: nat, first: nat, last: nat): set<nat> {
    set p: nat {:trigger PageSlot(dir, p)} | first <= p <= last && PageSlot(dir, p) in leaves
      && leaves[PageSlot(dir, p)].cow
  }

  lemma CowPagesNext(l0: Leaves, l1: Leaves, dir: nat, page: nat, last: nat)
    requires page <= last && l1.Keys == l0.Keys
    requires forall u :: u in l1 && l1[u].cow ==> l1[u] == l0[u]
    ensures |CowPages(l1, dir, page + 1, last)| <= |CowPages(l0, dir, page, last)|
    ensures PageSlot(dir, page) in l0 && l0[PageSlot(dir, page)].cow ==>
      |CowPages(l1, dir, page + 1, last)| < |CowPages(l0, dir, page, last)|
  {
    var c0, c1 := CowPages(l0, dir, page, last), CowPages(l1, dir, page + 1, last);
    forall p | p in c1 ensures p in c0 && p != page {
      assert PageSlot(dir, p) in l0;
      if PageSlot(dir, p) == PageSlot(dir, page) {
        assert l1[PageSlot(dir, p)].cow;
      }
    }
    SubsetSize(c1, c0 - {page});
    if PageSlot(dir, page) in l0 && l0[PageSlot(dir, page)].cow {
      assert page in c0;
    }
  }
}
