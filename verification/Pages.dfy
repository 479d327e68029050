/** Page tables (ex4/xv6/vm.c) over the page allocator (ex4/xv6/kalloc.c). Addresses count pages.

    A frame holds bytes or a table. The ghost field `owner` says what each frame is for; Owned says
    that owners and tables agree in both directions, so that no frame is mapped twice and none is
    forgotten. Within says that an operation on one address space leaves all frames of the others
    alone, and SameBut that it changes no mapping outside a range. TablesOf counts the page tables
    of an address space; free frames and tables balance, which decides when there is memory enough
    for an operation. */
module Pages {
  import opened Basics

  const NENTRIES: nat := 1024
  const UPAGES: nat := 512 * NENTRIES         // KERNBASE / PGSIZE
  const VPAGES: nat := NENTRIES * NENTRIES
  const PGSIZE: nat := 4096
  const PDE_FLAGS: nat := 7                   // PTE_P | PTE_W | PTE_U

  /** An entry of a page directory or page table. */
  datatype Pte = Absent | Present(frame: nat, flags: nat)

  /** What a frame holds: bytes, or a page directory or table. */
  datatype Page = Bytes(at: seq<nat>) | Table(e: seq<Pte>)

  /** Whom a frame belongs to: nobody, the kernel, or the address space with directory d, as its
      directory, as table i, or as user page v. */
  datatype Owner = Free | Other | Dir | Tab(d: nat, i: nat) | User(d: nat, v: nat)

  // ----- looking up

  function Entry(m: seq<Page>, f: nat, i: nat): Pte {
    if f < |m| && m[f].Table? && i < |m[f].e| then m[f].e[i] else Absent
  }

  /** The entry for page v under directory d. */
  function Lookup(m: seq<Page>, d: nat, v: nat): Pte {
    match Entry(m, d, v / NENTRIES)
    case Absent => Absent
    case Present(t, _) => Entry(m, t, v % NENTRIES)
  }

  // ----- ownership

  predicate IsTable(m: seq<Page>, f: nat) {
    f < |m| && m[f].Table? && |m[f].e| == NENTRIES
  }

  predicate IsDir(owner: seq<Owner>, d: nat) {
    d < |owner| && owner[d] == Dir
  }

  predicate Full(x: Page) {
    x.Bytes? && |x.at| == PGSIZE
  }

  predicate FrameOk(m: seq<Page>, owner: seq<Owner>, f: nat) {
    f < |m| == |owner| ==>
    match owner[f]
    case Free => true
    case Other => true
    case Dir => IsTable(m, f)
    case Tab(d, i) =>
      && IsDir(owner, d) && i < NENTRIES && IsTable(m, f)
      && Entry(m, d, i).Present? && Entry(m, d, i).frame == f
    case User(d, v) =>
      && IsDir(owner, d) && v < UPAGES && Full(m[f])
      && Lookup(m, d, v).Present? && Lookup(m, d, v).frame == f
  }

  predicate EntryOk(m: seq<Page>, owner: seq<Owner>, d: nat, i: nat) {
    IsDir(owner, d) && i < NENTRIES && Entry(m, d, i).Present? ==>
      Entry(m, d, i).frame < |owner| && owner[Entry(m, d, i).frame] == Tab(d, i) && Entry(m, d, i).flags == PDE_FLAGS
  }

  predicate UserOk(m: seq<Page>, owner: seq<Owner>, d: nat, v: nat) {
    IsDir(owner, d) && v < UPAGES && Lookup(m, d, v).Present? ==>
      Lookup(m, d, v).frame < |owner| && owner[Lookup(m, d, v).frame] == User(d, v)
  }

  /** Every frame is owned once, and everything that is mapped is owned by who maps it. */
  ghost predicate Owned(m: seq<Page>, owner: seq<Owner>) {
    && |m| == |owner|
    && (forall f: nat :: FrameOk(m, owner, f))
    && (forall d: nat, i: nat :: EntryOk(m, owner, d, i))
    && (forall d: nat, v: nat :: UserOk(m, owner, d, v))
  }

  /** The free list holds exactly the free frames, each once. */
  ghost predicate ListOk(free: seq<nat>, owner: seq<Owner>) {
    Distinct(free) && forall f: nat :: f in free <==> f < |owner| && owner[f] == Free
  }

  // ----- single steps

  predicate Loose(o: Owner) {
    o == Free || o == Other
  }

  /** A frame outside all address spaces may hold anything and change hands. */
  lemma LooseOwned(m: seq<Page>, owner: seq<Owner>, f: nat, x: Page, o: Owner)
    requires Owned(m, owner) && f < |m| && Loose(owner[f]) && Loose(o)
    ensures Owned(m[f := x], owner[f := o])
    ensures forall d: nat, v: nat :: IsDir(owner, d) ==> Lookup(m[f := x], d, v) == Lookup(m, d, v)
  {
    var m', owner' := m[f := x], owner[f := o];
    forall d: nat, v: nat | IsDir(owner, d)
      ensures Entry(m', d, v) == Entry(m, d, v)
      ensures Lookup(m', d, v) == Lookup(m, d, v)
    {
      LooseLookup(m, owner, f, x, d, v);
    }
    forall g: nat
      ensures FrameOk(m', owner', g)
    {
      assert FrameOk(m, owner, g);
    }
    forall d: nat, i: nat
      ensures EntryOk(m', owner', d, i)
    {
      assert EntryOk(m, owner, d, i);
    }
    forall d: nat, v: nat
      ensures UserOk(m', owner', d, v)
    {
      assert UserOk(m, owner, d, v);
    }
  }

  lemma LooseLookup(m: seq<Page>, owner: seq<Owner>, f: nat, x: Page, d: nat, v: nat)
    requires Owned(m, owner) && f < |m| && !Belongs(owner, f, d) && IsDir(owner, d)
    ensures Entry(m[f := x], d, v) == Entry(m, d, v) && Lookup(m[f := x], d, v) == Lookup(m, d, v)
  {
    assert FrameOk(m, owner, d);
    assert EntryOk(m, owner, d, v / NENTRIES);
  }

  /** Frame f is part of the address space with directory d. */
  predicate Belongs(owner: seq<Owner>, f: nat, d: nat) {
    f < |owner| &&
    match owner[f]
    case Dir => f == d
    case Tab(d', _) => d' == d
    case User(d', _) => d' == d
    case _ => false
  }

  function SetEntry(m: seq<Page>, f: nat, i: nat, p: Pte): seq<Page>
    requires IsTable(m, f) && i < NENTRIES
  {
    m[f := Table(m[f].e[i := p])]
  }

  lemma AddTableLookup(m: seq<Page>, owner: seq<Owner>, d: nat, i: nat, t: nat, flags: nat, d': nat, v: nat)
    requires Owned(m, owner) && IsDir(owner, d) && IsDir(owner, d') && i < NENTRIES && Entry(m, d, i) == Absent
    requires t < |owner| && owner[t] == Other && IsTable(m, t) && forall k :: 0 <= k < NENTRIES ==> m[t].e[k] == Absent
    ensures IsTable(m, d)
    ensures var m' := SetEntry(m, d, i, Present(t, flags));
            && Entry(m', d', v) == (if d' == d && v == i then Present(t, flags) else Entry(m, d', v))
            && Lookup(m', d', v) == Lookup(m, d', v)
  {
    assert FrameOk(m, owner, d) && FrameOk(m, owner, d');
    assert EntryOk(m, owner, d', v / NENTRIES);
  }

  /** An empty table gets into a directory. */
  lemma AddTable(m: seq<Page>, owner: seq<Owner>, d: nat, i: nat, t: nat, flags: nat)
    requires flags == PDE_FLAGS
    requires Owned(m, owner) && IsDir(owner, d) && i < NENTRIES && Entry(m, d, i) == Absent
    requires t < |owner| && owner[t] == Other && IsTable(m, t) && forall k :: 0 <= k < NENTRIES ==> m[t].e[k] == Absent
    ensures IsTable(m, d)
    ensures Owned(SetEntry(m, d, i, Present(t, flags)), owner[t := Tab(d, i)])
  {
    hide Entry, Lookup;
    AddTableLookup(m, owner, d, i, t, flags, d, i);
    var m', owner' := SetEntry(m, d, i, Present(t, flags)), owner[t := Tab(d, i)];
    forall g: nat
      ensures FrameOk(m', owner', g)
    {
      assert FrameOk(m, owner, g);
      if g < |owner| && owner[g].Tab? {
        AddTableLookup(m, owner, d, i, t, flags, owner[g].d, owner[g].i);
      } else if g < |owner| && owner[g].User? {
        AddTableLookup(m, owner, d, i, t, flags, owner[g].d, owner[g].v);
      }
    }
    forall d': nat, k: nat
      ensures EntryOk(m', owner', d', k)
    {
      assert EntryOk(m, owner, d', k);
      if IsDir(owner, d') {
        AddTableLookup(m, owner, d, i, t, flags, d', k);
      }
    }
    forall d': nat, v: nat
      ensures UserOk(m', owner', d', v)
    {
      assert UserOk(m, owner, d', v);
      if IsDir(owner, d') {
        AddTableLookup(m, owner, d, i, t, flags, d', v);
      }
    }
  }

  /** The table of a mapped region. */
  lemma TableOf(m: seq<Page>, owner: seq<Owner>, d: nat, i: nat)
    requires Owned(m, owner) && IsDir(owner, d) && i < NENTRIES && Entry(m, d, i).Present?
    ensures Entry(m, d, i).frame < |owner| && owner[Entry(m, d, i).frame] == Tab(d, i)
              && IsTable(m, Entry(m, d, i).frame) && Entry(m, d, i).flags == PDE_FLAGS
  {
    assert EntryOk(m, owner, d, i);
    assert FrameOk(m, owner, Entry(m, d, i).frame);
  }

  /** Changing the entry for page v changes that lookup only. */
  lemma SetLookup(m: seq<Page>, owner: seq<Owner>, d: nat, v: nat, p: Pte, d': nat, v': nat)
    requires Owned(m, owner) && IsDir(owner, d) && IsDir(owner, d') && v < VPAGES && Entry(m, d, v / NENTRIES).Present?
    ensures IsTable(m, Entry(m, d, v / NENTRIES).frame)
    ensures var m' := SetEntry(m, Entry(m, d, v / NENTRIES).frame, v % NENTRIES, p);
            && Entry(m', d', v') == Entry(m, d', v')
            && Lookup(m', d', v') == if d' == d && v' == v then p else Lookup(m, d', v')
  {
    TableOf(m, owner, d, v / NENTRIES);
    assert FrameOk(m, owner, d');
    if v' / NENTRIES < NENTRIES && Entry(m, d', v' / NENTRIES).Present? {
      TableOf(m, owner, d', v' / NENTRIES);
    }
    assert v == v / NENTRIES * NENTRIES + v % NENTRIES;
    assert v' == v' / NENTRIES * NENTRIES + v' % NENTRIES;
  }

  /** Mapping a user page to a frame that the kernel has, or a kernel page to anything. */
  lemma MapOwned(m: seq<Page>, owner: seq<Owner>, d: nat, v: nat, f: nat, flags: nat)
    requires Owned(m, owner) && IsDir(owner, d) && v < VPAGES && Entry(m, d, v / NENTRIES).Present?
              && Lookup(m, d, v) == Absent
    requires v < UPAGES ==> f < |owner| && owner[f] == Other && Full(m[f])
    ensures IsTable(m, Entry(m, d, v / NENTRIES).frame)
    ensures Owned(SetEntry(m, Entry(m, d, v / NENTRIES).frame, v % NENTRIES, Present(f, flags)),
                  if v < UPAGES then owner[f := User(d, v)] else owner)
  {
    TableOf(m, owner, d, v / NENTRIES);
    var m' := SetEntry(m, Entry(m, d, v / NENTRIES).frame, v % NENTRIES, Present(f, flags));
    var owner' := if v < UPAGES then owner[f := User(d, v)] else owner;
    SetLookup(m, owner, d, v, Present(f, flags), d, v);
    forall g: nat
      ensures FrameOk(m', owner', g)
    {
      assert FrameOk(m, owner, g);
      if g < |owner| && owner[g].Tab? {
        SetLookup(m, owner, d, v, Present(f, flags), owner[g].d, owner[g].i);
      } else if g < |owner| && owner[g].User? {
        SetLookup(m, owner, d, v, Present(f, flags), owner[g].d, owner[g].v);
      }
    }
    forall d': nat, i: nat
      ensures EntryOk(m', owner', d', i)
    {
      assert EntryOk(m, owner, d', i);
      if IsDir(owner, d') {
        SetLookup(m, owner, d, v, Present(f, flags), d', i);
      }
    }
    forall d': nat, v': nat
      ensures UserOk(m', owner', d', v')
    {
      assert UserOk(m, owner, d', v');
      if IsDir(owner, d') {
        SetLookup(m, owner, d, v, Present(f, flags), d', v');
      }
    }
  }

  /** Unmapping a user page gives its frame back to the kernel. */
  lemma UnmapOwned(m: seq<Page>, owner: seq<Owner>, d: nat, v: nat)
    requires Owned(m, owner) && IsDir(owner, d) && v < UPAGES && Lookup(m, d, v).Present?
    ensures Lookup(m, d, v).frame < |owner| && owner[Lookup(m, d, v).frame] == User(d, v)
    ensures IsTable(m, Entry(m, d, v / NENTRIES).frame)
    ensures Owned(SetEntry(m, Entry(m, d, v / NENTRIES).frame, v % NENTRIES, Absent),
              owner[Lookup(m, d, v).frame := Other])
  {
    TableOf(m, owner, d, v / NENTRIES);
    assert UserOk(m, owner, d, v);
    var f := Lookup(m, d, v).frame;
    var m', owner' := SetEntry(m, Entry(m, d, v / NENTRIES).frame, v % NENTRIES, Absent), owner[f := Other];
    forall g: nat
      ensures FrameOk(m', owner', g)
    {
      assert FrameOk(m, owner, g);
      if g < |owner| && owner[g].Tab? {
        SetLookup(m, owner, d, v, Absent, owner[g].d, owner[g].i);
      } else if g < |owner| && owner[g].User? {
        SetLookup(m, owner, d, v, Absent, owner[g].d, owner[g].v);
      }
    }
    forall d': nat, i: nat
      ensures EntryOk(m', owner', d', i)
    {
      assert EntryOk(m, owner, d', i);
      if IsDir(owner, d') {
        SetLookup(m, owner, d, v, Absent, d', i);
      }
    }
    forall d': nat, v': nat
      ensures UserOk(m', owner', d', v')
    {
      assert UserOk(m, owner, d', v');
      if IsDir(owner, d') {
        SetLookup(m, owner, d, v, Absent, d', v');
      }
    }
  }

  // ----- what a call may change

  /** Frames that are in use outside address space d stay as they are; the others stay free or in d. */
  predicate WithinAt(m: seq<Page>, owner: seq<Owner>, m': seq<Page>, owner': seq<Owner>, d: nat, f: nat) {
    f < |m| == |owner| == |m'| == |owner'| ==>
      if owner[f] == Free || Belongs(owner, f, d) then owner'[f] == Free || Belongs(owner', f, d)
      else owner'[f] == owner[f] && m'[f] == m[f]
  }

  ghost predicate Within(m: seq<Page>, owner: seq<Owner>, m': seq<Page>, owner': seq<Owner>, d: nat) {
    |m| == |owner| == |m'| == |owner'| && forall f: nat :: WithinAt(m, owner, m', owner', d, f)
  }

  lemma WithinTransitive(m: seq<Page>, owner: seq<Owner>, m1: seq<Page>, owner1: seq<Owner>,
                         m2: seq<Page>, owner2: seq<Owner>, d: nat)
    requires Within(m, owner, m1, owner1, d) && Within(m1, owner1, m2, owner2, d)
    ensures Within(m, owner, m2, owner2, d)
  {
    forall f: nat
      ensures WithinAt(m, owner, m2, owner2, d, f)
    {
      assert WithinAt(m, owner, m1, owner1, d, f) && WithinAt(m1, owner1, m2, owner2, d, f);
    }
  }

  /** Page v of d is mapped as before, and if it is a user page it holds what it held. */
  predicate SamePage(m: seq<Page>, m': seq<Page>, d: nat, v: nat) {
    && Lookup(m', d, v) == Lookup(m, d, v)
    && (v < UPAGES && Lookup(m, d, v).Present? ==>
          Lookup(m, d, v).frame < |m| == |m'| && m'[Lookup(m, d, v).frame] == m[Lookup(m, d, v).frame])
  }

  /** All pages of d but those from lo up to, not including, hi are as before. */
  ghost predicate SameBut(m: seq<Page>, m': seq<Page>, d: nat, lo: nat, hi: nat) {
    forall v: nat :: v < VPAGES && !(lo <= v < hi) ==> SamePage(m, m', d, v)
  }

  lemma SameButTransitive(m: seq<Page>, m1: seq<Page>, m2: seq<Page>, d: nat, lo: nat, hi: nat)
    requires SameBut(m, m1, d, lo, hi) && SameBut(m1, m2, d, lo, hi)
    ensures SameBut(m, m2, d, lo, hi)
  {
    forall v: nat | v < VPAGES && !(lo <= v < hi)
      ensures SamePage(m, m2, d, v)
    {
      assert SamePage(m, m1, d, v) && SamePage(m1, m2, d, v);
    }
  }

  /** Other address spaces do not notice what happens within d. */
  lemma OthersSame(m: seq<Page>, owner: seq<Owner>, m': seq<Page>, owner': seq<Owner>, d: nat, d': nat)
    requires Owned(m, owner) && Within(m, owner, m', owner', d) && IsDir(owner, d') && d' != d
    ensures IsDir(owner', d') && SameBut(m, m', d', 0, 0)
  {
    assert WithinAt(m, owner, m', owner', d, d');
    forall v: nat | v < VPAGES
      ensures SamePage(m, m', d', v)
    {
      assert EntryOk(m, owner, d', v / NENTRIES) && UserOk(m, owner, d', v);
      if Entry(m, d', v / NENTRIES).Present? {
        assert WithinAt(m, owner, m', owner', d, Entry(m, d', v / NENTRIES).frame);
        if v < UPAGES && Lookup(m, d', v).Present? {
          assert WithinAt(m, owner, m', owner', d, Lookup(m, d', v).frame);
        }
      }
    }
  }

  // ----- the free list

  lemma TakeFree(free: seq<nat>, owner: seq<Owner>, o: Owner)
    requires ListOk(free, owner) && free != [] && o != Free
    ensures free[0] < |owner| && owner[free[0]] == Free && ListOk(free[1..], owner[free[0] := o])
  {
    assert free[0] in free;
    forall f: nat
      ensures f in free[1..] <==> f in free && f != free[0]
    {
      if f in free[1..] {
        var i :| 0 <= i < |free| - 1 && free[1..][i] == f;
        assert free[i + 1] == f;
      }
    }
  }

  lemma PrependNew(s: seq<nat>, f: nat)
    requires Distinct(s) && f !in s
    ensures Distinct([f] + s)
  {
  }

  lemma PutFree(free: seq<nat>, owner: seq<Owner>, f: nat)
    requires ListOk(free, owner) && f < |owner| && owner[f] != Free
    ensures ListOk([f] + free, owner[f := Free])
  {
  }

  lemma ListRetag(free: seq<nat>, owner: seq<Owner>, f: nat, o: Owner)
    requires ListOk(free, owner) && f < |owner| && owner[f] != Free && o != Free
    ensures ListOk(free, owner[f := o])
  {
  }

  // ----- counting tables

  /** The directory entries that have a table. */
  function TablesOf(m: seq<Page>, d: nat): set<nat> {
    set i: nat | i < NENTRIES && Entry(m, d, i).Present?
  }

  /** The directory entries of pages lo up to, not including, hi. */
  function TablesFor(lo: nat, hi: nat): set<nat> {
    set u: nat | lo <= u < hi :: u / NENTRIES
  }

  lemma TablesForNext(lo: nat, hi: nat)
    requires lo <= hi
    ensures TablesFor(lo, lo) == {} && TablesFor(lo, hi + 1) == TablesFor(lo, hi) + {hi / NENTRIES}
  {
    forall i | i in TablesFor(lo, hi + 1)
      ensures i in TablesFor(lo, hi) + {hi / NENTRIES}
    {
      var u: nat :| lo <= u < hi + 1 && i == u / NENTRIES;
      assert u == hi || i in TablesFor(lo, hi);
    }
    forall i | i in TablesFor(lo, hi) + {hi / NENTRIES}
      ensures i in TablesFor(lo, hi + 1)
    {
      if i in TablesFor(lo, hi) {
        var u: nat :| lo <= u < hi && i == u / NENTRIES;
      }
    }
  }

  lemma TablesForPart(lo: nat, mid: nat, hi: nat)
    requires lo <= mid <= hi
    ensures TablesFor(lo, mid) <= TablesFor(lo, hi)
    ensures lo <= mid < hi ==> mid / NENTRIES in TablesFor(lo, hi)
  {
    forall i | i in TablesFor(lo, mid)
      ensures i in TablesFor(lo, hi)
    {
      var u: nat :| lo <= u < mid && i == u / NENTRIES;
    }
  }

  /** How many tables the first n pages need. */
  function TableCount(n: nat): nat {
    (n + NENTRIES - 1) / NENTRIES
  }

  lemma TableCountStep(n: nat)
    requires n > 0
    ensures TableCount(n) == (n - 1) / NENTRIES + 1
    ensures TableCount(n - 1) == (n - 1) / NENTRIES + if (n - 1) % NENTRIES == 0 then 0 else 1
  {
  }

  lemma OneTableMore(s: set<nat>, c: nat, q: nat)
    requires (forall i :: i in s <==> 0 <= i < c) && |s| == c && q <= c <= q + 1
    ensures (forall i :: i in s + {q} <==> 0 <= i < q + 1) && |s + {q}| == q + 1
  {
    if q < c {
      assert s + {q} == s;
    }
  }

  lemma {:induction false} FirstTables(n: nat)
    ensures forall i :: i in TablesFor(0, n) <==> 0 <= i < TableCount(n)
    ensures |TablesFor(0, n)| == TableCount(n)
  {
    hide TablesFor, TableCount;
    if n == 0 {
      TablesForNext(0, 0);
      NoTableCount();
    } else {
      FirstTables(n - 1);
      TablesForNext(0, n - 1);
      TableCountStep(n);
      OneTableMore(TablesFor(0, n - 1), TableCount(n - 1), (n - 1) / NENTRIES);
    }
  }

  lemma NoTableCount()
    ensures TableCount(0) == 0
  {
  }

  lemma SameTables(m: seq<Page>, m': seq<Page>, d: nat)
    requires d < |m| && d < |m'| && m[d] == m'[d]
    ensures TablesOf(m', d) == TablesOf(m, d)
  {
  }

  /** A table more. */
  lemma MoreTables(m: seq<Page>, m': seq<Page>, d: nat, i: nat, p: Pte)
    requires d < |m'| && IsTable(m, d) && i < NENTRIES && p.Present? && m'[d] == Table(m[d].e[i := p])
    ensures TablesOf(m', d) == TablesOf(m, d) + {i}
    ensures Entry(m, d, i) == Absent ==> i !in TablesOf(m, d) && |TablesOf(m', d)| == |TablesOf(m, d)| + 1
  {
  }

  function Fill(b: nat): (s: seq<nat>)
    ensures |s| == PGSIZE
  {
    seq(PGSIZE, _ => b)
  }

  function NoEntries(): (s: seq<Pte>)
    ensures |s| == NENTRIES && forall k :: 0 <= k < NENTRIES ==> s[k] == Absent
  {
    seq(NENTRIES, _ => Absent)
  }

  /** Pages needed for sz bytes: PGROUNDUP. */
  function Up(sz: nat): (n: nat)
    ensures sz <= n * PGSIZE && (n == 0 || (n - 1) * PGSIZE < sz)
  {
    (sz + PGSIZE - 1) / PGSIZE
  }

  class Memory {
    var m: seq<Page>
    var free: seq<nat>
    ghost var owner: seq<Owner>

    ghost predicate Valid()
      reads this
    {
      Owned(m, owner) && ListOk(free, owner)
    }

    /** freerange: all frames from first on become free (kalloc.c:46-53). */
    constructor (frames: nat, first: nat)
      requires first <= frames
      ensures Valid() && |m| == frames
      ensures forall f :: 0 <= f < frames ==> owner[f] == if f < first then Other else Free
    {
      m := seq(frames, _ => Bytes([]));
      owner := seq(frames, _ => Other);
      free := [];
      new;
      var f := first;
      while f < frames
        invariant first <= f <= frames && |m| == frames && |owner| == frames && Distinct(free)
        invariant forall g :: 0 <= g < frames ==> owner[g] == if first <= g < f then Free else Other
        invariant forall g: nat :: g in free <==> first <= g < f
      {
        PrependNew(free, f);
        Kfree(f);
        owner := owner[f := Free];
        f := f + 1;
      }
    }

    /** Takes the first free page, if any (kalloc.c:82-95). */
    method Kalloc() returns (ok: bool, f: nat)
      modifies this`free
      ensures ok == (old(free) != [])
      ensures if ok then f == old(free)[0] && free == old(free)[1..] else free == old(free)
    {
      if free == [] {
        return false, 0;
      }
      ok, f := true, free[0];
      free := free[1..];
    }

    /** Fills a page with junk and puts it first on the free list (kalloc.c:60-77). */
    method Kfree(f: nat)
      requires f < |m|
      modifies this`m, this`free
      ensures free == [f] + old(free) && m == old(m)[f := Bytes(Fill(1))]
    {
      m := m[f := Bytes(Fill(1))];
      free := [f] + free;
    }
  
    /** The table for page v of d: finds it or, if alloc, makes an empty one (vm.c:35-55). */
    method Walkpgdir(d: nat, v: nat, alloc: bool) returns (ok: bool, t: nat)
      requires Valid() && IsDir(owner, d) && v < VPAGES
      modifies this
      ensures Valid() && IsDir(owner, d) && Within(old(m), old(owner), m, owner, d) && SameBut(old(m), m, d, 0, 0)
      ensures ok ==> Entry(m, d, v / NENTRIES).Present? && Entry(m, d, v / NENTRIES).frame == t
      ensures !ok ==> Entry(m, d, v / NENTRIES) == Absent && (alloc ==> free == [])
      ensures !ok || !alloc ==> m == old(m) && owner == old(owner) && free == old(free)
      ensures |m| == |owner| == |old(m)| == |old(owner)|
      ensures forall f :: 0 <= f < |old(owner)| && old(owner)[f] != Free ==>
                owner[f] == old(owner)[f] && (f != d ==> m[f] == old(m)[f])
      ensures TablesOf(m, d) == TablesOf(old(m), d) + if ok then {v / NENTRIES} else {}
      ensures |free| + |TablesOf(m, d)| == |old(free)| + |TablesOf(old(m), d)|
    {
      hide Owned, ListOk, Within, SameBut, Distinct;
      var i := v / NENTRIES;
      DirIsTable(m, owner, d);
      NothingChanges(m, owner, d);
      if m[d].e[i].Present? {
        assert i in TablesOf(m, d);
        return true, m[d].e[i].frame;
      }
      if !alloc {
        return false, 0;
      }
      ok, t := Kalloc();
      if !ok {
        return;
      }
      WalkEffect(m, owner, old(free), d, i);
      m := m[t := Table(NoEntries())];
      m := m[d := Table(m[d].e[i := Present(t, PDE_FLAGS)])];
      owner := owner[t := Tab(d, i)];
      MoreTables(old(m), m, d, i, Present(t, PDE_FLAGS));
    }

    /** One turn of mappages: page v gets its table, if it needs one, and its entry (vm.c:69-73). */
    method MapOne(d: nat, v: nat, frame: nat, flags: nat) returns (ok: bool)
      requires Valid() && IsDir(owner, d) && v < VPAGES && Lookup(m, d, v) == Absent
      requires v < UPAGES ==> frame < |m| && frame < |owner| && owner[frame] == Other && Full(m[frame])
      modifies this
      ensures |m| == |owner| == |old(m)| == |old(owner)| && Valid() && IsDir(owner, d)
      ensures SameBut(old(m), m, d, v, v + 1)
      ensures Within(old(m), if v < UPAGES && ok then old(owner)[frame := Free] else old(owner), m, owner, d)
      ensures ok ==> Lookup(m, d, v) == Present(frame, flags)
      ensures ok && v < UPAGES ==> owner[frame] == User(d, v) && m[frame] == old(m)[frame]
      ensures !ok ==> owner == old(owner) && m == old(m) && free == old(free) == []
      ensures !ok ==> Entry(m, d, v / NENTRIES) == Absent
      ensures TablesOf(m, d) == TablesOf(old(m), d) + if ok then {v / NENTRIES} else {}
      ensures |free| + |TablesOf(m, d)| == |old(free)| + |TablesOf(old(m), d)|
    {
      hide Owned, ListOk, Within, SameBut, Lookup, Entry, Belongs, TablesOf;
      DirIsTable(m, owner, d);
      NothingChanges(m, owner, d);
      SameButWider(m, m, d, v, v + 1);
      var t;
      ok, t := Walkpgdir(d, v, true);
      if !ok {
        return;
      }
      StillSame(old(m), old(m), m, d, v, v + 1);
      assert Lookup(m, d, v) == Absent;        // no remap
      ghost var m1, owner1 := m, owner;
      MapEffect(m, owner, free, d, v, frame, flags);
      TableOf(m, owner, d, v / NENTRIES);
      m := m[t := Table(m[t].e[v % NENTRIES := Present(frame, flags)])];
      SameTables(m1, m, d);
      owner := if v < UPAGES then owner[frame := User(d, v)] else owner;
      OneMoreSame(old(m), m1, m, d, v, v, v + 1);
      if v < UPAGES {
        MapWithin(old(m), old(owner), m1, owner1, m, owner, d, frame);
      } else {
        WithinTransitive(old(m), old(owner), m1, owner1, m, owner, d);
      }
    }

    /** Maps the n pages from v on to the frames from `frame` on (vm.c:60-80): one user page, to a frame
        that the kernel has, or pages of the kernel part. No page may be mapped before. */
    method Mappages(d: nat, v: nat, n: nat, frame: nat, flags: nat) returns (ok: bool)
      requires Valid() && IsDir(owner, d) && 1 <= n && v + n <= VPAGES
      requires forall u :: v <= u < v + n ==> Lookup(m, d, u) == Absent
      requires v < UPAGES ==> n == 1 && frame < |m| && frame < |owner| && owner[frame] == Other && Full(m[frame])
      modifies this
      ensures |m| == |owner| == |old(m)| == |old(owner)|
      ensures Valid() && IsDir(owner, d) && SameBut(old(m), m, d, v, v + n)
      ensures Within(old(m), if v < UPAGES && ok then old(owner)[frame := Free] else old(owner), m, owner, d)
      ensures ok ==> forall u :: v <= u < v + n ==> Lookup(m, d, u) == Present(frame + (u - v), flags)
      ensures v < UPAGES && ok ==> owner[frame] == User(d, v) && m[frame] == old(m)[frame]
      ensures v < UPAGES && !ok ==> owner == old(owner) && m == old(m) && free == old(free)
      ensures !ok ==> free == []
      ensures ok <==> |old(free)| + |TablesOf(old(m), d)| >= |TablesOf(old(m), d) + TablesFor(v, v + n)|
      ensures ok ==> TablesOf(m, d) == TablesOf(old(m), d) + TablesFor(v, v + n)
      ensures |free| + |TablesOf(m, d)| == |old(free)| + |TablesOf(old(m), d)|
    {
      hide Owned, ListOk, Within, SameBut, Lookup, Entry, Belongs, TablesOf, TablesFor;
      NothingChanges(m, owner, d);
      SameButWider(old(m), m, d, v, v + n);
      var a, pa := v, frame;
      var last := v + n - 1;
      TablesForNext(v, v);
      while true
        invariant v <= a <= last && pa == frame + (a - v) && Valid() && IsDir(owner, d)
        invariant |m| == |owner| == |old(m)| == |old(owner)|
        invariant a == v ==> m == old(m) && owner == old(owner) && free == old(free)
        invariant a > v ==> v >= UPAGES
        invariant Within(old(m), old(owner), m, owner, d) && SameBut(old(m), m, d, v, v + n)
        invariant forall u :: v <= u < a ==> Lookup(m, d, u) == Present(frame + (u - v), flags)
        invariant forall u :: a <= u < v + n ==> Lookup(m, d, u) == Absent
        invariant TablesOf(m, d) == TablesOf(old(m), d) + TablesFor(v, a)
        invariant |free| + |TablesOf(m, d)| == |old(free)| + |TablesOf(old(m), d)|
        decreases last - a
      {
        ghost var m0, owner0 := m, owner;
        var mapped := MapOne(d, a, pa, flags);
        TablesForNext(v, a);
        if !mapped {
          TooFewFrames(m, d, TablesOf(old(m), d), v, a, v + n);
          return false;
        }
        OneMoreSame(old(m), m0, m, d, v, a, v + n);
        OtherLookups(m0, m, d, a);
        if a >= UPAGES {
          WithinTransitive(old(m), old(owner), m0, owner0, m, owner, d);
        }
        if a == last {
          break;
        }
        a, pa := a + 1, pa + 1;
      }
      assert TablesOf(m, d) == TablesOf(old(m), d) + TablesFor(v, v + n);
      ok := true;
    }

    /** Unmaps the pages from newsz up to oldsz and frees their frames (vm.c:255-279). */
    method Deallocuvm(d: nat, oldsz: nat, newsz: nat) returns (r: nat)
      requires Valid() && IsDir(owner, d) && oldsz <= UPAGES * PGSIZE
      modifies this
      ensures Valid() && IsDir(owner, d) && |m| == |owner| == |old(m)| == |old(owner)|
      ensures Within(old(m), old(owner), m, owner, d)
      ensures r == if newsz >= oldsz then oldsz else newsz
      ensures newsz >= oldsz ==> m == old(m) && owner == old(owner) && free == old(free)
      ensures newsz < oldsz ==> SameBut(old(m), m, d, Up(newsz), Up(oldsz))
                                && forall v :: Up(newsz) <= v < Up(oldsz) ==> Lookup(m, d, v) == Absent
    {
      hide Owned, ListOk, Within, SameBut, Lookup, Belongs, TablesOf, TablesFor;
      DirIsTable(m, owner, d);
      NothingChanges(m, owner, d);
      if newsz >= oldsz {
        return oldsz;
      }
      var lo, hi := Up(newsz), Up(oldsz);
      SameButWider(old(m), m, d, lo, hi);
      var v: nat := lo;
      while v * PGSIZE < oldsz
        invariant lo <= v && (v <= UPAGES || v == lo) && Valid() && IsDir(owner, d)
        invariant |m| == |owner| == |old(m)| == |old(owner)|
        invariant Within(old(m), old(owner), m, owner, d) && SameBut(old(m), m, d, lo, hi)
        invariant forall u: nat :: lo <= u < v ==> Lookup(m, d, u) == Absent
        decreases UPAGES - v
      {
        ghost var m0, owner0 := m, owner;
        var found, t := Walkpgdir(d, v, false);
        if !found {
          NoTable(m, d, v);
          v := (v / NENTRIES + 1) * NENTRIES - 1;
        } else {
          TableOf(m, owner, d, v / NENTRIES);
          EntryIs(m, d, v, t);
          if m[t].e[v % NENTRIES].Present? {
            UnmapEffect(m, owner, free, d, v);
            Kfree(m[t].e[v % NENTRIES].frame);
            owner := owner[m0[t].e[v % NENTRIES].frame := Free];
            m := m[t := Table(m[t].e[v % NENTRIES := Absent])];
            WithinTransitive(old(m), old(owner), m0, owner0, m, owner, d);
            SameButWiden(m0, m, d, v, v + 1, lo, hi);
            SameButTransitive(old(m), m0, m, d, lo, hi);
          }
        }
        v := v + 1;
      }
      r := newsz;
    }

    /** Grows the user part from oldsz to newsz with zeroed pages, or leaves it as it was
        (vm.c:221-249). */
    method Allocuvm(d: nat, oldsz: nat, newsz: nat) returns (ok: bool, r: nat)
      requires Valid() && IsDir(owner, d) && oldsz <= UPAGES * PGSIZE
      requires forall v :: Up(oldsz) <= v < Up(newsz) && v < UPAGES ==> Lookup(m, d, v) == Absent
      modifies this
      ensures Valid() && IsDir(owner, d) && |m| == |owner| == |old(m)| == |old(owner)|
      ensures Within(old(m), old(owner), m, owner, d)
      ensures newsz >= UPAGES * PGSIZE ==> !ok
      ensures !ok ==> SameBut(old(m), m, d, 0, 0)
      ensures newsz < oldsz && newsz < UPAGES * PGSIZE ==> ok && r == oldsz && SameBut(old(m), m, d, 0, 0)
      ensures ok && oldsz <= newsz ==> r == newsz && SameBut(old(m), m, d, Up(oldsz), Up(newsz))
      ensures ok && oldsz <= newsz ==> forall v :: Up(oldsz) <= v < Up(newsz) ==> ZeroPage(m, d, v)
      ensures ok <==> newsz < UPAGES * PGSIZE && (newsz < oldsz || Affords(old(m), old(free), d, Up(oldsz), Up(newsz)))
    {
      hide Owned, ListOk, Within, SameBut, Lookup, Belongs, ZeroPage, TablesOf, TablesFor, Affords;
      DirIsTable(m, owner, d);
      NothingChanges(m, owner, d);
      if newsz >= UPAGES * PGSIZE {
        return false, 0;
      }
      if newsz < oldsz {
        return true, oldsz;
      }
      var lo, hi := Up(oldsz), Up(newsz);
      SameButWider(old(m), m, d, lo, hi);
      TablesForNext(lo, lo);
      AffordsIff(m, free, d, lo, hi);
      var a: nat := lo;
      while a * PGSIZE < newsz
        invariant lo <= a <= hi <= UPAGES && Valid() && IsDir(owner, d)
        invariant |m| == |owner| == |old(m)| == |old(owner)|
        invariant Within(old(m), old(owner), m, owner, d) && SameBut(old(m), m, d, lo, hi)
        invariant forall v :: lo <= v < a ==> ZeroPage(m, d, v)
        invariant forall v :: a <= v < hi ==> Lookup(m, d, v) == Absent
        invariant TablesOf(m, d) == TablesOf(old(m), d) + TablesFor(lo, a)
        invariant |free| + (a - lo) + |TablesOf(m, d)| == |old(free)| + |TablesOf(old(m), d)|
      {
        ghost var m0, owner0, free0 := m, owner, free;
        MorePages(TablesOf(old(m), d), lo, a, hi);
        var got, mem := Kalloc();
        if !got {
          var _ := Deallocuvm(d, newsz, oldsz);
          GivenBack(old(m), m0, m, d, lo, hi);
          WithinTransitive(old(m), old(owner), m0, owner0, m, owner, d);
          return false, 0;
        }
        KallocEffect(m, owner, free0, d, Bytes(Fill(0)));
        m := m[mem := Bytes(Fill(0))];
        owner := owner[mem := Other];
        SameLookups(m0, m, d);
        SameTables(m0, m, d);
        ghost var m1, owner1 := m, owner;
        var mapped := Mappages(d, a, 1, mem, PTE_WU);
        if !mapped {
          var _ := Deallocuvm(d, newsz, oldsz);
          ghost var m2, owner2 := m, owner;
          DroppedWithin(m0, owner0, m1, m2, owner2, d, mem);
          KfreeEffect(m, owner, free, d, mem);
          Kfree(mem);
          owner := owner[mem := Free];
          WithinTransitive(old(m), old(owner), m0, owner0, m, owner, d);
          ghost var mm := m;
          SameButWider(m0, m1, d, lo, hi);
          SameButTransitive(old(m), m0, m1, d, lo, hi);
          GivenBack(old(m), m1, m2, d, lo, hi);
          SameButTransitive(old(m), m2, m, d, 0, 0);
          return false, 0;
        }
        NewWithin(m0, owner0, m1, m, owner, d, mem);
        WithinTransitive(old(m), old(owner), m0, owner0, m, owner, d);
        NewZero(m0, owner0, m1, m, d, a, mem, lo);
        StillSame(old(m), m0, m1, d, lo, hi);
        OneMoreSame(old(m), m1, m, d, lo, a, hi);
        LaterAbsent(m1, m, d, a, hi);
        a := a + 1;
      }
      ok, r := true, newsz;
    }

    /** Frees all frames of address space d and nothing else (vm.c:283-298). */
    method Freevm(d: nat)
      requires Valid() && IsDir(owner, d)
      modifies this
      ensures Valid() && |m| == |owner| == |old(m)| == |old(owner)|
      ensures owner == Released(old(owner), d)
      ensures forall f: nat :: f < |m| && old(owner)[f] != Free && !Belongs(old(owner), f, d) ==> m[f] == old(m)[f]
    {
      hide Owned, ListOk, Within, SameBut, Lookup, Belongs, TablesFreed, Released;
      DirIsTable(m, owner, d);
      var _ := Deallocuvm(d, UPAGES * PGSIZE, 0);
      ghost var m1, owner1 := m, owner;
      DirIsTable(m, owner, d);
      NoUserPages(m1, owner1, d);
      NoneFreed(owner1, d);
      var i: nat := 0;
      while i < NENTRIES
        invariant i <= NENTRIES && |m| == |owner| == |m1| == |owner1|
        invariant IsTable(m, d) && m[d] == m1[d] && ListOk(free, owner) && owner == TablesFreed(owner1, d, i)
        invariant forall f: nat :: f < |m| && !Belongs(owner1, f, d) ==> m[f] == m1[f]
      {
        FreeTable(m1, owner1, d, i);
        if m[d].e[i].Present? {
          var t := m[d].e[i].frame;
          PutFree(free, owner, t);
          Kfree(t);
          owner := owner[t := Free];
        }
        i := i + 1;
      }
      AllFreed(m1, owner1, m, owner, d);
      PutFree(free, owner, d);
      Kfree(d);
      owner := owner[d := Free];
      FreedOwned(m1, owner1, m, owner, d);
      FreedFrames(old(m), old(owner), m1, owner1, m, d);
    }

    /** A new address space with the kernel's mappings only; without enough memory, nothing changes
        hands (vm.c:118-136). */
    method Setupkvm(kmap: seq<Region>) returns (ok: bool, d: nat)
      requires Valid() && GoodMap(kmap)
      modifies this
      ensures Valid() && |m| == |owner| == |old(m)| == |old(owner)|
      ensures ok ==> IsDir(owner, d) && old(owner)[d] == Free && Within(old(m), old(owner), m, owner, d)
      ensures ok ==> forall v: nat :: v < VPAGES ==> Lookup(m, d, v) == KernelPte(kmap, |kmap|, v)
      ensures !ok ==> owner == old(owner) && forall f: nat :: f < |m| && owner[f] != Free ==> m[f] == old(m)[f]
      ensures ok <==> |old(free)| >= 1 + |KernelTables(kmap, |kmap|)|
      ensures ok ==> TablesOf(m, d) == KernelTables(kmap, |kmap|)
      ensures ok ==> |free| == |old(free)| - 1 - |KernelTables(kmap, |kmap|)|
    {
      hide Owned, ListOk, Within, SameBut, Lookup, Belongs, KernelPte, GoodMap, Released, TablesOf, TablesFor;
      SizesAgree(m, owner);
      ok, d := Kalloc();
      if !ok {
        return;
      }
      NewDir(m, owner, old(free));
      m := m[d := Table(NoEntries())];
      owner := owner[d := Dir];
      NoRegions(kmap, m, d);
      NoTables(m, d);
      var k: nat := 0;
      while k < |kmap|
        invariant k <= |kmap| && Valid() && IsDir(owner, d) && |m| == |owner| == |old(m)| == |old(owner)|
        invariant old(owner)[d] == Free && Within(old(m), old(owner), m, owner, d)
        invariant forall v: nat :: v < VPAGES ==> Lookup(m, d, v) == KernelPte(kmap, k, v)
        invariant TablesOf(m, d) == KernelTables(kmap, k) && |free| == |old(free)| - 1 - |KernelTables(kmap, k)|
      {
        ghost var m0, owner0 := m, owner;
        NextRegion(kmap, k);
        MoreKernelTables(kmap, k + 1);
        var mapped := Mappages(d, kmap[k].v, kmap[k].n, kmap[k].frame, kmap[k].flags);
        WithinTransitive(old(m), old(owner), m0, owner0, m, owner, d);
        if !mapped {
          ghost var m1, owner1 := m, owner;
          Freevm(d);
          Undone(old(m), old(owner), m1, owner1, m, d);
          return false, 0;
        }
        RegionMapped(kmap, k, m0, m, d);
        k := k + 1;
      }
      ok := true;
    }

    /** One turn of copyuvm: page i of p is copied to page i of d (vm.c:326-336). A page that has been
        copied when its mapping fails stays with the kernel. */
    method CopyOne(p: nat, d: nat, i: nat) returns (ok: bool, ghost dropped: set<nat>)
      requires Valid() && IsDir(owner, p) && IsDir(owner, d) && p != d && i < UPAGES
      requires Lookup(m, p, i).Present? && Lookup(m, d, i) == Absent
      modifies this
      ensures Valid() && IsDir(owner, d) && |m| == |owner| == |old(m)| == |old(owner)|
      ensures ok ==> dropped == {} && Within(old(m), old(owner), m, owner, d) && SameBut(old(m), m, d, i, i + 1)
      ensures ok ==> CopiedPage(old(m), old(owner), m, p, d, i)
      ensures !ok && dropped == {} ==> m == old(m) && owner == old(owner)
      ensures !ok && dropped != {} ==>
                exists g :: dropped == {g} && g < |m| && old(owner)[g] == Free
                            && owner == old(owner)[g := Other] && m == old(m)[g := m[g]]
      ensures ok <==>
                && |old(free)| > 0
                && |old(free)| - 1 + |TablesOf(old(m), d)| >= |TablesOf(old(m), d) + TablesFor(i, i + 1)|
      ensures dropped != {} <==> !ok && |old(free)| > 0
      ensures ok ==> TablesOf(m, d) == TablesOf(old(m), d) + TablesFor(i, i + 1)
      ensures ok ==> |free| + 1 + |TablesOf(m, d)| == |old(free)| + |TablesOf(old(m), d)|
    {
      hide Owned, ListOk, Within, SameBut, Lookup, Belongs, TablesOf, TablesFor, CopiedPage, Full;
      dropped := {};
      NothingChanges(m, owner, p);
      SourcePage(m, owner, m, owner, p, i);
      var found, t := Walkpgdir(p, i, false);
      var pa, flags := m[t].e[i % NENTRIES].frame, m[t].e[i % NENTRIES].flags;
      var got, mem := Kalloc();
      if !got {
        return false, {};
      }
      KallocEffect(old(m), old(owner), old(free), d, m[pa]);
      m := m[mem := m[pa]];
      owner := owner[mem := Other];
      ghost var m1, owner1 := m, owner;
      SameLookups(old(m), m1, d);
      SameTables(old(m), m1, d);
      ok := Mappages(d, i, 1, mem, flags);
      if !ok {
        return false, {mem};
      }
      NewWithin(old(m), old(owner), m1, m, owner, d, mem);
      OneMoreSame(old(m), m1, m, d, i, i, i + 1) by { SameButWider(old(m), m1, d, i, i + 1); }
      FreshCopy(old(m), old(owner), m1, m, p, d, i, mem, flags);
    }

    /** Copies the user part of p into a new address space (vm.c:315-343). The copy has the same
        contents and flags in frames of its own, and p does not change. It succeeds exactly if there are
        frames enough. Otherwise all frames that were taken are given back, except a page that has been
        copied when there is no frame for its table. */
    method Copyuvm(p: nat, sz: nat, kmap: seq<Region>) returns (ok: bool, d: nat, ghost dropped: set<nat>)
      requires Valid() && IsDir(owner, p) && sz <= UPAGES * PGSIZE && GoodMap(kmap)
      requires forall v :: 0 <= v < Up(sz) ==> Lookup(m, p, v).Present?
      modifies this
      ensures Valid() && IsDir(owner, p) && |m| == |owner| == |old(m)| == |old(owner)|
      ensures SameBut(old(m), m, p, 0, 0)
      ensures ok ==> IsDir(owner, d) && old(owner)[d] == Free && Within(old(m), old(owner), m, owner, d)
      ensures ok ==> forall v: nat :: v < Up(sz) ==> CopiedPage(old(m), old(owner), m, p, d, v)
      ensures ok ==> forall v: nat :: Up(sz) <= v < VPAGES ==> Lookup(m, d, v) == KernelPte(kmap, |kmap|, v)
      ensures !ok ==> |dropped| <= 1 && forall f: nat :: f < |owner| ==>
                owner[f] == if f in dropped then Other else old(owner)[f]
      ensures !ok ==> forall f: nat :: f in dropped ==> f < |owner| && old(owner)[f] == Free
      ensures ok <==> |old(free)| >= CopyFrames(kmap, Up(sz))
      ensures dropped != {} <==> LosesPage(kmap, Up(sz), |old(free)|)
    {
      hide Owned, ListOk, Within, SameBut, Lookup, Belongs, KernelPte, GoodMap, Released, CopiedPage;
      hide TablesOf, TablesFor, KernelTables, CopyFrames, LosesPage, Full, Loose;
      dropped := {};
      SizesAgree(m, owner);
      NothingChanges(m, owner, p);
      ok, d := Setupkvm(kmap);
      FirstPage(kmap);
      EnoughFrames(kmap, Up(sz), |old(free)|);
      if !ok {
        UnusedSame(old(m), old(owner), m, p);
        return;
      }
      OthersSame(old(m), old(owner), m, owner, d, p);
      var i: nat := 0;
      while i * PGSIZE < sz
        invariant i <= Up(sz) && Valid() && IsDir(owner, d) && IsDir(owner, p) && p != d
        invariant |m| == |owner| == |old(m)| == |old(owner)|
        invariant old(owner)[d] == Free && Within(old(m), old(owner), m, owner, d) && SameBut(old(m), m, p, 0, 0)
        invariant forall v: nat :: v < i ==> CopiedPage(old(m), old(owner), m, p, d, v)
        invariant forall v: nat :: i <= v < VPAGES ==> Lookup(m, d, v) == KernelPte(kmap, |kmap|, v)
        invariant TablesOf(m, d) == KernelTables(kmap, |kmap|) + TablesFor(0, i)
        invariant dropped == {} && |free| + CopyFrames(kmap, i) == |old(free)|
      {
        ghost var m0, owner0 := m, owner;
        NextPage(kmap, i);
        RunsOut(kmap, i, Up(sz), |old(free)|);
        UserHasNoRegion(kmap, |kmap|, i);
        SourcePage(old(m), old(owner), m, owner, p, i);
        SameLookups(old(m), m, p);
        var copied;
        copied, dropped := CopyOne(p, d, i);
        if !copied {
          ghost var m1, owner1 := m, owner;
          Freevm(d);
          if dropped == {} {
            Undone(old(m), old(owner), m0, owner0, m, d);
          } else {
            ghost var g :| dropped == {g} && g < |m1| && owner0[g] == Free && owner1 == owner0[g := Other]
                && m1 == m0[g := m1[g]];
            FreshFrame(old(m), old(owner), m0, owner0, d, g);
            UndoneBut(old(m), old(owner), m0, owner0, m1, m, d, g);
          }
          UnusedSame(old(m), old(owner), m, p);
          return false, 0, dropped;
        }
        WithinTransitive(old(m), old(owner), m0, owner0, m, owner, d);
        OthersSame(old(m), old(owner), m, owner, d, p);
        CopyStep(old(m), old(owner), m0, owner0, m, p, d, i);
        CopyLater(m0, m, d, i, kmap);
        i := i + 1;
      }
    }

    /** Copies p to user address va of d, page by page (vm.c:363-384); stops with -1 at the first page
        that the user may not access. Needs page tables for the range (uva2ka does not test for them). */
    method Copyout(d: nat, va0: nat, p: seq<nat>) returns (r: int, ghost done: nat)
      requires Valid() && IsDir(owner, d) && va0 + |p| <= UPAGES * PGSIZE
      requires forall a :: va0 <= a < va0 + |p| ==> Entry(m, d, a / PGSIZE / NENTRIES).Present?
      modifies this`m
      ensures Valid() && |m| == |old(m)| && done <= |p| && (r == 0 || r == -1)
      ensures r == 0 <==> forall a :: va0 <= a < va0 + |p| ==> UserPage(old(m), d, a / PGSIZE)
      ensures r == 0 ==> done == |p|
      ensures r == -1 ==> done < |p| && !UserPage(old(m), d, (va0 + done) / PGSIZE)
      ensures forall e: nat, v: nat :: IsDir(owner, e) ==> Lookup(m, e, v) == Lookup(old(m), e, v)
      ensures forall e: nat, a: nat :: IsDir(owner, e) && a < UPAGES * PGSIZE ==>
                UserByte(m, e, a)
                == if e == d && va0 <= a < va0 + done then Some(p[a - va0]) else UserByte(old(m), e, a)
    {
      hide Owned, Lookup, UserByte, ListOk;
      SizesAgree(m, owner);
      var va, k: nat := va0, 0;
      done := 0;
      while k < |p|
        invariant Valid() && IsDir(owner, d) && |m| == |owner| == |old(m)| && done == k <= |p| && va == va0 + k
        invariant forall a :: va0 <= a < va ==> UserPage(old(m), d, a / PGSIZE)
        invariant forall e: nat, v: nat :: IsDir(owner, e) ==> Lookup(m, e, v) == Lookup(old(m), e, v)
        invariant forall e: nat, a: nat :: IsDir(owner, e) && a < UPAGES * PGSIZE ==>
                    UserByte(m, e, a) == if e == d && va0 <= a < va then Some(p[a - va0]) else UserByte(old(m), e, a)
        invariant forall i: nat :: Entry(m, d, i) == Entry(old(m), d, i)
      {
        ghost var m0 := m;
        var v := va / PGSIZE;
        PageInRange(va);
        var found, t := LookupTable(d, v);
        var pte := m[t].e[v % NENTRIES];
        if pte == Absent || pte.flags / 4 % 2 == 0 {
          assert !UserPage(old(m), d, va / PGSIZE);
          return -1, k;
        }
        UserFrame(m, owner, d, v);
        var n := if PGSIZE - va % PGSIZE > |p| - k then |p| - k else PGSIZE - va % PGSIZE;
        var b := m[pte.frame].at;
        var x := Bytes(b[..va % PGSIZE] + p[k..k + n] + b[va % PGSIZE + n..]);
        WriteUser(m, owner, d, v, x);
        ghost var m1 := m[pte.frame := x];
        forall e: nat, a: nat | IsDir(owner, e) && a < UPAGES * PGSIZE
          ensures UserByte(m1, e, a) == if e == d && va0 <= a < va + n then Some(p[a - va0]) else UserByte(old(m), e, a)
        {
          ChunkByte(m, owner, d, va, p[k..k + n], x, e, a);
        }
        m := m[pte.frame := x];
        ChunkPages(va, n);
        k, va := k + n, va + n;
        done := k;
      }
      r := 0;
    }

    /** The table for a page that has one. */
    method LookupTable(d: nat, v: nat) returns (found: bool, t: nat)
      requires Owned(m, owner) && IsDir(owner, d) && v < VPAGES && Entry(m, d, v / NENTRIES).Present?
      ensures found && t == Entry(m, d, v / NENTRIES).frame && IsTable(m, t) && Lookup(m, d, v) == m[t].e[v % NENTRIES]
    {
      DirIsTable(m, owner, d);
      TableOf(m, owner, d, v / NENTRIES);
      found, t := true, m[d].e[v / NENTRIES].frame;
    }
  }

  // ----- user bytes

  /** The page is mapped and has PTE_U. */
  predicate UserPage(m: seq<Page>, d: nat, v: nat) {
    Lookup(m, d, v).Present? && Lookup(m, d, v).flags / 4 % 2 == 1
  }

  /** The byte at a user address. */
  function UserByte(m: seq<Page>, d: nat, a: nat): Option<nat> {
    match Lookup(m, d, a / PGSIZE)
    case Absent => None
    case Present(f, _) => if f < |m| && Full(m[f]) then Some(m[f].at[a % PGSIZE]) else None
  }

  lemma PageInRange(a: nat)
    requires a < UPAGES * PGSIZE
    ensures a / PGSIZE < UPAGES
  {
  }

  /** Overwriting a user page changes no mapping. */
  lemma WriteUser(m: seq<Page>, owner: seq<Owner>, d: nat, v: nat, x: Page)
    requires Owned(m, owner) && IsDir(owner, d) && v < UPAGES && Lookup(m, d, v).Present? && Full(x)
    ensures Lookup(m, d, v).frame < |m| == |owner| && owner[Lookup(m, d, v).frame] == User(d, v)
    ensures Owned(m[Lookup(m, d, v).frame := x], owner)
    ensures forall e: nat, u: nat :: IsDir(owner, e) ==> Lookup(m[Lookup(m, d, v).frame := x], e, u) == Lookup(m, e, u)
    ensures forall i: nat :: Entry(m[Lookup(m, d, v).frame := x], d, i) == Entry(m, d, i)
  {
    UserFrame(m, owner, d, v);
    var f := Lookup(m, d, v).frame;
    WriteFrame(m, owner, f, x);
    hide Owned, Entry, Lookup;
    forall e: nat, u: nat | IsDir(owner, e)
      ensures Entry(m[f := x], e, u) == Entry(m, e, u) && Lookup(m[f := x], e, u) == Lookup(m, e, u)
    {
      WriteLookup(m, owner, f, x, e, u);
    }
  }

  lemma WriteFrame(m: seq<Page>, owner: seq<Owner>, f: nat, x: Page)
    requires Owned(m, owner) && f < |m| == |owner| && owner[f].User? && Full(x)
    ensures Owned(m[f := x], owner)
  {
    hide Lookup, Entry;
    var m' := m[f := x];
    forall g: nat
      ensures FrameOk(m', owner, g)
    {
      assert FrameOk(m, owner, g);
      if g < |owner| && (owner[g].Tab? || owner[g].User?) {
        WriteLookup(m, owner, f, x, owner[g].d, if owner[g].Tab? then owner[g].i else owner[g].v);
      }
    }
    forall e: nat, i: nat
      ensures EntryOk(m', owner, e, i)
    {
      assert EntryOk(m, owner, e, i);
      if IsDir(owner, e) {
        WriteLookup(m, owner, f, x, e, i);
      }
    }
    forall e: nat, u: nat
      ensures UserOk(m', owner, e, u)
    {
      assert UserOk(m, owner, e, u);
      if IsDir(owner, e) {
        WriteLookup(m, owner, f, x, e, u);
      }
    }
  }

  lemma WriteLookup(m: seq<Page>, owner: seq<Owner>, f: nat, x: Page, e: nat, u: nat)
    requires Owned(m, owner) && f < |m| && owner[f].User? && IsDir(owner, e)
    ensures Entry(m[f := x], e, u) == Entry(m, e, u) && Lookup(m[f := x], e, u) == Lookup(m, e, u)
  {
    assert FrameOk(m, owner, e);
    assert EntryOk(m, owner, e, u / NENTRIES);
  }

  /** No two user pages share a frame, so a chunk changes only the bytes that it is copied to. */
  lemma ChunkByte(m: seq<Page>, owner: seq<Owner>, d: nat, va: nat, s: seq<nat>, x: Page, e: nat, a: nat)
    requires Owned(m, owner) && IsDir(owner, d) && va < UPAGES * PGSIZE && Lookup(m, d, va / PGSIZE).Present?
    requires va % PGSIZE + |s| <= PGSIZE && IsDir(owner, e) && a < UPAGES * PGSIZE
    requires var f := Lookup(m, d, va / PGSIZE).frame;
             f < |m| && Full(m[f]) && x == Bytes(m[f].at[..va % PGSIZE] + s + m[f].at[va % PGSIZE + |s|..])
    ensures var m' := m[Lookup(m, d, va / PGSIZE).frame := x];
            UserByte(m', e, a) == if e == d && va <= a < va + |s| then Some(s[a - va]) else UserByte(m, e, a)
  {
    PageInRange(va);
    PageInRange(a);
    WriteUser(m, owner, d, va / PGSIZE, x);
    if Lookup(m, e, a / PGSIZE).Present? {
      UserFrame(m, owner, e, a / PGSIZE);
    }
    SamePageIff(va, |s|, a);
  }

  lemma SamePageIff(va: nat, n: nat, a: nat)
    requires va % PGSIZE + n <= PGSIZE
    ensures va <= a < va + n <==> a / PGSIZE == va / PGSIZE && va % PGSIZE <= a % PGSIZE < va % PGSIZE + n
    ensures va <= a < va + n ==> a - va == a % PGSIZE - va % PGSIZE
  {
  }

  lemma ChunkPages(va: nat, n: nat)
    requires va % PGSIZE + n <= PGSIZE
    ensures forall a :: va <= a < va + n ==> a / PGSIZE == va / PGSIZE
  {
    forall a: nat | va <= a < va + n
      ensures a / PGSIZE == va / PGSIZE
    {
      SamePageIff(va, n, a);
    }
  }

  lemma DirIsTable(m: seq<Page>, owner: seq<Owner>, d: nat)
    requires Owned(m, owner) && IsDir(owner, d)
    ensures IsTable(m, d) && |m| == |owner|
  {
    assert FrameOk(m, owner, d);
  }

  lemma NothingChanges(m: seq<Page>, owner: seq<Owner>, d: nat)
    requires Owned(m, owner) && IsDir(owner, d)
    ensures Within(m, owner, m, owner, d) && SameBut(m, m, d, 0, 0)
  {
    forall v: nat | v < VPAGES
      ensures SamePage(m, m, d, v)
    {
      assert UserOk(m, owner, d, v);
    }
  }

  /** A frame that is free or with the kernel is no page of any address space. */
  lemma LooseSame(m: seq<Page>, owner: seq<Owner>, f: nat, x: Page, d: nat)
    requires Owned(m, owner) && f < |m| && Loose(owner[f]) && IsDir(owner, d)
    ensures SameBut(m, m[f := x], d, 0, 0)
  {
    var m' := m[f := x];
    forall v: nat | v < VPAGES
      ensures SamePage(m, m', d, v)
    {
      LooseLookup(m, owner, f, x, d, v);
      assert UserOk(m, owner, d, v);
    }
  }

  lemma AddTableSame(m: seq<Page>, owner: seq<Owner>, d: nat, i: nat, t: nat)
    requires Owned(m, owner) && IsDir(owner, d) && i < NENTRIES && Entry(m, d, i) == Absent
    requires t < |owner| && owner[t] == Other && IsTable(m, t) && forall k :: 0 <= k < NENTRIES ==> m[t].e[k] == Absent
    ensures IsTable(m, d) && SameBut(m, SetEntry(m, d, i, Present(t, PDE_FLAGS)), d, 0, 0)
  {
    DirIsTable(m, owner, d);
    var m' := SetEntry(m, d, i, Present(t, PDE_FLAGS));
    forall v: nat | v < VPAGES
      ensures SamePage(m, m', d, v)
    {
      AddTableLookup(m, owner, d, i, t, PDE_FLAGS, d, v);
      assert UserOk(m, owner, d, v);
    }
  }

  /** There are frames for the pages from lo to hi of d and for the tables that they still need. */
  predicate Affords(m: seq<Page>, free: seq<nat>, d: nat, lo: nat, hi: nat) {
    |free| >= hi - lo + |TablesFor(lo, hi) - TablesOf(m, d)|
  }

  lemma AffordsIff(m: seq<Page>, free: seq<nat>, d: nat, lo: nat, hi: nat)
    ensures Affords(m, free, d, lo, hi) <==>
            |free| + |TablesOf(m, d)| >= hi - lo + |TablesOf(m, d) + TablesFor(lo, hi)|
  {
    assert TablesOf(m, d) + TablesFor(lo, hi) == TablesOf(m, d) + (TablesFor(lo, hi) - TablesOf(m, d));
  }

  /** The tables for pages lo to hi, those for lo to a, and the one for page a. */
  lemma MorePages(before: set<nat>, lo: nat, a: nat, hi: nat)
    requires lo <= a < hi
    ensures TablesFor(lo, a + 1) == TablesFor(lo, a) + TablesFor(a, a + 1)
    ensures |before + TablesFor(lo, a)| <= |before + TablesFor(lo, a + 1)| <= |before + TablesFor(lo, hi)|
    ensures before + TablesFor(lo, a) + TablesFor(a, a + 1) == before + TablesFor(lo, a + 1)
  {
    TablesForNext(lo, a);
    TablesForNext(a, a);
    TablesForPart(lo, a + 1, hi);
    SubsetSize(before + TablesFor(lo, a), before + TablesFor(lo, a + 1));
    SubsetSize(before + TablesFor(lo, a + 1), before + TablesFor(lo, hi));
  }

  /** Without a table for page a, there are too few for all pages from lo to hi. */
  lemma TooFewFrames(m: seq<Page>, d: nat, before: set<nat>, lo: nat, a: nat, hi: nat)
    requires lo <= a < hi <= VPAGES && TablesOf(m, d) == before + TablesFor(lo, a)
              && Entry(m, d, a / NENTRIES) == Absent
    ensures |TablesOf(m, d)| < |before + TablesFor(lo, hi)|
  {
    TablesForPart(lo, a, hi);
    assert a / NENTRIES !in TablesOf(m, d);
    SubsetSize(TablesOf(m, d), before + TablesFor(lo, hi));
  }

  /** A free frame becomes an empty table of d. */
  lemma WalkEffect(m: seq<Page>, owner: seq<Owner>, free: seq<nat>, d: nat, i: nat)
    requires Owned(m, owner) && ListOk(free, owner) && free != [] && IsDir(owner, d) && i < NENTRIES
              && Entry(m, d, i) == Absent
    ensures free[0] < |m| == |owner| && owner[free[0]] == Free && IsTable(m[free[0] := Table(NoEntries())], d)
    ensures var t := free[0];
            var m' := SetEntry(m[t := Table(NoEntries())], d, i, Present(t, PDE_FLAGS));
            var owner' := owner[t := Tab(d, i)];
            && Owned(m', owner') && ListOk(free[1..], owner')
            && Within(m, owner, m', owner', d) && SameBut(m, m', d, 0, 0)
  {
    var t := free[0];
    TakeFree(free, owner, Tab(d, i));
    var m1, owner1 := m[t := Table(NoEntries())], owner[t := Other];
    LooseOwned(m, owner, t, Table(NoEntries()), Other);
    LooseSame(m, owner, t, Table(NoEntries()), d);
    DirIsTable(m, owner, d);
    AddTable(m1, owner1, d, i, t, PDE_FLAGS);
    AddTableSame(m1, owner1, d, i, t);
    var m2 := SetEntry(m1, d, i, Present(t, PDE_FLAGS));
    assert owner1[t := Tab(d, i)] == owner[t := Tab(d, i)];
    SameButTransitive(m, m1, m2, d, 0, 0);
  }

  lemma SameButWider(m: seq<Page>, m': seq<Page>, d: nat, lo: nat, hi: nat)
    requires SameBut(m, m', d, 0, 0)
    ensures SameBut(m, m', d, lo, hi)
  {
  }

  lemma SameButWiden(m: seq<Page>, m': seq<Page>, d: nat, lo: nat, hi: nat, lo': nat, hi': nat)
    requires SameBut(m, m', d, lo, hi) && lo' <= lo <= hi <= hi'
    ensures SameBut(m, m', d, lo', hi')
  {
  }

  lemma SameLookups(m: seq<Page>, m': seq<Page>, d: nat)
    requires SameBut(m, m', d, 0, 0)
    ensures forall v: nat :: v < VPAGES ==> Lookup(m', d, v) == Lookup(m, d, v)
  {
    forall v: nat | v < VPAGES
      ensures Lookup(m', d, v) == Lookup(m, d, v)
    {
      assert SamePage(m, m', d, v);
    }
  }

  lemma StillSame(m0: seq<Page>, m1: seq<Page>, m: seq<Page>, d: nat, lo: nat, hi: nat)
    requires SameBut(m0, m1, d, lo, hi) && SameBut(m1, m, d, 0, 0)
    ensures SameBut(m0, m, d, lo, hi)
    ensures forall v: nat :: v < VPAGES ==> Lookup(m, d, v) == Lookup(m1, d, v)
  {
    SameLookups(m1, m, d);
    SameButWider(m1, m, d, lo, hi);
    SameButTransitive(m0, m1, m, d, lo, hi);
  }

  lemma OtherLookups(m: seq<Page>, m': seq<Page>, d: nat, a: nat)
    requires SameBut(m, m', d, a, a + 1)
    ensures forall v: nat :: v < VPAGES && v != a ==> Lookup(m', d, v) == Lookup(m, d, v)
  {
    forall v: nat | v < VPAGES && v != a
      ensures Lookup(m', d, v) == Lookup(m, d, v)
    {
      assert SamePage(m, m', d, v);
    }
  }

  lemma OneMoreSame(m0: seq<Page>, m1: seq<Page>, m: seq<Page>, d: nat, lo: nat, a: nat, hi: nat)
    requires SameBut(m0, m1, d, lo, hi) && SameBut(m1, m, d, a, a + 1) && lo <= a < hi
    ensures SameBut(m0, m, d, lo, hi)
  {
    SameButWiden(m1, m, d, a, a + 1, lo, hi);
    SameButTransitive(m0, m1, m, d, lo, hi);
  }

  /** A kernel frame becomes user page v of d, or a kernel page is mapped. */
  lemma MapEffect(m: seq<Page>, owner: seq<Owner>, free: seq<nat>, d: nat, v: nat, f: nat, flags: nat)
    requires Owned(m, owner) && ListOk(free, owner) && IsDir(owner, d) && v < VPAGES
    requires Entry(m, d, v / NENTRIES).Present? && Lookup(m, d, v) == Absent
    requires v < UPAGES ==> f < |owner| && owner[f] == Other && Full(m[f])
    ensures IsTable(m, Entry(m, d, v / NENTRIES).frame)
    ensures var m' := SetEntry(m, Entry(m, d, v / NENTRIES).frame, v % NENTRIES, Present(f, flags));
            var owner' := if v < UPAGES then owner[f := User(d, v)] else owner;
            && Owned(m', owner') && ListOk(free, owner') && IsDir(owner', d)
            && Lookup(m', d, v) == Present(f, flags) && SameBut(m, m', d, v, v + 1)
            && (forall u: nat :: u != v ==> Lookup(m', d, u) == Lookup(m, d, u))
            && Within(m, if v < UPAGES then owner[f := Free] else owner, m', owner', d)
            && (v < UPAGES ==> m'[f] == m[f])
  {
    TableOf(m, owner, d, v / NENTRIES);
    MapOwned(m, owner, d, v, f, flags);
    SetLookup(m, owner, d, v, Present(f, flags), d, v);
    var m' := SetEntry(m, Entry(m, d, v / NENTRIES).frame, v % NENTRIES, Present(f, flags));
    forall u: nat | u != v
      ensures Lookup(m', d, u) == Lookup(m, d, u)
      ensures u < VPAGES ==> SamePage(m, m', d, u)
    {
      SetLookup(m, owner, d, v, Present(f, flags), d, u);
      assert UserOk(m, owner, d, u);
    }
    if v < UPAGES {
      ListRetag(free, owner, f, User(d, v));
    }
  }

  /** The kernel's frame f is treated as free before it becomes a page of d. */
  lemma MapWithin(m0: seq<Page>, owner0: seq<Owner>, m1: seq<Page>, owner1: seq<Owner>,
                  m2: seq<Page>, owner2: seq<Owner>, d: nat, f: nat)
    requires Within(m0, owner0, m1, owner1, d) && f < |owner0| && owner0[f] == Other
    requires f < |owner1| && Within(m1, owner1[f := Free], m2, owner2, d)
    requires forall g :: 0 <= g < |owner0| && owner0[g] != Free ==> owner1[g] == owner0[g]
    ensures Within(m0, owner0[f := Free], m2, owner2, d)
  {
    var before := owner0[f := Free];
    forall g: nat
      ensures WithinAt(m0, before, m2, owner2, d, g)
    {
      assert WithinAt(m0, owner0, m1, owner1, d, g);
      assert WithinAt(m1, owner1[f := Free], m2, owner2, d, g);
    }
  }

  const PTE_WU: nat := 6        // PTE_W | PTE_U

  lemma NoTable(m: seq<Page>, d: nat, v: nat)
    requires Entry(m, d, v / NENTRIES) == Absent
    ensures forall u: nat :: u / NENTRIES == v / NENTRIES ==> Lookup(m, d, u) == Absent
    ensures forall u: nat :: v <= u < (v / NENTRIES + 1) * NENTRIES ==> u / NENTRIES == v / NENTRIES
  {
  }

  lemma EntryIs(m: seq<Page>, d: nat, v: nat, t: nat)
    requires Entry(m, d, v / NENTRIES).Present? && Entry(m, d, v / NENTRIES).frame == t && IsTable(m, t)
    ensures Lookup(m, d, v) == m[t].e[v % NENTRIES]
  {
  }

  /** A user page of d is unmapped and its frame freed. */
  lemma UnmapEffect(m: seq<Page>, owner: seq<Owner>, free: seq<nat>, d: nat, v: nat)
    requires Owned(m, owner) && ListOk(free, owner) && IsDir(owner, d) && v < UPAGES && Lookup(m, d, v).Present?
    ensures IsTable(m, Entry(m, d, v / NENTRIES).frame) && Lookup(m, d, v).frame < |m| == |owner|
    ensures var f, t := Lookup(m, d, v).frame, Entry(m, d, v / NENTRIES).frame;
            f != t &&
            var m' := m[f := Bytes(Fill(1))][t := Table(m[t].e[v % NENTRIES := Absent])];
            var owner' := owner[f := Free];
            && Owned(m', owner') && ListOk([f] + free, owner') && IsDir(owner', d)
            && Lookup(m', d, v) == Absent && SameBut(m, m', d, v, v + 1)
            && (forall u: nat :: u != v ==> Lookup(m', d, u) == Lookup(m, d, u))
            && Within(m, owner, m', owner', d)
  {
    TableOf(m, owner, d, v / NENTRIES);
    UnmapOwned(m, owner, d, v);
    var f, t := Lookup(m, d, v).frame, Entry(m, d, v / NENTRIES).frame;
    var m1, owner1 := SetEntry(m, t, v % NENTRIES, Absent), owner[f := Other];
    var m', owner' := m1[f := Bytes(Fill(1))], owner[f := Free];
    assert m' == m[f := Bytes(Fill(1))][t := Table(m[t].e[v % NENTRIES := Absent])];
    assert owner1[f := Free] == owner';
    LooseOwned(m1, owner1, f, Bytes(Fill(1)), Free);
    PutFree(free, owner, f);
    SetLookup(m, owner, d, v, Absent, d, v);
    forall u: nat | u != v
      ensures Lookup(m', d, u) == Lookup(m, d, u)
      ensures u < VPAGES ==> SamePage(m, m', d, u)
    {
      SetLookup(m, owner, d, v, Absent, d, u);
      assert UserOk(m, owner, d, u);
    }
  }

  predicate ZeroPage(m: seq<Page>, d: nat, v: nat) {
    && Lookup(m, d, v).Present? && Lookup(m, d, v).flags == PTE_WU
    && Lookup(m, d, v).frame < |m| && m[Lookup(m, d, v).frame] == Bytes(Fill(0))
  }

  /** The first free frame goes to the kernel, with new contents. */
  lemma KallocEffect(m: seq<Page>, owner: seq<Owner>, free: seq<nat>, d: nat, x: Page)
    requires Owned(m, owner) && ListOk(free, owner) && free != [] && IsDir(owner, d)
    ensures free[0] < |m| == |owner| && owner[free[0]] == Free
    ensures Owned(m[free[0] := x], owner[free[0] := Other]) && ListOk(free[1..], owner[free[0] := Other])
    ensures SameBut(m, m[free[0] := x], d, 0, 0) && IsDir(owner[free[0] := Other], d)
  {
    TakeFree(free, owner, Other);
    LooseOwned(m, owner, free[0], x, Other);
    LooseSame(m, owner, free[0], x, d);
  }

  lemma KfreeEffect(m: seq<Page>, owner: seq<Owner>, free: seq<nat>, d: nat, f: nat)
    requires Owned(m, owner) && ListOk(free, owner) && f < |owner| && owner[f] == Other && IsDir(owner, d)
    ensures f < |m| == |owner| && Owned(m[f := Bytes(Fill(1))], owner[f := Free])
              && ListOk([f] + free, owner[f := Free])
    ensures SameBut(m, m[f := Bytes(Fill(1))], d, 0, 0) && IsDir(owner[f := Free], d)
  {
    PutFree(free, owner, f);
    LooseOwned(m, owner, f, Bytes(Fill(1)), Free);
    LooseSame(m, owner, f, Bytes(Fill(1)), d);
  }

  /** Pages that were absent, then perhaps mapped, then unmapped, are as before. */
  lemma GivenBack(m0: seq<Page>, m1: seq<Page>, m2: seq<Page>, d: nat, lo: nat, hi: nat)
    requires SameBut(m0, m1, d, lo, hi) && hi <= UPAGES
    requires lo < hi ==> SameBut(m1, m2, d, lo, hi) && forall v :: lo <= v < hi ==> Lookup(m2, d, v) == Absent
    requires lo >= hi ==> m2 == m1
    requires forall v: nat :: lo <= v < hi ==> Lookup(m0, d, v) == Absent
    ensures SameBut(m0, m2, d, 0, 0)
  {
    forall v: nat | v < VPAGES
      ensures SamePage(m0, m2, d, v)
    {
      if !(lo <= v < hi) {
        assert SamePage(m0, m1, d, v);
        assert lo < hi ==> SamePage(m1, m2, d, v);
      }
    }
  }

  /** A frame taken from the free list, filled, and mapped into d. */
  lemma NewWithin(m0: seq<Page>, owner0: seq<Owner>, m1: seq<Page>, m2: seq<Page>, owner2: seq<Owner>, d: nat, f: nat)
    requires |m0| == |owner0| == |m1| && f < |owner0| && owner0[f] == Free && m1 == m0[f := m1[f]]
    requires Within(m1, owner0[f := Other][f := Free], m2, owner2, d)
    ensures Within(m0, owner0, m2, owner2, d)
  {
    var before := owner0[f := Other][f := Free];
    assert before == owner0;
    forall g: nat
      ensures WithinAt(m0, owner0, m2, owner2, d, g)
    {
      assert WithinAt(m1, before, m2, owner2, d, g);
    }
  }

  /** A frame taken from the free list and given back while d shrinks. */
  lemma DroppedWithin(m0: seq<Page>, owner0: seq<Owner>, m1: seq<Page>, m2: seq<Page>, owner2: seq<Owner>, d: nat,
      f: nat)
    requires |m0| == |owner0| == |m1| && f < |owner0| && owner0[f] == Free && m1 == m0[f := m1[f]]
    requires Within(m1, owner0[f := Other], m2, owner2, d)
    ensures f < |owner2| && owner2[f] == Other && f < |m2|
    ensures Within(m0, owner0, m2[f := Bytes(Fill(1))], owner2[f := Free], d)
  {
    var o1 := owner0[f := Other];
    assert WithinAt(m1, o1, m2, owner2, d, f);
    var m3, o3 := m2[f := Bytes(Fill(1))], owner2[f := Free];
    forall g: nat
      ensures WithinAt(m0, owner0, m3, o3, d, g)
    {
      assert WithinAt(m1, o1, m2, owner2, d, g);
    }
  }

  lemma NewZero(m0: seq<Page>, owner0: seq<Owner>, m1: seq<Page>, m: seq<Page>, d: nat, a: nat, f: nat, lo: nat)
    requires SameBut(m0, m1, d, 0, 0) && SameBut(m1, m, d, a, a + 1) && a < UPAGES
    requires Lookup(m, d, a) == Present(f, PTE_WU) && f < |m| == |m1| == |m0| && m[f] == m1[f] == Bytes(Fill(0))
    requires forall v :: lo <= v < a ==> ZeroPage(m0, d, v)
    ensures forall v :: lo <= v < a + 1 ==> ZeroPage(m, d, v)
  {
    forall v: nat | lo <= v < a + 1
      ensures ZeroPage(m, d, v)
    {
      if v < a {
        assert ZeroPage(m0, d, v) && SamePage(m0, m1, d, v) && SamePage(m1, m, d, v);
      }
    }
  }

  lemma LaterAbsent(m: seq<Page>, m': seq<Page>, d: nat, a: nat, hi: nat)
    requires SameBut(m, m', d, a, a + 1) && hi <= UPAGES
    requires forall v :: a <= v < hi ==> Lookup(m, d, v) == Absent
    ensures forall v :: a + 1 <= v < hi ==> Lookup(m', d, v) == Absent
  {
    forall v: nat | a + 1 <= v < hi
      ensures Lookup(m', d, v) == Absent
    {
      assert SamePage(m, m', d, v);
    }
  }

  // ----- freeing and copying address spaces

  lemma SizesAgree(m: seq<Page>, owner: seq<Owner>)
    requires Owned(m, owner)
    ensures |m| == |owner|
  {
  }

  /** The owners after address space d has been freed. */
  function Released(owner: seq<Owner>, d: nat): (r: seq<Owner>)
    ensures |r| == |owner|
  {
    seq(|owner|, f requires 0 <= f < |owner| => if Belongs(owner, f, d) then Free else owner[f])
  }

  /** The owners after the tables of the first i entries have been freed. */
  function TablesFreed(owner: seq<Owner>, d: nat, i: nat): (r: seq<Owner>)
    ensures |r| == |owner|
  {
    seq(|owner|, f requires 0 <= f < |owner| =>
      if owner[f].Tab? && owner[f].d == d && owner[f].i < i then Free else owner[f])
  }

  lemma NoneFreed(owner: seq<Owner>, d: nat)
    ensures TablesFreed(owner, d, 0) == owner
  {
  }

  lemma NoUserPages(m: seq<Page>, owner: seq<Owner>, d: nat)
    requires Owned(m, owner) && IsDir(owner, d)
    requires forall v :: Up(0) <= v < Up(UPAGES * PGSIZE) ==> Lookup(m, d, v) == Absent
    ensures forall f :: 0 <= f < |owner| && owner[f].User? ==> owner[f].d != d
  {
    forall f: nat | f < |owner| && owner[f].User?
      ensures owner[f].d != d
    {
      assert FrameOk(m, owner, f);
    }
  }

  lemma FreeTable(m: seq<Page>, owner: seq<Owner>, d: nat, i: nat)
    requires Owned(m, owner) && IsDir(owner, d) && i < NENTRIES
    ensures IsTable(m, d) && |m| == |owner|
    ensures m[d].e[i] == Absent ==> TablesFreed(owner, d, i + 1) == TablesFreed(owner, d, i)
    ensures m[d].e[i].Present? ==>
              && m[d].e[i].frame < |owner| && m[d].e[i].frame != d && Belongs(owner, m[d].e[i].frame, d)
              && TablesFreed(owner, d, i)[m[d].e[i].frame] != Free
              && TablesFreed(owner, d, i + 1) == TablesFreed(owner, d, i)[m[d].e[i].frame := Free]
  {
    DirIsTable(m, owner, d);
    assert EntryOk(m, owner, d, i);
    forall f: nat | f < |owner|
      ensures owner[f] == Tab(d, i) ==> m[d].e[i].Present? && f == m[d].e[i].frame
    {
      assert FrameOk(m, owner, f);
    }
  }

  lemma AllFreed(m1: seq<Page>, owner1: seq<Owner>, m: seq<Page>, owner: seq<Owner>, d: nat)
    requires Owned(m1, owner1) && IsDir(owner1, d) && owner == TablesFreed(owner1, d, NENTRIES) && |m| == |m1|
    requires forall f :: 0 <= f < |owner1| && owner1[f].User? ==> owner1[f].d != d
    ensures d < |owner| && owner[d] == Dir && owner[d := Free] == Released(owner1, d) && Belongs(owner1, d, d)
  {
    forall f: nat | f < |owner1|
      ensures owner[d := Free][f] == Released(owner1, d)[f]
    {
      assert FrameOk(m1, owner1, f);
    }
  }

  /** What is left after an address space is gone is still owned as it was. */
  lemma FreedOwned(m1: seq<Page>, owner1: seq<Owner>, m: seq<Page>, owner: seq<Owner>, d: nat)
    requires Owned(m1, owner1) && IsDir(owner1, d) && owner == Released(owner1, d) && |m| == |m1|
    requires forall f: nat :: f < |m| && !Belongs(owner1, f, d) ==> m[f] == m1[f]
    ensures Owned(m, owner)
  {
    forall d': nat, v: nat | IsDir(owner, d')
      ensures Entry(m, d', v) == Entry(m1, d', v) && Lookup(m, d', v) == Lookup(m1, d', v)
    {
      assert !Belongs(owner1, d', d) && FrameOk(m1, owner1, d');
      assert EntryOk(m1, owner1, d', v / NENTRIES);
    }
    forall f: nat
      ensures FrameOk(m, owner, f)
    {
      assert FrameOk(m1, owner1, f);
    }
    forall d': nat, i: nat
      ensures EntryOk(m, owner, d', i)
    {
      assert EntryOk(m1, owner1, d', i);
    }
    forall d': nat, v: nat
      ensures UserOk(m, owner, d', v)
    {
      assert UserOk(m1, owner1, d', v);
    }
  }

  lemma FreedFrames(m0: seq<Page>, owner0: seq<Owner>, m1: seq<Page>, owner1: seq<Owner>, m: seq<Page>, d: nat)
    requires Within(m0, owner0, m1, owner1, d) && |m| == |m1|
    requires forall f: nat :: f < |m| && !Belongs(owner1, f, d) ==> m[f] == m1[f]
    ensures Released(owner1, d) == Released(owner0, d)
    ensures forall f: nat :: f < |m| && owner0[f] != Free && !Belongs(owner0, f, d) ==> m[f] == m0[f]
  {
    forall f: nat | f < |m|
      ensures Released(owner1, d)[f] == Released(owner0, d)[f]
      ensures owner0[f] != Free && !Belongs(owner0, f, d) ==> m[f] == m0[f]
    {
      assert WithinAt(m0, owner0, m1, owner1, d, f);
    }
  }

  /** What was made within a fresh d is undone when d is freed. */
  lemma Undone(m0: seq<Page>, owner0: seq<Owner>, m1: seq<Page>, owner1: seq<Owner>, m: seq<Page>, d: nat)
    requires Owned(m0, owner0) && d < |owner0| && owner0[d] == Free && Within(m0, owner0, m1, owner1, d) && |m| == |m1|
    requires forall f: nat :: f < |m| && owner1[f] != Free && !Belongs(owner1, f, d) ==> m[f] == m1[f]
    ensures Released(owner1, d) == owner0
    ensures forall f: nat :: f < |m| && owner0[f] != Free ==> m[f] == m0[f]
  {
    forall f: nat | f < |m|
      ensures Released(owner1, d)[f] == owner0[f]
      ensures owner0[f] != Free ==> m[f] == m0[f]
    {
      assert FrameOk(m0, owner0, f);
      assert WithinAt(m0, owner0, m1, owner1, d, f);
    }
  }

  /** Likewise, if the kernel still has frame g, which it took meanwhile. */
  lemma UndoneBut(m0: seq<Page>, owner0: seq<Owner>, m1: seq<Page>, owner1: seq<Owner>,
                  m2: seq<Page>, m: seq<Page>, d: nat, g: nat)
    requires Owned(m0, owner0) && d < |owner0| && owner0[d] == Free && Within(m0, owner0, m1, owner1, d)
    requires |m| == |m2| == |m1| && g < |m| && owner0[g] == Free && owner1[g] == Free && m2 == m1[g := m2[g]]
    requires forall f: nat :: f < |m| && owner1[g := Other][f] != Free && !Belongs(owner1[g := Other], f, d) ==>
              m[f] == m2[f]
    ensures Released(owner1[g := Other], d) == owner0[g := Other]
    ensures forall f: nat :: f < |m| && owner0[f] != Free ==> m[f] == m0[f]
  {
    var o := owner1[g := Other];
    forall f: nat | f < |m|
      ensures Released(o, d)[f] == owner0[g := Other][f]
      ensures owner0[f] != Free ==> m[f] == m0[f]
    {
      assert FrameOk(m0, owner0, f);
      assert WithinAt(m0, owner0, m1, owner1, d, f);
    }
  }

  /** An address space whose frames are as they were is as it was. */
  lemma UnusedSame(m: seq<Page>, owner: seq<Owner>, m': seq<Page>, p: nat)
    requires Owned(m, owner) && IsDir(owner, p) && |m'| == |m|
    requires forall f: nat :: f < |m| && owner[f] != Free ==> m'[f] == m[f]
    ensures SameBut(m, m', p, 0, 0)
  {
    SizesAgree(m, owner);
    forall v: nat | v < VPAGES
      ensures SamePage(m, m', p, v)
    {
      assert EntryOk(m, owner, p, v / NENTRIES) && UserOk(m, owner, p, v);
    }
  }

  /** A stretch of the kernel part (struct kmap). */
  datatype Region = Region(v: nat, n: nat, frame: nat, flags: nat)

  /** The stretches lie in the kernel part and do not overlap. */
  ghost predicate GoodMap(kmap: seq<Region>) {
    && (forall k :: 0 <= k < |kmap| ==> UPAGES <= kmap[k].v && 1 <= kmap[k].n && kmap[k].v + kmap[k].n <= VPAGES)
    && (forall j, k :: 0 <= j < k < |kmap| ==> kmap[j].v + kmap[j].n <= kmap[k].v || kmap[k].v + kmap[k].n <= kmap[j].v)
  }

  /** The entry that the first k stretches give page v. */
  function KernelPte(kmap: seq<Region>, k: nat, v: nat): Pte
    requires k <= |kmap|
  {
    if k == 0 then Absent
    else
      var r := kmap[k - 1];
      if r.v <= v < r.v + r.n then Present(r.frame + (v - r.v), r.flags) else KernelPte(kmap, k - 1, v)
  }

  /** The tables that the first k stretches need. */
  function KernelTables(kmap: seq<Region>, k: nat): set<nat>
    requires k <= |kmap|
  {
    if k == 0 then {} else KernelTables(kmap, k - 1) + TablesFor(kmap[k - 1].v, kmap[k - 1].v + kmap[k - 1].n)
  }

  lemma {:induction false} MoreKernelTables(kmap: seq<Region>, k: nat)
    requires k <= |kmap|
    ensures |KernelTables(kmap, k)| <= |KernelTables(kmap, |kmap|)|
    decreases |kmap| - k
  {
    if k < |kmap| {
      SubsetSize(KernelTables(kmap, k), KernelTables(kmap, k + 1));
      MoreKernelTables(kmap, k + 1);
    }
  }

  /** The kernel's tables are none of the user part's. */
  lemma {:induction false} KernelTablesHigh(kmap: seq<Region>, k: nat)
    requires GoodMap(kmap) && k <= |kmap|
    ensures forall i :: i in KernelTables(kmap, k) ==> UPAGES / NENTRIES <= i
  {
    if k > 0 {
      KernelTablesHigh(kmap, k - 1);
    }
  }

  lemma NoTables(m: seq<Page>, d: nat)
    requires d < |m| && m[d] == Table(NoEntries())
    ensures TablesOf(m, d) == {}
  {
  }

  lemma {:induction false} NotYetMapped(kmap: seq<Region>, k: nat, v: nat)
    requires GoodMap(kmap) && k <= |kmap| && forall j :: 0 <= j < k ==> !(kmap[j].v <= v < kmap[j].v + kmap[j].n)
    ensures KernelPte(kmap, k, v) == Absent
  {
    if k > 0 {
      NotYetMapped(kmap, k - 1, v);
    }
  }

  lemma UserHasNoRegion(kmap: seq<Region>, k: nat, v: nat)
    requires GoodMap(kmap) && k <= |kmap| && v < UPAGES
    ensures KernelPte(kmap, k, v) == Absent
  {
    NotYetMapped(kmap, k, v);
  }

  lemma NextRegion(kmap: seq<Region>, k: nat)
    requires GoodMap(kmap) && k < |kmap|
    ensures UPAGES <= kmap[k].v && 1 <= kmap[k].n && kmap[k].v + kmap[k].n <= VPAGES
    ensures forall v: nat :: kmap[k].v <= v < kmap[k].v + kmap[k].n ==> KernelPte(kmap, k, v) == Absent
  {
    var r := kmap[k];
    forall v: nat | r.v <= v < r.v + r.n
      ensures KernelPte(kmap, k, v) == Absent
    {
      NotYetMapped(kmap, k, v);
    }
  }

  lemma NoRegions(kmap: seq<Region>, m: seq<Page>, d: nat)
    requires d < |m| && m[d] == Table(NoEntries())
    ensures forall v: nat :: v < VPAGES ==> Lookup(m, d, v) == KernelPte(kmap, 0, v)
  {
  }

  lemma RegionMapped(kmap: seq<Region>, k: nat, m0: seq<Page>, m: seq<Page>, d: nat)
    requires k < |kmap| && SameBut(m0, m, d, kmap[k].v, kmap[k].v + kmap[k].n)
    requires forall v: nat :: v < VPAGES ==> Lookup(m0, d, v) == KernelPte(kmap, k, v)
    requires forall v :: kmap[k].v <= v < kmap[k].v + kmap[k].n ==>
              Lookup(m, d, v) == Present(kmap[k].frame + (v - kmap[k].v), kmap[k].flags)
    ensures forall v: nat :: v < VPAGES ==> Lookup(m, d, v) == KernelPte(kmap, k + 1, v)
  {
    forall v: nat | v < VPAGES
      ensures Lookup(m, d, v) == KernelPte(kmap, k + 1, v)
    {
      assert kmap[k].v <= v < kmap[k].v + kmap[k].n || SamePage(m0, m, d, v);
    }
  }

  /** A free frame becomes an empty page directory. */
  lemma NewDir(m: seq<Page>, owner: seq<Owner>, free: seq<nat>)
    requires Owned(m, owner) && ListOk(free, owner) && free != []
    ensures free[0] < |m| == |owner| && owner[free[0]] == Free
    ensures var m', owner' := m[free[0] := Table(NoEntries())], owner[free[0] := Dir];
            Owned(m', owner') && ListOk(free[1..], owner') && Within(m, owner, m', owner', free[0])
  {
    TakeFree(free, owner, Dir);
    var d := free[0];
    LooseOwned(m, owner, d, Table(NoEntries()), Other);
    var m', o, owner' := m[d := Table(NoEntries())], owner[d := Other], owner[d := Dir];
    forall f: nat
      ensures FrameOk(m', owner', f)
    {
      assert FrameOk(m', o, f);
    }
    forall e: nat, i: nat
      ensures EntryOk(m', owner', e, i)
    {
      assert EntryOk(m', o, e, i);
    }
    forall e: nat, v: nat
      ensures UserOk(m', owner', e, v)
    {
      assert UserOk(m', o, e, v);
    }
    forall f: nat
      ensures WithinAt(m, owner, m', owner', d, f)
    {
      assert FrameOk(m, owner, f);
    }
  }

  lemma PresentHasTable(m: seq<Page>, d: nat, v: nat)
    requires Lookup(m, d, v).Present?
    ensures Entry(m, d, v / NENTRIES).Present?
  {
  }

  lemma UserFrame(m: seq<Page>, owner: seq<Owner>, p: nat, v: nat)
    requires Owned(m, owner) && IsDir(owner, p) && v < UPAGES && Lookup(m, p, v).Present?
    ensures Lookup(m, p, v).frame < |m| == |owner| && Full(m[Lookup(m, p, v).frame])
              && owner[Lookup(m, p, v).frame] == User(p, v)
  {
    assert UserOk(m, owner, p, v);
    assert FrameOk(m, owner, Lookup(m, p, v).frame);
  }

  /** What is free now was free before. */
  lemma FreshFrame(m0: seq<Page>, owner0: seq<Owner>, m: seq<Page>, owner: seq<Owner>, d: nat, f: nat)
    requires Owned(m0, owner0) && d < |owner0| && owner0[d] == Free && Within(m0, owner0, m, owner, d) && f < |owner|
              && owner[f] == Free
    ensures owner0[f] == Free
  {
    assert WithinAt(m0, owner0, m, owner, d, f);
    assert FrameOk(m0, owner0, f);
  }

  /** Page v of d has the contents and the flags that page v of p had, in a frame that was free. */
  predicate CopiedPage(m0: seq<Page>, owner0: seq<Owner>, m: seq<Page>, p: nat, d: nat, v: nat) {
    var x, y := Lookup(m0, p, v), Lookup(m, d, v);
    x.Present? && y.Present? && x.flags == y.flags && x.frame != y.frame
    && x.frame < |m0| && y.frame < |m| && m[y.frame] == m0[x.frame] && y.frame < |owner0| && owner0[y.frame] == Free
  }

  /** The frames that a copy of n user pages needs: its directory, tables and pages. */
  function CopyFrames(kmap: seq<Region>, n: nat): nat {
    1 + |KernelTables(kmap, |kmap|)| + n + |TablesFor(0, n)|
  }

  /** The last free frame is the one for the first page under some table. */
  ghost predicate LosesPage(kmap: seq<Region>, n: nat, frames: nat) {
    exists v: nat :: v < n && v % NENTRIES == 0 && frames == CopyFrames(kmap, v) + 1
  }

  lemma FirstPage(kmap: seq<Region>)
    ensures CopyFrames(kmap, 0) == 1 + |KernelTables(kmap, |kmap|)| && TablesFor(0, 0) == {}
  {
    FirstTables(0);
  }

  lemma CopyFramesGrow(kmap: seq<Region>, i: nat, j: nat)
    requires i < j
    ensures CopyFrames(kmap, i) < CopyFrames(kmap, j)
    ensures i % NENTRIES == 0 ==> CopyFrames(kmap, i) + 1 < CopyFrames(kmap, j)
  {
    FirstTables(i);
    FirstTables(j);
  }

  /** No page is lost if there are enough frames, or not even enough to begin. */
  lemma EnoughFrames(kmap: seq<Region>, n: nat, frames: nat)
    ensures frames < CopyFrames(kmap, 0) ==> frames < CopyFrames(kmap, n)
    ensures frames >= CopyFrames(kmap, n) || frames < CopyFrames(kmap, 0) ==> !LosesPage(kmap, n, frames)
  {
    if 0 < n {
      CopyFramesGrow(kmap, 0, n);
    }
    forall v: nat | v < n && v % NENTRIES == 0
      ensures CopyFrames(kmap, 0) <= CopyFrames(kmap, v) && CopyFrames(kmap, v) + 1 < CopyFrames(kmap, n)
    {
      CopyFramesGrow(kmap, v, n);
      if v > 0 {
        CopyFramesGrow(kmap, 0, v);
      }
    }
  }

  lemma UserTablesLow(i: nat)
    requires i < UPAGES
    ensures i / NENTRIES + 1 <= UPAGES / NENTRIES
  {
  }

  /** Page i costs its frame and, if it is the first under its table, the table. */
  lemma NextPage(kmap: seq<Region>, i: nat)
    requires GoodMap(kmap) && i < UPAGES
    ensures var t := KernelTables(kmap, |kmap|) + TablesFor(0, i);
            && t + TablesFor(i, i + 1) == KernelTables(kmap, |kmap|) + TablesFor(0, i + 1)
            && |t + TablesFor(i, i + 1)| == |t| + (if i % NENTRIES == 0 then 1 else 0)
            && CopyFrames(kmap, i + 1) == CopyFrames(kmap, i) + 1 + |t + TablesFor(i, i + 1)| - |t|
  {
    hide GoodMap, KernelTables, TablesFor, TableCount;
    FirstTables(i);
    FirstTables(i + 1);
    TableCountStep(i + 1);
    UserTablesLow(i);
    TablesForNext(0, i);
    TablesForNext(i, i);
    KernelTablesHigh(kmap, |kmap|);
    var k, a, b := KernelTables(kmap, |kmap|), TablesFor(0, i), TablesFor(0, i + 1);
    assert k !! a && k !! b;
    assert k + a + TablesFor(i, i + 1) == k + b;
  }

  /** The frames run out at page i of n, before it is copied or when it is to be mapped. */
  lemma RunsOut(kmap: seq<Region>, i: nat, n: nat, frames: nat)
    requires i < n
    ensures frames == CopyFrames(kmap, i) ==> frames < CopyFrames(kmap, n) && !LosesPage(kmap, n, frames)
    ensures i % NENTRIES == 0 && frames == CopyFrames(kmap, i) + 1 ==>
              frames < CopyFrames(kmap, n) && LosesPage(kmap, n, frames)
  {
    hide CopyFrames;
    CopyFramesGrow(kmap, i, n);
    forall v: nat | v < n && v % NENTRIES == 0
      ensures CopyFrames(kmap, v) + 1 != CopyFrames(kmap, i)
    {
      if v < i {
        CopyFramesGrow(kmap, v, i);
      } else if i < v {
        CopyFramesGrow(kmap, i, v);
      }
    }
  }

  /** Page i of p is where it was, under a table. */
  lemma SourcePage(m0: seq<Page>, owner0: seq<Owner>, m: seq<Page>, owner: seq<Owner>, p: nat, i: nat)
    requires Owned(m0, owner0) && Owned(m, owner) && IsDir(owner0, p) && IsDir(owner, p) && SameBut(m0, m, p, 0, 0)
    requires |m| == |m0| && i < UPAGES && Lookup(m0, p, i).Present?
    ensures Entry(m, p, i / NENTRIES).Present? && IsTable(m, Entry(m, p, i / NENTRIES).frame)
    ensures var x := m[Entry(m, p, i / NENTRIES).frame].e[i % NENTRIES];
            && x == Lookup(m0, p, i) && x.frame < |m| == |m0| == |owner0| && Full(m[x.frame])
            && owner0[x.frame] == User(p, i) && owner[x.frame] == User(p, i)
  {
    SameLookups(m0, m, p);
    PresentHasTable(m, p, i);
    TableOf(m, owner, p, i / NENTRIES);
    UserFrame(m, owner, p, i);
    UserFrame(m0, owner0, p, i);
  }

  lemma FreshCopy(m0: seq<Page>, owner0: seq<Owner>, m1: seq<Page>, m: seq<Page>, p: nat, d: nat, i: nat, f: nat,
      flags: nat)
    requires |m0| == |m1| == |m| == |owner0| && f < |m| && owner0[f] == Free
    requires Lookup(m, d, i) == Present(f, flags) && m[f] == m1[f]
    requires Lookup(m0, p, i).Present? && Lookup(m0, p, i).flags == flags && Lookup(m0, p, i).frame < |m0|
    requires m1[f] == m0[Lookup(m0, p, i).frame] && owner0[Lookup(m0, p, i).frame] != Free
    ensures CopiedPage(m0, owner0, m, p, d, i)
  {
  }

  /** Pages copied before the last turn, and in it, have been copied from what p had at first. */
  lemma CopyStep(m0: seq<Page>, owner0: seq<Owner>, m1: seq<Page>, owner1: seq<Owner>, m: seq<Page>, p: nat, d: nat,
      i: nat)
    requires Owned(m0, owner0) && d < |owner0| && owner0[d] == Free && Within(m0, owner0, m1, owner1, d)
    requires |owner0| == |owner1| && IsDir(owner0, p) && SameBut(m0, m1, p, 0, 0) && Lookup(m0, p, i).Present?
    requires SameBut(m1, m, d, i, i + 1) && i < UPAGES && CopiedPage(m1, owner1, m, p, d, i)
    requires forall v: nat :: v < i ==> CopiedPage(m0, owner0, m1, p, d, v)
    ensures forall v: nat :: v < i + 1 ==> CopiedPage(m0, owner0, m, p, d, v)
  {
    hide Owned, Within, Lookup;
    assert SamePage(m0, m1, p, i);
    SizesAgree(m0, owner0);
    FreshFrame(m0, owner0, m1, owner1, d, Lookup(m, d, i).frame);
    forall v: nat | v < i + 1
      ensures CopiedPage(m0, owner0, m, p, d, v)
    {
      if v < i {
        assert CopiedPage(m0, owner0, m1, p, d, v) && SamePage(m1, m, d, v);
      }
    }
  }

  lemma CopyLater(m1: seq<Page>, m: seq<Page>, d: nat, i: nat, kmap: seq<Region>)
    requires SameBut(m1, m, d, i, i + 1)
    requires forall v: nat :: i <= v < VPAGES ==> Lookup(m1, d, v) == KernelPte(kmap, |kmap|, v)
    ensures forall v: nat :: i + 1 <= v < VPAGES ==> Lookup(m, d, v) == KernelPte(kmap, |kmap|, v)
  {
    forall v: nat | i + 1 <= v < VPAGES
      ensures Lookup(m, d, v) == KernelPte(kmap, |kmap|, v)
    {
      assert SamePage(m1, m, d, v);
    }
  }

  /** Setting up an address space, growing it, whether or not there is memory enough, and freeing it
      gives every frame back. */
  method MakeAndFree(mem: Memory, kmap: seq<Region>, newsz: nat)
    requires mem.Valid() && GoodMap(kmap)
    modifies mem
    ensures mem.Valid() && mem.owner == old(mem.owner)
    ensures forall f: nat :: f in mem.free <==> f in old(mem.free)
    ensures forall f: nat :: f < |mem.m| && mem.owner[f] != Free ==> f < |old(mem.m)| && mem.m[f] == old(mem.m)[f]
  {
    hide Owned, Within, SameBut, Lookup, Belongs, KernelPte, GoodMap, Released, ZeroPage;
    SizesAgree(mem.m, mem.owner);
    var ok, d := mem.Setupkvm(kmap);
    if ok {
      ghost var m1, owner1 := mem.m, mem.owner;
      NoUserRegions(kmap);
      var grown, _ := mem.Allocuvm(d, 0, newsz);
      WithinTransitive(old(mem.m), old(mem.owner), m1, owner1, mem.m, mem.owner, d);
      ghost var m2, owner2 := mem.m, mem.owner;
      mem.Freevm(d);
      Undone(old(mem.m), old(mem.owner), m2, owner2, mem.m, d);
    }
  }

  lemma NoUserRegions(kmap: seq<Region>)
    requires GoodMap(kmap)
    ensures forall v: nat :: v < UPAGES ==> KernelPte(kmap, |kmap|, v) == Absent
  {
    forall v: nat | v < UPAGES
      ensures KernelPte(kmap, |kmap|, v) == Absent
    {
      UserHasNoRegion(kmap, |kmap|, v);
    }
  }
}
