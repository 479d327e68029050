/** What the hardware sees of an address space that ex4/xv6/vm.c makes: translation through directory
    and table, the bits that let the user in, and a program's bytes in a new address space. */
module AddressSpaces {
  import opened Basics
  import opened Pages

  /** A page is translated by entry v / 1024 of the directory and entry v % 1024 of the table there. */
  lemma Translation(m: seq<Page>, owner: seq<Owner>, d: nat, v: nat)
    requires Owned(m, owner) && IsDir(owner, d) && v < 1024 * 1024
    ensures d < |m| && m[d].Table? && |m[d].e| == 1024
    ensures m[d].e[v / 1024] == Absent ==> Lookup(m, d, v) == Absent
    ensures m[d].e[v / 1024] != Absent ==>
              var t := m[d].e[v / 1024].frame;
              t < |m| && m[t].Table? && |m[t].e| == 1024 && Lookup(m, d, v) == m[t].e[v % 1024]
  {
    DirIsTable(m, owner, d);
    if m[d].e[v / 1024].Present? {
      TableOf(m, owner, d, v / 1024);
    }
  }

  /** Both entries for the page are present and let the user read and write. */
  predicate UserMayWrite(m: seq<Page>, d: nat, v: nat) {
    && d < |m| && m[d].Table? && v / 1024 < |m[d].e| && WriteBits(m[d].e[v / 1024])
    && var t := m[d].e[v / 1024].frame;
       t < |m| && m[t].Table? && v % 1024 < |m[t].e| && WriteBits(m[t].e[v % 1024])
  }

  predicate WriteBits(p: Pte) {
    p.Present? && p.flags / 2 % 2 == 1 && p.flags / 4 % 2 == 1
  }

  /** A page of new memory is the user's to read and write, and all zero. */
  lemma NewPage(m: seq<Page>, owner: seq<Owner>, d: nat, v: nat)
    requires Owned(m, owner) && IsDir(owner, d) && v < UPAGES && ZeroPage(m, d, v)
    ensures UserMayWrite(m, d, v) && UserPage(m, d, v)
    ensures forall a: nat :: a / PGSIZE == v ==> UserByte(m, d, a) == Some(0)
  {
    Translation(m, owner, d, v);
    TableOf(m, owner, d, v / NENTRIES);
  }

  /** What the kernel's map says of a page: the frame at the page's distance from the start of its stretch,
      and nothing outside all stretches. */
  lemma {:induction false} KernelPteIs(kmap: seq<Region>, n: nat, k: nat, v: nat)
    requires GoodMap(kmap) && n <= |kmap|
    ensures k < n && kmap[k].v <= v < kmap[k].v + kmap[k].n ==>
              KernelPte(kmap, n, v) == Present(kmap[k].frame + (v - kmap[k].v), kmap[k].flags)
    ensures (forall j :: 0 <= j < n ==> !(kmap[j].v <= v < kmap[j].v + kmap[j].n)) ==> KernelPte(kmap, n, v) == Absent
  {
    if n > 0 {
      KernelPteIs(kmap, n - 1, k, v);
    }
  }

  /** The kernel's stretches do not let the user in. */
  ghost predicate Hidden(kmap: seq<Region>) {
    forall k :: 0 <= k < |kmap| ==> kmap[k].flags / 4 % 2 == 0
  }

  lemma {:induction false} KernelHidden(m: seq<Page>, d: nat, kmap: seq<Region>, n: nat, v: nat)
    requires Hidden(kmap) && n <= |kmap| && Lookup(m, d, v) == KernelPte(kmap, n, v)
    ensures !UserPage(m, d, v)
  {
    if n > 0 && !(kmap[n - 1].v <= v < kmap[n - 1].v + kmap[n - 1].n) {
      KernelHidden(m, d, kmap, n - 1, v);
    }
  }

  /** The frames left after the directory and the kernel's tables are enough for n user pages exactly if
      all were enough for a copy of them. */
  lemma FramesLeft(m: seq<Page>, free: seq<nat>, d: nat, kmap: seq<Region>, n: nat, frames: nat)
    requires GoodMap(kmap) && n <= UPAGES && TablesOf(m, d) == KernelTables(kmap, |kmap|)
    requires |free| == frames - 1 - |KernelTables(kmap, |kmap|)|
    ensures Affords(m, free, d, 0, n) <==> frames >= CopyFrames(kmap, n)
  {
    hide GoodMap, KernelTables, TablesFor, TableCount;
    KernelTablesHigh(kmap, |kmap|);
    FirstTables(n);
    LowTables(n);
    var k, t := KernelTables(kmap, |kmap|), TablesFor(0, n);
    assert t !! k;
    assert t - k == t;
  }

  lemma LowTables(n: nat)
    requires n <= UPAGES
    ensures TableCount(n) <= UPAGES / NENTRIES
  {
  }

  /** A program's bytes in an address space of its own: it is set up, grown to the program's size and
      written. That succeeds exactly if there are frames enough, and then the user finds the program from
      address 0 on, may write its pages, and no others are the user's. */
  method NewProcess(mem: Memory, kmap: seq<Region>, p: seq<nat>) returns (ok: bool, d: nat)
    requires mem.Valid() && GoodMap(kmap) && Hidden(kmap) && |p| < UPAGES * PGSIZE
    modifies mem
    ensures mem.Valid() && (ok <==> |old(mem.free)| >= CopyFrames(kmap, Up(|p|)))
    ensures ok ==> IsDir(mem.owner, d)
    ensures ok ==> forall a: nat :: a < |p| ==> UserByte(mem.m, d, a) == Some(p[a])
    ensures ok ==> forall v: nat :: v < VPAGES ==> (UserPage(mem.m, d, v) <==> v < Up(|p|))
    ensures ok ==> forall v: nat :: v < Up(|p|) ==> UserMayWrite(mem.m, d, v)
  {
    hide Owned, Within, SameBut, Lookup, KernelPte, GoodMap, ZeroPage, TablesOf, Affords, KernelTables, CopyFrames,
        UserByte, UserPage, ListOk;
    var n := Up(|p|);
    SizesAgree(mem.m, mem.owner);
    FirstPage(kmap);
    EnoughFrames(kmap, n, |mem.free|);
    ok, d := mem.Setupkvm(kmap);
    if !ok {
      return;
    }
    ghost var m0 := mem.m;
    NoUserRegions(kmap);
    FramesLeft(mem.m, mem.free, d, kmap, n, |old(mem.free)|);
    var size;
    ok, size := mem.Allocuvm(d, 0, |p|);
    if !ok {
      return;
    }
    Grown(mem.m, mem.owner, m0, d, kmap, n);
    ghost var m1 := mem.m;
    InPages(|p|);
    var r, done := mem.Copyout(d, 0, p);
    forall v: nat | v < VPAGES
      ensures UserPage(mem.m, d, v) <==> v < n
      ensures v < n ==> UserMayWrite(mem.m, d, v)
    {
      SameEntry(m1, mem.m, d, v);
      if v < n {
        StillWritable(m1, mem.m, mem.owner, d, v);
      }
    }
  }

  lemma SameEntry(m: seq<Page>, m': seq<Page>, d: nat, v: nat)
    requires Lookup(m', d, v) == Lookup(m, d, v)
    ensures UserPage(m', d, v) <==> UserPage(m, d, v)
  {
  }

  lemma StillWritable(m: seq<Page>, m': seq<Page>, owner: seq<Owner>, d: nat, v: nat)
    requires UserMayWrite(m, d, v) && Lookup(m', d, v) == Lookup(m, d, v) && v < VPAGES
    requires Owned(m', owner) && IsDir(owner, d)
    ensures UserMayWrite(m', d, v)
  {
    PresentHasTable(m', d, v);
    TableOf(m', owner, d, v / NENTRIES);
    Translation(m', owner, d, v);
  }

  lemma InPages(n: nat)
    ensures forall a: nat :: a < n ==> a / PGSIZE < Up(n)
  {
  }

  /** After growing, the user's pages are the new ones, and these have tables. */
  lemma Grown(m: seq<Page>, owner: seq<Owner>, m0: seq<Page>, d: nat, kmap: seq<Region>, n: nat)
    requires Owned(m, owner) && IsDir(owner, d) && n <= UPAGES && Hidden(kmap) && SameBut(m0, m, d, 0, n)
    requires forall v: nat :: v < VPAGES ==> Lookup(m0, d, v) == KernelPte(kmap, |kmap|, v)
    requires forall v: nat :: v < n ==> ZeroPage(m, d, v)
    ensures forall v: nat :: v < VPAGES ==> (UserPage(m, d, v) <==> v < n)
    ensures forall v: nat :: v < n ==> UserMayWrite(m, d, v) && Entry(m, d, v / NENTRIES).Present?
  {
    hide Owned, KernelPte, Lookup;
    forall v: nat | v < VPAGES
      ensures UserPage(m, d, v) <==> v < n
      ensures v < n ==> UserMayWrite(m, d, v) && Entry(m, d, v / NENTRIES).Present?
    {
      if v < n {
        NewPage(m, owner, d, v);
        PresentHasTable(m, d, v);
      } else {
        assert SamePage(m0, m, d, v);
        KernelHidden(m, d, kmap, |kmap|, v);
      }
    }
  }
}
