/** The block map, the block allocator and the file contents of ex4/xv6/fs.c, over the logical view
    of the disk that the log and the buffer cache provide. */
module FileMap {
  import opened Blocks

  const NDIRECT: nat := 11
  const NINDIRECT: nat := WORDS
  const MAXBLOCKS: nat := NDIRECT + NINDIRECT + NINDIRECT * NINDIRECT
  const MAXBYTES: nat := NDIRECT + NINDIRECT + NINDIRECT * NINDIRECT * BSIZE   // MAXFILE*BSIZE as C reads it
  const WORD: nat := 0x1_0000_0000

  /** Block addresses (direct ones, then the indirect and the doubly indirect one) and the size. */
  datatype Inode = Inode(addrs: seq<uint32>, size: nat)

  /** The disk, the free map (one entry per block) and the inodes. */
  datatype Fs = Fs(disk: seq<Block>, used: seq<bool>, inodes: seq<Inode>)

  /** A place for a block address: in the inode, or word j of the index block that place p names. */
  datatype Slot = Root(i: nat) | Under(p: Slot, j: nat)

  /** What a block is for. Reserved blocks are allocated but not yet in any place. */
  datatype Owner = Nobody | Meta | Reserved | Of(n: nat, s: Slot)

  /** The places that name index blocks. */
  predicate IsIndex(s: Slot) {
    match s
    case Root(i) => i == NDIRECT || i == NDIRECT + 1
    case Under(p, j) => p == Root(NDIRECT + 1) && j < NINDIRECT
  }

  predicate Real(s: Slot) {
    match s
    case Root(i) => i < NDIRECT + 2
    case Under(p, j) => IsIndex(p) && j < NINDIRECT
  }

  predicate IsData(s: Slot) {
    Real(s) && !IsIndex(s)
  }

  /** Where the address of file block bn is kept. */
  function DataSlot(bn: nat): (s: Slot)
    requires bn < MAXBLOCKS
    ensures IsData(s)
  {
    if bn < NDIRECT then Root(bn)
    else if bn - NDIRECT < NINDIRECT then Under(Root(NDIRECT), bn - NDIRECT)
    else
      var m := bn - NDIRECT - NINDIRECT;
      Under(Under(Root(NDIRECT + 1), m / NINDIRECT), m % NINDIRECT)
  }

  lemma DataSlotInjective(b: nat, c: nat)
    requires b < MAXBLOCKS && c < MAXBLOCKS && DataSlot(b) == DataSlot(c)
    ensures b == c
  {
  }

  function Child(disk: seq<Block>, a: nat, j: nat): nat {
    if a == 0 || a >= |disk| || j >= WORDS then 0 else Word(disk[a], j)
  }

  /** The address that place s of an inode holds, 0 if none. */
  function Addr(disk: seq<Block>, x: Inode, s: Slot): nat {
    match s
    case Root(i) => if i < |x.addrs| then x.addrs[i] else 0
    case Under(p, j) => Child(disk, Addr(disk, x, p), j)
  }

  function Overwrite(f: Fs, b: nat, x: Block): Fs
    requires b < |f.disk|
  {
    Fs(f.disk[b := x], f.used, f.inodes)
  }

  // ----- ownership

  predicate SlotOk(f: Fs, owner: seq<Owner>, n: nat, s: Slot) {
    n < |f.inodes| && Real(s) && Addr(f.disk, f.inodes[n], s) != 0 ==>
      Addr(f.disk, f.inodes[n], s) < |f.disk| == |owner| && owner[Addr(f.disk, f.inodes[n], s)] == Of(n, s)
  }

  predicate BlockOk(f: Fs, owner: seq<Owner>, b: nat) {
    b < |f.disk| == |owner| == |f.used| ==>
      && (f.used[b] <==> owner[b] != Nobody)
      && (owner[b].Of? ==> owner[b].n < |f.inodes| && Real(owner[b].s) && b != 0
                           && Addr(f.disk, f.inodes[owner[b].n], owner[b].s) == b)
  }

  /** Every place holds 0 or a block of its own that is marked used; every used block has a purpose. */
  ghost predicate Owned(f: Fs, owner: seq<Owner>) {
    && 0 < |f.disk| == |owner| == |f.used| <= WORD && owner[0] == Meta
    && (forall n: nat :: n < |f.inodes| ==> |f.inodes[n].addrs| == NDIRECT + 2)
    && (forall n: nat, s: Slot :: SlotOk(f, owner, n, s))
    && (forall b: nat :: BlockOk(f, owner, b))
  }

  /** Two places of any inodes never hold the same block, and the block is marked used. */
  lemma Injective(f: Fs, owner: seq<Owner>, n: nat, s: Slot, n': nat, s': Slot)
    requires Owned(f, owner) && n < |f.inodes| && n' < |f.inodes| && Real(s) && Real(s')
    requires Addr(f.disk, f.inodes[n], s) != 0
    ensures Addr(f.disk, f.inodes[n], s) < |f.used| && f.used[Addr(f.disk, f.inodes[n], s)]
    ensures Addr(f.disk, f.inodes[n], s) == Addr(f.disk, f.inodes[n'], s') ==> n == n' && s == s'
  {
    assert SlotOk(f, owner, n, s) && SlotOk(f, owner, n', s');
    assert BlockOk(f, owner, Addr(f.disk, f.inodes[n], s));
  }

  predicate IndexBlock(o: Owner) {
    o.Of? && IsIndex(o.s)
  }

  /** Overwriting a block that is not an index block changes no address. */
  lemma {:induction false} AddrFrame(f: Fs, owner: seq<Owner>, b: nat, x: Block, n: nat, s: Slot)
    requires Owned(f, owner) && b < |f.disk| && !IndexBlock(owner[b]) && n < |f.inodes| && Real(s)
    ensures Addr(f.disk[b := x], f.inodes[n], s) == Addr(f.disk, f.inodes[n], s)
  {
    if s.Under? {
      AddrFrame(f, owner, b, x, n, s.p);
      assert SlotOk(f, owner, n, s.p);
    }
  }

  lemma OverwriteOwned(f: Fs, owner: seq<Owner>, b: nat, x: Block)
    requires Owned(f, owner) && b < |f.disk| && !IndexBlock(owner[b])
    ensures Owned(Overwrite(f, b, x), owner)
  {
    var f' := Overwrite(f, b, x);
    forall n: nat, s: Slot
      ensures SlotOk(f', owner, n, s)
    {
      assert SlotOk(f, owner, n, s);
      if n < |f.inodes| && Real(s) {
        AddrFrame(f, owner, b, x, n, s);
      }
    }
    forall c: nat
      ensures BlockOk(f', owner, c)
    {
      assert BlockOk(f, owner, c);
      if c < |f.disk| && owner[c].Of? {
        AddrFrame(f, owner, b, x, owner[c].n, owner[c].s);
      }
    }
  }

  /** Reserving a free block, or giving back one that no place holds. */
  lemma ReserveOwned(f: Fs, owner: seq<Owner>, b: nat, o: Owner)
    requires Owned(f, owner) && 0 < b < |f.disk| && (owner[b] == Nobody || owner[b] == Reserved)
    requires o == Reserved || o == Nobody
    ensures Owned(Fs(f.disk, f.used[b := o == Reserved], f.inodes), owner[b := o])
  {
    var f', owner' := Fs(f.disk, f.used[b := o == Reserved], f.inodes), owner[b := o];
    forall n: nat, s: Slot
      ensures SlotOk(f', owner', n, s)
    {
      assert SlotOk(f, owner, n, s);
    }
    forall c: nat
      ensures BlockOk(f', owner', c)
    {
      assert BlockOk(f, owner, c);
    }
  }

  // ----- putting a block into a place, and taking it out

  /** Place s of inode n gets address b. */
  function Put(f: Fs, n: nat, s: Slot, b: uint32): Fs
    requires n < |f.inodes| && Real(s) && |f.inodes[n].addrs| == NDIRECT + 2
    requires s.Under? ==> Addr(f.disk, f.inodes[n], s.p) < |f.disk|
  {
    match s
    case Root(i) => Fs(f.disk, f.used, f.inodes[n := Inode(f.inodes[n].addrs[i := b], f.inodes[n].size)])
    case Under(p, j) =>
      Overwrite(f, Addr(f.disk, f.inodes[n], p), PutWord(f.disk[Addr(f.disk, f.inodes[n], p)], j, b))
  }

  predicate CanPut(f: Fs, owner: seq<Owner>, n: nat, s: Slot, b: nat) {
    && n < |f.inodes| && Real(s) && Addr(f.disk, f.inodes[n], s) == 0
    && 0 < b < |f.disk| == |owner| && owner[b] == Reserved && Blank(f.disk[b])
    && (s.Under? ==> Addr(f.disk, f.inodes[n], s.p) != 0)
  }

  lemma {:induction false} PutAddr(f: Fs, owner: seq<Owner>, n: nat, s: Slot, b: nat, n': nat, s': Slot)
    requires Owned(f, owner) && CanPut(f, owner, n, s, b) && n' < |f.inodes| && Real(s')
    ensures |f.inodes[n].addrs| == NDIRECT + 2 && (s.Under? ==> Addr(f.disk, f.inodes[n], s.p) < |f.disk|)
    ensures Addr(Put(f, n, s, b).disk, Put(f, n, s, b).inodes[n'], s')
            == if n' == n && s' == s then b else Addr(f.disk, f.inodes[n'], s')
  {
    if s.Under? {
      assert SlotOk(f, owner, n, s.p);
    }
    hide Word, PutWord;
    var f' := Put(f, n, s, b);
    if s'.Under? {
      PutAddr(f, owner, n, s, b, n', s'.p);
      assert SlotOk(f, owner, n', s'.p);
      if n' == n && s'.p == s {
        BlankWord(f.disk[b], s'.j);
      }
    }
  }

  lemma PutOwned(f: Fs, owner: seq<Owner>, n: nat, s: Slot, b: nat)
    requires Owned(f, owner) && CanPut(f, owner, n, s, b)
    ensures |f.inodes[n].addrs| == NDIRECT + 2 && (s.Under? ==> Addr(f.disk, f.inodes[n], s.p) < |f.disk|)
    ensures Owned(Put(f, n, s, b), owner[b := Of(n, s)])
  {
    PutAddr(f, owner, n, s, b, n, s);
    var f', owner' := Put(f, n, s, b), owner[b := Of(n, s)];
    forall n': nat, s': Slot
      ensures SlotOk(f', owner', n', s')
    {
      assert SlotOk(f, owner, n', s');
      if n' < |f.inodes| && Real(s') {
        PutAddr(f, owner, n, s, b, n', s');
      }
    }
    forall c: nat
      ensures BlockOk(f', owner', c)
    {
      assert BlockOk(f, owner, c);
      if c < |f.disk| && owner[c].Of? {
        PutAddr(f, owner, n, s, b, owner[c].n, owner[c].s);
      }
    }
  }

  // ----- what callers see of a file

  /** Byte x of block bn of file n; blocks without an address read as zero. */
  function Cell(f: Fs, n: nat, bn: nat, x: nat): byte
    requires n < |f.inodes| && bn < MAXBLOCKS && x < BSIZE
  {
    var a := Addr(f.disk, f.inodes[n], DataSlot(bn));
    if a == 0 || a >= |f.disk| then 0 else f.disk[a].at[x]
  }

  function Contents(f: Fs, n: nat): (c: seq<byte>)
    requires n < |f.inodes|
    ensures |c| == f.inodes[n].size
  {
    seq(f.inodes[n].size, i requires 0 <= i < f.inodes[n].size =>
      if i / BSIZE < MAXBLOCKS then Cell(f, n, i / BSIZE, i % BSIZE) else 0)
  }

  ghost predicate SameShape(f: Fs, f': Fs) {
    && |f'.disk| == |f.disk| && |f'.inodes| == |f.inodes|
    && forall n :: 0 <= n < |f.inodes| ==> f'.inodes[n].size == f.inodes[n].size
  }

  predicate SameCell(f: Fs, f': Fs, n: nat, bn: nat, x: nat) {
    n < |f.inodes| && n < |f'.inodes| && bn < MAXBLOCKS && x < BSIZE ==> Cell(f', n, bn, x) == Cell(f, n, bn, x)
  }

  /** A place that holds an address keeps it; and no place of file data gets one, except that of
      block bn of inode n. */
  predicate Stable(f: Fs, f': Fs, n: nat, bn: nat, n': nat, s: Slot) {
    n' < |f.inodes| && n' < |f'.inodes| && Real(s) && bn < MAXBLOCKS ==>
      Addr(f.disk, f.inodes[n'], s) != 0 || (IsData(s) && !(n' == n && s == DataSlot(bn))) ==>
      Addr(f'.disk, f'.inodes[n'], s) == Addr(f.disk, f.inodes[n'], s)
  }

  /** Blocks were allocated on the way to block bn of inode n, and no file changed. */
  ghost predicate Grown(f: Fs, f': Fs, n: nat, bn: nat) {
    && SameShape(f, f')
    && (forall n': nat, s: Slot :: Stable(f, f', n, bn, n', s))
    && (forall n': nat, bn': nat, x: nat :: SameCell(f, f', n', bn', x))
  }

  lemma GrownTransitive(f: Fs, g: Fs, h: Fs, n: nat, bn: nat)
    requires Grown(f, g, n, bn) && Grown(g, h, n, bn)
    ensures Grown(f, h, n, bn)
  {
    forall n': nat, s: Slot
      ensures Stable(f, h, n, bn, n', s)
    {
      assert Stable(f, g, n, bn, n', s) && Stable(g, h, n, bn, n', s);
    }
    forall n': nat, bn': nat, x: nat
      ensures SameCell(f, h, n', bn', x)
    {
      assert SameCell(f, g, n', bn', x) && SameCell(g, h, n', bn', x);
    }
  }

  /** Allocating and zeroing a free block changes no file. */
  lemma ReserveGrown(f: Fs, owner: seq<Owner>, b: nat, x: Block, n: nat, bn: nat)
    requires Owned(f, owner) && 0 < b < |f.disk| && owner[b] == Nobody
    ensures Grown(f, Fs(f.disk[b := x], f.used[b := true], f.inodes), n, bn)
    ensures Owned(Fs(f.disk[b := x], f.used[b := true], f.inodes), owner[b := Reserved])
  {
    var f' := Fs(f.disk[b := x], f.used[b := true], f.inodes);
    forall n': nat, s: Slot
      ensures Stable(f, f', n, bn, n', s)
    {
      if n' < |f.inodes| && Real(s) {
        AddrFrame(f, owner, b, x, n', s);
      }
    }
    forall n': nat, bn': nat, y: nat
      ensures SameCell(f, f', n', bn', y)
    {
      if n' < |f.inodes| && bn' < MAXBLOCKS && y < BSIZE {
        AddrFrame(f, owner, b, x, n', DataSlot(bn'));
        assert SlotOk(f, owner, n', DataSlot(bn'));
      }
    }
    OverwriteOwned(f, owner, b, x);
    ReserveOwned(Overwrite(f, b, x), owner, b, Reserved);
  }

  lemma PutGrown(f: Fs, owner: seq<Owner>, n: nat, s: Slot, b: nat, bn: nat)
    requires Owned(f, owner) && CanPut(f, owner, n, s, b) && bn < MAXBLOCKS && (IsIndex(s) || s == DataSlot(bn))
    ensures |f.inodes[n].addrs| == NDIRECT + 2 && (s.Under? ==> Addr(f.disk, f.inodes[n], s.p) < |f.disk|)
    ensures Grown(f, Put(f, n, s, b), n, bn)
  {
    PutAddr(f, owner, n, s, b, n, s);
    var f' := Put(f, n, s, b);
    forall n': nat, s': Slot
      ensures Stable(f, f', n, bn, n', s')
    {
      if n' < |f.inodes| && Real(s') {
        PutAddr(f, owner, n, s, b, n', s');
      }
    }
    forall n': nat, bn': nat, x: nat
      ensures SameCell(f, f', n', bn', x)
    {
      if n' < |f.inodes| && bn' < MAXBLOCKS && x < BSIZE {
        PutAddr(f, owner, n, s, b, n', DataSlot(bn'));
        assert SlotOk(f, owner, n', DataSlot(bn'));
        if s.Under? {
          assert SlotOk(f, owner, n, s.p);
        }
      }
    }
  }

  /** File block bn of an inode with these addresses is block a: one of the first 11 is in the inode, one of
      the next 128 in the block that address 11 names, and the others are in blocks that are named in the
      block that address 12 names. */
  predicate KeptAt(disk: seq<Block>, x: seq<uint32>, bn: nat, a: nat) {
    && |x| == 13
    && if bn < 11 then a == x[bn]
       else if bn < 11 + 128 then x[11] < |disk| && a == Word(disk[x[11]], bn - 11)
       else
         var m := bn - 11 - 128;
         && x[12] < |disk| && m / 128 < WORDS && Word(disk[x[12]], m / 128) < |disk|
         && a == Word(disk[Word(disk[x[12]], m / 128)], m % 128)
  }

  lemma Kept(f: Fs, owner: seq<Owner>, n: nat, bn: nat)
    requires Owned(f, owner) && n < |f.inodes| && bn < MAXBLOCKS
    ensures Addr(f.disk, f.inodes[n], DataSlot(bn)) != 0 ==>
              KeptAt(f.disk, f.inodes[n].addrs, bn, Addr(f.disk, f.inodes[n], DataSlot(bn)))
  {
    hide Word, Owned, Addr, DataSlot;
    WhereBlockIs(f, owner, n, bn);
  }

  const BPB: nat := BSIZE * 8

  class FileSystem {
    var disk: seq<Block>
    var used: seq<bool>
    var inodes: seq<Inode>
    ghost var owner: seq<Owner>

    function State(): Fs
      reads this
    {
      Fs(disk, used, inodes)
    }

    ghost predicate Sound()
      reads this
    {
      Owned(State(), owner)
    }

    /** Sound, every used block in a place or reserved for metadata, and every file all there. */
    ghost predicate Valid()
      reads this
    {
      Sound() && Reserved !in owner && forall n: nat :: n < |inodes| ==> Filled(State(), n)
    }

    /** A fresh file system: zeroed blocks, the first ones for metadata, and empty inodes. */
    constructor (size: nat, nmeta: nat, ninodes: nat)
      requires 1 <= nmeta <= size <= WORD
      ensures Valid() && |disk| == |used| == size && |inodes| == ninodes
      ensures forall b :: 0 <= b < size ==> used[b] == (b < nmeta)
      ensures forall n :: 0 <= n < ninodes ==> inodes[n].size == 0 && Contents(State(), n) == []
    {
      disk := seq(size, _ => ZERO);
      used := seq(size, b => b < nmeta);
      inodes := seq(ninodes, _ => EMPTY);
      owner := seq(size, b => if b < nmeta then Meta else Nobody);
      new;
      FreshValid(State(), owner);
    }

    /** Allocates and zeroes the first free block; 0 stands for the panic that there is none. */
    method Balloc() returns (b: nat)
      requires Sound()
      modifies this`disk, this`used, this`owner
      ensures Sound()
      ensures b == 0 ==> disk == old(disk) && used == old(used) && owner == old(owner) && false !in used
      ensures b != 0 ==>
                && b < |old(used)| == |old(disk)| == |old(owner)| && !old(used)[b] && false !in old(used)[..b]
                && used == old(used)[b := true] && owner == old(owner)[b := Reserved]
                && disk == old(disk)[b := disk[b]] && Blank(disk[b])
    {
      var bb := 0;
      while bb < |used|
        invariant 0 <= bb && disk == old(disk) && used == old(used) && owner == old(owner)
        invariant forall c :: 0 <= c < bb && c < |used| ==> used[c]
      {
        var bi := 0;
        while bi < BPB && bb + bi < |used|
          invariant 0 <= bi <= BPB && disk == old(disk) && used == old(used) && owner == old(owner)
          invariant forall c :: 0 <= c < bb + bi && c < |used| ==> used[c]
        {
          if !used[bb + bi] {
            b := bb + bi;
            assert BlockOk(State(), owner, 0) && BlockOk(State(), owner, b);
            ReserveGrown(State(), owner, b, ZERO, 0, 0);
            used := used[b := true];
            disk := disk[b := ZERO];
            owner := owner[b := Reserved];
            return b;
          }
          bi := bi + 1;
        }
        bb := bb + BPB;
      }
      b := 0;
    }
  
    /** The address in place i of inode n; allocates a block for it if there is none. */
    method RootAddr(n: nat, i: nat, ghost bn: nat) returns (addr: nat)
      requires Sound() && n < |inodes| && i < NDIRECT + 2 && i < |inodes[n].addrs| && bn < MAXBLOCKS
      requires IsIndex(Root(i)) || Root(i) == DataSlot(bn)
      modifies this
      ensures Sound() && n < |inodes| && Grown(old(State()), State(), n, bn)
      ensures KeepsOwners(old(owner), owner) && Free(used) + 1 >= Free(old(used))
      ensures addr == 0 ==> false !in used && State() == old(State()) && owner == old(owner)
      ensures addr != 0 ==> addr < |disk| && addr == Addr(disk, inodes[n], Root(i))
      ensures Addr(old(disk), old(inodes)[n], Root(i)) != 0 ==>
                addr != 0 && State() == old(State()) && owner == old(owner)
    {
      hide Owned, Grown, SameShape;
      GrownReflexive(State(), n, bn);
      addr := inodes[n].addrs[i];
      if addr == 0 {
        addr := Balloc();
        if addr == 0 {
          return;
        }
        OneLess(old(used), addr);
        SizesOf(old(State()), old(owner));
        BallocGrown(old(State()), old(owner), State(), addr, n, bn);
        Attach(State(), owner, n, Root(i), addr, bn);
        GrownTransitive(old(State()), State(), Put(State(), n, Root(i), addr), n, bn);
        inodes := inodes[n := Inode(inodes[n].addrs[i := addr], inodes[n].size)];
        owner := owner[addr := Of(n, Root(i))];
      } else {
        HasBlock(State(), owner, n, Root(i));
      }
    }

    /** The address in word j of index block a, which place p of inode n names; allocates a block
        for it if there is none. */
    method WordAddr(n: nat, a: nat, j: nat, ghost p: Slot, ghost bn: nat) returns (addr: nat)
      requires Sound() && n < |inodes| && IsIndex(p) && j < NINDIRECT && bn < MAXBLOCKS
      requires a == Addr(disk, inodes[n], p) && 0 < a < |disk|
      requires IsIndex(Under(p, j)) || Under(p, j) == DataSlot(bn)
      modifies this
      ensures Sound() && n < |inodes| && Grown(old(State()), State(), n, bn)
      ensures KeepsOwners(old(owner), owner) && Free(used) + 1 >= Free(old(used))
      ensures addr == 0 ==> false !in used && State() == old(State()) && owner == old(owner)
      ensures addr != 0 ==> addr < |disk| && addr == Addr(disk, inodes[n], Under(p, j))
      ensures Addr(old(disk), old(inodes)[n], Under(p, j)) != 0 ==>
                addr != 0 && State() == old(State()) && owner == old(owner)
    {
      hide Owned, Grown, SameShape, Word, PutWord;
      GrownReflexive(State(), n, bn);
      addr := Word(disk[a], j);
      if addr == 0 {
        HasBlock(State(), owner, n, p);
        addr := Balloc();
        if addr == 0 {
          return;
        }
        OneLess(old(used), addr);
        SizesOf(old(State()), old(owner));
        BallocGrown(old(State()), old(owner), State(), addr, n, bn);
        AddrFrame(old(State()), old(owner), addr, disk[addr], n, p);
        AddrFrame(old(State()), old(owner), addr, disk[addr], n, Under(p, j));
        Attach(State(), owner, n, Under(p, j), addr, bn);
        GrownTransitive(old(State()), State(), Put(State(), n, Under(p, j), addr), n, bn);
        disk := disk[a := PutWord(disk[a], j, addr)];
        owner := owner[addr := Of(n, Under(p, j))];
      } else {
        HasBlock(State(), owner, n, Under(p, j));
      }
    }

    /** The address of block bn of file n, allocating it and the index blocks on the way; 0 stands
        for the panic of balloc. Never changes what any file holds. */
    method Bmap(n: nat, bn0: nat) returns (addr: nat)
      requires Sound() && n < |inodes| && bn0 < MAXBLOCKS
      modifies this
      ensures Sound() && n < |inodes| && Grown(old(State()), State(), n, bn0)
      ensures KeepsOwners(old(owner), owner) && Free(used) + 3 >= Free(old(used))
      ensures addr == 0 ==> false !in used
      ensures addr != 0 ==> addr < |disk| && addr == Addr(disk, inodes[n], DataSlot(bn0))
      ensures Addr(old(disk), old(inodes)[n], DataSlot(bn0)) != 0 ==>
                addr != 0 && State() == old(State()) && owner == old(owner)
      ensures addr != 0 ==> KeptAt(disk, inodes[n].addrs, bn0, addr)
    {
      hide Owned, Grown, SameShape, Addr;
      SizesOf(State(), owner);
      if Addr(disk, inodes[n], DataSlot(bn0)) != 0 {
        ParentsOf(State(), n, DataSlot(bn0));
      }
      var bn := bn0;
      if bn < NDIRECT {
        addr := RootAddr(n, bn, bn0);
        Kept(State(), owner, n, bn0);
        return;
      }
      bn := bn - NDIRECT;
      if bn < NINDIRECT {
        addr := RootAddr(n, NDIRECT, bn0);
        if addr == 0 {
          return;
        }
        ghost var f1 := State();
        addr := WordAddr(n, addr, bn, Root(NDIRECT), bn0);
        GrownTransitive(old(State()), f1, State(), n, bn0);
        Kept(State(), owner, n, bn0);
        return;
      }
      bn := bn - NINDIRECT;
      addr := RootAddr(n, NDIRECT + 1, bn0);
      if addr == 0 {
        return;
      }
      ghost var f1 := State();
      addr := WordAddr(n, addr, bn / NINDIRECT, Root(NDIRECT + 1), bn0);
      GrownTransitive(old(State()), f1, State(), n, bn0);
      if addr == 0 {
        return;
      }
      ghost var f2 := State();
      addr := WordAddr(n, addr, bn % NINDIRECT, Under(Root(NDIRECT + 1), bn / NINDIRECT), bn0);
      GrownTransitive(old(State()), f2, State(), n, bn0);
      Kept(State(), owner, n, bn0);
    }
  
    /** Reads up to cnt bytes of file n from off on (fs.c:493-504, for files that are not devices). */
    method Readi(n: nat, off0: uint32, cnt: uint32) returns (r: int, dst: seq<byte>)
      requires Valid() && n < |inodes|
      modifies this
      ensures State() == old(State()) && owner == old(owner)
      ensures r == -1 <==> off0 > inodes[n].size || off0 + cnt >= WORD
      ensures r != -1 ==> r == (if off0 + cnt > inodes[n].size then inodes[n].size - off0 else cnt)
                          && dst == Contents(State(), n)[off0..off0 + r]
    {
      hide Owned, Filled, Contents, Grown, SameShape, Addr, DataSlot, KeepsOwners, HasAddr, KeptAt;
      assert Filled(State(), n);
      var size := inodes[n].size;
      if off0 > size || (off0 + cnt) % WORD < off0 {
        return -1, [];
      }
      var cnt' := if off0 + cnt > size then size - off0 else cnt;
      var tot, off: nat := 0, off0;
      dst := [];
      while tot < cnt'
        invariant Valid() && State() == old(State()) && owner == old(owner)
        invariant 0 <= tot <= cnt' && off == off0 + tot
        invariant dst == Contents(State(), n)[off0..off]
      {
        FileHasBlock(State(), n, off / BSIZE);
        var addr := Bmap(n, off / BSIZE);
        var m := if cnt' - tot < BSIZE - off % BSIZE then cnt' - tot else BSIZE - off % BSIZE;
        ReadChunk(State(), owner, n, off, m);
        dst := dst + disk[addr].at[off % BSIZE..off % BSIZE + m];
        tot, off := tot + m, off + m;
      }
      r := cnt';
    }
  
    /** Writes src into file n at off, growing the file if need be (fs.c:522-539). Panics only if
        the disk is full, and not if it has more than three free blocks for each block touched. */
    method Writei(n: nat, off0: uint32, src: seq<byte>) returns (panicked: bool, r: int)
      requires Valid() && n < |inodes| && |src| < WORD
      modifies this
      ensures Sound() && (panicked ==> false !in used && Free(old(used)) <= 3 * Touched(off0, off0 + |src|))
      ensures !panicked ==> Valid() && |inodes| == |old(inodes)| && KeepsOwners(old(owner), owner)
      ensures !panicked ==> (r == -1 <==> off0 > old(inodes)[n].size || off0 + |src| > MAXBYTES)
      ensures !panicked && r == -1 ==> State() == old(State()) && owner == old(owner)
      ensures !panicked && r != -1 ==> r == |src| && off0 <= |Contents(old(State()), n)|
      ensures !panicked && r != -1 ==> Contents(State(), n) == Replaced(Contents(old(State()), n), off0, src)
      ensures !panicked ==> forall n' :: 0 <= n' < |inodes| && n' != n ==>
                Contents(State(), n') == Contents(old(State()), n')
    {
      hide Owned, Filled, Contents, Grown, SameShape, Addr, DataSlot, KeepsOwners, HasAddr, FilledTo, Written;
      hide Splice, Replaced, Free, Touched, KeptAt;
      OneTurn(off0);
      assert Filled(State(), n);
      panicked := false;
      var cnt := |src|;
      SizeLimit(State(), n);
      KeepsReflexive(owner);
      if off0 > inodes[n].size || (off0 + cnt) % WORD < off0 {
        return false, -1;
      }
      if off0 + cnt > MAXBYTES {
        return false, -1;
      }
      ghost var f0 := State();
      var tot, off: nat := 0, off0;
      ghost var turns := 0;
      WrittenNothing(f0, n, off0, src);
      while tot < cnt
        invariant Sound() && 0 <= tot <= cnt && off == off0 + tot <= MAXBYTES && n < |inodes| == |f0.inodes|
        invariant Written(f0, State(), n, off0, src, tot)
        invariant FilledTo(State(), n, Max(off, f0.inodes[n].size))
        invariant KeepsOwners(old(owner), owner) && Free(used) + 3 * turns >= Free(old(used))
        invariant tot < cnt ==> turns < Touched(off0, off)
      {
        ghost var f1, owner1 := State(), owner;
        var addr := Bmap(n, off / BSIZE);
        KeepsTransitive(old(owner), owner1, owner);
        if addr == 0 {
          NoneLeft(used);
          TurnsSoFar(off0, off, off0 + cnt);
          return true, 0;
        }
        var m := if cnt - tot < BSIZE - off % BSIZE then cnt - tot else BSIZE - off % BSIZE;
        WriteStep(f0, f1, State(), owner, n, off0, src, tot, m);
        disk := disk[addr := Splice(disk[addr], off % BSIZE, src[tot..tot + m])];
        NextTurn(off0, off, m);
        turns := turns + 1;
        tot, off := tot + m, off + m;
      }
      WriteEnds(f0, old(owner), State(), owner, n, off0, src,
                Max(off, f0.inodes[n].size));
      if cnt > 0 && off > inodes[n].size {
        inodes := inodes[n := Inode(inodes[n].addrs, off)];
      }
      r := cnt;
    }
  
    /** Marks a block free; the panic for a block that is already free is a precondition. */
    method Bfree(b: nat)
      requires b < |used| && used[b]
      modifies this`used
      ensures used == old(used)[b := false]
    {
      used := used[b := false];
    }

    /** Discards the contents of file n: frees the blocks of the direct and indirect places and
        nothing else. The inode is left without blocks exactly if it had no doubly indirect block. */
    method Itrunc(n: nat)
      requires Valid() && n < |inodes|
      modifies this
      ensures Valid() && disk == old(disk) && n < |inodes| == |old(inodes)|
      ensures owner == Cleared(old(owner), n)
      ensures inodes[n].size == 0 && Contents(State(), n) == []
      ensures forall n' :: 0 <= n' < |inodes| && n' != n ==>
                inodes[n'] == old(inodes)[n'] && Contents(State(), n') == Contents(old(State()), n')
      ensures (forall b :: 0 <= b < |owner| ==> !Belongs(owner[b], n)) <==>
              Addr(old(disk), old(inodes)[n], Root(NDIRECT + 1)) == 0
    {
      hide Owned, Addr, Dropped, Cleared, Contents, Filled, ZeroTo;
      ghost var f0 := State();
      SizesOf(f0, owner);
      var i := 0;
      DroppedNone(f0, owner, n);
      ZeroStep(f0.inodes[n].addrs, 0);
      while i < NDIRECT
        invariant 0 <= i <= NDIRECT && disk == f0.disk && owner == old(owner) && used == Dropped(f0, owner, n, i, 0)
        invariant inodes == f0.inodes[n := Inode(ZeroTo(f0.inodes[n].addrs, i), f0.inodes[n].size)]
      {
        DropStep(f0, owner, n, Root(i), i, 0, i + 1, 0);
        RootAddrIs(f0, n, i);
        ZeroStep(f0.inodes[n].addrs, i);
        if inodes[n].addrs[i] != 0 {
          Bfree(inodes[n].addrs[i]);
          inodes := inodes[n := Inode(inodes[n].addrs[i := 0], inodes[n].size)];
        }
        i := i + 1;
      }
      RootAddrIs(f0, n, NDIRECT);
      ZeroStep(f0.inodes[n].addrs, NDIRECT);
      if inodes[n].addrs[NDIRECT] != 0 {
        var a := inodes[n].addrs[NDIRECT];
        HasBlock(f0, owner, n, Root(NDIRECT));
        var j := 0;
        while j < NINDIRECT
          invariant 0 <= j <= NINDIRECT && disk == f0.disk && owner == old(owner)
          invariant used == Dropped(f0, owner, n, NDIRECT, j)
          invariant inodes == f0.inodes[n := Inode(ZeroTo(f0.inodes[n].addrs, NDIRECT), f0.inodes[n].size)]
        {
          DropStep(f0, owner, n, Under(Root(NDIRECT), j), NDIRECT, j, NDIRECT, j + 1);
          WordAddrIs(f0, n, j);
          if Word(disk[a], j) != 0 {
            Bfree(Word(disk[a], j));
          }
          j := j + 1;
        }
        DropStep(f0, owner, n, Root(NDIRECT), NDIRECT, NINDIRECT, NDIRECT + 1, NINDIRECT);
        Bfree(inodes[n].addrs[NDIRECT]);
        inodes := inodes[n := Inode(inodes[n].addrs[NDIRECT := 0], inodes[n].size)];
      } else {
        NoIndirect(f0, owner, n);
      }
      inodes := inodes[n := Inode(inodes[n].addrs, 0)];
      TruncOwned(f0, owner, n);
      LeftoversIff(f0, owner, n);
      forall n': nat | n' < |inodes| && n' != n
        ensures Contents(Truncated(f0, owner, n), n') == Contents(f0, n') && Filled(Truncated(f0, owner, n), n')
      {
        TruncContents(f0, owner, n, n');
      }
      EmptyFile(Truncated(f0, owner, n), n);
      assert State() == Truncated(f0, owner, n);
      owner := Cleared(owner, n);
    }
  }

  // ----- free blocks

  function Free(used: seq<bool>): nat {
    if used == [] then 0 else Free(used[..|used| - 1]) + if used[|used| - 1] then 0 else 1
  }

  lemma {:induction false} OneLess(used: seq<bool>, b: nat)
    requires b < |used| && !used[b]
    ensures Free(used[b := true]) == Free(used) - 1
  {
    var l := |used| - 1;
    if b < l {
      OneLess(used[..l], b);
      assert used[b := true][..l] == used[..l][b := true];
    } else {
      assert used[b := true][..l] == used[..l];
    }
  }

  lemma {:induction false} NoneLeft(used: seq<bool>)
    requires false !in used
    ensures Free(used) == 0
  {
    if used != [] {
      NoneLeft(used[..|used| - 1]);
    }
  }

  lemma {:induction false} FreeFrom(used: seq<bool>, m: nat)
    requires forall b :: 0 <= b < |used| ==> used[b] == (b < m)
    ensures Free(used) == if |used| <= m then 0 else |used| - m
  {
    if used != [] {
      FreeFrom(used[..|used| - 1], m);
    }
  }

  /** How many blocks the bytes from off to end are in, or one more. */
  function Touched(off: nat, end: nat): (n: nat)
    requires off <= end
    ensures n > 0
  {
    end / BSIZE - off / BSIZE + 1
  }

  lemma OneTurn(off: nat)
    ensures Touched(off, off) == 1
  {
  }

  lemma NextTurn(off0: nat, off: nat, m: nat)
    requires off0 <= off && off % BSIZE + m <= BSIZE
    ensures off % BSIZE + m == BSIZE ==> Touched(off0, off + m) == Touched(off0, off) + 1
  {
  }

  lemma TurnsSoFar(off0: nat, off: nat, end: nat)
    requires off0 <= off <= end
    ensures Touched(off0, off) <= Touched(off0, end)
  {
  }

  const EMPTY: Inode := Inode(seq(NDIRECT + 2, _ => 0), 0)

  lemma FreshValid(f: Fs, owner: seq<Owner>)
    requires 0 < |f.disk| == |owner| == |f.used| <= WORD && owner[0] == Meta
    requires forall b :: 0 <= b < |owner| ==> (owner[b] == Meta && f.used[b]) || (owner[b] == Nobody && !f.used[b])
    requires forall b :: 0 <= b < |f.disk| ==> Blank(f.disk[b])
    requires forall n :: 0 <= n < |f.inodes| ==> f.inodes[n] == EMPTY
    ensures Owned(f, owner) && Reserved !in owner && forall n: nat :: n < |f.inodes| ==> Filled(f, n)
  {
    forall n: nat, s: Slot
      ensures SlotOk(f, owner, n, s)
    {
      if n < |f.inodes| && Real(s) {
        NoAddress(f.disk, s);
      }
    }
  }

  lemma {:induction false} NoAddress(disk: seq<Block>, s: Slot)
    ensures Addr(disk, EMPTY, s) == 0
  {
    if s.Under? {
      NoAddress(disk, s.p);
    }
  }

  /** Blocks that have a purpose keep it, and blocks that get one are put into a place. */
  ghost predicate KeepsOwners(owner: seq<Owner>, owner': seq<Owner>) {
    && |owner'| == |owner|
    && (forall b :: 0 <= b < |owner| && owner[b] != Nobody ==> owner'[b] == owner[b])
    && (forall b :: 0 <= b < |owner| && owner[b] == Nobody ==> owner'[b] == Nobody || owner'[b].Of?)
  }

  /** An address under an index block needs the index block. */
  lemma ParentsOf(f: Fs, n: nat, s: Slot)
    requires n < |f.inodes| && Addr(f.disk, f.inodes[n], s) != 0
    ensures s.Under? ==> Addr(f.disk, f.inodes[n], s.p) != 0
    ensures s.Under? && s.p.Under? ==> Addr(f.disk, f.inodes[n], s.p.p) != 0
  {
  }

  lemma GrownReflexive(f: Fs, n: nat, bn: nat)
    ensures Grown(f, f, n, bn)
  {
  }

  lemma SizesOf(f: Fs, owner: seq<Owner>)
    requires Owned(f, owner)
    ensures 0 < |f.disk| == |owner| == |f.used| <= WORD
    ensures forall n: nat :: n < |f.inodes| ==> |f.inodes[n].addrs| == NDIRECT + 2
  {
  }

  lemma HasBlock(f: Fs, owner: seq<Owner>, n: nat, s: Slot)
    requires Owned(f, owner) && n < |f.inodes| && Real(s) && Addr(f.disk, f.inodes[n], s) != 0
    ensures Addr(f.disk, f.inodes[n], s) < |f.disk| == |owner| && owner[Addr(f.disk, f.inodes[n], s)] == Of(n, s)
  {
    assert SlotOk(f, owner, n, s);
  }

  lemma BallocGrown(f: Fs, owner: seq<Owner>, f': Fs, b: nat, n: nat, bn: nat)
    requires Owned(f, owner) && 0 < b < |f.disk| && |f'.disk| == |f.disk| == |f.used| && !f.used[b]
    requires f' == Fs(f.disk[b := f'.disk[b]], f.used[b := true], f.inodes)
    ensures Grown(f, f', n, bn) && b < |owner| && owner[b] == Nobody
  {
    assert BlockOk(f, owner, b);
    ReserveGrown(f, owner, b, f'.disk[b], n, bn);
  }

  lemma Attach(f: Fs, owner: seq<Owner>, n: nat, s: Slot, b: nat, bn: nat)
    requires Owned(f, owner) && CanPut(f, owner, n, s, b) && bn < MAXBLOCKS && (IsIndex(s) || s == DataSlot(bn))
    ensures b < WORD
    ensures |f.inodes[n].addrs| == NDIRECT + 2 && (s.Under? ==> Addr(f.disk, f.inodes[n], s.p) < |f.disk|)
    ensures Grown(f, Put(f, n, s, b), n, bn) && Owned(Put(f, n, s, b), owner[b := Of(n, s)])
    ensures Addr(Put(f, n, s, b).disk, Put(f, n, s, b).inodes[n], s) == b
  {
    PutGrown(f, owner, n, s, b, bn);
    PutOwned(f, owner, n, s, b);
    PutAddr(f, owner, n, s, b, n, s);
  }

  /** Every block below the size has an address. */
  ghost predicate Filled(f: Fs, n: nat) {
    n < |f.inodes| && f.inodes[n].size <= MAXBYTES
    && forall bn: nat :: bn < MAXBLOCKS && bn * BSIZE < f.inodes[n].size ==> HasAddr(f, n, bn)
  }

  predicate HasAddr(f: Fs, n: nat, bn: nat)
    requires n < |f.inodes| && bn < MAXBLOCKS
  {
    Addr(f.disk, f.inodes[n], DataSlot(bn)) != 0
  }

  lemma FileHasBlock(f: Fs, n: nat, bn: nat)
    requires Filled(f, n) && bn * BSIZE < f.inodes[n].size
    ensures bn < MAXBLOCKS && HasAddr(f, n, bn) && Addr(f.disk, f.inodes[n], DataSlot(bn)) != 0
  {
  }

  lemma ReadChunk(f: Fs, owner: seq<Owner>, n: nat, off: nat, m: nat)
    requires Owned(f, owner) && Filled(f, n) && off + m <= f.inodes[n].size && off < f.inodes[n].size
    requires off % BSIZE + m <= BSIZE
    ensures var a := Addr(f.disk, f.inodes[n], DataSlot(off / BSIZE));
            a < |f.disk| && f.disk[a].at[off % BSIZE..off % BSIZE + m] == Contents(f, n)[off..off + m]
  {
    FileHasBlock(f, n, off / BSIZE);
    HasBlock(f, owner, n, DataSlot(off / BSIZE));
    var a := Addr(f.disk, f.inodes[n], DataSlot(off / BSIZE));
    var c, d := f.disk[a].at[off % BSIZE..off % BSIZE + m], Contents(f, n)[off..off + m];
    forall i: nat | i < m
      ensures c[i] == d[i]
    {
      SameChunk(off, i);
    }
  }

  lemma SameChunk(off: nat, i: nat)
    requires off % BSIZE + i < BSIZE
    ensures (off + i) / BSIZE == off / BSIZE && (off + i) % BSIZE == off % BSIZE + i
  {
  }

  // ----- writing

  /** Some bytes of a block overwritten. */
  function Splice(b: Block, x: nat, s: seq<byte>): (r: Block)
    requires x + |s| <= BSIZE
    ensures forall i :: 0 <= i < BSIZE ==> r.at[i] == if x <= i < x + |s| then s[i - x] else b.at[i]
  {
    Bytes(b.at[..x] + s + b.at[x + |s|..])
  }

  /** A file after src has been written at off. */
  function Replaced(c: seq<byte>, off: nat, src: seq<byte>): seq<byte>
    requires off <= |c|
  {
    c[..off] + src + if off + |src| < |c| then c[off + |src|..] else []
  }

  lemma ReplacedAt(c: seq<byte>, off: nat, src: seq<byte>, i: nat)
    requires off <= |c|
    ensures |Replaced(c, off, src)| == if off + |src| > |c| then off + |src| else |c|
    ensures i < |Replaced(c, off, src)| ==>
              Replaced(c, off, src)[i] == if off <= i < off + |src| then src[i - off] else c[i]
  {
  }

  function Max(a: nat, b: nat): nat {
    if a > b then a else b
  }

  ghost predicate FilledTo(f: Fs, n: nat, lim: nat)
    requires n < |f.inodes|
  {
    forall bn: nat :: bn < MAXBLOCKS && bn * BSIZE < lim ==> HasAddr(f, n, bn)
  }

  predicate WrittenCell(f0: Fs, f: Fs, n: nat, off: nat, src: seq<byte>, k: nat, n': nat, bn: nat, x: nat) {
    n' < |f0.inodes| && n' < |f.inodes| && bn < MAXBLOCKS && x < BSIZE && k <= |src| ==>
      Cell(f, n', bn, x) == if n' == n && off <= bn * BSIZE + x < off + k then src[bn * BSIZE + x - off]
                            else Cell(f0, n', bn, x)
  }

  predicate KeepsAddr(f0: Fs, f: Fs, n: nat, bn: nat) {
    n < |f0.inodes| && n < |f.inodes| && bn < MAXBLOCKS && HasAddr(f0, n, bn) ==> HasAddr(f, n, bn)
  }

  /** The first k bytes of src have been written at off into file n, and nothing else. */
  ghost predicate Written(f0: Fs, f: Fs, n: nat, off: nat, src: seq<byte>, k: nat) {
    && SameShape(f0, f)
    && (forall n': nat, bn: nat, x: nat :: WrittenCell(f0, f, n, off, src, k, n', bn, x))
    && (forall n': nat, bn: nat :: KeepsAddr(f0, f, n', bn))
  }

  lemma WrittenNothing(f: Fs, n: nat, off: nat, src: seq<byte>)
    ensures Written(f, f, n, off, src, 0)
    ensures n < |f.inodes| && Filled(f, n) ==> FilledTo(f, n, f.inodes[n].size)
  {
  }

  lemma SizeLimit(f: Fs, n: nat)
    requires Filled(f, n)
    ensures f.inodes[n].size <= MAXBYTES
  {
  }

  lemma KeepsReflexive(owner: seq<Owner>)
    ensures KeepsOwners(owner, owner)
  {
  }

  lemma KeepsTransitive(a: seq<Owner>, b: seq<Owner>, c: seq<Owner>)
    requires KeepsOwners(a, b) && KeepsOwners(b, c)
    ensures KeepsOwners(a, c)
  {
  }

  /** Overwriting part of a block of file data changes those bytes of that file and nothing else. */
  lemma ChunkCell(f: Fs, owner: seq<Owner>, n: nat, bn: nat, x: nat, s: seq<byte>, n': nat, bn': nat, y: nat)
    requires Owned(f, owner) && n < |f.inodes| && bn < MAXBLOCKS && HasAddr(f, n, bn) && x + |s| <= BSIZE
    requires n' < |f.inodes| && bn' < MAXBLOCKS && y < BSIZE
    ensures Addr(f.disk, f.inodes[n], DataSlot(bn)) < |f.disk|
    ensures var a := Addr(f.disk, f.inodes[n], DataSlot(bn));
            Cell(Overwrite(f, a, Splice(f.disk[a], x, s)), n', bn', y)
            == if n' == n && bn' == bn && x <= y < x + |s| then s[y - x] else Cell(f, n', bn', y)
    ensures var a := Addr(f.disk, f.inodes[n], DataSlot(bn));
            HasAddr(Overwrite(f, a, Splice(f.disk[a], x, s)), n', bn') == HasAddr(f, n', bn')
  {
    HasBlock(f, owner, n, DataSlot(bn));
    var a := Addr(f.disk, f.inodes[n], DataSlot(bn));
    AddrFrame(f, owner, a, Splice(f.disk[a], x, s), n', DataSlot(bn'));
    assert SlotOk(f, owner, n', DataSlot(bn'));
    if n == n' && DataSlot(bn) == DataSlot(bn') {
      DataSlotInjective(bn, bn');
    }
  }

  lemma WriteStep(f0: Fs, f: Fs, g: Fs, owner: seq<Owner>, n: nat, off0: nat, src: seq<byte>, tot: nat, m: nat)
    requires Owned(g, owner) && Written(f0, f, n, off0, src, tot) && n < |f0.inodes|
    requires 0 < m && tot + m <= |src| && off0 + tot < MAXBYTES && (off0 + tot) % BSIZE + m <= BSIZE
    requires Grown(f, g, n, (off0 + tot) / BSIZE) && n < |f.inodes| && n < |g.inodes|
    requires HasAddr(g, n, (off0 + tot) / BSIZE)
    requires FilledTo(f, n, Max(off0 + tot, f0.inodes[n].size))
    ensures var off, a := off0 + tot, Addr(g.disk, g.inodes[n], DataSlot((off0 + tot) / BSIZE));
            && a < |g.disk|
            && var h := Overwrite(g, a, Splice(g.disk[a], off % BSIZE, src[tot..tot + m]));
            |h.inodes| == |f0.inodes| && Owned(h, owner) && Written(f0, h, n, off0, src, tot + m)
            && FilledTo(h, n, Max(off + m, f0.inodes[n].size))
  {
    var off, bn := off0 + tot, (off0 + tot) / BSIZE;
    var s := src[tot..tot + m];
    HasBlock(g, owner, n, DataSlot(bn));
    var a := Addr(g.disk, g.inodes[n], DataSlot(bn));
    var h := Overwrite(g, a, Splice(g.disk[a], off % BSIZE, s));
    OverwriteOwned(g, owner, a, Splice(g.disk[a], off % BSIZE, s));
    var k := tot + m;
    forall n': nat, bn': nat, x: nat
      ensures WrittenCell(f0, h, n, off0, src, k, n', bn', x)
    {
      assert WrittenCell(f0, f, n, off0, src, tot, n', bn', x) && SameCell(f, g, n', bn', x);
      if n' < |f0.inodes| && bn' < MAXBLOCKS && x < BSIZE {
        ChunkCell(g, owner, n, bn, off % BSIZE, s, n', bn', x);
      }
    }
    forall n': nat, bn': nat
      ensures KeepsAddr(f0, h, n', bn')
    {
      assert KeepsAddr(f0, f, n', bn');
      StepKeepsAddr(f, g, owner, n, bn, off % BSIZE, s, n', bn');
    }
    forall bn': nat | bn' < MAXBLOCKS && bn' * BSIZE < Max(off + m, f0.inodes[n].size)
      ensures HasAddr(h, n, bn')
    {
      StepKeepsAddr(f, g, owner, n, bn, off % BSIZE, s, n, bn');
      ChunkCell(g, owner, n, bn, off % BSIZE, s, n, bn', 0);
    }
  }

  lemma StepKeepsAddr(f: Fs, g: Fs, owner: seq<Owner>, n: nat, bn: nat, x: nat, s: seq<byte>, n': nat, bn': nat)
    requires Owned(g, owner) && Grown(f, g, n, bn) && n < |f.inodes| && bn < MAXBLOCKS
    requires n < |g.inodes| && HasAddr(g, n, bn) && x + |s| <= BSIZE
    ensures Addr(g.disk, g.inodes[n], DataSlot(bn)) < |g.disk|
    ensures KeepsAddr(f, Overwrite(g, Addr(g.disk, g.inodes[n], DataSlot(bn)),
                                   Splice(g.disk[Addr(g.disk, g.inodes[n], DataSlot(bn))], x, s)), n', bn')
  {
    HasBlock(g, owner, n, DataSlot(bn));
    if n' < |f.inodes| && bn' < MAXBLOCKS {
      assert Stable(f, g, n, bn, n', DataSlot(bn'));
      ChunkCell(g, owner, n, bn, x, s, n', bn', 0);
    }
  }

  function Resized(f: Fs, n: nat, size: nat): (f': Fs)
    requires n < |f.inodes|
    ensures |f'.inodes| == |f.inodes|
  {
    Fs(f.disk, f.used, f.inodes[n := Inode(f.inodes[n].addrs, size)])
  }

  lemma {:induction false} AddrOfAddrs(disk: seq<Block>, x: Inode, y: Inode, s: Slot)
    requires x.addrs == y.addrs
    ensures Addr(disk, x, s) == Addr(disk, y, s)
  {
    if s.Under? {
      AddrOfAddrs(disk, x, y, s.p);
    }
  }

  lemma ResizeSame(f: Fs, n: nat, size: nat, n': nat, s: Slot)
    requires n < |f.inodes| && n' < |f.inodes|
    ensures Addr(Resized(f, n, size).disk, Resized(f, n, size).inodes[n'], s) == Addr(f.disk, f.inodes[n'], s)
  {
    AddrOfAddrs(f.disk, Resized(f, n, size).inodes[n'], f.inodes[n'], s);
  }

  lemma ResizeOwned(f: Fs, owner: seq<Owner>, n: nat, size: nat)
    requires Owned(f, owner) && n < |f.inodes|
    ensures Owned(Resized(f, n, size), owner)
  {
    var f' := Resized(f, n, size);
    forall n': nat, s: Slot
      ensures SlotOk(f', owner, n', s)
    {
      assert SlotOk(f, owner, n', s);
      if n' < |f.inodes| {
        ResizeSame(f, n, size, n', s);
      }
    }
    forall b: nat
      ensures BlockOk(f', owner, b)
    {
      assert BlockOk(f, owner, b);
      if b < |f.disk| && owner[b].Of? {
        ResizeSame(f, n, size, owner[b].n, owner[b].s);
      }
    }
  }

  lemma NoneReserved(owner: seq<Owner>, owner': seq<Owner>)
    requires KeepsOwners(owner, owner') && Reserved !in owner
    ensures Reserved !in owner'
  {
  }

  /** A written file with its new size, and the other files, hold what they should. */
  lemma WrittenContents(f0: Fs, f: Fs, n: nat, off: nat, src: seq<byte>, size: nat, n': nat)
    requires Written(f0, f, n, off, src, |src|) && n < |f.inodes| && n' < |f.inodes|
    requires off <= f0.inodes[n].size <= MAXBYTES && off + |src| <= MAXBYTES && f0.inodes[n'].size <= MAXBYTES
    requires size == Max(off + |src|, f0.inodes[n].size)
    ensures n == n' ==> Contents(Resized(f, n, size), n') == Replaced(Contents(f0, n'), off, src)
    ensures n != n' ==> Contents(Resized(f, n, size), n') == Contents(f0, n')
  {
    hide Cell, Addr, DataSlot;
    var f' := Resized(f, n, size);
    var c, c' := Contents(f0, n'), Contents(f', n');
    forall i: nat | i < |c'|
      ensures n == n' && off <= i < off + |src| ==> c'[i] == src[i - off]
      ensures !(n == n' && off <= i < off + |src|) ==> i < |c| && c'[i] == c[i]
    {
      WrittenByte(f0, f, n, off, src, size, n', i);
    }
  }

  lemma WrittenByte(f0: Fs, f: Fs, n: nat, off: nat, src: seq<byte>, size: nat, n': nat, i: nat)
    requires Written(f0, f, n, off, src, |src|) && n < |f.inodes| && n' < |f.inodes|
    requires i < Resized(f, n, size).inodes[n'].size <= MAXBYTES
    ensures n == n' && off <= i < off + |src| ==> Contents(Resized(f, n, size), n')[i] == src[i - off]
    ensures !(n == n' && off <= i < off + |src|) && i < f0.inodes[n'].size ==>
              Contents(Resized(f, n, size), n')[i] == Contents(f0, n')[i]
  {
    hide DataSlot;
    assert i / BSIZE < MAXBLOCKS && i / BSIZE * BSIZE + i % BSIZE == i;
    ResizeSame(f, n, size, n', DataSlot(i / BSIZE));
    assert WrittenCell(f0, f, n, off, src, |src|, n', i / BSIZE, i % BSIZE);
  }

  lemma WrittenFilled(f0: Fs, f: Fs, n: nat, off: nat, src: seq<byte>, size: nat, n': nat)
    requires Written(f0, f, n, off, src, |src|) && n < |f.inodes| && n' < |f.inodes| && Filled(f0, n')
    requires off + |src| <= MAXBYTES && FilledTo(f, n, size)
    requires size == Max(off + |src|, f0.inodes[n].size)
    ensures Filled(Resized(f, n, size), n')
  {
    var f' := Resized(f, n, size);
    forall bn: nat | bn < MAXBLOCKS && bn * BSIZE < f'.inodes[n'].size
      ensures HasAddr(f', n', bn)
    {
      ResizeSame(f, n, size, n', DataSlot(bn));
      assert KeepsAddr(f0, f, n', bn);
      if n == n' {
        assert HasAddr(f, n, bn);
      }
    }
  }

  lemma WriteEnds(f0: Fs, owner0: seq<Owner>, f: Fs, owner: seq<Owner>, n: nat, off: nat, src: seq<byte>, size: nat)
    requires Owned(f, owner) && Written(f0, f, n, off, src, |src|) && n < |f0.inodes| == |f.inodes|
    requires forall n': nat :: n' < |f0.inodes| ==> Filled(f0, n')
    requires KeepsOwners(owner0, owner) && Reserved !in owner0
    requires off <= f0.inodes[n].size && off + |src| <= MAXBYTES && FilledTo(f, n, size)
    requires size == Max(off + |src|, f0.inodes[n].size)
    ensures Owned(Resized(f, n, size), owner) && Reserved !in owner
    ensures forall n': nat :: n' < |f0.inodes| ==> Filled(Resized(f, n, size), n')
    ensures Contents(Resized(f, n, size), n) == Replaced(Contents(f0, n), off, src)
    ensures forall n': nat :: n' < |f0.inodes| && n' != n ==> Contents(Resized(f, n, size), n') == Contents(f0, n')
    ensures f.inodes[n].size == f0.inodes[n].size
    ensures size == f0.inodes[n].size ==> Resized(f, n, size) == f
  {
    hide Owned, Contents, Filled, FilledTo, KeepsOwners, Replaced;
    ResizeOwned(f, owner, n, size);
    NoneReserved(owner0, owner);
    forall n': nat | n' < |f0.inodes|
      ensures Filled(Resized(f, n, size), n')
      ensures n == n' ==> Contents(Resized(f, n, size), n') == Replaced(Contents(f0, n'), off, src)
      ensures n != n' ==> Contents(Resized(f, n, size), n') == Contents(f0, n')
    {
      SizeLimit(f0, n');
      SizeLimit(f0, n);
      WrittenFilled(f0, f, n, off, src, size, n');
      WrittenContents(f0, f, n, off, src, size, n');
    }
  }

  // ----- truncating

  predicate Belongs(o: Owner, n: nat) {
    o.Of? && o.n == n
  }

  /** The places that itrunc clears. */
  predicate Shallow(s: Slot) {
    match s
    case Root(i) => i <= NDIRECT
    case Under(p, j) => p == Root(NDIRECT)
  }

  /** The places among them that come before direct place i, or before word j of the indirect block. */
  predicate Before(s: Slot, i: nat, j: nat) {
    match s
    case Root(k) => k < i
    case Under(p, k) => p == Root(NDIRECT) && k < j
  }

  function Cleared(owner: seq<Owner>, n: nat): (r: seq<Owner>)
    ensures |r| == |owner|
  {
    seq(|owner|, b requires 0 <= b < |owner| =>
      if Belongs(owner[b], n) && Shallow(owner[b].s) then Nobody else owner[b])
  }

  /** The free map after the blocks of the places before i and j have been freed. */
  function Dropped(f: Fs, owner: seq<Owner>, n: nat, i: nat, j: nat): (r: seq<bool>)
    requires |owner| == |f.used|
    ensures |r| == |f.used|
  {
    seq(|f.used|, b requires 0 <= b < |f.used| =>
      f.used[b] && !(Belongs(owner[b], n) && Before(owner[b].s, i, j)))
  }

  function ZeroTo(addrs: seq<uint32>, i: nat): (r: seq<uint32>)
    requires i <= |addrs|
    ensures |r| == |addrs|
  {
    seq(|addrs|, k requires 0 <= k < |addrs| => if k < i then 0 else addrs[k])
  }

  function Truncated(f: Fs, owner: seq<Owner>, n: nat): (f': Fs)
    requires n < |f.inodes| && |f.inodes[n].addrs| == NDIRECT + 2 && |owner| == |f.used|
    ensures |f'.inodes| == |f.inodes|
  {
    Fs(f.disk, Dropped(f, owner, n, NDIRECT + 1, NINDIRECT),
       f.inodes[n := Inode(ZeroTo(f.inodes[n].addrs, NDIRECT + 1), 0)])
  }

  lemma DroppedNone(f: Fs, owner: seq<Owner>, n: nat)
    requires |owner| == |f.used|
    ensures Dropped(f, owner, n, 0, 0) == f.used
  {
  }

  lemma ZeroStep(addrs: seq<uint32>, i: nat)
    requires i < |addrs|
    ensures ZeroTo(addrs, 0) == addrs
    ensures ZeroTo(addrs, i)[i] == addrs[i] && ZeroTo(addrs, i + 1) == ZeroTo(addrs, i)[i := 0]
    ensures addrs[i] == 0 ==> ZeroTo(addrs, i + 1) == ZeroTo(addrs, i)
  {
  }

  lemma RootAddrIs(f: Fs, n: nat, i: nat)
    requires n < |f.inodes| && i < |f.inodes[n].addrs|
    ensures Addr(f.disk, f.inodes[n], Root(i)) == f.inodes[n].addrs[i]
  {
  }

  lemma WordAddrIs(f: Fs, n: nat, j: nat)
    requires n < |f.inodes| && j < WORDS
    requires 0 < Addr(f.disk, f.inodes[n], Root(NDIRECT)) < |f.disk|
    ensures Addr(f.disk, f.inodes[n], Under(Root(NDIRECT), j))
            == Word(f.disk[Addr(f.disk, f.inodes[n], Root(NDIRECT))], j)
  {
  }

  /** Freeing the block of the next place, which is still marked used. */
  lemma DropStep(f: Fs, owner: seq<Owner>, n: nat, s: Slot, i: nat, j: nat, i': nat, j': nat)
    requires Owned(f, owner) && n < |f.inodes| && Real(s) && !Before(s, i, j)
    requires forall t :: Real(t) ==> (Before(t, i', j') <==> Before(t, i, j) || t == s)
    ensures |owner| == |f.used|
    ensures var a := Addr(f.disk, f.inodes[n], s);
            if a == 0 then Dropped(f, owner, n, i', j') == Dropped(f, owner, n, i, j)
            else a < |f.used| && Dropped(f, owner, n, i, j)[a]
                 && Dropped(f, owner, n, i', j') == Dropped(f, owner, n, i, j)[a := false]
  {
    var a := Addr(f.disk, f.inodes[n], s);
    assert SlotOk(f, owner, n, s);
    assert BlockOk(f, owner, a);
    forall b: nat | b < |f.used| && b != a
      ensures Dropped(f, owner, n, i', j')[b] == Dropped(f, owner, n, i, j)[b]
    {
      assert BlockOk(f, owner, b);
    }
  }

  lemma NoIndirect(f: Fs, owner: seq<Owner>, n: nat)
    requires Owned(f, owner) && n < |f.inodes| && Addr(f.disk, f.inodes[n], Root(NDIRECT)) == 0
    ensures |owner| == |f.used| && |f.inodes[n].addrs| == NDIRECT + 2
    ensures Dropped(f, owner, n, NDIRECT + 1, NINDIRECT) == Dropped(f, owner, n, NDIRECT, 0)
    ensures ZeroTo(f.inodes[n].addrs, NDIRECT + 1) == ZeroTo(f.inodes[n].addrs, NDIRECT)
  {
    forall b: nat | b < |f.used|
      ensures Dropped(f, owner, n, NDIRECT + 1, NINDIRECT)[b] == Dropped(f, owner, n, NDIRECT, 0)[b]
    {
      assert BlockOk(f, owner, b);
    }
  }

  lemma {:induction false} TruncAddr(f: Fs, owner: seq<Owner>, n: nat, n': nat, s: Slot)
    requires Owned(f, owner) && n < |f.inodes| && n' < |f.inodes| && Real(s)
    ensures |f.inodes[n].addrs| == NDIRECT + 2 && |owner| == |f.used|
    ensures Addr(Truncated(f, owner, n).disk, Truncated(f, owner, n).inodes[n'], s)
            == if n' == n && Shallow(s) then 0 else Addr(f.disk, f.inodes[n'], s)
  {
    if s.Under? {
      TruncAddr(f, owner, n, n', s.p);
    }
  }

  lemma TruncOwned(f: Fs, owner: seq<Owner>, n: nat)
    requires Owned(f, owner) && n < |f.inodes|
    ensures |f.inodes[n].addrs| == NDIRECT + 2 && |owner| == |f.used|
    ensures Owned(Truncated(f, owner, n), Cleared(owner, n))
    ensures Reserved !in owner ==> Reserved !in Cleared(owner, n)
  {
    var f', owner' := Truncated(f, owner, n), Cleared(owner, n);
    forall n': nat, s: Slot
      ensures SlotOk(f', owner', n', s)
    {
      assert SlotOk(f, owner, n', s);
      if n' < |f.inodes| && Real(s) {
        TruncAddr(f, owner, n, n', s);
      }
    }
    forall b: nat
      ensures BlockOk(f', owner', b)
    {
      assert BlockOk(f, owner, b);
      if b < |f.disk| && owner[b].Of? {
        TruncAddr(f, owner, n, owner[b].n, owner[b].s);
      }
    }
  }

  lemma TruncContents(f: Fs, owner: seq<Owner>, n: nat, n': nat)
    requires Owned(f, owner) && n < |f.inodes| && n' < |f.inodes| && n' != n
    ensures |f.inodes[n].addrs| == NDIRECT + 2 && |owner| == |f.used|
    ensures Contents(Truncated(f, owner, n), n') == Contents(f, n')
    ensures Filled(f, n') ==> Filled(Truncated(f, owner, n), n')
  {
    TruncAddr(f, owner, n, n', Root(0));
    var f' := Truncated(f, owner, n);
    forall bn: nat | bn < MAXBLOCKS
      ensures HasAddr(f', n', bn) == HasAddr(f, n', bn)
      ensures forall x: nat :: x < BSIZE ==> Cell(f', n', bn, x) == Cell(f, n', bn, x)
    {
      TruncAddr(f, owner, n, n', DataSlot(bn));
    }
  }

  lemma EmptyFile(f: Fs, n: nat)
    requires n < |f.inodes| && f.inodes[n].size == 0
    ensures Contents(f, n) == [] && Filled(f, n)
  {
  }

  // ----- where a file's bytes are on the disk

  /** The address of a file block is in the inode, in the block that the twelfth address names, or in a
      block that is named in the block of the thirteenth. */
  lemma WhereBlockIs(f: Fs, owner: seq<Owner>, n: nat, bn: nat)
    requires Owned(f, owner) && n < |f.inodes| && bn < MAXBLOCKS
    ensures |f.inodes[n].addrs| == NDIRECT + 2
    ensures bn < NDIRECT ==> Addr(f.disk, f.inodes[n], DataSlot(bn)) == f.inodes[n].addrs[bn]
    ensures NDIRECT <= bn < NDIRECT + NINDIRECT && Addr(f.disk, f.inodes[n], DataSlot(bn)) != 0 ==>
              var i := f.inodes[n].addrs[NDIRECT];
              0 < i < |f.disk| && Addr(f.disk, f.inodes[n], DataSlot(bn)) == Word(f.disk[i], bn - NDIRECT)
    ensures NDIRECT + NINDIRECT <= bn && Addr(f.disk, f.inodes[n], DataSlot(bn)) != 0 ==>
              var i, m := f.inodes[n].addrs[NDIRECT + 1], bn - NDIRECT - NINDIRECT;
              && 0 < i < |f.disk| && m / NINDIRECT < WORDS && 0 < Word(f.disk[i], m / NINDIRECT) < |f.disk|
              && Addr(f.disk, f.inodes[n], DataSlot(bn)) == Word(f.disk[Word(f.disk[i], m / NINDIRECT)], m % NINDIRECT)
  {
    hide Word, Owned, Addr;
    SizesOf(f, owner);
    if bn < NDIRECT {
      RootAddrIs(f, n, bn);
    } else if Addr(f.disk, f.inodes[n], DataSlot(bn)) != 0 {
      ChildIs(f, n, DataSlot(bn).p, DataSlot(bn).j);
      if bn < NDIRECT + NINDIRECT {
        RootAddrIs(f, n, NDIRECT);
      } else {
        RootAddrIs(f, n, NDIRECT + 1);
        ChildIs(f, n, Root(NDIRECT + 1), (bn - NDIRECT - NINDIRECT) / NINDIRECT);
      }
    }
  }

  /** The byte at off of a file, found on the disk from the inode. */
  lemma WhereByteIs(f: Fs, owner: seq<Owner>, n: nat, off: nat) returns (b: nat)
    requires Owned(f, owner) && n < |f.inodes| && Filled(f, n) && off < f.inodes[n].size
    ensures 0 < b < |f.disk| && KeptAt(f.disk, f.inodes[n].addrs, off / BSIZE, b)
    ensures Contents(f, n)[off] == f.disk[b].at[off % BSIZE]
  {
    hide Owned, Addr, Filled, DataSlot, KeptAt;
    FileHasBlock(f, n, off / BSIZE);
    Kept(f, owner, n, off / BSIZE);
    HasBlock(f, owner, n, DataSlot(off / BSIZE));
    b := Addr(f.disk, f.inodes[n], DataSlot(off / BSIZE));
  }

  lemma ChildIs(f: Fs, n: nat, p: Slot, j: nat)
    requires n < |f.inodes| && Addr(f.disk, f.inodes[n], Under(p, j)) != 0
    ensures 0 < Addr(f.disk, f.inodes[n], p) < |f.disk| && j < WORDS
    ensures Addr(f.disk, f.inodes[n], Under(p, j)) == Word(f.disk[Addr(f.disk, f.inodes[n], p)], j)
  {
  }

  /** After truncation some block still belongs to the inode exactly if it had a doubly indirect block. */
  lemma LeftoversIff(f: Fs, owner: seq<Owner>, n: nat)
    requires Owned(f, owner) && n < |f.inodes|
    ensures (forall b :: 0 <= b < |owner| ==> !Belongs(Cleared(owner, n)[b], n)) <==>
            Addr(f.disk, f.inodes[n], Root(NDIRECT + 1)) == 0
  {
    var a := Addr(f.disk, f.inodes[n], Root(NDIRECT + 1));
    if a != 0 {
      assert SlotOk(f, owner, n, Root(NDIRECT + 1));
      assert Belongs(Cleared(owner, n)[a], n);
    } else {
      forall b: nat | b < |owner|
        ensures !Belongs(Cleared(owner, n)[b], n)
      {
        assert BlockOk(f, owner, b);
        if Belongs(owner[b], n) {
          ParentsOf(f, n, owner[b].s);
        }
      }
    }
  }

  /** On a fresh disk with room enough, a file with one block beyond the direct and indirect ones is
      written and truncated: it is empty, and blocks are left that nobody will free. */
  method LosesBlocks(size: nat, nmeta: nat, ninodes: nat, n: nat, src: seq<byte>) returns (fs: FileSystem)
    requires 1 <= nmeta && n < ninodes && |src| == (NDIRECT + NINDIRECT + 1) * BSIZE
    requires nmeta + 3 * (NDIRECT + NINDIRECT + 2) < size <= WORD
    ensures fs.Valid() && n < |fs.inodes| && Contents(fs.State(), n) == []
    ensures exists b :: 0 <= b < |fs.owner| && Belongs(fs.owner[b], n)
  {
    hide Owned, Filled, Addr, Contents, Free;
    fs := new FileSystem(size, nmeta, ninodes);
    FreeFrom(fs.used, nmeta);
    var panicked, r := fs.Writei(n, 0, src);
    assert !panicked && r == |src|;
    FileHasBlock(fs.State(), n, NDIRECT + NINDIRECT);
    ParentsOf(fs.State(), n, DataSlot(NDIRECT + NINDIRECT));
    fs.Itrunc(n);
  }
}
