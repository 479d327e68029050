/** The buffer cache of bio.c over the memory disk of memide.c.  A buffer is named by its
    index; index nbuf is the list head.  The prev/next links form one ring through the head,
    most recently released buffer first. */
module BufferCache {
  import opened Basics
  import opened Blocks
  import opened LogImage

  datatype Buf = Buf(dev: nat, blockno: nat, valid: bool, dirty: bool, locked: bool,
                     refcnt: nat, data: Block)

  const ROOTDEV := 1

  // ----- the ring, as link tables

  /** Position i of the circle: the head stands at -1 and again at |ring|. */
  function At(ring: seq<nat>, h: nat, i: int): nat {
    if 0 <= i < |ring| then ring[i] else h
  }

  /** The tables link `ring` into a circle through the head, whose index is h. */
  ghost predicate Linked(next: seq<nat>, prev: seq<nat>, h: nat, ring: seq<nat>) {
    && |next| == |prev| == h + 1
    && (forall i :: 0 <= i < |ring| ==> ring[i] < h)
    && Distinct(ring)
    && (forall i {:trigger next[At(ring, h, i)]} :: -1 <= i < |ring| ==> next[At(ring, h, i)] == At(ring, h, i + 1))
    && (forall i {:trigger prev[At(ring, h, i)]} :: 0 <= i <= |ring| ==> prev[At(ring, h, i)] == At(ring, h, i - 1))
  }

  function Without(ring: seq<nat>, k: nat): (r: seq<nat>)
    requires k < |ring|
    ensures |r| == |ring| - 1
    ensures forall i :: 0 <= i < |r| ==> r[i] == ring[if i < k then i else i + 1]
  {
    ring[..k] + ring[k + 1..]
  }

  lemma WithoutAt(ring: seq<nat>, h: nat, k: nat, i: int)
    requires k < |ring| && -1 <= i < |ring|
    ensures At(Without(ring, k), h, i) == At(ring, h, if i < k then i else i + 1)
  {
  }

  /** In both directions, element k stands between its neighbours, which stand at no other place. */
  lemma Neighbours(next: seq<nat>, prev: seq<nat>, h: nat, ring: seq<nat>, k: nat, i: int)
    requires Linked(next, prev, h, ring) && k < |ring| && -1 <= i <= |ring|
    ensures next[ring[k]] == At(ring, h, k + 1) <= h && prev[ring[k]] == At(ring, h, k - 1) <= h
    ensures At(ring, h, i) <= h
    ensures i < |ring| ==> next[At(ring, h, i)] == At(ring, h, i + 1)
    ensures 0 <= i ==> prev[At(ring, h, i)] == At(ring, h, i - 1)
    ensures i < |ring| ==> (At(ring, h, i) == At(ring, h, k - 1) <==> i == k - 1)
    ensures 0 <= i ==> (At(ring, h, i) == At(ring, h, k + 1) <==> i == k + 1)
  {
    assert At(ring, h, k) == ring[k];
  }

  lemma WithoutDistinct(ring: seq<nat>, h: nat, k: nat)
    requires k < |ring| && Distinct(ring) && forall i :: 0 <= i < |ring| ==> ring[i] < h
    ensures Distinct(Without(ring, k)) && ring[k] !in Without(ring, k)
    ensures forall i :: 0 <= i < |ring| - 1 ==> Without(ring, k)[i] < h
    ensures forall i :: At(Without(ring, k), h, i) <= h
  {
  }

  lemma UnlinkKeepsRing(next: seq<nat>, prev: seq<nat>, h: nat, ring: seq<nat>, k: nat)
    requires Linked(next, prev, h, ring) && k < |ring|
    ensures var b := ring[k];
            && next[b] <= h && prev[b] <= h
            && Linked(next[prev[b] := next[b]], prev[next[b] := prev[b]], h, Without(ring, k))
            && b !in Without(ring, k)
  {
    hide At;
    var b, r := ring[k], Without(ring, k);
    Neighbours(next, prev, h, ring, k, -1);
    WithoutDistinct(ring, h, k);
    var next', prev' := next[prev[b] := next[b]], prev[next[b] := prev[b]];
    forall i | -1 <= i < |r|
      ensures next'[At(r, h, i)] == At(r, h, i + 1)
    {
      WithoutAt(ring, h, k, i);
      WithoutAt(ring, h, k, i + 1);
      Neighbours(next, prev, h, ring, k, if i < k then i else i + 1);
    }
    forall i | 0 <= i <= |r|
      ensures prev'[At(r, h, i)] == At(r, h, i - 1)
    {
      WithoutAt(ring, h, k, i);
      WithoutAt(ring, h, k, i - 1);
      Neighbours(next, prev, h, ring, k, if i < k then i else i + 1);
    }
  }

  lemma PushKeepsRing(next: seq<nat>, prev: seq<nat>, h: nat, ring: seq<nat>, b: nat)
    requires Linked(next, prev, h, ring) && b < h && b !in ring
    ensures next[h] <= h
    ensures Linked(next[b := next[h]][h := b], prev[b := h][next[h] := b], h, [b] + ring)
  {
    var r := [b] + ring;
    assert next[At(ring, h, -1)] == At(ring, h, 0) && prev[At(ring, h, 0)] == At(ring, h, -1);
    var next', prev' := next[b := next[h]][h := b], prev[b := h][next[h] := b];
    forall i | -1 <= i < |r|
      ensures next'[At(r, h, i)] == At(r, h, i + 1)
    {
      if 0 < i {
        assert At(r, h, i) == At(ring, h, i - 1) && At(r, h, i + 1) == At(ring, h, i);
        assert next[At(ring, h, i - 1)] == At(ring, h, i);
      }
    }
    forall i | 0 <= i <= |r|
      ensures prev'[At(r, h, i)] == At(r, h, i - 1)
    {
      if 1 < i {
        assert At(r, h, i) == At(ring, h, i - 1) && At(r, h, i - 1) == At(ring, h, i - 2);
        assert prev[At(ring, h, i - 1)] == At(ring, h, i - 2);
      }
    }
  }

  lemma {:induction false} DistinctBound(s: seq<nat>, h: nat)
    requires Distinct(s) && forall i :: 0 <= i < |s| ==> s[i] < h
    ensures |s| <= h
    ensures |s| == h ==> forall b :: 0 <= b < h ==> b in s
    decreases h
  {
    if h == 0 {
      assert |s| == 0;
    } else if h - 1 in s {
      var k :| 0 <= k < |s| && s[k] == h - 1;
      var r := Without(s, k);
      assert |r| == |s| - 1;
      WithoutDistinct(s, h, k);
      DistinctBound(r, h - 1);
      forall b | |s| == h && 0 <= b < h - 1
        ensures b in s
      {
        assert b in r;
      }
    } else {
      DistinctBound(s, h - 1);
    }
  }

  /** Every buffer has a place in a full ring. */
  lemma Place(next: seq<nat>, prev: seq<nat>, h: nat, ring: seq<nat>, b: nat) returns (k: nat)
    requires Linked(next, prev, h, ring) && |ring| == h && b < h
    ensures k < |ring| && ring[k] == b && Distinct(ring)
  {
    DistinctBound(ring, h);
    assert b in ring;
    k :| 0 <= k < |ring| && ring[k] == b;
  }

  /** The list runs from the newest release to the oldest. */
  predicate NewestFirst(ring: seq<nat>, released: seq<nat>) {
    && (forall i :: 0 <= i < |ring| ==> ring[i] < |released|)
    && (forall i, j :: 0 <= i < j < |ring| ==> released[ring[i]] > released[ring[j]])
  }

  lemma FrontIsNewest(ring: seq<nat>, released: seq<nat>, now: nat, k: nat)
    requires k < |ring| && NewestFirst(ring, released) && Distinct(ring)
    requires forall b :: 0 <= b < |released| ==> released[b] < now
    ensures NewestFirst([ring[k]] + Without(ring, k), released[ring[k] := now])
  {
    var r, rel := [ring[k]] + Without(ring, k), released[ring[k] := now];
    forall i | 0 < i < |r|
      ensures rel[r[i]] == released[ring[if i <= k then i - 1 else i]]
    {
      assert r[i] == ring[if i <= k then i - 1 else i];
    }
    forall i, j | 0 <= i < j < |r|
      ensures rel[r[i]] > rel[r[j]]
    {
      assert rel[r[j]] == released[ring[if j <= k then j - 1 else j]];
    }
  }

  // ----- the buffer table and the disk

  function DirtyOf(bs: seq<Buf>): set<nat> {
    set b | 0 <= b < |bs| && bs[b].dirty :: bs[b].blockno
  }

  /** Buffer b holds block x of the disk. */
  predicate Holds(bs: seq<Buf>, b: nat, x: nat) {
    b < |bs| && bs[b].dev == ROOTDEV && bs[b].blockno == x
  }

  ghost predicate Cached(bs: seq<Buf>, x: nat) {
    exists b: nat :: Holds(bs, b, x)
  }

  predicate Eligible(bs: seq<Buf>, b: nat) {
    b < |bs| && bs[b].refcnt == 0 && !bs[b].dirty
  }

  /** bget for block x neither waits for a buffer lock nor runs out of buffers. */
  ghost predicate Ready(bs: seq<Buf>, x: nat) {
    && (forall b: nat :: Holds(bs, b, x) ==> !bs[b].locked)
    && (Cached(bs, x) || exists b: nat :: Eligible(bs, b))
  }

  /** No block is cached twice; an unlocked buffer shows what was last released; and only a
      dirty buffer may hide a disk block. */
  ghost predicate Coherent(bs: seq<Buf>, disk: seq<Block>, view: seq<Block>) {
    && |view| == |disk|
    && (forall b :: 0 <= b < |bs| ==>
          if bs[b].dev == ROOTDEV then bs[b].blockno < |disk|
          else bs[b].dev == 0 && !bs[b].valid && !bs[b].dirty && !bs[b].locked && bs[b].refcnt == 0)
    && (forall b, c :: 0 <= b < c < |bs| && bs[b].dev == ROOTDEV && bs[c].dev == ROOTDEV ==>
          bs[b].blockno != bs[c].blockno)
    && (forall b :: 0 <= b < |bs| && bs[b].dirty ==> bs[b].valid)
    && (forall b :: 0 <= b < |bs| && bs[b].locked ==> 0 < bs[b].refcnt)
    && (forall b :: 0 <= b < |bs| && bs[b].dev == ROOTDEV && !bs[b].locked ==>
          bs[b].valid && bs[b].data == view[bs[b].blockno])
    && (forall x :: 0 <= x < |disk| && x !in DirtyOf(bs) ==> view[x] == disk[x])
  }

  lemma SameDirty(bs: seq<Buf>, b: nat, nb: Buf)
    requires b < |bs| && nb.dirty == bs[b].dirty && (nb.dirty ==> nb.blockno == bs[b].blockno)
    ensures DirtyOf(bs[b := nb]) == DirtyOf(bs)
  {
    var bs' := bs[b := nb];
    forall c | 0 <= c < |bs| && bs[c].dirty
      ensures bs[c].blockno in DirtyOf(bs')
    {
      assert bs'[c].dirty && bs'[c].blockno == bs[c].blockno;
    }
  }

  lemma MoreDirty(bs: seq<Buf>, b: nat, nb: Buf)
    requires b < |bs| && nb.dirty && nb.blockno == bs[b].blockno
    ensures DirtyOf(bs[b := nb]) == DirtyOf(bs) + {nb.blockno}
  {
    var bs' := bs[b := nb];
    assert bs'[b].dirty;
    forall c | 0 <= c < |bs| && bs[c].dirty
      ensures bs[c].blockno in DirtyOf(bs')
    {
      assert bs'[c].dirty && bs'[c].blockno == bs[c].blockno;
    }
  }

  lemma LessDirty(bs: seq<Buf>, disk: seq<Block>, view: seq<Block>, b: nat, nb: Buf)
    requires Coherent(bs, disk, view) && b < |bs| && bs[b].dev == ROOTDEV && !nb.dirty
    ensures DirtyOf(bs[b := nb]) == DirtyOf(bs) - {bs[b].blockno}
  {
    var bs' := bs[b := nb];
    forall c | 0 <= c < |bs| && bs[c].dirty && c != b
      ensures bs[c].blockno in DirtyOf(bs') && bs[c].blockno != bs[b].blockno
    {
      assert bs'[c].dirty && bs'[c].blockno == bs[c].blockno;
    }
  }

  lemma HitKeepsCoherence(bs: seq<Buf>, disk: seq<Block>, view: seq<Block>, b: nat)
    requires Coherent(bs, disk, view) && b < |bs| && bs[b].dev == ROOTDEV
    ensures var nb := bs[b].(refcnt := bs[b].refcnt + 1, locked := true);
            Coherent(bs[b := nb], disk, view) && DirtyOf(bs[b := nb]) == DirtyOf(bs)
  {
    SameDirty(bs, b, bs[b].(refcnt := bs[b].refcnt + 1, locked := true));
  }

  lemma RecycleKeepsCoherence(bs: seq<Buf>, disk: seq<Block>, view: seq<Block>, b: nat, x: nat)
    requires Coherent(bs, disk, view) && Eligible(bs, b) && !Cached(bs, x) && x < |disk|
    ensures var nb := Buf(ROOTDEV, x, false, false, true, 1, bs[b].data);
            Coherent(bs[b := nb], disk, view) && DirtyOf(bs[b := nb]) == DirtyOf(bs)
  {
    SameDirty(bs, b, Buf(ROOTDEV, x, false, false, true, 1, bs[b].data));
    assert forall c: nat :: c < |bs| && bs[c].dev == ROOTDEV ==> !Holds(bs, c, x);
  }

  lemma ReleaseKeepsCoherence(bs: seq<Buf>, disk: seq<Block>, view: seq<Block>, b: nat)
    requires Coherent(bs, disk, view) && b < |bs| && bs[b].locked && bs[b].valid
    requires bs[b].dirty || bs[b].data == disk[bs[b].blockno]
    ensures var nb := bs[b].(refcnt := bs[b].refcnt - 1, locked := false);
            && Coherent(bs[b := nb], disk, view[bs[b].blockno := bs[b].data])
            && DirtyOf(bs[b := nb]) == DirtyOf(bs)
  {
    SameDirty(bs, b, bs[b].(refcnt := bs[b].refcnt - 1, locked := false));
    assert bs[b].dirty ==> bs[b].blockno in DirtyOf(bs);
  }

  lemma WriteOutKeepsCoherence(bs: seq<Buf>, disk: seq<Block>, view: seq<Block>, b: nat)
    requires Coherent(bs, disk, view) && b < |bs| && bs[b].dirty && bs[b].dev == ROOTDEV
    ensures var x, nb := bs[b].blockno, bs[b].(dirty := false, valid := true);
            && Coherent(bs[b := nb], disk[x := nb.data], view[x := nb.data])
            && DirtyOf(bs[b := nb]) == DirtyOf(bs) - {x}
  {
    LessDirty(bs, disk, view, b, bs[b].(dirty := false, valid := true));
  }

  lemma ReadInKeepsCoherence(bs: seq<Buf>, disk: seq<Block>, view: seq<Block>, b: nat)
    requires Coherent(bs, disk, view) && b < |bs| && bs[b].locked && !bs[b].dirty && bs[b].dev == ROOTDEV
    ensures var x := bs[b].blockno; var nb := bs[b].(data := disk[x], valid := true);
            && Coherent(bs[b := nb], disk, view)
            && DirtyOf(bs[b := nb]) == DirtyOf(bs) && x !in DirtyOf(bs)
  {
    SameDirty(bs, b, bs[b].(data := disk[bs[b].blockno], valid := true));
  }

  class Cache {
    const nbuf: nat
    var bufs: seq<Buf>
    var next: seq<nat>
    var prev: seq<nat>
    var memdisk: seq<Block>

    ghost var ring: seq<nat>         // the buffers in list order from the head
    ghost var writes: seq<Write>     // every block write so far, in order
    ghost var view: seq<Block>       // per block, the last contents a client released or wrote
    ghost var released: seq<nat>     // per buffer, the time of its last release
    ghost var now: nat

    ghost predicate Shape()
      reads this
    {
      && |bufs| == nbuf
      && Linked(next, prev, nbuf, ring)
      && |ring| == nbuf
      && |released| == nbuf
      && (forall b :: 0 <= b < nbuf ==> released[b] < now)
      && NewestFirst(ring, released)
    }

    ghost predicate Valid()
      reads this
    {
      Shape() && Coherent(bufs, memdisk, view)
    }

    ghost predicate Holding(b: nat)
      reads this
    {
      b < |bufs| && bufs[b].locked
    }

    /** Boot on a disk image. */
    constructor (nbuf: nat, memdisk: seq<Block>)
      ensures Valid() && this.nbuf == nbuf && this.memdisk == memdisk
      ensures forall b :: 0 <= b < nbuf ==> bufs[b].refcnt == 0 && !bufs[b].dirty && !bufs[b].locked
      ensures view == memdisk && writes == []
    {
      this.nbuf := nbuf;
      this.memdisk := memdisk;
      bufs := seq(nbuf, _ => Buf(0, 0, false, false, false, 0, ZERO));
      next := seq(nbuf + 1, _ => nbuf);
      prev := seq(nbuf + 1, _ => nbuf);
      ring, writes, released, now := [], [], seq(nbuf, i => i), nbuf;
      view := memdisk;
      new;
      var b := 0;
      while b < nbuf
        invariant b <= nbuf && |ring| == b
        invariant Linked(next, prev, nbuf, ring)
        invariant forall i :: 0 <= i < b ==> ring[i] == b - 1 - i
        invariant bufs == seq(nbuf, _ => Buf(0, 0, false, false, false, 0, ZERO)) && this.memdisk == memdisk == view
        invariant released == seq(nbuf, i => i) && now == nbuf && writes == []
      {
        PushFront(b);
        b := b + 1;
      }
    }

    /** Put b, which is in no list, at the head. */
    method PushFront(b: nat)
      requires Linked(next, prev, nbuf, ring) && b < nbuf && b !in ring
      modifies this`ring, this`next, this`prev
      ensures ring == [b] + old(ring) && Linked(next, prev, nbuf, ring)
    {
      ghost var nx, pv := next, prev;
      PushKeepsRing(nx, pv, nbuf, ring, b);
      next := next[b := next[nbuf]];
      prev := prev[b := nbuf];
      prev := prev[next[nbuf] := b];
      next := next[nbuf := b];
      ring := [b] + ring;
    }

    /** Splice b out of the list. */
    method Unlink(b: nat, ghost k: nat)
      requires Linked(next, prev, nbuf, ring) && k < |ring| && ring[k] == b
      modifies this`ring, this`next, this`prev
      ensures ring == Without(old(ring), k) && Linked(next, prev, nbuf, ring) && b !in ring
    {
      ghost var nx, pv := next, prev;
      UnlinkKeepsRing(nx, pv, nbuf, ring, k);
      prev := prev[next[b] := prev[b]];
      next := next[prev[b] := next[b]];
      ring := Without(ring, k);
    }

    /** Move b to the head of the list and stamp it as the latest released. */
    method MoveToFront(b: nat)
      requires Shape() && b < nbuf
      modifies this`ring, this`released, this`now, this`next, this`prev
      ensures Shape() && ring[0] == b
      ensures released == old(released)[b := old(now)] && now == old(now) + 1
    {
      hide Linked, NewestFirst, Distinct, At;
      ghost var k := Place(next, prev, nbuf, ring, b);
      FrontIsNewest(ring, released, now, k);
      Unlink(b, k);
      PushFront(b);
      released := released[b := now];
      now := now + 1;
    }

    /** Find block blockno in the cache, or recycle the eligible buffer released longest ago. */
    method Bget(dev: nat, blockno: nat) returns (b: nat)
      requires Valid() && dev == ROOTDEV && blockno < |memdisk| && Ready(bufs, blockno)
      modifies this`bufs
      ensures Valid() && b < nbuf
      ensures Cached(old(bufs), blockno) ==>
                && Holds(old(bufs), b, blockno)
                && bufs == old(bufs)[b := old(bufs[b]).(refcnt := old(bufs[b]).refcnt + 1, locked := true)]
      ensures !Cached(old(bufs), blockno) ==>
                && Eligible(old(bufs), b)
                && (forall c: nat :: Eligible(old(bufs), c) ==> released[b] <= released[c])
                && bufs == old(bufs)[b := Buf(dev, blockno, false, false, true, 1, old(bufs[b]).data)]
      ensures DirtyOf(bufs) == DirtyOf(old(bufs))
    {
      hide Coherent, DirtyOf, Linked, NewestFirst, Distinct;
      b := Lookup(dev, blockno);
      if b != nbuf {
        HitKeepsCoherence(bufs, memdisk, view, b);
        bufs := bufs[b := bufs[b].(refcnt := bufs[b].refcnt + 1, locked := true)];
      } else {
        b := Victim();
        RecycleKeepsCoherence(bufs, memdisk, view, b, blockno);
        bufs := bufs[b := Buf(dev, blockno, false, false, true, 1, bufs[b].data)];
      }
    }

    /** bget's first scan, from the most recently used end; nbuf means not cached. */
    method Lookup(dev: nat, blockno: nat) returns (b: nat)
      requires Shape() && dev == ROOTDEV
      ensures b < nbuf ==> Holds(bufs, b, blockno)
      ensures b >= nbuf ==> b == nbuf && !Cached(bufs, blockno)
    {
      DistinctBound(ring, nbuf);
      assert next[At(ring, nbuf, -1)] == At(ring, nbuf, 0);
      b := next[nbuf];
      ghost var i := 0;
      while b != nbuf && !(bufs[b].dev == dev && bufs[b].blockno == blockno)
        invariant 0 <= i <= nbuf && b == At(ring, nbuf, i)
        invariant forall j :: 0 <= j < i ==> !Holds(bufs, ring[j], blockno)
        decreases nbuf - i
      {
        assert next[At(ring, nbuf, i)] == At(ring, nbuf, i + 1);
        b := next[b];
        i := i + 1;
      }
      if b == nbuf {
        forall c: nat | c < nbuf
          ensures !Holds(bufs, c, blockno)
        {
          assert c in ring;
          var j :| 0 <= j < nbuf && ring[j] == c;
        }
      }
    }

    /** bget's second scan, from the least recently used end. */
    method Victim() returns (b: nat)
      requires Shape() && exists c: nat :: Eligible(bufs, c)
      ensures Eligible(bufs, b) && forall c: nat :: Eligible(bufs, c) ==> released[b] <= released[c]
    {
      DistinctBound(ring, nbuf);
      ghost var v: nat :| Eligible(bufs, v);
      assert v in ring;
      ghost var spare :| 0 <= spare < nbuf && ring[spare] == v;
      assert prev[At(ring, nbuf, nbuf)] == At(ring, nbuf, nbuf - 1);
      b := prev[nbuf];
      ghost var k := nbuf - 1;
      while !(bufs[b].refcnt == 0 && !bufs[b].dirty)
        invariant spare <= k < nbuf && b == At(ring, nbuf, k)
        invariant forall j :: k < j < nbuf ==> !Eligible(bufs, ring[j])
        decreases k
      {
        assert prev[At(ring, nbuf, k)] == At(ring, nbuf, k - 1);
        b := prev[b];
        k := k - 1;
      }
      forall c: nat | Eligible(bufs, c)
        ensures released[b] <= released[c]
      {
        assert c in ring;
        var j :| 0 <= j < nbuf && ring[j] == c;
      }
    }

    /** Transfer between a locked buffer and the disk: out if dirty, in otherwise. */
    method Iderw(b: nat)
      requires Valid() && Holding(b) && bufs[b].dev == ROOTDEV && !(bufs[b].valid && !bufs[b].dirty)
      modifies this`writes, this`view, this`bufs, this`memdisk
      ensures Valid()
      ensures writes == old(writes) + if old(bufs[b]).dirty then [Write(bufs[b].blockno, bufs[b].data)] else []
      ensures memdisk == if old(bufs[b]).dirty then old(memdisk)[old(bufs[b]).blockno := old(bufs[b]).data]
                else old(memdisk)
      ensures view == if old(bufs[b]).dirty then old(view)[old(bufs[b]).blockno := old(bufs[b]).data] else old(view)
      ensures bufs == old(bufs)[b := old(bufs[b]).(valid := true, dirty := false,
                data := if old(bufs[b]).dirty then old(bufs[b]).data else old(memdisk[bufs[b].blockno]))]
      ensures DirtyOf(bufs) == DirtyOf(old(bufs)) - {bufs[b].blockno}
    {
      var x := bufs[b].blockno;
      assert x < |memdisk|;
      if bufs[b].dirty {
        WriteOutKeepsCoherence(bufs, memdisk, view, b);
        hide *;
        bufs := bufs[b := bufs[b].(dirty := false, valid := true)];
        memdisk := memdisk[x := bufs[b].data];
        writes := writes + [Write(x, bufs[b].data)];
        view := view[x := bufs[b].data];
      } else {
        ReadInKeepsCoherence(bufs, memdisk, view, b);
        hide *;
        bufs := bufs[b := bufs[b].(data := memdisk[x], valid := true)];
      }
    }

    /** A locked buffer holding what block blockno was last given. */
    method Bread(dev: nat, blockno: nat) returns (b: nat)
      requires Valid() && dev == ROOTDEV && blockno < |memdisk| && Ready(bufs, blockno)
      modifies this`writes, this`view, this`bufs, this`memdisk
      ensures Valid() && Holding(b) && Holds(bufs, b, blockno) && bufs[b].valid
      ensures bufs[b].data == view[blockno]
      ensures bufs[b].refcnt == old(bufs[b]).refcnt + 1
      ensures bufs[b].dirty || bufs[b].data == memdisk[blockno]
      ensures Cached(old(bufs), blockno) ==> Holds(old(bufs), b, blockno)
      ensures !Cached(old(bufs), blockno) ==> Eligible(old(bufs), b)
      ensures bufs == old(bufs)[b := bufs[b]]
      ensures bufs[b].dirty == (blockno in DirtyOf(bufs))
      ensures DirtyOf(bufs) == DirtyOf(old(bufs))
      ensures view == old(view) && memdisk == old(memdisk) && writes == old(writes)
    {
      b := Bget(dev, blockno);
      if !bufs[b].valid {
        Iderw(b);
      }
    }

    /** Write a locked buffer through to the disk. */
    method Bwrite(b: nat)
      requires Valid() && Holding(b) && bufs[b].valid
      modifies this`writes, this`view, this`bufs, this`memdisk
      ensures Valid() && Holding(b)
      ensures bufs == old(bufs)[b := old(bufs[b]).(dirty := false)]
      ensures memdisk == old(memdisk)[old(bufs[b]).blockno := old(bufs[b]).data]
      ensures view == old(view)[old(bufs[b]).blockno := old(bufs[b]).data]
      ensures writes == old(writes) + [Write(bufs[b].blockno, bufs[b].data)]
      ensures DirtyOf(bufs) == DirtyOf(old(bufs)) - {bufs[b].blockno}
    {
      ghost var bs := bufs;
      bufs := bufs[b := bufs[b].(dirty := true)];
      MoreDirty(bs, b, bufs[b]);
      Iderw(b);
    }

    /** Overwrite the data of a locked buffer, as memmove does. */
    method SetData(b: nat, data: Block)
      requires Valid() && Holding(b)
      modifies this`bufs
      ensures Valid() && bufs == old(bufs)[b := old(bufs[b]).(data := data)]
      ensures DirtyOf(bufs) == DirtyOf(old(bufs))
    {
      ghost var bs := bufs;
      bufs := bufs[b := bufs[b].(data := data)];
      SameDirty(bs, b, bufs[b]);
    }

    /** Pin a locked buffer, as log_write does. */
    method SetDirty(b: nat)
      requires Valid() && Holding(b) && bufs[b].valid
      modifies this`bufs
      ensures Valid() && bufs == old(bufs)[b := old(bufs[b]).(dirty := true)]
      ensures DirtyOf(bufs) == DirtyOf(old(bufs)) + {bufs[b].blockno}
    {
      ghost var bs := bufs;
      bufs := bufs[b := bufs[b].(dirty := true)];
      MoreDirty(bs, b, bufs[b]);
    }

    /** Release a locked buffer; its contents must be on the disk already, or pinned. */
    method Brelse(b: nat)
      requires Valid() && Holding(b) && bufs[b].valid
      requires bufs[b].dirty || bufs[b].data == memdisk[bufs[b].blockno]
      modifies this`ring, this`view, this`released, this`now, this`bufs, this`next, this`prev
      ensures Valid()
      ensures view == old(view)[old(bufs[b]).blockno := old(bufs[b]).data]
      ensures old(view)[old(bufs[b]).blockno] == old(bufs[b]).data ==> view == old(view)
      ensures bufs == old(bufs)[b := old(bufs[b]).(locked := false, refcnt := old(bufs[b]).refcnt - 1)]
      ensures DirtyOf(bufs) == DirtyOf(old(bufs))
      ensures if bufs[b].refcnt == 0
              then released == old(released)[b := old(now)] && now == old(now) + 1
              else released == old(released) && now == old(now)
    {
      assert bufs[b].blockno < |memdisk|;
      hide Coherent, DirtyOf, Linked;
      ghost var bs := bufs;
      ReleaseKeepsCoherence(bs, memdisk, view, b);
      bufs := bufs[b := bufs[b].(locked := false)];
      bufs := bufs[b := bufs[b].(refcnt := bufs[b].refcnt - 1)];
      assert bufs == bs[b := bufs[b]];
      view := view[bufs[b].blockno := bufs[b].data];
      if bufs[b].refcnt == 0 {
        MoveToFront(b);
      }
    }
  }
}
