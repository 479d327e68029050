/** The user heap of umalloc.c: a circular, address-ordered list of free blocks, with a header unit
    at the front of every block. Addresses count header-sized units.

    Who owns a unit is a ghost tag. Circle is about the links, Partition about the tags, Listed ties
    the two, and Sparse says that no two free blocks touch. View is what the program can tell about
    each unit, and Canonical says that it determines the free list. */
module Heap {
  const NULL: nat := 0
  const BASE: nat := 1                    // the static header base, below the heap
  const UNIT: nat := 8                    // sizeof(Header)
  const WORD: nat := 0x1_0000_0000
  const MIN_GROW: nat := 4096
  const TOP: nat := 0x1000_0000           // user memory in units: KERNBASE / UNIT

  datatype Header = Header(ptr: nat, size: nat)

  /** Whom a unit of memory belongs to: nobody here, or the block whose header is at unit `at`. */
  datatype Tag = Hole | FreeIn(at: nat) | LiveIn(at: nat)

  /** What a caller can tell about a unit. */
  datatype Status = Outside | Free | Used(block: nat)

  // ----- the circle and the partition of memory

  /** Element i of the circle points at element i + 1, which lies beyond its end. */
  predicate Link(mem: seq<Header>, ring: seq<nat>, i: nat) {
    && i + 1 < |ring| && ring[i] < |mem|
    && ring[i] + mem[ring[i]].size <= ring[i + 1] && ring[i] < ring[i + 1]
    && mem[ring[i]].ptr == ring[i + 1]
  }

  /** One circle that contains base, in address order with one wrap, from the last block to base. */
  ghost predicate Circle(mem: seq<Header>, ring: seq<nat>) {
    && |ring| > 0 && ring[0] == BASE && BASE < |mem| && mem[BASE].size == 0
    && (forall i: nat :: i + 1 < |ring| ==> Link(mem, ring, i))
    && Last(ring) < |mem| && mem[Last(ring)].ptr == BASE
  }

  function Last(ring: seq<nat>): nat
    requires |ring| > 0
  {
    ring[|ring| - 1]
  }

  /** Elements i and i + 1 of the circle do not touch. */
  predicate Apart(mem: seq<Header>, ring: seq<nat>, i: nat) {
    i + 1 < |ring| && ring[i] < |mem| ==> ring[i] + mem[ring[i]].size != ring[i + 1]
  }

  ghost predicate Sparse(mem: seq<Header>, ring: seq<nat>) {
    forall i: nat :: Apart(mem, ring, i)
  }

  predicate Head(owner: seq<Tag>, a: nat) {
    a < |owner| && owner[a] != Hole && owner[a].at == a
  }

  /** Block a is not empty, ends within memory, and has all its units. */
  ghost predicate Whole(mem: seq<Header>, owner: seq<Tag>, a: nat) {
    && a < |owner| == |mem| && 1 <= mem[a].size && a + mem[a].size <= |mem|
    && forall u: nat :: a <= u < a + mem[a].size ==> owner[u] == owner[a]
  }

  predicate Placed(mem: seq<Header>, owner: seq<Tag>, u: nat) {
    u < |owner| == |mem| && (owner[u] != Hole ==>
      Head(owner, owner[u].at) && owner[owner[u].at] == owner[u]
      && owner[u].at <= u < owner[u].at + mem[owner[u].at].size)
  }

  /** The blocks partition the units that are not holes. */
  ghost predicate Partition(mem: seq<Header>, owner: seq<Tag>) {
    && |owner| == |mem| && BASE < |mem| && owner[BASE] == Hole && owner[NULL] == Hole
    && (forall a: nat :: Head(owner, a) ==> Whole(mem, owner, a))
    && (forall u: nat :: u < |owner| ==> Placed(mem, owner, u))
  }

  /** The circle holds base and exactly the free blocks. */
  ghost predicate Listed(ring: seq<nat>, owner: seq<Tag>) {
    forall a: nat :: a in ring <==> a == BASE || (a < |owner| && owner[a] == FreeIn(a))
  }

  ghost predicate Good(mem: seq<Header>, ring: seq<nat>, owner: seq<Tag>) {
    Circle(mem, ring) && Partition(mem, owner) && Listed(ring, owner)
  }

  lemma {:induction false} Ascending(mem: seq<Header>, ring: seq<nat>, i: nat, j: nat)
    requires Circle(mem, ring) && i < j < |ring|
    ensures ring[i] < |mem| && ring[i] < ring[j] && ring[i] + mem[ring[i]].size <= ring[j]
  {
    assert Link(mem, ring, j - 1);
    if i < j - 1 {
      Ascending(mem, ring, i, j - 1);
    }
  }

  lemma InMemory(mem: seq<Header>, ring: seq<nat>, i: nat)
    requires Circle(mem, ring) && i < |ring|
    ensures ring[i] < |mem| && (i > 0 ==> ring[i] > BASE)
  {
    if i + 1 < |ring| {
      assert Link(mem, ring, i);
    }
    if i > 0 {
      Ascending(mem, ring, 0, i);
    }
  }

  lemma Distinct(mem: seq<Header>, ring: seq<nat>, i: nat, j: nat)
    requires Circle(mem, ring) && i < |ring| && j < |ring| && ring[i] == ring[j]
    ensures i == j
  {
    if i < j {
      Ascending(mem, ring, i, j);
    } else if j < i {
      Ascending(mem, ring, j, i);
    }
  }

  // ----- the view

  function StatusOf(t: Tag): Status {
    match t
    case Hole => Outside
    case FreeIn(_) => Free
    case LiveIn(a) => Used(a)
  }

  function View(owner: seq<Tag>): (v: seq<Status>)
    ensures |v| == |owner|
  {
    seq(|owner|, u requires 0 <= u < |owner| => StatusOf(owner[u]))
  }

  /** The view after block a is freed. */
  function Release(v: seq<Status>, a: nat): (r: seq<Status>)
    ensures |r| == |v|
  {
    seq(|v|, u requires 0 <= u < |v| => if v[u] == Used(a) then Free else v[u])
  }

  /** The view after n units from a have been allocated. */
  function Take(v: seq<Status>, a: nat, n: nat): (r: seq<Status>)
    ensures |r| == |v|
  {
    seq(|v|, u requires 0 <= u < |v| => if a <= u < a + n then Used(a) else v[u])
  }

  /** The view after others have taken gap units and the heap the n units after them. */
  function Grow(v: seq<Status>, gap: nat, n: nat): seq<Status> {
    v + seq(gap, _ => Outside) + seq(n, _ => Free)
  }

  predicate AllFree(v: seq<Status>, a: nat, n: nat) {
    a + n <= |v| && forall u :: a <= u < a + n ==> v[u] == Free
  }

  /** Freeing what was just allocated restores the view. */
  lemma ReleaseTake(v: seq<Status>, a: nat, n: nat)
    requires AllFree(v, a, n) && Used(a) !in v
    ensures Release(Take(v, a, n), a) == v
  {
    forall u | 0 <= u < |v|
      ensures Release(Take(v, a, n), a)[u] == v[u]
    {
      assert v[u] in v;
    }
  }

  function Retag(owner: seq<Tag>, a: nat, n: nat, t: Tag): (r: seq<Tag>)
    ensures |r| == |owner|
  {
    seq(|owner|, u requires 0 <= u < |owner| => if a <= u < a + n then t else owner[u])
  }

  // ----- putting a block on the circle

  function Inserted(ring: seq<nat>, k: nat, b: nat): (r: seq<nat>)
    requires k < |ring|
    ensures |r| == |ring| + 1
  {
    ring[..k + 1] + [b] + ring[k + 1..]
  }

  /** Where block b belongs on the circle. */
  predicate Fits(ring: seq<nat>, k: nat, b: nat) {
    k < |ring| && ring[k] < b && (k + 1 < |ring| ==> b < ring[k + 1])
  }

  function Next(ring: seq<nat>, k: nat): nat
    requires k < |ring|
  {
    if k + 1 < |ring| then ring[k + 1] else ring[0]
  }

  function LinkIn(mem: seq<Header>, p: nat, b: nat): seq<Header>
    requires p < |mem| && b < |mem|
  {
    mem[b := mem[b].(ptr := mem[p].ptr)][p := mem[p].(ptr := b)]
  }

  /** A live block lies strictly between its neighbours on the circle. */
  lemma LiveBetween(mem: seq<Header>, ring: seq<nat>, owner: seq<Tag>, k: nat, b: nat)
    requires Good(mem, ring, owner) && Fits(ring, k, b) && b < |owner| && owner[b] == LiveIn(b)
    ensures ring[k] < |mem| && ring[k] + mem[ring[k]].size <= b
    ensures k + 1 < |ring| ==> b + mem[b].size <= ring[k + 1]
    ensures 1 <= mem[b].size && b + mem[b].size <= |mem|
  {
    assert Head(owner, b) && Whole(mem, owner, b);
    InMemory(mem, ring, k);
    assert ring[k] in ring;
    if k > 0 {
      assert owner[ring[k]] == FreeIn(ring[k]);
      assert Whole(mem, owner, ring[k]);
    }
    if k + 1 < |ring| {
      InMemory(mem, ring, k + 1);
      assert ring[k + 1] in ring;
      assert owner[ring[k + 1]] == FreeIn(ring[k + 1]);
    }
  }

  lemma InsertCircle(mem: seq<Header>, ring: seq<nat>, k: nat, b: nat)
    requires Circle(mem, ring) && Fits(ring, k, b) && b < |mem|
    requires ring[k] < |mem| && ring[k] + mem[ring[k]].size <= b
    requires k + 1 < |ring| ==> b + mem[b].size <= ring[k + 1]
    ensures Circle(LinkIn(mem, ring[k], b), Inserted(ring, k, b))
  {
    var mem', ring' := LinkIn(mem, ring[k], b), Inserted(ring, k, b);
    if k + 1 < |ring| {
      assert Link(mem, ring, k);
    }
    forall i: nat | i + 1 < |ring'|
      ensures Link(mem', ring', i)
    {
      if i < k {
        assert Link(mem, ring, i);
        Ascending(mem, ring, i, k);
      } else if i > k + 1 {
        assert Link(mem, ring, i - 1);
        Ascending(mem, ring, k, i - 1);
        if i - 1 > k + 1 {
          Ascending(mem, ring, k + 1, i - 1);
        }
      }
    }
    InMemory(mem, ring, k);
    if k + 1 < |ring| {
      Ascending(mem, ring, k, |ring| - 1);
      if k + 1 < |ring| - 1 {
        Ascending(mem, ring, k + 1, |ring| - 1);
      }
    }
    if k > 0 {
      Ascending(mem, ring, 0, k);
    }
  }

  lemma InsertListed(ring: seq<nat>, owner: seq<Tag>, k: nat, b: nat, n: nat)
    requires Listed(ring, owner) && k < |ring| && b + n <= |owner| && 1 <= n
    requires forall u :: b <= u < b + n ==> owner[u] == LiveIn(b)
    ensures Listed(Inserted(ring, k, b), Retag(owner, b, n, FreeIn(b)))
  {
    var ring' := Inserted(ring, k, b);
    forall a: nat
      ensures a in ring' <==> a in ring || a == b
    {
      assert ring == ring[..k + 1] + ring[k + 1..];
    }
  }

  /** The live block b becomes a free one. */
  lemma Reassign(mem: seq<Header>, owner: seq<Tag>, b: nat)
    requires Partition(mem, owner) && b < |owner| && owner[b] == LiveIn(b)
    ensures Partition(mem, Retag(owner, b, mem[b].size, FreeIn(b)))
    ensures View(Retag(owner, b, mem[b].size, FreeIn(b))) == Release(View(owner), b)
  {
    var n := mem[b].size;
    var owner' := Retag(owner, b, n, FreeIn(b));
    assert Head(owner, b) && Whole(mem, owner, b);
    forall u: nat | u < |owner|
      ensures Placed(mem, owner', u)
      ensures owner[u] == LiveIn(b) <==> b <= u < b + n
    {
      assert Placed(mem, owner, u);
      if owner[u] != Hole && !(b <= u < b + n) {
        assert Whole(mem, owner, owner[u].at);
      }
    }
    forall a: nat | Head(owner', a)
      ensures Whole(mem, owner', a)
    {
      if a != b {
        assert Head(owner, a) && Whole(mem, owner, a);
      }
    }
  }

  predicate SameSizes(mem: seq<Header>, mem': seq<Header>) {
    |mem'| == |mem| && forall u :: 0 <= u < |mem| ==> mem'[u].size == mem[u].size
  }

  /** The partition depends on the sizes alone. */
  lemma PartitionOfSizes(mem: seq<Header>, mem': seq<Header>, owner: seq<Tag>)
    requires Partition(mem, owner) && SameSizes(mem, mem')
    ensures Partition(mem', owner)
  {
    forall a: nat | Head(owner, a)
      ensures Whole(mem', owner, a)
    {
      assert Whole(mem, owner, a);
    }
    forall u: nat | u < |owner|
      ensures Placed(mem', owner, u)
    {
      assert Placed(mem, owner, u);
    }
  }

  /** Freeing without merging. */
  lemma InsertGood(mem: seq<Header>, ring: seq<nat>, owner: seq<Tag>, k: nat, b: nat)
    requires Good(mem, ring, owner) && Fits(ring, k, b) && b < |owner| && owner[b] == LiveIn(b)
    ensures ring[k] < |mem| && b + mem[b].size <= |owner|
    ensures Good(LinkIn(mem, ring[k], b), Inserted(ring, k, b), Retag(owner, b, mem[b].size, FreeIn(b)))
    ensures View(Retag(owner, b, mem[b].size, FreeIn(b))) == Release(View(owner), b)
  {
    hide Circle, Listed, Inserted, Retag, View, Release;
    LiveBetween(mem, ring, owner, k, b);
    InsertCircle(mem, ring, k, b);
    Reassign(mem, owner, b);
    assert Head(owner, b) && Whole(mem, owner, b);
    InsertListed(ring, owner, k, b, mem[b].size);
    hide Partition;
    PartitionOfSizes(mem, LinkIn(mem, ring[k], b), Retag(owner, b, mem[b].size, FreeIn(b)));
  }

  lemma InsertSparse(mem: seq<Header>, ring: seq<nat>, k: nat, b: nat)
    requires Circle(mem, ring) && Sparse(mem, ring) && k < |ring| && ring[k] < |mem| && b < |mem|
    ensures forall i: nat :: i != k && i != k + 1 ==>
              Apart(LinkIn(mem, ring[k], b), Inserted(ring, k, b), i)
  {
    var mem', ring' := LinkIn(mem, ring[k], b), Inserted(ring, k, b);
    forall i: nat | i != k && i != k + 1
      ensures Apart(mem', ring', i)
    {
      assert Apart(mem, ring, i);
      if i > 0 {
        assert Apart(mem, ring, i - 1);
      }
    }
  }

  // ----- merging neighbours

  function Removed(ring: seq<nat>, j: nat): (r: seq<nat>)
    requires j < |ring|
    ensures |r| == |ring| - 1
  {
    ring[..j] + ring[j + 1..]
  }

  function Joined(mem: seq<Header>, p: nat, q: nat): seq<Header>
    requires p < |mem| && q < |mem|
  {
    mem[p := Header(mem[q].ptr, mem[p].size + mem[q].size)]
  }

  lemma JoinCircle(mem: seq<Header>, ring: seq<nat>, j: nat)
    requires Circle(mem, ring) && 0 < j && j + 1 < |ring|
    requires ring[j] < |mem| && ring[j + 1] < |mem| && ring[j] + mem[ring[j]].size == ring[j + 1]
    ensures Circle(Joined(mem, ring[j], ring[j + 1]), Removed(ring, j + 1))
  {
    var mem', ring' := Joined(mem, ring[j], ring[j + 1]), Removed(ring, j + 1);
    Ascending(mem, ring, 0, j);
    forall i: nat | i + 1 < |ring'|
      ensures Link(mem', ring', i)
    {
      if i < j {
        assert Link(mem, ring, i);
        Ascending(mem, ring, i, j);
      } else {
        assert Link(mem, ring, i + 1);
        Ascending(mem, ring, j, i + 1);
      }
    }
    if j + 1 < |ring| - 1 {
      Ascending(mem, ring, j, |ring| - 1);
    }
  }

  lemma RemovedMembers(mem: seq<Header>, ring: seq<nat>, j: nat)
    requires Circle(mem, ring) && j < |ring|
    ensures forall a: nat :: a in Removed(ring, j) <==> a in ring && a != ring[j]
  {
    var ring' := Removed(ring, j);
    forall a: nat
      ensures a in ring' <==> a in ring && a != ring[j]
    {
      if a in ring' {
        var i :| 0 <= i < |ring'| && ring'[i] == a;
        var i' := if i < j then i else i + 1;
        assert ring[i'] == a;
        if a == ring[j] {
          Distinct(mem, ring, i', j);
        }
      }
      assert ring == ring[..j] + [ring[j]] + ring[j + 1..];
    }
  }

  lemma JoinListed(mem: seq<Header>, ring: seq<nat>, owner: seq<Tag>, j: nat)
    requires Good(mem, ring, owner) && 0 < j && j + 1 < |ring|
    ensures ring[j] < |mem| && ring[j + 1] < |mem|
    ensures Listed(Removed(ring, j + 1), Retag(owner, ring[j + 1], mem[ring[j + 1]].size, FreeIn(ring[j])))
  {
    var q := ring[j + 1];
    InMemory(mem, ring, j);
    InMemory(mem, ring, j + 1);
    Ascending(mem, ring, j, j + 1);
    assert q in ring;
    assert Head(owner, q) && Whole(mem, owner, q);
    RemovedMembers(mem, ring, j + 1);
  }

  /** Free block q, which starts where free block p ends, becomes part of p. */
  lemma JoinPartition(mem: seq<Header>, owner: seq<Tag>, p: nat, q: nat)
    requires Partition(mem, owner) && p < |owner| && owner[p] == FreeIn(p) && q < |owner| && owner[q] == FreeIn(q)
    requires p + mem[p].size == q
    ensures Partition(Joined(mem, p, q), Retag(owner, q, mem[q].size, FreeIn(p)))
    ensures View(Retag(owner, q, mem[q].size, FreeIn(p))) == View(owner)
  {
    var n := mem[q].size;
    var mem', owner' := Joined(mem, p, q), Retag(owner, q, n, FreeIn(p));
    assert Head(owner, p) && Head(owner, q) && Whole(mem, owner, p) && Whole(mem, owner, q);
    forall u: nat | u < |owner|
      ensures Placed(mem', owner', u)
    {
      assert Placed(mem, owner, u);
    }
    forall a: nat | Head(owner', a)
      ensures Whole(mem', owner', a)
    {
      assert Head(owner, a) && Whole(mem, owner, a);
      forall u: nat | a <= u < a + mem'[a].size
        ensures owner'[u] == owner'[a]
      {
        assert a != p ==> owner[u] == owner[a];
      }
    }
  }

  lemma JoinGood(mem: seq<Header>, ring: seq<nat>, owner: seq<Tag>, j: nat)
    requires Good(mem, ring, owner) && 0 < j && j + 1 < |ring|
    requires ring[j] < |mem| && ring[j] + mem[ring[j]].size == ring[j + 1]
    ensures ring[j + 1] < |mem|
    ensures Good(Joined(mem, ring[j], ring[j + 1]), Removed(ring, j + 1),
                 Retag(owner, ring[j + 1], mem[ring[j + 1]].size, FreeIn(ring[j])))
    ensures View(Retag(owner, ring[j + 1], mem[ring[j + 1]].size, FreeIn(ring[j]))) == View(owner)
  {
    InMemory(mem, ring, j);
    InMemory(mem, ring, j + 1);
    assert ring[j] in ring && ring[j + 1] in ring;
    JoinCircle(mem, ring, j);
    JoinListed(mem, ring, owner, j);
    JoinPartition(mem, owner, ring[j], ring[j + 1]);
  }

  lemma JoinSparse(mem: seq<Header>, ring: seq<nat>, j: nat, i: nat)
    requires Circle(mem, ring) && 0 < j && j + 1 < |ring| && ring[j] < |mem| && ring[j + 1] < |mem|
    requires ring[j] + mem[ring[j]].size == ring[j + 1]
    requires Apart(mem, ring, if i < j then i else i + 1)
    ensures Apart(Joined(mem, ring[j], ring[j + 1]), Removed(ring, j + 1), i)
  {
    if i < j {
      Ascending(mem, ring, i, j);
    } else if i > j && i + 1 < |ring| {
      Ascending(mem, ring, j, i + 1);
    }
  }

  // ----- free

  /** The headers after free has joined b with what follows it, and p with b (umalloc.c:33-42). */
  function Coalesced(mem: seq<Header>, p: nat, b: nat): seq<Header>
    requires p < |mem| && b < |mem| && mem[p].ptr < |mem|
  {
    var n := mem[p].ptr;
    var right := mem[b := if b + mem[b].size == n then Header(mem[n].ptr, mem[b].size + mem[n].size)
                          else Header(n, mem[b].size)];
    right[p := if p + right[p].size == b then Header(right[b].ptr, right[p].size + right[b].size)
               else Header(b, right[p].size)]
  }

  lemma NextInMemory(mem: seq<Header>, ring: seq<nat>, k: nat)
    requires Circle(mem, ring) && k < |ring|
    ensures ring[k] < |mem| && mem[ring[k]].ptr == Next(ring, k) < |mem|
  {
    InMemory(mem, ring, k);
    if k + 1 < |ring| {
      InMemory(mem, ring, k + 1);
      assert Link(mem, ring, k);
    }
  }

  /** Block b on the circle after element k, joined with element k + 2 if they touch. */
  lemma FreeRight(mem: seq<Header>, ring: seq<nat>, owner: seq<Tag>, k: nat, b: nat)
    returns (mem': seq<Header>, ring': seq<nat>, owner': seq<Tag>)
    requires Good(mem, ring, owner) && Sparse(mem, ring)
    requires Fits(ring, k, b) && b < |owner| && owner[b] == LiveIn(b)
    ensures Good(mem', ring', owner') && View(owner') == Release(View(owner), b)
    ensures ring[k] < |mem| && b < |mem| && mem[ring[k]].ptr < |mem|
    ensures mem' == mem[b := if b + mem[b].size == mem[ring[k]].ptr
                             then Header(mem[mem[ring[k]].ptr].ptr, mem[b].size + mem[mem[ring[k]].ptr].size)
                             else Header(mem[ring[k]].ptr, mem[b].size)][ring[k] := Header(b, mem[ring[k]].size)]
    ensures k + 1 < |ring'| && ring'[..k + 1] == ring[..k + 1] && ring'[k + 1] == b
    ensures forall i: nat :: i != k ==> Apart(mem', ring', i)
  {
    hide Good, View, Release, Circle, Partition, Listed, Sparse, Retag;
    OfGood(mem, ring, owner);
    SizesAgree(mem, owner);
    NextInMemory(mem, ring, k);
    InsertGood(mem, ring, owner, k, b);
    InsertSparse(mem, ring, k, b);
    mem', ring', owner' := LinkIn(mem, ring[k], b), Inserted(ring, k, b), Retag(owner, b, mem[b].size, FreeIn(b));
    OfGood(mem', ring', owner');
    if b + mem[b].size == mem[ring[k]].ptr {
      var m1, r1 := mem', ring';
      Ascending(mem', ring', k, k + 1);
      JoinGood(mem', ring', owner', k + 1);
      mem', ring', owner' := Joined(m1, b, r1[k + 2]), Removed(r1, k + 2),
        Retag(owner', r1[k + 2], mem'[r1[k + 2]].size, FreeIn(b));
      forall i: nat | i != k
        ensures Apart(mem', ring', i)
      {
        JoinSparse(m1, r1, k + 1, i);
      }
    }
  }

  lemma SizesAgree(mem: seq<Header>, owner: seq<Tag>)
    requires Partition(mem, owner)
    ensures |mem| == |owner|
  {
  }

  lemma OfGood(mem: seq<Header>, ring: seq<nat>, owner: seq<Tag>)
    requires Good(mem, ring, owner)
    ensures Circle(mem, ring) && Partition(mem, owner) && Listed(ring, owner)
  {
  }

  /** What free does to the circle: it stays good and sparse, and frees exactly block b. */
  lemma FreeEffect(mem: seq<Header>, ring: seq<nat>, owner: seq<Tag>, k: nat, b: nat)
    returns (ring': seq<nat>, owner': seq<Tag>)
    requires Good(mem, ring, owner) && Sparse(mem, ring)
    requires Fits(ring, k, b) && b < |owner| && owner[b] == LiveIn(b)
    ensures ring[k] < |mem| && b < |mem| && mem[ring[k]].ptr < |mem|
    ensures Good(Coalesced(mem, ring[k], b), ring', owner') && Sparse(Coalesced(mem, ring[k], b), ring')
    ensures View(owner') == Release(View(owner), b)
    ensures k < |ring'| && ring'[..k + 1] == ring[..k + 1]
  {
    hide Good, View, Release;
    var mem';
    mem', ring', owner' := FreeRight(mem, ring, owner, k, b);
    OfGood(mem, ring, owner);
    OfGood(mem', ring', owner');
    assert ring'[k] == ring'[..k + 1][k] == ring[k];
    Ascending(mem', ring', k, k + 1);
    if ring[k] + mem[ring[k]].size == b {
      var m1, r1 := mem', ring';
      JoinGood(m1, r1, owner', k);
      mem', ring', owner' := Joined(m1, r1[k], b), Removed(r1, k + 1),
        Retag(owner', b, m1[b].size, FreeIn(r1[k]));
      forall i: nat
        ensures Apart(mem', ring', i)
      {
        JoinSparse(m1, r1, k, i);
      }
    }
    assert mem' == Coalesced(mem, ring[k], b);
  }

  // ----- malloc

  /** The units that a request is rounded up to, header included, in 32-bit arithmetic (umalloc.c:69). */
  function UnitsFor(nbytes: nat): (n: nat)
    requires nbytes < WORD
    ensures 1 <= n <= WORD / UNIT
  {
    (nbytes + UNIT - 1) % WORD / UNIT + 1
  }

  /** The units hold the request exactly if it does not wrap when it is rounded up. */
  lemma HoldsIff(nbytes: nat)
    requires nbytes < WORD
    ensures (UnitsFor(nbytes) - 1) * UNIT >= nbytes <==> nbytes <= WORD - UNIT
    ensures nbytes <= WORD - UNIT ==> (UnitsFor(nbytes) - 1) * UNIT < nbytes + UNIT
  {
  }

  /** The increment that morecore passes to sbrk for nu units: a 32-bit product, taken as an int. */
  function Increment(nu: nat): int {
    var bytes := nu * UNIT % WORD;
    if bytes < WORD / 2 then bytes else bytes - WORD
  }

  /** sbrk is asked for the nu units exactly if they are fewer than 2^28. */
  lemma GrowsIff(nu: nat)
    requires 0 < nu <= WORD / UNIT
    ensures Increment(nu) == nu * UNIT <==> nu < TOP
    ensures nu >= TOP ==> Increment(nu) <= 0
  {
  }

  /** The places after and before place i of a circle of n. */
  function After(i: nat, n: nat): (r: nat)
    requires i < n
    ensures r < n
  {
    if i + 1 < n then i + 1 else 0
  }

  function Before(i: nat, n: nat): (r: nat)
    requires i < n
    ensures r < n && (i > 0 ==> r == i - 1)
  {
    if i == 0 then n - 1 else i - 1
  }

  /** How many steps lead from place i to place k. */
  function Lap(i: nat, k: nat, n: nat): (r: nat)
    requires i < n && k < n
    ensures r < n
  {
    if i <= k then k - i else k - i + n
  }

  lemma LapStep(i: nat, k: nat, n: nat)
    requires i < n && k < n
    ensures Before(After(i, n), n) == i
    ensures if i == k then Lap(After(i, n), k, n) == n - 1 else Lap(After(i, n), k, n) == Lap(i, k, n) - 1
    ensures Lap(i, k, n) == 0 <==> i == k
  {
  }

  /** The first of the next `left` elements of the circle from i on that has n units, if any. */
  function Search(mem: seq<Header>, ring: seq<nat>, i: nat, left: nat, n: nat): (r: int)
    requires i < |ring|
    ensures -1 <= r < |ring|
    ensures r >= 0 ==> ring[r] < |mem| && mem[ring[r]].size >= n
    decreases left
  {
    if left == 0 then -1
    else if ring[i] < |mem| && mem[ring[i]].size >= n then i
    else Search(mem, ring, After(i, |ring|), left - 1, n)
  }

  /** A search from just after k around the whole circle ends at k, and misses nothing. */
  lemma {:induction false} SearchMisses(mem: seq<Header>, ring: seq<nat>, i: nat, left: nat, n: nat, j: nat)
    requires i < |ring| && left <= |ring| && j < |ring|
    requires if i + left <= |ring| then i <= j < i + left else j >= i || j < i + left - |ring|
    requires Search(mem, ring, i, left, n) == -1
    ensures ring[j] < |mem| ==> mem[ring[j]].size < n
    decreases left
  {
    if j != i {
      SearchMisses(mem, ring, After(i, |ring|), left - 1, n, j);
    }
  }

  // ----- taking a block off the circle

  lemma RemoveCircle(mem: seq<Header>, ring: seq<nat>, k: nat)
    requires Circle(mem, ring) && k + 1 < |ring| && ring[k] < |mem| && ring[k + 1] < |mem|
    ensures Circle(mem[ring[k] := mem[ring[k]].(ptr := mem[ring[k + 1]].ptr)], Removed(ring, k + 1))
  {
    var mem', ring' := mem[ring[k] := mem[ring[k]].(ptr := mem[ring[k + 1]].ptr)], Removed(ring, k + 1);
    assert Link(mem, ring, k);
    forall i: nat | i + 1 < |ring'|
      ensures Link(mem', ring', i)
    {
      if i < k {
        assert Link(mem, ring, i);
        Ascending(mem, ring, i, k);
      } else {
        assert Link(mem, ring, i + 1);
        Ascending(mem, ring, k, i + 1);
      }
    }
    if k + 1 < |ring| - 1 {
      Ascending(mem, ring, k, |ring| - 1);
    }
  }

  lemma RemoveSparse(mem: seq<Header>, mem': seq<Header>, ring: seq<nat>, k: nat)
    requires Circle(mem, ring) && Sparse(mem, ring) && k + 1 < |ring| && SameSizes(mem, mem')
    ensures Sparse(mem', Removed(ring, k + 1))
  {
    var ring' := Removed(ring, k + 1);
    forall i: nat
      ensures Apart(mem', ring', i)
    {
      assert Apart(mem, ring, i) && Apart(mem, ring, i + 1);
      if i == k && i + 2 < |ring| {
        assert Link(mem, ring, i) && Link(mem, ring, i + 1);
      }
    }
  }

  /** The last n units of free block p become a live block. */
  lemma AllocPartition(mem: seq<Header>, mem': seq<Header>, owner: seq<Tag>, p: nat, n: nat)
    requires Partition(mem, owner) && p < |owner| && owner[p] == FreeIn(p) && 1 <= n <= mem[p].size
    requires var a := p + mem[p].size - n;
             && a < |mem| == |mem'| && mem'[a].size == n && (a != p ==> mem'[p].size == mem[p].size - n)
             && forall u :: 0 <= u < |mem| && u != p && u != a ==> mem'[u].size == mem[u].size
    ensures var a := p + mem[p].size - n;
            && Partition(mem', Retag(owner, a, n, LiveIn(a)))
            && AllFree(View(owner), a, n)
            && View(Retag(owner, a, n, LiveIn(a))) == Take(View(owner), a, n)
  {
    var a := p + mem[p].size - n;
    var owner' := Retag(owner, a, n, LiveIn(a));
    assert Head(owner, p) && Whole(mem, owner, p);
    assert a != p ==> !Head(owner, a);
    forall u: nat | u < |owner|
      ensures Placed(mem', owner', u)
    {
      assert Placed(mem, owner, u);
      if owner[u] != Hole && owner[u].at != p {
        assert Whole(mem, owner, owner[u].at);
      }
    }
    forall b: nat | Head(owner', b)
      ensures Whole(mem', owner', b)
    {
      if b != a {
        assert Head(owner, b) && Whole(mem, owner, b);
      }
    }
  }

  lemma ExactListed(mem: seq<Header>, ring: seq<nat>, owner: seq<Tag>, k: nat)
    requires Good(mem, ring, owner) && k + 1 < |ring|
    ensures ring[k + 1] < |mem|
    ensures Listed(Removed(ring, k + 1), Retag(owner, ring[k + 1], mem[ring[k + 1]].size, LiveIn(ring[k + 1])))
  {
    var q := ring[k + 1];
    InMemory(mem, ring, k + 1);
    assert q in ring;
    assert Head(owner, q) && Whole(mem, owner, q);
    RemovedMembers(mem, ring, k + 1);
  }

  lemma SplitListed(mem: seq<Header>, ring: seq<nat>, owner: seq<Tag>, k: nat, n: nat)
    requires Good(mem, ring, owner) && 0 < k < |ring| && ring[k] < |mem| && 1 <= n < mem[ring[k]].size
    ensures Listed(ring, Retag(owner, ring[k] + mem[ring[k]].size - n, n, LiveIn(ring[k] + mem[ring[k]].size - n)))
  {
    InMemory(mem, ring, k);
    assert ring[k] in ring;
    assert Head(owner, ring[k]) && Whole(mem, owner, ring[k]);
  }

  lemma SplitCircle(mem: seq<Header>, mem': seq<Header>, ring: seq<nat>, k: nat, n: nat)
    requires Circle(mem, ring) && Sparse(mem, ring) && 0 < k < |ring| && ring[k] < |mem| && n < mem[ring[k]].size
    requires |mem'| == |mem| && mem'[ring[k]] == mem[ring[k]].(size := mem[ring[k]].size - n)
    requires forall i :: 0 <= i < |ring| && i != k && ring[i] < |mem| ==> mem'[ring[i]] == mem[ring[i]]
    ensures Circle(mem', ring) && (1 <= n ==> Sparse(mem', ring))
  {
    InMemory(mem, ring, |ring| - 1);
    forall i: nat | i + 1 < |ring|
      ensures Link(mem', ring, i)
    {
      assert Link(mem, ring, i);
    }
    forall i: nat
      ensures 1 <= n ==> Apart(mem', ring, i)
    {
      assert Apart(mem, ring, i);
      if i + 1 < |ring| {
        assert Link(mem, ring, i);
      }
    }
  }

  /** Taking the whole of element k + 1 off the circle. */
  lemma ExactEffect(mem: seq<Header>, ring: seq<nat>, owner: seq<Tag>, k: nat)
    returns (mem': seq<Header>, ring': seq<nat>, owner': seq<Tag>)
    requires Good(mem, ring, owner) && Sparse(mem, ring) && k + 1 < |ring|
    ensures ring[k] < |mem| && ring[k + 1] < |mem|
    ensures mem' == mem[ring[k] := mem[ring[k]].(ptr := mem[ring[k + 1]].ptr)]
    ensures Good(mem', ring', owner') && Sparse(mem', ring') && k < |ring'| && ring'[k] == ring[k]
    ensures owner'[ring[k + 1]] == LiveIn(ring[k + 1])
    ensures AllFree(View(owner), ring[k + 1], mem[ring[k + 1]].size)
    ensures View(owner') == Take(View(owner), ring[k + 1], mem[ring[k + 1]].size)
  {
    var q := ring[k + 1];
    InMemory(mem, ring, k);
    InMemory(mem, ring, k + 1);
    assert q in ring;
    assert Head(owner, q) && Whole(mem, owner, q);
    mem', ring' := mem[ring[k] := mem[ring[k]].(ptr := mem[q].ptr)], Removed(ring, k + 1);
    owner' := Retag(owner, q, mem[q].size, LiveIn(q));
    hide View, Take, Circle, Sparse, Listed, Partition;
    RemoveCircle(mem, ring, k);
    RemoveSparse(mem, mem', ring, k);
    ExactListed(mem, ring, owner, k);
    AllocPartition(mem, mem', owner, q, mem[q].size);
  }

  /** Taking the last n units of element k, which has more. */
  lemma SplitEffect(mem: seq<Header>, ring: seq<nat>, owner: seq<Tag>, k: nat, n: nat)
    returns (mem': seq<Header>, owner': seq<Tag>)
    requires Good(mem, ring, owner) && Sparse(mem, ring) && k < |ring| && 1 <= n
    requires ring[k] < |mem| && n < mem[ring[k]].size
    ensures ring[k] + mem[ring[k]].size <= |mem|
    ensures var a := ring[k] + mem[ring[k]].size - n;
            && mem' == mem[ring[k] := mem[ring[k]].(size := mem[ring[k]].size - n)][a := mem[a].(size := n)]
            && Good(mem', ring, owner') && Sparse(mem', ring)
            && owner'[a] == LiveIn(a)
            && AllFree(View(owner), a, n)
            && View(owner') == Take(View(owner), a, n)
  {
    assert k > 0;
    var p := ring[k];
    InMemory(mem, ring, k);
    assert p in ring;
    assert Head(owner, p) && Whole(mem, owner, p);
    var a := p + mem[p].size - n;
    mem' := mem[p := mem[p].(size := mem[p].size - n)][a := mem[a].(size := n)];
    owner' := Retag(owner, a, n, LiveIn(a));
    forall i | 0 <= i < |ring| && i != k
      ensures ring[i] != p && ring[i] != a
    {
      if ring[i] == p {
        Distinct(mem, ring, i, k);
      }
      assert ring[i] in ring;
      assert owner[a] == FreeIn(p);
    }
    hide View, Take, Circle, Sparse, Listed, Partition;
    SplitCircle(mem, mem', ring, k, n);
    SplitListed(mem, ring, owner, k, n);
    AllocPartition(mem, mem', owner, p, n);
  }

  // ----- more memory

  /** The memory after sbrk has returned nu units, `gap` units above the old break, and morecore has
      written the size of the new block. */
  function Extended(mem: seq<Header>, gap: seq<Header>, nu: nat): (r: seq<Header>)
    requires nu > 0
    ensures |r| == |mem| + |gap| + nu
  {
    mem + gap + [Header(NULL, nu)] + seq(nu - 1, _ => Header(NULL, 0))
  }

  function ExtendedTags(owner: seq<Tag>, gap: nat, nu: nat): (r: seq<Tag>)
    ensures |r| == |owner| + gap + nu
  {
    owner + seq(gap, _ => Hole) + seq(nu, _ => LiveIn(|owner| + gap))
  }

  lemma ExtendGood(mem: seq<Header>, ring: seq<nat>, owner: seq<Tag>, gap: seq<Header>, nu: nat)
    requires Good(mem, ring, owner) && Sparse(mem, ring) && nu > 0
    ensures Good(Extended(mem, gap, nu), ring, ExtendedTags(owner, |gap|, nu))
    ensures Sparse(Extended(mem, gap, nu), ring)
    ensures Release(View(ExtendedTags(owner, |gap|, nu)), |mem| + |gap|) == Grow(View(owner), |gap|, nu)
  {
    var mem', owner' := Extended(mem, gap, nu), ExtendedTags(owner, |gap|, nu);
    forall i: nat | i + 1 < |ring|
      ensures Link(mem', ring, i)
    {
      assert Link(mem, ring, i);
    }
    forall i: nat
      ensures Apart(mem', ring, i)
    {
      assert Apart(mem, ring, i);
      if i < |ring| {
        InMemory(mem, ring, i);
      }
    }
    ExtendPartition(mem, owner, gap, nu);
    forall a: nat
      ensures a in ring <==> a == BASE || (a < |owner'| && owner'[a] == FreeIn(a))
    {
    }
  }

  lemma ExtendPartition(mem: seq<Header>, owner: seq<Tag>, gap: seq<Header>, nu: nat)
    requires Partition(mem, owner) && nu > 0
    ensures Partition(Extended(mem, gap, nu), ExtendedTags(owner, |gap|, nu))
    ensures Release(View(ExtendedTags(owner, |gap|, nu)), |mem| + |gap|) == Grow(View(owner), |gap|, nu)
  {
    var mem', owner' := Extended(mem, gap, nu), ExtendedTags(owner, |gap|, nu);
    forall u: nat | u < |owner'|
      ensures Placed(mem', owner', u)
    {
      if u < |owner| {
        assert Placed(mem, owner, u);
      }
    }
    forall a: nat | Head(owner', a)
      ensures Whole(mem', owner', a)
    {
      if a < |owner| {
        assert Head(owner, a) && Whole(mem, owner, a);
      }
    }
    var v, v' := View(owner), View(owner');
    assert |Release(v', |mem| + |gap|)| == |Grow(v, |gap|, nu)|;
    forall u: nat | u < |owner'|
      ensures Release(v', |mem| + |gap|)[u] == Grow(v, |gap|, nu)[u]
    {
      if u < |owner| {
        assert Placed(mem, owner, u);
      }
    }
  }

  // ----- the view determines the circle

  /** In a sparse circle a free block starts exactly where a run of free units starts. */
  lemma HeadIff(mem: seq<Header>, ring: seq<nat>, owner: seq<Tag>, a: nat)
    requires Good(mem, ring, owner) && Sparse(mem, ring) && 0 < a < |owner|
    ensures owner[a] == FreeIn(a) <==> View(owner)[a] == Free && View(owner)[a - 1] != Free
  {
    assert Placed(mem, owner, a) && Placed(mem, owner, a - 1);
    if owner[a] == FreeIn(a) && owner[a - 1].FreeIn? {
      var b := owner[a - 1].at;
      assert b in ring && a in ring;
      var i, j :| 0 <= i < |ring| && 0 <= j < |ring| && ring[i] == b && ring[j] == a;
      Touching(mem, ring, i, j);
    } else if owner[a].FreeIn? && owner[a].at != a {
      assert Whole(mem, owner, owner[a].at);
    }
  }

  lemma Touching(mem: seq<Header>, ring: seq<nat>, i: nat, j: nat)
    requires Circle(mem, ring) && Sparse(mem, ring) && i < |ring| && j < |ring|
    ensures ring[i] < |mem| && ring[i] + mem[ring[i]].size == ring[j] ==> i == j
  {
    InMemory(mem, ring, i);
    if i < j {
      assert Apart(mem, ring, i) && Link(mem, ring, i);
      if i + 1 < j {
        Ascending(mem, ring, i + 1, j);
      }
    } else if j < i {
      Ascending(mem, ring, j, i);
    }
  }

  /** The free run from a ends with block a. */
  lemma SizeIsRun(mem: seq<Header>, ring: seq<nat>, owner: seq<Tag>, a: nat)
    requires Good(mem, ring, owner) && Sparse(mem, ring) && a < |owner| && owner[a] == FreeIn(a)
    ensures AllFree(View(owner), a, mem[a].size)
    ensures a + mem[a].size < |owner| ==> View(owner)[a + mem[a].size] != Free
  {
    assert Head(owner, a) && Whole(mem, owner, a);
    var e := a + mem[a].size;
    if e < |owner| {
      assert owner[e - 1] == owner[a];
      Continues(mem, owner, e);
      HeadIff(mem, ring, owner, e);
    }
  }

  lemma Continues(mem: seq<Header>, owner: seq<Tag>, u: nat)
    requires Partition(mem, owner) && 0 < u < |owner|
    ensures owner[u] != Hole && owner[u].at != u ==> owner[u - 1] == owner[u]
    ensures Placed(mem, owner, u)
  {
    assert Placed(mem, owner, u);
    if owner[u] != Hole {
      assert Whole(mem, owner, owner[u].at);
    }
  }

  /** A live block is exactly the units that its header counts. */
  lemma LiveExtent(mem: seq<Header>, ring: seq<nat>, owner: seq<Tag>, a: nat, u: nat)
    requires Good(mem, ring, owner) && a < |owner| && u < |owner| && View(owner)[a] == Used(a)
    ensures View(owner)[u] == Used(a) <==> a <= u < a + mem[a].size
  {
    assert Head(owner, a) && Whole(mem, owner, a);
    assert Placed(mem, owner, u);
  }

  predicate Increasing(s: seq<nat>) {
    forall i, j :: 0 <= i < j < |s| ==> s[i] < s[j]
  }

  lemma {:induction false} SameMembers(s: seq<nat>, t: seq<nat>)
    requires Increasing(s) && Increasing(t) && forall a: nat :: a in s <==> a in t
    ensures s == t
  {
    assert s != [] ==> s[0] in s && s[0] in t;
    assert t != [] ==> t[0] in t && t[0] in s;
    if s != [] && t != [] {
      forall a: nat
        ensures a in s[1..] <==> a in t[1..]
      {
        assert a in s[1..] <==> a in s && a != s[0];
        assert a in t[1..] <==> a in t && a != t[0];
      }
      SameMembers(s[1..], t[1..]);
    }
  }

  /** Two heaps whose callers see the same have the same circle, with blocks of the same sizes. */
  lemma Canonical(mem: seq<Header>, ring: seq<nat>, owner: seq<Tag>,
                  mem': seq<Header>, ring': seq<nat>, owner': seq<Tag>)
    requires Good(mem, ring, owner) && Sparse(mem, ring) && Good(mem', ring', owner') && Sparse(mem', ring')
    requires View(owner) == View(owner')
    ensures ring == ring'
    ensures forall i :: 0 <= i < |ring| ==> ring[i] < |mem| && ring[i] < |mem'| && mem[ring[i]] == mem'[ring[i]]
  {
    forall a: nat
      ensures a in ring <==> a in ring'
    {
      if 0 < a < |owner| {
        HeadIff(mem, ring, owner, a);
        HeadIff(mem', ring', owner', a);
      }
    }
    CircleIncreasing(mem, ring);
    CircleIncreasing(mem', ring');
    SameMembers(ring, ring');
    forall i: nat | i < |ring|
      ensures ring[i] < |mem| && ring[i] < |mem'| && mem[ring[i]] == mem'[ring[i]]
    {
      NextInMemory(mem, ring, i);
      NextInMemory(mem', ring', i);
      assert ring[i] in ring;
      if i > 0 {
        InMemory(mem, ring, i);
        SizeIsRun(mem, ring, owner, ring[i]);
        SizeIsRun(mem', ring', owner', ring[i]);
        RunEnds(View(owner), ring[i], mem[ring[i]].size, mem'[ring[i]].size);
      }
    }
  }

  lemma RunEnds(v: seq<Status>, a: nat, n: nat, m: nat)
    requires AllFree(v, a, n) && AllFree(v, a, m)
    requires (a + n < |v| ==> v[a + n] != Free) && (a + m < |v| ==> v[a + m] != Free)
    ensures n == m
  {
  }

  lemma CircleIncreasing(mem: seq<Header>, ring: seq<nat>)
    requires Circle(mem, ring)
    ensures Increasing(ring)
  {
    forall i, j | 0 <= i < j < |ring|
      ensures ring[i] < ring[j]
    {
      Ascending(mem, ring, i, j);
    }
  }

  // ----- the allocator

  /** What the kernel answers to sbrk: a refusal, or memory above what others have taken since. */
  datatype Sbrk = Refused | Granted(gap: seq<Header>)

  class Heap {
    var mem: seq<Header>          // the program's memory, up to its break
    var freep: nat                // where the next search starts, or NULL before the first malloc
    ghost var ring: seq<nat>      // the circle, from base on
    ghost var at: nat             // the place of freep on it
    ghost var owner: seq<Tag>

    ghost predicate Valid()
      reads this
    {
      if freep == NULL then
        && BASE < |mem| == |owner| && ring == [] && forall u :: 0 <= u < |owner| ==> owner[u] == Hole
      else
        Good(mem, ring, owner) && Sparse(mem, ring) && at < |ring| && ring[at] == freep
    }

    /** What the program can tell about each unit. */
    ghost function Units(): seq<Status>
      reads this
    {
      View(owner)
    }

    constructor (top: nat)
      requires BASE < top
      ensures Valid() && |mem| == top && forall u :: 0 <= u < top ==> Units()[u] == Outside
    {
      mem := seq(top, _ => Header(NULL, 0));
      freep, ring, at := NULL, [], 0;
      owner := seq(top, _ => Hole);
    }

    /** The program writes a unit of one of its blocks, other than the header. */
    method Scribble(u: nat, h: Header)
      requires Valid() && u < |mem| && u < |owner| && owner[u].LiveIn? && owner[u].at != u
      modifies this`mem
      ensures Valid() && mem == old(mem)[u := h]
    {
      ScribbleGood(mem, ring, owner, u, h);
      mem := mem[u := h];
    }

    /** Frees the block whose payload is at ap: those units become free and nothing else changes.
        The circle stays in address order with no two free blocks touching. */
    method Free(ap: nat)
      requires Valid() && 0 < ap <= |Units()| && Units()[ap - 1] == Used(ap - 1)
      modifies this
      ensures Valid() && freep != NULL && |mem| == |old(mem)|
      ensures Units() == Release(old(Units()), ap - 1)
      ensures Fits(old(ring), at, ap - 1) && freep == old(ring)[at]
      ensures ring[..at] == old(ring)[..at]
      ensures forall u :: 0 <= u < |mem| && u != ap - 1 && u != freep ==> mem[u] == old(mem)[u]
    {
      hide Good, Sparse, Circle, Partition, Listed, View, Release, Fits, Coalesced;
      var bp := ap - 1;
      UsedByOwner(mem, ring, owner, bp);
      OfGood(mem, ring, owner);
      var p := freep;
      ghost var i: nat := at;
      ghost var k := PlaceExists(mem, ring, owner, bp);
      NextInMemory(mem, ring, i);
      while !(bp > p && bp < mem[p].ptr)
        invariant i < |ring| && p == ring[i] && p < |mem| && mem[p].ptr == Next(ring, i) < |mem|
        decreases Lap(i, k, |ring|)
        modifies {}
      {
        if p >= mem[p].ptr && (bp > p || bp < mem[p].ptr) {
          break;
        }
        NextStep(mem, ring, i, k, bp);
        p := mem[p].ptr;
        i := After(i, |ring|);
        NextInMemory(mem, ring, i);
      }
      LoopFits(mem, ring, i, bp);
      ghost var ring', owner' := FreeEffect(mem, ring, owner, i, bp);
      Join(p, bp);
      freep, at := p, i;
      ring, owner := ring', owner';
    }

    /** Puts bp between p and its successor, and joins it with either that it touches (umalloc.c:33-42). */
    method Join(p: nat, bp: nat)
      requires p < |mem| && bp < |mem| && mem[p].ptr < |mem| && p != bp
      modifies this`mem
      ensures mem == Coalesced(old(mem), p, bp)
      ensures |mem| == |old(mem)| && forall u :: 0 <= u < |mem| && u != bp && u != p ==> mem[u] == old(mem)[u]
    {
      var q := mem[p].ptr;
      if bp + mem[bp].size == q {
        mem := mem[bp := Header(mem[q].ptr, mem[bp].size + mem[q].size)];
      } else {
        mem := mem[bp := mem[bp].(ptr := q)];
      }
      if p + mem[p].size == bp {
        mem := mem[p := Header(mem[bp].ptr, mem[p].size + mem[bp].size)];
      } else {
        mem := mem[p := mem[p].(ptr := bp)];
      }
    }

    /** What first fit finds: the first block with n units after freep, or -1 if there is none. */
    ghost function FirstFit(n: nat): (r: int)
      requires Valid()
      reads this
    {
      if freep == NULL then -1
      else Search(mem, ring, After(at, |ring|), |ring|, n)
    }

    /** Asks the kernel for at least nu units and frees them into the circle. */
    method Morecore(nu: nat, answer: Sbrk) returns (p: nat)
      requires Valid() && freep != NULL && 0 < nu < TOP
      modifies this
      ensures Valid() && p == if answer.Refused? then NULL else freep
      ensures answer.Refused? ==>
                mem == old(mem) && freep == old(freep) && ring == old(ring) && at == old(at) && owner == old(owner)
      ensures answer.Granted? ==>
                && Units() == Grow(old(Units()), |answer.gap|, AtLeast(nu))
                && at == |old(ring)| - 1 < |ring| && ring[..at] == old(ring)[..at] && freep == old(ring)[at]
                && |mem| == |old(mem)| + |answer.gap| + AtLeast(nu)
                && forall u :: 0 <= u < |old(mem)| && u != freep ==> mem[u] == old(mem)[u]
    {
      hide Good, Sparse, View, Release, Fits, Grow;
      if answer.Refused? {
        return NULL;
      }
      var n := if nu < MIN_GROW then MIN_GROW else nu;
      OfGood(mem, ring, owner);
      var hp := |mem| + |answer.gap|;
      ExtendGood(mem, ring, owner, answer.gap, n);
      mem := Extended(mem, answer.gap, n);
      owner := ExtendedTags(owner, |answer.gap|, n);
      NewIsLive(owner, hp);
      Free(hp + 1);
      LastFits(old(mem), old(ring), old(owner), at, hp);
      p := freep;
    }

    /** Allocates nbytes. First fit: the search starts after freep, and the block is taken from the
        end of the first one that is large enough; only if there is none is the kernel asked for
        more, and then the block is taken from the end of that. Returns NULL exactly if no free
        block is large enough and the kernel refuses. */
    method Malloc(nbytes: nat, answer: Sbrk) returns (r: nat)
      requires Valid() && nbytes < WORD && UnitsFor(nbytes) < TOP
      modifies this
      ensures Valid() && freep != NULL
      ensures r == NULL <==> old(FirstFit(UnitsFor(nbytes))) == -1 && answer.Refused?
      ensures r == NULL ==> Units() == old(Units())
      ensures r != NULL ==> Used(r - 1) !in old(Units())
      ensures r != NULL ==> r - 1 < |mem| && mem[r - 1].size == UnitsFor(nbytes)
      ensures var n, k := UnitsFor(nbytes), old(FirstFit(UnitsFor(nbytes)));
              k >= 0 ==>
                && r - 1 == old(ring)[k] + old(mem)[old(ring)[k]].size - n
                && AllFree(old(Units()), r - 1, n)
                && Units() == Take(old(Units()), r - 1, n)
                && 0 < k && freep == old(ring)[k - 1]
      ensures var n, v := UnitsFor(nbytes), old(Units());
              old(FirstFit(n)) == -1 && answer.Granted? ==>
                && AllFree(Grow(v, |answer.gap|, AtLeast(n)), r - 1, n)
                && Units() == Take(Grow(v, |answer.gap|, AtLeast(n)), r - 1, n)
    {
      hide Good, Sparse, Circle, Partition, Listed, View, Take, AllFree, Grow, Search;
      var nunits := UnitsFor(nbytes);
      if freep == NULL {
        FirstCircle(mem, owner);
        mem := mem[BASE := Header(BASE, 0)];
        freep, ring, at := BASE, [BASE], 0;
      }
      BaseIsEmpty(mem, ring, owner);
      FirstIsEmpty(mem, ring, nunits);
      var prevp, p;
      ghost var i;
      prevp, p, i := Find(nunits, answer);
      if p == NULL {
        return NULL;
      }
      ghost var v := Units();
      r := Carve(prevp, p, i, nunits);
      StillUnused(old(Units()), v, if answer.Granted? then |answer.gap| else 0, AtLeast(nunits), r - 1);
    }

    /** The search loop of malloc (umalloc.c:74-89): stops at the first block that fits, within one lap
        or, if morecore had to be called, within one lap more. */
    method Find(nunits: nat, answer: Sbrk) returns (prevp: nat, p: nat, ghost i: nat)
      requires Valid() && freep != NULL && 1 <= nunits < TOP
      modifies this
      ensures Valid() && freep != NULL
      ensures p == NULL <==> old(FirstFit(nunits)) == -1 && answer.Refused?
      ensures p == NULL || old(FirstFit(nunits)) >= 0 ==> mem == old(mem) && ring == old(ring) && owner == old(owner)
      ensures p != NULL ==>
                && 0 < i < |ring| && ring[i] == p < |mem| && ring[i - 1] == prevp && nunits <= mem[p].size
                && (if old(FirstFit(nunits)) >= 0 then i == old(FirstFit(nunits))
                    else Units() == Grow(old(Units()), |answer.gap|, AtLeast(nunits)))
    {
      hide Good, Sparse, Circle, Partition, Listed, View, Grow, Search, After, Before, Lap, Next;
      Element(mem, ring, owner, at, at);
      BaseIsEmpty(mem, ring, owner);
      prevp := freep;
      p := mem[prevp].ptr;
      ghost var left: nat, grown, goal := |ring|, false, FirstFit(nunits);
      i := After(at, |ring|);
      LapStep(at, at, |ring|);
      NextAfter(ring, at);
      Element(mem, ring, owner, i, i);
      while mem[p].size < nunits
        invariant Valid() && freep != NULL && i < |ring| && ring[i] == p && p < |mem|
        invariant mem[p].ptr == Next(ring, i) < |mem|
        invariant prevp == ring[Before(i, |ring|)]
        invariant ring[0] < |mem| && mem[ring[0]].size == 0
        invariant left == Lap(i, at, |ring|) + 1
        invariant Search(mem, ring, i, left, nunits) == goal
        invariant !grown ==>
                    mem == old(mem) && ring == old(ring) && owner == old(owner) && goal == old(FirstFit(nunits))
        invariant grown ==> answer.Granted? && old(FirstFit(nunits)) == -1 && goal >= 0
                            && Units() == Grow(old(Units()), |answer.gap|, AtLeast(nunits))
        decreases !grown, left
      {
        LapStep(i, at, |ring|);
        SearchStep(mem, ring, i, left, nunits);
        if p == freep {
          Element(mem, ring, owner, i, at);
          p := Morecore(nunits, answer);
          if p == NULL {
            return;
          }
          GrownFits(mem, ring, owner, old(View(owner)), |answer.gap|, AtLeast(nunits), nunits, at);
          i, left, grown, goal := at, |ring| + 1, true, FirstFit(nunits);
          Element(mem, ring, owner, at, at);
          BaseIsEmpty(mem, ring, owner);
        }
        LapStep(i, at, |ring|);
        NextAfter(ring, i);
        prevp, p := p, mem[p].ptr;
        i, left := After(i, |ring|), left - 1;
        Element(mem, ring, owner, i, i);
      }
      SearchStep(mem, ring, i, left, nunits);
      Element(mem, ring, owner, i, i);
    }

    /** Takes nunits units from the end of element i, or all of it (umalloc.c:76-84). */
    method Carve(prevp: nat, p': nat, ghost i: nat, nunits: nat) returns (r: nat)
      requires Valid() && freep != NULL && 0 < i < |ring| && ring[i] == p' < |mem| && ring[i - 1] == prevp
      requires 1 <= nunits <= mem[p'].size
      modifies this
      ensures Valid() && freep == prevp && freep != NULL
      ensures r - 1 == p' + old(mem)[p'].size - nunits && 0 < r <= |mem| && mem[r - 1].size == nunits
      ensures AllFree(old(Units()), r - 1, nunits) && Units() == Take(old(Units()), r - 1, nunits)
      ensures Used(r - 1) !in old(Units())
    {
      hide Good, Sparse, Circle, Partition, Listed, View, Take, AllFree, Search;
      var p := p';
      OfGood(mem, ring, owner);
      InMemory(mem, ring, i - 1);
      NotUsed(mem, ring, owner, i, nunits);
      if mem[p].size == nunits {
        ghost var mem', ring', owner' := ExactEffect(mem, ring, owner, i - 1);
        mem := mem[prevp := mem[prevp].(ptr := mem[p].ptr)];
        ring, owner := ring', owner';
      } else {
        ghost var mem', owner' := SplitEffect(mem, ring, owner, i, nunits);
        mem := mem[p := mem[p].(size := mem[p].size - nunits)];
        p := p + mem[p].size;
        mem := mem[p := mem[p].(size := nunits)];
        owner := owner';
      }
      freep, at := prevp, i - 1;
      r := p + 1;
    }
  }

  lemma UsedByOwner(mem: seq<Header>, ring: seq<nat>, owner: seq<Tag>, a: nat)
    requires a < |View(owner)| && View(owner)[a] == Used(a)
    requires ring != [] ==> Good(mem, ring, owner)
    requires ring == [] ==> forall u :: 0 <= u < |owner| ==> owner[u] == Hole
    ensures a < |owner| && owner[a] == LiveIn(a) && ring != [] && a > BASE
  {
  }

  function AtLeast(nu: nat): nat {
    if nu < MIN_GROW then MIN_GROW else nu
  }

  lemma NewIsLive(owner: seq<Tag>, a: nat)
    requires a < |owner| && owner[a] == LiveIn(a)
    ensures View(owner)[a] == Used(a)
  {
  }

  /** The circle that the first malloc sets up. */
  lemma FirstCircle(mem: seq<Header>, owner: seq<Tag>)
    requires BASE < |mem| == |owner| && forall u :: 0 <= u < |owner| ==> owner[u] == Hole
    ensures Good(mem[BASE := Header(BASE, 0)], [BASE], owner) && Sparse(mem[BASE := Header(BASE, 0)], [BASE])
  {
  }

  lemma Element(mem: seq<Header>, ring: seq<nat>, owner: seq<Tag>, i: nat, j: nat)
    requires Good(mem, ring, owner) && i < |ring| && j < |ring|
    ensures ring[i] != NULL && ring[i] < |mem| && mem[ring[i]].ptr == Next(ring, i) < |mem|
    ensures ring[i] == ring[j] ==> i == j
  {
    NextInMemory(mem, ring, i);
    InMemory(mem, ring, i);
    if ring[i] == ring[j] {
      Distinct(mem, ring, i, j);
    }
  }

  lemma NextAfter(ring: seq<nat>, i: nat)
    requires i < |ring|
    ensures Next(ring, i) == ring[After(i, |ring|)]
  {
  }

  /** Before the first malloc no block fits. */
  lemma FirstIsEmpty(mem: seq<Header>, ring: seq<nat>, n: nat)
    requires |ring| > 0 && ring[0] < |mem| && mem[ring[0]].size < n
    ensures |ring| == 1 ==> Search(mem, ring, 0, 1, n) == -1
  {
  }

  /** Unless element i has n units, a search from i goes on after it. */
  lemma SearchStep(mem: seq<Header>, ring: seq<nat>, i: nat, left: nat, n: nat)
    requires i < |ring| && ring[i] < |mem| && 0 < left
    ensures mem[ring[i]].size >= n ==> Search(mem, ring, i, left, n) == i
    ensures mem[ring[i]].size < n ==>
              Search(mem, ring, i, left, n) == Search(mem, ring, After(i, |ring|), left - 1, n)
    ensures left == 1 && mem[ring[i]].size < n ==> Search(mem, ring, i, left, n) == -1
  {
  }

  /** After morecore some block is large enough. */
  lemma GrownFits(mem: seq<Header>, ring: seq<nat>, owner: seq<Tag>, v: seq<Status>, gap: nat, m: nat, n: nat, at: nat)
    requires Good(mem, ring, owner) && Sparse(mem, ring) && at < |ring|
    requires View(owner) == Grow(v, gap, m) && 1 <= n <= m && |v| > 0
    ensures Search(mem, ring, After(at, |ring|), |ring|, n) >= 0
  {
    var u := |owner| - 1;
    assert View(owner)[u] == Free;
    assert Placed(mem, owner, u);
    var b := owner[u].at;
    assert Head(owner, b) && Whole(mem, owner, b);
    if b > |owner| - m {
      HeadIff(mem, ring, owner, b);
    }
    assert mem[b].size >= m;
    assert b in ring;
    var j: nat :| j < |ring| && ring[j] == b;
    if Search(mem, ring, After(at, |ring|), |ring|, n) == -1 {
      SearchMisses(mem, ring, After(at, |ring|), |ring|, n, j);
    }
  }

  /** No block is live at the place that is taken from element i. */
  lemma NotUsed(mem: seq<Header>, ring: seq<nat>, owner: seq<Tag>, i: nat, n: nat)
    requires Good(mem, ring, owner) && 0 < i < |ring| && ring[i] < |mem| && 1 <= n <= mem[ring[i]].size
    ensures Used(ring[i] + mem[ring[i]].size - n) !in View(owner)
  {
    var a := ring[i] + mem[ring[i]].size - n;
    InMemory(mem, ring, i);
    assert ring[i] in ring;
    assert Head(owner, ring[i]) && Whole(mem, owner, ring[i]);
    forall u: nat | u < |owner|
      ensures View(owner)[u] != Used(a)
    {
      assert Placed(mem, owner, u);
    }
  }

  lemma StillUnused(v: seq<Status>, w: seq<Status>, gap: nat, m: nat, a: nat)
    requires (w == v || w == Grow(v, gap, m)) && Used(a) !in w
    ensures Used(a) !in v
  {
    forall u | 0 <= u < |v|
      ensures v[u] != Used(a)
    {
      assert v[u] == w[u];
      assert w[u] in w;
    }
  }

  lemma BaseIsEmpty(mem: seq<Header>, ring: seq<nat>, owner: seq<Tag>)
    requires Good(mem, ring, owner)
    ensures |ring| > 0 && ring[0] == BASE < |mem| && mem[BASE].size == 0 && |View(owner)| == |mem|
  {
  }

  /** Above all of memory, a new block fits after the last element. */
  lemma LastFits(mem: seq<Header>, ring: seq<nat>, owner: seq<Tag>, i: nat, b: nat)
    requires Good(mem, ring, owner) && Fits(ring, i, b) && b >= |mem|
    ensures i == |ring| - 1
  {
    if i + 1 < |ring| {
      InMemory(mem, ring, i + 1);
    }
  }

  lemma ScribbleGood(mem: seq<Header>, ring: seq<nat>, owner: seq<Tag>, u: nat, h: Header)
    requires u < |mem| == |owner| && owner[u].LiveIn? && owner[u].at != u
    requires Good(mem, ring, owner) && Sparse(mem, ring)
    ensures Good(mem[u := h], ring, owner) && Sparse(mem[u := h], ring)
  {
    var mem' := mem[u := h];
    forall i: nat | i < |ring|
      ensures ring[i] != u && ring[i] < |mem|
    {
      InMemory(mem, ring, i);
      assert ring[i] in ring;
    }
    forall i: nat | i + 1 < |ring|
      ensures Link(mem', ring, i)
    {
      assert Link(mem, ring, i);
    }
    forall i: nat
      ensures Apart(mem', ring, i)
    {
      assert Apart(mem, ring, i);
    }
    forall v: nat | v < |owner|
      ensures Placed(mem', owner, v)
    {
      assert Placed(mem, owner, v);
    }
    forall a: nat | Head(owner, a)
      ensures Whole(mem', owner, a)
    {
      assert Whole(mem, owner, a);
    }
  }

  /** Some element of the circle is the last one below b. */
  lemma PlaceExists(mem: seq<Header>, ring: seq<nat>, owner: seq<Tag>, b: nat) returns (k: nat)
    requires Good(mem, ring, owner) && b < |owner| && owner[b] == LiveIn(b)
    ensures Fits(ring, k, b)
  {
    assert b > BASE;
    k := 0;
    while k + 1 < |ring| && ring[k + 1] < b
      invariant k < |ring| && ring[k] < b
    {
      k := k + 1;
    }
    if k + 1 < |ring| {
      assert ring[k + 1] in ring;
    }
  }

  /** An element that is not the place for b sends the loop of free on (umalloc.c:30-32). */
  lemma NextStep(mem: seq<Header>, ring: seq<nat>, i: nat, k: nat, b: nat)
    requires Circle(mem, ring) && i < |ring| && Fits(ring, k, b)
    requires !(b > ring[i] && b < Next(ring, i)) && !(ring[i] >= Next(ring, i) && (b > ring[i] || b < Next(ring, i)))
    ensures i != k
  {
    if i + 1 < |ring| {
      Ascending(mem, ring, i, i + 1);
    } else if i > 0 {
      Ascending(mem, ring, 0, i);
    }
  }

  /** Where the loop of free stops, the block fits. */
  lemma LoopFits(mem: seq<Header>, ring: seq<nat>, i: nat, b: nat)
    requires Circle(mem, ring) && i < |ring| && b > BASE
    requires (b > ring[i] && b < Next(ring, i)) || (ring[i] >= Next(ring, i) && (b > ring[i] || b < Next(ring, i)))
    ensures Fits(ring, i, b)
  {
    if i + 1 < |ring| {
      Ascending(mem, ring, i, i + 1);
    } else if i > 0 {
      Ascending(mem, ring, 0, i);
    }
  }

  /** Freeing a block right after it was allocated, without memory from the kernel, gives back the
      same circle with the same blocks. */
  method AllocateAndFree(h: Heap, nbytes: nat) returns (r: nat)
    requires h.Valid() && h.freep != NULL && nbytes < WORD && UnitsFor(nbytes) < TOP
    modifies h
    ensures h.Valid() && h.ring == old(h.ring)
    ensures forall i :: 0 <= i < |h.ring| ==>
              h.ring[i] < |h.mem| && h.ring[i] < |old(h.mem)| && h.mem[h.ring[i]] == old(h.mem)[h.ring[i]]
    ensures h.Units() == old(h.Units())
  {
    hide Good, Sparse, View, Take, Release, AllFree;
    r := h.Malloc(nbytes, Refused);
    if r != NULL {
      TakenIsUsed(old(h.Units()), r - 1, UnitsFor(nbytes));
      ReleaseTake(old(h.Units()), r - 1, UnitsFor(nbytes));
      h.Free(r);
    }
    Canonical(old(h.mem), old(h.ring), old(h.owner), h.mem, h.ring, h.owner);
  }

  lemma TakenIsUsed(v: seq<Status>, a: nat, n: nat)
    requires AllFree(v, a, n) && 1 <= n
    ensures a < |Take(v, a, n)| && Take(v, a, n)[a] == Used(a)
  {
  }
}
