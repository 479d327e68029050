/** Directories and link counts: create, link and unlink (ex4/xv6/sysfile.c) over directory lookup
    and linking (ex4/xv6/fs.c), by paths from the root or from a linked working directory.

    The invariant is about counts: every link count is the number of entries that name the inode. The
    rest is about names: where paths lead, before and after each call. */
module Links {
  import opened Basics
  import opened Paths
  import opened Sums

  const ROOTINO: nat := 1
  const T_DIR: nat := 1
  const T_FILE: nat := 2

  /** A directory entry; inode number 0 marks a free slot. */
  datatype Dirent = Dirent(inum: nat, name: string)

  /** An inode: its type (0 if it is free), its link count, and its entries if it is a directory. */
  datatype Node = Node(kind: nat, nlink: int, entries: seq<Dirent>)

  const FREE_SLOT: Dirent := Dirent(0, "")

  predicate Dots(name: string) {
    name == "." || name == ".."
  }

  // ----- looking names up

  /** The first slot from k on that holds an entry of that name. */
  function Find(es: seq<Dirent>, name: string, k: nat): (r: Option<nat>)
    requires k <= |es|
    ensures r.Some? ==> k <= r.value < |es| && es[r.value].inum != 0 && es[r.value].name == name
    ensures r.None? ==> forall i :: k <= i < |es| ==> es[i].inum == 0 || es[i].name != name
    ensures r.Some? ==> forall i :: k <= i < r.value ==> es[i].inum == 0 || es[i].name != name
    decreases |es| - k
  {
    if k == |es| then None
    else if es[k].inum != 0 && es[k].name == name then Some(k)
    else Find(es, name, k + 1)
  }

  /** Where a path leads from inode d, if every element but the last is a directory that has the next. */
  function Walk(fs: seq<Node>, d: nat, path: seq<string>): Option<nat>
    decreases |path|
  {
    if path == [] then Some(d)
    else if d >= |fs| || fs[d].kind != T_DIR then None
    else
      match Find(fs[d].entries, path[0], 0)
      case None => None
      case Some(k) => Walk(fs, fs[d].entries[k].inum, path[1..])
  }

  /** The directory that is to hold the last element of a path from start. */
  function Parent(fs: seq<Node>, start: nat, path: seq<string>): Option<nat> {
    if path == [] then None
    else
      match Walk(fs, start, path[..|path| - 1])
      case None => None
      case Some(d) => if d < |fs| && fs[d].kind == T_DIR then Some(d) else None
  }

  function LastName(path: seq<string>): string
    requires path != []
  {
    path[|path| - 1]
  }

  predicate Absolute(path: string) {
    path != "" && path[0] == '/'
  }

  /** Where a path starts. */
  function Start(path: string, cwd: nat): nat {
    if Absolute(path) then ROOTINO else cwd
  }

  /** The first free slot, or the end. */
  function Slot(es: seq<Dirent>, k: nat): (r: nat)
    requires k <= |es|
    ensures k <= r <= |es| && (r < |es| ==> es[r].inum == 0)
    decreases |es| - k
  {
    if k == |es| || es[k].inum == 0 then k else Slot(es, k + 1)
  }

  function PutEntry(es: seq<Dirent>, k: nat, e: Dirent): seq<Dirent>
    requires k <= |es|
  {
    if k == |es| then es + [e] else es[k := e]
  }

  function AddEntry(es: seq<Dirent>, name: string, i: nat): seq<Dirent> {
    PutEntry(es, Slot(es, 0), Dirent(i, name))
  }

  /** A new entry goes into the first slot that is free, or behind all if none is. */
  lemma AddEntryIs(es: seq<Dirent>, name: string, i: nat) returns (k: nat)
    ensures k == Slot(es, 0) && (k == |es| || es[k].inum == 0) && forall j :: 0 <= j < k ==> es[j].inum != 0
    ensures k < |AddEntry(es, name, i)| == (if k == |es| then |es| + 1 else |es|)
    ensures AddEntry(es, name, i)[k] == Dirent(i, name)
    ensures forall j :: 0 <= j < |es| && j != k ==> AddEntry(es, name, i)[j] == es[j]
  {
    k := Slot(es, 0);
    SlotsBefore(es, 0);
  }

  lemma {:induction false} SlotsBefore(es: seq<Dirent>, k: nat)
    requires k <= |es|
    ensures forall j :: k <= j < Slot(es, k) ==> es[j].inum != 0
    decreases |es| - k
  {
    if k < |es| && es[k].inum != 0 {
      SlotsBefore(es, k + 1);
    }
  }

  predicate Empty(es: seq<Dirent>) {
    forall k :: 2 <= k < |es| ==> es[k].inum == 0
  }

  // ----- counting

  predicate Linked(x: Node) {
    x.kind == T_DIR && x.nlink > 0
  }

  function IsRef(i: nat): Dirent -> int {
    (e: Dirent) => if e.inum == i && e.name != "." then 1 else 0
  }

  /** How many entries other than "." name inode i, in one directory that is linked, and in all. */
  function RefsIn(i: nat): Node -> int {
    (x: Node) => if Linked(x) then Sum(IsRef(i), x.entries) else 0
  }

  function Refs(fs: seq<Node>, i: nat): int {
    Sum(RefsIn(i), fs)
  }

  function IsOrdinary(i: nat): Dirent -> int {
    (e: Dirent) => if e.inum == i && !Dots(e.name) then 1 else 0
  }

  /** Likewise for entries other than "." and "..". */
  function OrdinaryIn(i: nat): Node -> int {
    (x: Node) => if Linked(x) then Sum(IsOrdinary(i), x.entries) else 0
  }

  function Ordinary(fs: seq<Node>, i: nat): int {
    Sum(OrdinaryIn(i), fs)
  }

  // ----- the invariant

  predicate UniqueNames(es: seq<Dirent>) {
    forall j, k :: 0 <= j < k < |es| && es[j].inum != 0 && es[k].inum != 0 ==> es[j].name != es[k].name
  }

  /** Slot k of directory d: first ".", then "..", then entries for inodes in use; a directory is only
      named in the directory that its ".." names. */
  predicate EntryOk(fs: seq<Node>, d: nat, k: nat) {
    d < |fs| && k < |fs[d].entries| ==>
      var e := fs[d].entries[k];
      && (k == 0 ==> e == Dirent(d, "."))
      && (k == 1 ==> e.name == ".." && ROOTINO <= e.inum < |fs| && Linked(fs[e.inum]))
      && (k >= 2 && e.inum != 0 ==>
            && e.inum < |fs| && fs[e.inum].kind != 0 && !Dots(e.name)
            && (fs[e.inum].kind == T_DIR ==>
                  e.inum != ROOTINO && Linked(fs[e.inum]) && |fs[e.inum].entries| >= 2
                      && fs[e.inum].entries[1].inum == d))
  }

  ghost predicate NodeOk(fs: seq<Node>, i: nat)
    requires i < |fs|
  {
    var x := fs[i];
    && (x.kind == 0 ==> x.nlink == 0)
    && (x.kind != 0 ==> x.nlink == Refs(fs, i))
    && (Linked(x) ==>
          && |x.entries| >= 2 && UniqueNames(x.entries)
          && (forall k: nat :: k < |x.entries| ==> EntryOk(fs, i, k))
          && Ordinary(fs, i) == if i == ROOTINO then 0 else 1)
  }

  /** Every link count is the number of entries that name the inode, names are unique within each
      directory, and the directories form a tree. */
  ghost predicate Inv(fs: seq<Node>) {
    && ROOTINO < |fs| && Linked(fs[ROOTINO]) && fs[0] == Node(0, 0, [])
    && |fs[ROOTINO].entries| >= 2 && fs[ROOTINO].entries[1].inum == ROOTINO
    && forall i: nat :: i < |fs| ==> NodeOk(fs, i)
  }

  /** What mkfs makes: a root directory with "." and "..". */
  function FreshNode(i: nat): Node {
    if i == ROOTINO then Node(T_DIR, 1, [Dirent(ROOTINO, "."), Dirent(ROOTINO, "..")]) else Node(0, 0, [])
  }

  function Fresh(n: nat): seq<Node> {
    seq(n, i requires 0 <= i < n => FreshNode(i))
  }

  // ----- sums

  lemma RefsSet(fs: seq<Node>, d: nat, x: Node, j: nat)
    requires d < |fs|
    ensures Refs(fs[d := x], j) == Refs(fs, j) - RefsIn(j)(fs[d]) + RefsIn(j)(x)
    ensures Ordinary(fs[d := x], j) == Ordinary(fs, j) - OrdinaryIn(j)(fs[d]) + OrdinaryIn(j)(x)
  {
    SumUpdate(RefsIn(j), fs, d, x);
    SumUpdate(OrdinaryIn(j), fs, d, x);
  }

  lemma PutEntrySum(f: Dirent -> int, es: seq<Dirent>, k: nat, e: Dirent)
    requires k <= |es|
    ensures Sum(f, PutEntry(es, k, e)) == Sum(f, es) + f(e) - if k < |es| then f(es[k]) else 0
  {
    if k < |es| {
      SumUpdate(f, es, k, e);
    } else {
      SumConcat(f, es, [e]);
      assert [e][1..] == [];
    }
  }

  lemma RefsNonNegative(x: Node, j: nat)
    ensures 0 <= RefsIn(j)(x) && 0 <= OrdinaryIn(j)(x) <= RefsIn(j)(x)
  {
    SumNonNegative(IsRef(j), x.entries);
    SumNonNegative(IsOrdinary(j), x.entries);
    SumBound(IsOrdinary(j), IsRef(j), 1, x.entries);
  }

  /** An entry in a linked directory is counted. */
  lemma EntryCounts(fs: seq<Node>, d: nat, k: nat)
    requires d < |fs| && Linked(fs[d]) && k < |fs[d].entries|
    ensures var e := fs[d].entries[k];
            && (e.name != "." ==> RefsIn(e.inum)(fs[d]) >= 1 && Refs(fs, e.inum) >= 1)
            && (!Dots(e.name) ==> OrdinaryIn(e.inum)(fs[d]) >= 1 && Ordinary(fs, e.inum) >= 1)
  {
    var e := fs[d].entries[k];
    SumAtLeast(IsRef(e.inum), fs[d].entries, k);
    SumAtLeast(IsOrdinary(e.inum), fs[d].entries, k);
    forall i | 0 <= i < |fs|
      ensures 0 <= RefsIn(e.inum)(fs[i]) && 0 <= OrdinaryIn(e.inum)(fs[i])
    {
      RefsNonNegative(fs[i], e.inum);
    }
    SumAtLeast(RefsIn(e.inum), fs, d);
    SumAtLeast(OrdinaryIn(e.inum), fs, d);
  }

  /** A counted inode has an entry in a linked directory. */
  lemma OrdinaryEntry(fs: seq<Node>, i: nat) returns (d: nat, k: nat)
    requires Ordinary(fs, i) > 0
    ensures d < |fs| && Linked(fs[d]) && k < |fs[d].entries| && fs[d].entries[k].inum == i
              && !Dots(fs[d].entries[k].name)
  {
    d := SumPositive(OrdinaryIn(i), fs);
    k := SumPositive(IsOrdinary(i), fs[d].entries);
  }

  lemma {:induction false} SumTwo<T>(f: T -> int, s: seq<T>, a: nat, b: nat)
    requires a < |s| && b < |s| && a != b && forall j :: 0 <= j < |s| ==> 0 <= f(s[j])
    ensures f(s[a]) + f(s[b]) <= Sum(f, s)
  {
    if a == 0 {
      SumAtLeast(f, s[1..], b - 1);
    } else if b == 0 {
      SumAtLeast(f, s[1..], a - 1);
    } else {
      SumTwo(f, s[1..], a - 1, b - 1);
    }
  }

  // ----- paths

  lemma EntryAt(fs: seq<Node>, d: nat, k: nat)
    requires Inv(fs) && d < |fs| && Linked(fs[d]) && k < |fs[d].entries|
    ensures EntryOk(fs, d, k)
  {
    assert NodeOk(fs, d);
  }

  predicate EntryLeads(fs: seq<Node>, d: nat, k: nat) {
    d < |fs| && Linked(fs[d]) && k < |fs[d].entries| && fs[d].entries[k].inum != 0 ==>
      var i := fs[d].entries[k].inum;
      ROOTINO <= i < |fs| && fs[i].kind != 0 && (fs[i].kind == T_DIR ==> Linked(fs[i]))
  }

  /** Entries of linked directories lead to inodes in use, and to linked directories. */
  ghost predicate Navigable(fs: seq<Node>) {
    ROOTINO < |fs| && Linked(fs[ROOTINO]) && forall d: nat, k: nat :: EntryLeads(fs, d, k)
  }

  lemma InvNavigable(fs: seq<Node>)
    requires Inv(fs)
    ensures Navigable(fs)
  {
    forall d: nat, k: nat
      ensures EntryLeads(fs, d, k)
    {
      if d < |fs| && Linked(fs[d]) && k < |fs[d].entries| {
        EntryAt(fs, d, k);
      }
    }
  }

  /** A place that a path may lead to. */
  predicate Reached(fs: seq<Node>, i: nat) {
    ROOTINO <= i < |fs| && fs[i].kind != 0 && (fs[i].kind == T_DIR ==> Linked(fs[i]))
  }

  /** The path does not start in a working directory that has been unlinked. */
  predicate Startable(fs: seq<Node>, path: string, cwd: nat) {
    Absolute(path) || Reached(fs, cwd)
  }

  /** Every path leads to an inode in use, and to a directory only if it is linked. */
  lemma {:induction false} WalkLinked(fs: seq<Node>, d: nat, path: seq<string>)
    requires Navigable(fs) && Reached(fs, d)
    ensures Walk(fs, d, path).Some? ==> Reached(fs, Walk(fs, d, path).value)
    decreases |path|
  {
    if path != [] && fs[d].kind == T_DIR {
      match Find(fs[d].entries, path[0], 0)
      case None =>
      case Some(k) =>
        assert EntryLeads(fs, d, k);
        WalkLinked(fs, fs[d].entries[k].inum, path[1..]);
    }
  }

  predicate SameNames(fs: seq<Node>, fs': seq<Node>) {
    |fs'| == |fs| && forall i :: 0 <= i < |fs| ==> fs'[i].kind == fs[i].kind && fs'[i].entries == fs[i].entries
  }

  /** Link counts have no influence on where paths lead. */
  lemma {:induction false} WalkSame(fs: seq<Node>, fs': seq<Node>, d: nat, path: seq<string>)
    requires SameNames(fs, fs')
    ensures Walk(fs', d, path) == Walk(fs, d, path)
    decreases |path|
  {
    if path != [] && d < |fs| && fs[d].kind == T_DIR {
      match Find(fs[d].entries, path[0], 0)
      case None =>
      case Some(k) => WalkSame(fs, fs', fs[d].entries[k].inum, path[1..]);
    }
  }

  lemma BumpNavigable(fs: seq<Node>, i: nat)
    requires Navigable(fs) && i < |fs| && fs[i].kind != T_DIR
    ensures Navigable(fs[i := Node(fs[i].kind, fs[i].nlink + 1, fs[i].entries)])
  {
    var fs' := fs[i := Node(fs[i].kind, fs[i].nlink + 1, fs[i].entries)];
    forall d: nat, k: nat
      ensures EntryLeads(fs', d, k)
    {
      assert EntryLeads(fs, d, k);
    }
  }

  /** The parent of a linked directory other than the root holds it. */
  lemma HolderOf(fs: seq<Node>, c: nat) returns (k: nat)
    requires Inv(fs) && c < |fs| && Linked(fs[c]) && c != ROOTINO
    ensures |fs[c].entries| >= 2 && fs[c].entries[1].inum < |fs|
    ensures var p := fs[c].entries[1].inum;
            && Linked(fs[p]) && 2 <= k < |fs[p].entries|
            && fs[p].entries[k].inum == c && !Dots(fs[p].entries[k].name)
  {
    assert NodeOk(fs, c);
    var p;
    p, k := OrdinaryEntry(fs, c);
    EntryAt(fs, p, k);
  }

  // ----- link

  function Linking(fs: seq<Node>, d: nat, name: string, i: nat): seq<Node>
    requires d < |fs| && i < |fs|
  {
    var more := fs[i := Node(fs[i].kind, fs[i].nlink + 1, fs[i].entries)];
    more[d := Node(more[d].kind, more[d].nlink, AddEntry(more[d].entries, name, i))]
  }

  /** A name that a linked directory does not have goes into a slot behind the dots. */
  lemma NewEntry(fs: seq<Node>, d: nat, name: string, i: nat)
    requires Inv(fs) && ROOTINO <= d < |fs| && Linked(fs[d]) && Find(fs[d].entries, name, 0).None? && i != 0
    ensures var es, k := fs[d].entries, Slot(fs[d].entries, 0);
            && 2 <= k && !Dots(name) && UniqueNames(AddEntry(es, name, i))
            && (forall j: nat :: 0 < j ==>
                  Sum(IsRef(j), AddEntry(es, name, i)) == Sum(IsRef(j), es) + (if j == i then 1 else 0)
                  && Sum(IsOrdinary(j), AddEntry(es, name, i)) == Sum(IsOrdinary(j), es) + if j == i then 1 else 0)
  {
    var es := fs[d].entries;
    assert NodeOk(fs, d);
    assert EntryOk(fs, d, 0) && EntryOk(fs, d, 1);
    var k := Slot(es, 0);
    forall j: nat | 0 < j
      ensures Sum(IsRef(j), AddEntry(es, name, i)) == Sum(IsRef(j), es) + (if j == i then 1 else 0)
      ensures Sum(IsOrdinary(j), AddEntry(es, name, i)) == Sum(IsOrdinary(j), es) + if j == i then 1 else 0
    {
      PutEntrySum(IsRef(j), es, k, Dirent(i, name));
      PutEntrySum(IsOrdinary(j), es, k, Dirent(i, name));
    }
  }

  lemma LinkRefs(fs: seq<Node>, d: nat, name: string, i: nat, j: nat)
    requires Inv(fs) && ROOTINO <= d < |fs| && Linked(fs[d]) && Find(fs[d].entries, name, 0).None?
    requires ROOTINO <= i < |fs| && fs[i].kind != 0 && fs[i].kind != T_DIR && 0 < j
    ensures Refs(Linking(fs, d, name, i), j) == Refs(fs, j) + if j == i then 1 else 0
    ensures Ordinary(Linking(fs, d, name, i), j) == Ordinary(fs, j) + if j == i then 1 else 0
  {
    NewEntry(fs, d, name, i);
    var x := Node(fs[i].kind, fs[i].nlink + 1, fs[i].entries);
    RefsSet(fs, i, x, j);
    RefsSet(fs[i := x], d, Node(fs[d].kind, fs[d].nlink, AddEntry(fs[d].entries, name, i)), j);
  }

  lemma LinkKeepsInv(fs: seq<Node>, d: nat, name: string, i: nat)
    requires Inv(fs) && ROOTINO <= d < |fs| && Linked(fs[d]) && Find(fs[d].entries, name, 0).None?
    requires ROOTINO <= i < |fs| && fs[i].kind != 0 && fs[i].kind != T_DIR
    ensures Inv(Linking(fs, d, name, i))
  {
    hide Refs, Ordinary;
    var fs' := Linking(fs, d, name, i);
    NewEntry(fs, d, name, i);
    forall j: nat | j < |fs'|
      ensures NodeOk(fs', j)
    {
      assert NodeOk(fs, j);
      if j > 0 {
        LinkRefs(fs, d, name, i, j);
      }
      forall k: nat | Linked(fs'[j]) && k < |fs'[j].entries|
        ensures EntryOk(fs', j, k)
      {
        assert k < |fs[j].entries| ==> EntryOk(fs, j, k);
      }
    }
    assert NodeOk(fs, i);
  }

  // ----- create

  function NewNode(kind: nat, i: nat, d: nat): Node {
    Node(kind, 1, if kind == T_DIR then [Dirent(i, "."), Dirent(d, "..")] else [])
  }

  function Creating(fs: seq<Node>, d: nat, name: string, kind: nat, i: nat): seq<Node>
    requires d < |fs| && i < |fs| && i != d
  {
    fs[i := NewNode(kind, i, d)]
      [d := Node(fs[d].kind, fs[d].nlink + (if kind == T_DIR then 1 else 0), AddEntry(fs[d].entries, name, i))]
  }

  /** A free inode is named nowhere. */
  lemma FreeUnnamed(fs: seq<Node>, i: nat)
    requires Inv(fs) && 0 < i < |fs| && fs[i].kind == 0
    ensures Refs(fs, i) == 0 && Ordinary(fs, i) == 0
  {
    forall d | 0 <= d < |fs|
      ensures RefsIn(i)(fs[d]) == 0 && OrdinaryIn(i)(fs[d]) == 0
    {
      if Linked(fs[d]) {
        forall k | 0 <= k < |fs[d].entries|
          ensures IsRef(i)(fs[d].entries[k]) == 0 && IsOrdinary(i)(fs[d].entries[k]) == 0
        {
          EntryAt(fs, d, k);
        }
        SumZero(IsRef(i), fs[d].entries);
        SumZero(IsOrdinary(i), fs[d].entries);
      }
    }
    SumZero(RefsIn(i), fs);
    SumZero(OrdinaryIn(i), fs);
  }

  lemma NewNodeRefs(kind: nat, i: nat, d: nat, j: nat)
    requires 0 < j && i != 0
    ensures RefsIn(j)(NewNode(kind, i, d)) == if kind == T_DIR && j == d then 1 else 0
    ensures OrdinaryIn(j)(NewNode(kind, i, d)) == 0
  {
    if kind == T_DIR {
      var es := [Dirent(i, "."), Dirent(d, "..")];
      assert es[1..] == [Dirent(d, "..")] && es[1..][1..] == [];
      assert Sum(IsRef(j), es[1..]) == IsRef(j)(es[1]) + Sum(IsRef(j), []);
      assert Sum(IsOrdinary(j), es[1..]) == IsOrdinary(j)(es[1]) + Sum(IsOrdinary(j), []);
    }
  }

  predicate CanCreate(fs: seq<Node>, d: nat, name: string, kind: nat, i: nat) {
    && ROOTINO <= d < |fs| && Linked(fs[d]) && Find(fs[d].entries, name, 0).None?
    && kind != 0 && ROOTINO < i < |fs| && fs[i].kind == 0
  }

  lemma CreateRefs(fs: seq<Node>, d: nat, name: string, kind: nat, i: nat, j: nat)
    requires Inv(fs) && CanCreate(fs, d, name, kind, i) && 0 < j
    ensures Refs(Creating(fs, d, name, kind, i), j)
            == Refs(fs, j) + (if j == i then 1 else 0) + if kind == T_DIR && j == d then 1 else 0
    ensures Ordinary(Creating(fs, d, name, kind, i), j) == Ordinary(fs, j) + if j == i then 1 else 0
  {
    assert NodeOk(fs, d);
    NewEntry(fs, d, name, i);
    NewNodeRefs(kind, i, d, j);
    var x := Node(fs[d].kind, fs[d].nlink + (if kind == T_DIR then 1 else 0), AddEntry(fs[d].entries, name, i));
    RefsSet(fs, i, NewNode(kind, i, d), j);
    RefsSet(fs[i := NewNode(kind, i, d)], d, x, j);
  }

  lemma CreateKeepsInv(fs: seq<Node>, d: nat, name: string, kind: nat, i: nat)
    requires Inv(fs) && CanCreate(fs, d, name, kind, i)
    ensures Inv(Creating(fs, d, name, kind, i))
  {
    hide Refs, Ordinary;
    var fs' := Creating(fs, d, name, kind, i);
    NewEntry(fs, d, name, i);
    FreeUnnamed(fs, i);
    assert NodeOk(fs, i) && NodeOk(fs, d);
    forall j: nat | j < |fs'|
      ensures NodeOk(fs', j)
    {
      assert NodeOk(fs, j);
      if j > 0 {
        CreateRefs(fs, d, name, kind, i, j);
      }
      forall k: nat | Linked(fs'[j]) && k < |fs'[j].entries|
        ensures EntryOk(fs', j, k)
      {
        assert j != i && k < |fs[j].entries| ==> EntryOk(fs, j, k);
      }
    }
  }

  // ----- directories that are held but no longer linked

  /** A name in a directory without links is not counted: link keeps the counts right exactly if the
      directory of the new name is linked. */
  lemma LinkKeepsInvIff(fs: seq<Node>, d: nat, name: string, i: nat)
    requires Inv(fs) && ROOTINO <= d < |fs| && fs[d].kind == T_DIR && Find(fs[d].entries, name, 0).None?
    requires ROOTINO <= i < |fs| && fs[i].kind != 0 && fs[i].kind != T_DIR
    ensures Inv(Linking(fs, d, name, i)) <==> Linked(fs[d])
  {
    if Linked(fs[d]) {
      LinkKeepsInv(fs, d, name, i);
    } else {
      var x := Node(fs[i].kind, fs[i].nlink + 1, fs[i].entries);
      var y := Node(fs[d].kind, fs[d].nlink, AddEntry(fs[d].entries, name, i));
      RefsSet(fs, i, x, i);
      RefsSet(fs[i := x], d, y, i);
      assert NodeOk(fs, i) && !NodeOk(fs[i := x][d := y], i);
    }
  }

  /** Likewise create, for every kind of inode: in a directory that is held but no longer linked, the
      new inode has a link that no linked directory has an entry for. */
  lemma CreateKeepsInvIff(fs: seq<Node>, d: nat, name: string, kind: nat, i: nat)
    requires Inv(fs) && ROOTINO <= d < |fs| && fs[d].kind == T_DIR && Find(fs[d].entries, name, 0).None?
    requires kind != 0 && ROOTINO < i < |fs| && fs[i].kind == 0
    ensures Inv(Creating(fs, d, name, kind, i)) <==> Linked(fs[d])
  {
    if Linked(fs[d]) {
      CreateKeepsInv(fs, d, name, kind, i);
    } else if kind == T_DIR {
      NewDirectoryUnlinked(fs, d, name, i);
    } else {
      var y := Node(fs[d].kind, fs[d].nlink, AddEntry(fs[d].entries, name, i));
      FreeUnnamed(fs, i);
      NewNodeRefs(kind, i, d, i);
      RefsSet(fs, i, NewNode(kind, i, d), i);
      RefsSet(fs[i := NewNode(kind, i, d)], d, y, i);
      assert !NodeOk(Creating(fs, d, name, kind, i), i);
    }
  }

  /** The new directory's ".." gives the old one a link again, but no name. */
  lemma NewDirectoryUnlinked(fs: seq<Node>, d: nat, name: string, i: nat)
    requires Inv(fs) && ROOTINO < d < |fs| && fs[d].kind == T_DIR && !Linked(fs[d])
    requires ROOTINO < i < |fs| && fs[i].kind == 0
    ensures !Inv(Creating(fs, d, name, T_DIR, i))
  {
    var x, y := NewNode(T_DIR, i, d), Node(T_DIR, fs[d].nlink + 1, AddEntry(fs[d].entries, name, i));
    assert NodeOk(fs, d);
    RefsAtLeast(fs, d);
    NewNodeRefs(T_DIR, i, d, d);
    RefsSet(fs, i, x, d);
    RefsSet(fs[i := x], d, y, d);
    RefsNonNegative(y, d);
    assert !NodeOk(Creating(fs, d, name, T_DIR, i), d);
  }

  lemma RefsAtLeast(fs: seq<Node>, i: nat)
    ensures 0 <= Ordinary(fs, i) <= Refs(fs, i)
  {
    forall x: Node
      ensures 0 <= OrdinaryIn(i)(x) <= RefsIn(i)(x)
    {
      RefsNonNegative(x, i);
    }
    SumNonNegative(OrdinaryIn(i), fs);
    SumBound(OrdinaryIn(i), RefsIn(i), 1, fs);
  }

  // ----- unlink

  /** Slot k of directory d is cleared, the link counts go down, and an inode without links is freed
      unless somebody still holds it. */
  function Unlinking(fs: seq<Node>, d: nat, k: nat, held: bool): seq<Node>
    requires d < |fs| && k < |fs[d].entries| && fs[d].entries[k].inum < |fs| && fs[d].entries[k].inum != d
  {
    var i := fs[d].entries[k].inum;
    var x := fs[i];
    fs[d := Node(fs[d].kind, fs[d].nlink - (if x.kind == T_DIR then 1 else 0), fs[d].entries[k := FREE_SLOT])]
      [i := if x.nlink == 1 && !held then Node(0, 0, []) else Node(x.kind, x.nlink - 1, x.entries)]
  }

  predicate CanUnlink(fs: seq<Node>, d: nat, k: nat) {
    && ROOTINO <= d < |fs| && Linked(fs[d]) && 2 <= k < |fs[d].entries| && fs[d].entries[k].inum != 0
    && fs[d].entries[k].inum < |fs|
    && (fs[fs[d].entries[k].inum].kind == T_DIR ==> Empty(fs[fs[d].entries[k].inum].entries))
  }

  /** In an empty directory only the dots are entries. */
  lemma EmptyRefs(fs: seq<Node>, i: nat, j: nat)
    requires Inv(fs) && i < |fs| && Linked(fs[i]) && |fs[i].entries| >= 2 && i != ROOTINO && Empty(fs[i].entries)
              && 0 < j
    ensures RefsIn(j)(fs[i]) == if j == fs[i].entries[1].inum then 1 else 0
    ensures OrdinaryIn(j)(fs[i]) == 0
  {
    assert NodeOk(fs, i);
    assert EntryOk(fs, i, 0) && EntryOk(fs, i, 1);
    var es := fs[i].entries;
    var rest := es[2..];
    assert es[1..][1..] == rest;
    SumZero(IsRef(j), rest);
    SumZero(IsOrdinary(j), rest);
    assert Sum(IsRef(j), es) == IsRef(j)(es[0]) + (IsRef(j)(es[1]) + Sum(IsRef(j), rest));
    assert Sum(IsOrdinary(j), es) == IsOrdinary(j)(es[0]) + (IsOrdinary(j)(es[1]) + Sum(IsOrdinary(j), rest));
  }

  /** An empty directory has one link: nobody's ".." names it. */
  lemma EmptyOneLink(fs: seq<Node>, i: nat)
    requires Inv(fs) && i < |fs| && Linked(fs[i]) && i != ROOTINO && Empty(fs[i].entries)
    ensures fs[i].nlink == 1
  {
    assert NodeOk(fs, i);
    forall c: nat | c < |fs|
      ensures RefsIn(i)(fs[c]) == OrdinaryIn(i)(fs[c])
    {
      if Linked(fs[c]) {
        assert NodeOk(fs, c);
        if c != ROOTINO && fs[c].entries[1].inum == i {
          var k := HolderOf(fs, c);
        }
        forall k: nat | k < |fs[c].entries|
          ensures IsRef(i)(fs[c].entries[k]) == IsOrdinary(i)(fs[c].entries[k])
        {
          assert EntryOk(fs, c, k);
        }
        SumSame(IsRef(i), fs[c].entries, IsOrdinary(i), fs[c].entries);
      }
    }
    SumSame(RefsIn(i), fs, OrdinaryIn(i), fs);
  }

  /** The directory that holds another one has a link besides that one's "..". */
  lemma HolderTwoLinks(fs: seq<Node>, d: nat, i: nat)
    requires Inv(fs) && ROOTINO <= d < |fs| && Linked(fs[d]) && i < |fs| && Linked(fs[i]) && i != ROOTINO && i != d
    requires Empty(fs[i].entries) && |fs[i].entries| >= 2 && fs[i].entries[1].inum == d
    ensures fs[d].nlink >= 2
  {
    assert NodeOk(fs, d) && NodeOk(fs, i);
    EntryAt(fs, i, 1);
    EntryCounts(fs, i, 1);
    var y: nat;
    if d == ROOTINO {
      EntryAt(fs, d, 1);
      EntryCounts(fs, d, 1);
      y := d;
    } else {
      y := fs[d].entries[1].inum;
      var k := HolderOf(fs, d);
      EntryCounts(fs, y, k);
    }
    assert y != i;
    forall j | 0 <= j < |fs|
      ensures 0 <= RefsIn(d)(fs[j])
    {
      RefsNonNegative(fs[j], d);
    }
    SumTwo(RefsIn(d), fs, y, i);
  }

  /** What unlink may rely on: the inode's link count is positive, so its panic is unreachable. */
  lemma UnlinkFacts(fs: seq<Node>, d: nat, k: nat)
    requires Inv(fs) && CanUnlink(fs, d, k)
    ensures var i := fs[d].entries[k].inum;
            && ROOTINO < i && i != d && fs[i].kind != 0 && fs[i].nlink >= 1
            && (fs[i].kind == T_DIR ==>
                Linked(fs[i]) && fs[i].nlink == 1 && |fs[i].entries| >= 2 && fs[i].entries[1].inum == d
                    && fs[d].nlink >= 2)
  {
    var i := fs[d].entries[k].inum;
    EntryAt(fs, d, k);
    EntryCounts(fs, d, k);
    assert NodeOk(fs, i) && NodeOk(fs, d);
    if fs[i].kind == T_DIR {
      if i == d {
        assert false;
      }
      EmptyOneLink(fs, i);
      HolderTwoLinks(fs, d, i);
    }
  }

  /** The link count is kept in a short, which is the true count seen in 16 bits (ShortAdd). So the
      panic of unlink is reached if and only if the count's low 16 bits are 0 or at least 2^15: for
      fewer than 2^16 links, from 2^15 links on. */
  lemma ShortPanicsIff(fs: seq<Node>, d: nat, k: nat)
    requires Inv(fs) && CanUnlink(fs, d, k)
    ensures var n := fs[fs[d].entries[k].inum].nlink;
            && (Short(n) < 1 <==> n % 0x1_0000 == 0 || 0x8000 <= n % 0x1_0000)
            && (n < 0x1_0000 ==> (Short(n) < 1 <==> 0x8000 <= n))
  {
    UnlinkFacts(fs, d, k);
  }

  lemma UnlinkRefs(fs: seq<Node>, d: nat, k: nat, held: bool, j: nat)
    requires Inv(fs) && CanUnlink(fs, d, k) && 0 < j && fs[d].entries[k].inum != d
    ensures var i := fs[d].entries[k].inum;
            && Refs(Unlinking(fs, d, k, held), j)
               == Refs(fs, j) - (if j == i then 1 else 0) - (if fs[i].kind == T_DIR && j == d then 1 else 0)
            && Ordinary(Unlinking(fs, d, k, held), j) == Ordinary(fs, j) - if j == i then 1 else 0
  {
    UnlinkFacts(fs, d, k);
    EntryAt(fs, d, k);
    var i := fs[d].entries[k].inum;
    var x := Node(fs[d].kind, fs[d].nlink - (if fs[i].kind == T_DIR then 1 else 0), fs[d].entries[k := FREE_SLOT]);
    var y := if fs[i].nlink == 1 && !held then Node(0, 0, []) else Node(fs[i].kind, fs[i].nlink - 1, fs[i].entries);
    SumUpdate(IsRef(j), fs[d].entries, k, FREE_SLOT);
    SumUpdate(IsOrdinary(j), fs[d].entries, k, FREE_SLOT);
    RefsSet(fs, d, x, j);
    RefsSet(fs[d := x], i, y, j);
    if fs[i].kind == T_DIR {
      EmptyRefs(fs, i, j);
    }
  }

  lemma UnlinkKeepsInv(fs: seq<Node>, d: nat, k: nat, held: bool)
    requires Inv(fs) && CanUnlink(fs, d, k) && fs[d].entries[k].inum != d
    ensures Inv(Unlinking(fs, d, k, held))
  {
    hide Refs, Ordinary, RefsIn, OrdinaryIn;
    UnlinkFacts(fs, d, k);
    var fs' := Unlinking(fs, d, k, held);
    var i := fs[d].entries[k].inum;
    assert NodeOk(fs, i) && NodeOk(fs, d);
    forall j: nat | j < |fs'|
      ensures NodeOk(fs', j)
    {
      assert NodeOk(fs, j);
      if j > 0 {
        UnlinkRefs(fs, d, k, held, j);
      }
      forall s: nat | Linked(fs'[j]) && s < |fs'[j].entries|
        ensures EntryOk(fs', j, s)
      {
        StillNamed(fs, d, k, held, j, s);
      }
    }
  }

  /** The entries that are left name inodes that are left. */
  lemma StillNamed(fs: seq<Node>, d: nat, k: nat, held: bool, j: nat, s: nat)
    requires Inv(fs) && CanUnlink(fs, d, k) && fs[d].entries[k].inum != d
    requires j < |fs| && Linked(Unlinking(fs, d, k, held)[j]) && s < |Unlinking(fs, d, k, held)[j].entries|
    ensures EntryOk(Unlinking(fs, d, k, held), j, s)
  {
    UnlinkFacts(fs, d, k);
    var fs' := Unlinking(fs, d, k, held);
    var i := fs[d].entries[k].inum;
    EntryAt(fs, j, s);
    assert NodeOk(fs, i) && NodeOk(fs, d);
    var e := fs'[j].entries[s];
    if e.inum == i && e.name != "." {
      UnlinkRefs(fs, d, k, held, i);
      EntryCounts(fs', j, s);
    }
  }

  /** The last holder of an inode without links drops it. */
  lemma DropKeepsInv(fs: seq<Node>, i: nat)
    requires Inv(fs) && i < |fs| && fs[i].kind != 0 && fs[i].nlink == 0
    ensures Inv(fs[i := Node(0, 0, [])])
  {
    hide Refs, Ordinary, RefsIn, OrdinaryIn;
    var fs' := fs[i := Node(0, 0, [])];
    assert NodeOk(fs, i);
    forall j: nat | j < |fs'|
      ensures NodeOk(fs', j)
    {
      assert NodeOk(fs, j);
      DropRefs(fs, i, j);
      forall k: nat | Linked(fs'[j]) && k < |fs'[j].entries|
        ensures EntryOk(fs', j, k)
      {
        EntryAt(fs, j, k);
        EntryCounts(fs, j, k);
      }
    }
  }

  lemma DropRefs(fs: seq<Node>, i: nat, j: nat)
    requires i < |fs| && fs[i].nlink == 0
    ensures Refs(fs[i := Node(0, 0, [])], j) == Refs(fs, j) && Ordinary(fs[i := Node(0, 0, [])], j) == Ordinary(fs, j)
  {
    RefsSet(fs, i, Node(0, 0, []), j);
  }

  lemma FreshInv(n: nat)
    requires ROOTINO < n
    ensures Inv(Fresh(n))
  {
    var fs := Fresh(n);
    forall i: nat | 0 < i < n
      ensures Refs(fs, i) == (if i == ROOTINO then 1 else 0) && Ordinary(fs, i) == 0
    {
      FreshRefs(n, i);
    }
  }

  lemma FreshRefs(n: nat, i: nat)
    requires ROOTINO < n && 0 < i
    ensures Refs(Fresh(n), i) == (if i == ROOTINO then 1 else 0) && Ordinary(Fresh(n), i) == 0
  {
    var fs, empty := Fresh(n), Node(0, 0, []);
    var none := fs[ROOTINO := empty];
    assert none[ROOTINO := fs[ROOTINO]] == fs;
    SumZero(RefsIn(i), none);
    SumZero(OrdinaryIn(i), none);
    RefsSet(none, ROOTINO, fs[ROOTINO], i);
    NewNodeRefs(T_DIR, ROOTINO, ROOTINO, i);
  }

  // ----- where names lead

  lemma {:induction false} FindIs(es: seq<Dirent>, name: string, k: nat, from: nat)
    requires from <= k < |es| && es[k].inum != 0 && es[k].name == name
    requires forall j :: from <= j < k ==> es[j].inum == 0 || es[j].name != name
    ensures Find(es, name, from) == Some(k)
    decreases k - from
  {
    if from < k {
      FindIs(es, name, k, from + 1);
    }
  }

  /** A path leads where its second part leads from where its first part leads. */
  lemma {:induction false} WalkJoined(fs: seq<Node>, d: nat, p: seq<string>, q: seq<string>)
    ensures Walk(fs, d, []) == Some(d)
    ensures Walk(fs, d, p).None? ==> Walk(fs, d, p + q).None?
    ensures Walk(fs, d, p).Some? ==> Walk(fs, d, p + q) == Walk(fs, Walk(fs, d, p).value, q)
    decreases |p|
  {
    if p == [] {
      assert p + q == q;
    } else {
      assert (p + q)[0] == p[0] && (p + q)[1..] == p[1..] + q;
      if d < |fs| && fs[d].kind == T_DIR {
        var k := Find(fs[d].entries, p[0], 0);
        if k.Some? {
          WalkJoined(fs, fs[d].entries[k.value].inum, p[1..], q);
        }
      }
    }
  }

  /** Slot k of e, which p leads to from d, is the first with that name, and names inode i. */
  predicate Names(fs: seq<Node>, d: nat, p: seq<string>, name: string, i: nat, e: nat, k: nat) {
    && Walk(fs, d, p) == Some(e) && e < |fs| && fs[e].kind == T_DIR
    && i != 0 && k < |fs[e].entries| && fs[e].entries[k] == Dirent(i, name)
    && forall j :: 0 <= j < k ==> fs[e].entries[j].inum == 0 || fs[e].entries[j].name != name
  }

  /** A path leads to an inode, whatever its type, exactly if all but its last element leads to a
      directory whose first entry of that last name is for the inode. */
  lemma WalkName(fs: seq<Node>, d: nat, p: seq<string>, name: string, i: nat)
    ensures Walk(fs, d, p + [name]) == Some(i) <==> exists e: nat, k: nat :: Names(fs, d, p, name, i, e, k)
  {
    WalkJoined(fs, d, p, [name]);
    if Walk(fs, d, p).Some? {
      var e := Walk(fs, d, p).value;
      assert [name][1..] == [];
      if e < |fs| && fs[e].kind == T_DIR {
        var k := Find(fs[e].entries, name, 0);
        if k.Some? {
          assert Walk(fs, e, [name]) == Some(fs[e].entries[k.value].inum);
          assert Walk(fs, d, p + [name]) == Some(i) ==> Names(fs, d, p, name, i, e, k.value);
        }
        forall k: nat | Names(fs, d, p, name, i, e, k)
          ensures Walk(fs, d, p + [name]) == Some(i)
        {
          FindIs(fs[e].entries, name, k, 0);
        }
      }
    }
  }

  /** A name that is added is found, and all others as before. */
  lemma AddFinds(es: seq<Dirent>, name: string, i: nat, m: string)
    requires i != 0 && Find(es, name, 0).None?
    ensures Find(AddEntry(es, name, i), name, 0) == Some(Slot(es, 0))
    ensures AddEntry(es, name, i)[Slot(es, 0)].inum == i
    ensures m != name ==> Find(AddEntry(es, name, i), m, 0) == Find(es, m, 0)
    ensures |es| <= |AddEntry(es, name, i)|
    ensures m != name && Find(es, m, 0).Some? ==>
              AddEntry(es, name, i)[Find(es, m, 0).value] == es[Find(es, m, 0).value]
  {
    var k := AddEntryIs(es, name, i);
    var es' := AddEntry(es, name, i);
    FindIs(es', name, k, 0);
    if m != name && Find(es, m, 0).Some? {
      FindIs(es', m, Find(es, m, 0).value, 0);
    }
  }

  /** What a directory has under a name it still has. */
  predicate KeepsName(fs: seq<Node>, fs': seq<Node>, d: nat, name: string) {
    d < |fs| == |fs'| && fs[d].kind == T_DIR && Find(fs[d].entries, name, 0).Some? ==>
      && fs'[d].kind == T_DIR && Find(fs'[d].entries, name, 0) == Find(fs[d].entries, name, 0)
      && var k := Find(fs[d].entries, name, 0).value; fs'[d].entries[k].inum == fs[d].entries[k].inum
  }

  /** Then every path that led somewhere still leads there. */
  lemma {:induction false} WalkKept(fs: seq<Node>, fs': seq<Node>, d: nat, path: seq<string>)
    requires |fs'| == |fs| && forall e: nat, m: string :: KeepsName(fs, fs', e, m)
    ensures Walk(fs, d, path).Some? ==> Walk(fs', d, path) == Walk(fs, d, path)
    decreases |path|
  {
    if path != [] && d < |fs| && fs[d].kind == T_DIR {
      assert KeepsName(fs, fs', d, path[0]);
      var k := Find(fs[d].entries, path[0], 0);
      if k.Some? {
        WalkKept(fs, fs', fs[d].entries[k.value].inum, path[1..]);
      }
    }
  }

  /** After link the new path leads to the inode, and every path that led somewhere still leads there. */
  lemma LinkLeads(fs: seq<Node>, s: nat, p: seq<string>, d: nat, name: string, i: nat)
    requires Walk(fs, s, p) == Some(d) && d < |fs| && fs[d].kind == T_DIR && Find(fs[d].entries, name, 0).None?
    requires 0 < i < |fs|
    ensures Walk(Linking(fs, d, name, i), s, p + [name]) == Some(i)
    ensures forall t, q :: Walk(fs, t, q).Some? ==> Walk(Linking(fs, d, name, i), t, q) == Walk(fs, t, q)
  {
    hide Walk, Find, AddEntry;
    var fs' := Linking(fs, d, name, i);
    forall e: nat, m: string
      ensures KeepsName(fs, fs', e, m)
    {
      AddFinds(fs[d].entries, name, i, m);
    }
    forall t: nat, q
      ensures Walk(fs, t, q).Some? ==> Walk(fs', t, q) == Walk(fs, t, q)
    {
      WalkKept(fs, fs', t, q);
    }
    AddFinds(fs[d].entries, name, i, name);
    assert Names(fs', s, p, name, i, d, Slot(fs[d].entries, 0));
    WalkName(fs', s, p, name, i);
  }

  /** Likewise after create; and a new directory's dots lead to it and to the one that holds it. */
  lemma CreateLeads(fs: seq<Node>, s: nat, p: seq<string>, d: nat, name: string, kind: nat, i: nat)
    requires Walk(fs, s, p) == Some(d) && d < |fs| && fs[d].kind == T_DIR && Find(fs[d].entries, name, 0).None?
    requires 0 < i < |fs| && fs[i].kind == 0 && 0 < d
    ensures var fs' := Creating(fs, d, name, kind, i);
            && Walk(fs', s, p + [name]) == Some(i) && fs'[i].kind == kind
            && (kind == T_DIR ==>
                Walk(fs', s, p + [name] + ["."]) == Some(i) && Walk(fs', s, p + [name] + [".."]) == Some(d))
    ensures forall t, q :: Walk(fs, t, q).Some? ==> Walk(Creating(fs, d, name, kind, i), t, q) == Walk(fs, t, q)
  {
    hide Walk, Find, AddEntry;
    var fs' := Creating(fs, d, name, kind, i);
    forall e: nat, m: string
      ensures KeepsName(fs, fs', e, m)
    {
      AddFinds(fs[d].entries, name, i, m);
    }
    forall t: nat, q
      ensures Walk(fs, t, q).Some? ==> Walk(fs', t, q) == Walk(fs, t, q)
    {
      WalkKept(fs, fs', t, q);
    }
    AddFinds(fs[d].entries, name, i, name);
    assert Names(fs', s, p, name, i, d, Slot(fs[d].entries, 0));
    WalkName(fs', s, p, name, i);
    if kind == T_DIR {
      assert Names(fs', s, p + [name], ".", i, i, 0);
      assert Names(fs', s, p + [name], "..", d, i, 1);
      WalkName(fs', s, p + [name], ".", i);
      WalkName(fs', s, p + [name], "..", d);
    }
  }

  /** A path that does not go through the name in directory d. */
  predicate Avoids(fs: seq<Node>, s: nat, path: seq<string>, d: nat, name: string) {
    forall j :: 0 <= j < |path| && path[j] == name ==> Walk(fs, s, path[..j]) != Some(d)
  }

  /** Clearing the only slot of a name: that name is gone, and all others as before. */
  lemma ClearFinds(es: seq<Dirent>, k: nat, m: string)
    requires k < |es| && es[k].inum != 0 && UniqueNames(es)
    ensures Find(es[k := FREE_SLOT], es[k].name, 0).None?
    ensures m != es[k].name ==> Find(es[k := FREE_SLOT], m, 0) == Find(es, m, 0)
  {
    var es' := es[k := FREE_SLOT];
    if m != es[k].name && Find(es, m, 0).Some? {
      FindIs(es', m, Find(es, m, 0).value, 0);
    }
  }

  /** After unlink the paths that avoid the entry lead where they led. */
  lemma {:induction false} UnlinkAvoids(fs: seq<Node>, d: nat, k: nat, held: bool, s: nat, path: seq<string>)
    requires Inv(fs) && CanUnlink(fs, d, k) && fs[d].entries[k].inum != d
    requires Reached(Unlinking(fs, d, k, held), s) && Avoids(fs, s, path, d, fs[d].entries[k].name)
    ensures Walk(Unlinking(fs, d, k, held), s, path) == Walk(fs, s, path)
    decreases |path|
  {
    hide Inv, Find;
    var fs', es := Unlinking(fs, d, k, held), fs[d].entries;
    UnlinkKeepsInv(fs, d, k, held);
    InvNavigable(fs');
    if path != [] && fs'[s].kind == T_DIR {
      assert path[..0] == [];
      assert UniqueNames(es) by {
        InvUnique(fs, d);
      }
      ClearFinds(es, k, path[0]);
      var f := Find(fs'[s].entries, path[0], 0);
      assert f == Find(fs[s].entries, path[0], 0);
      if f.Some? {
        assert EntryLeads(fs', s, f.value);
        var i := fs'[s].entries[f.value].inum;
        forall j | 0 <= j < |path[1..]| && path[1..][j] == es[k].name
          ensures Walk(fs, i, path[1..][..j]) != Some(d)
        {
          assert path[..j + 1][1..] == path[1..][..j];
          assert Walk(fs, s, path[..j + 1]) == Walk(fs, i, path[1..][..j]);
        }
        UnlinkAvoids(fs, d, k, held, i, path[1..]);
      }
    }
  }

  /** Unlink makes no path. */
  lemma {:induction false} UnlinkOnly(fs: seq<Node>, d: nat, k: nat, held: bool, s: nat, path: seq<string>)
    requires Inv(fs) && CanUnlink(fs, d, k) && fs[d].entries[k].inum != d
    ensures Walk(Unlinking(fs, d, k, held), s, path).Some? ==>
              Walk(Unlinking(fs, d, k, held), s, path) == Walk(fs, s, path)
    decreases |path|
  {
    hide Inv, Find;
    var fs', es := Unlinking(fs, d, k, held), fs[d].entries;
    if path != [] && s < |fs'| && fs'[s].kind == T_DIR {
      InvUnique(fs, d);
      ClearFinds(es, k, path[0]);
      var f := Find(fs'[s].entries, path[0], 0);
      if f.Some? {
        UnlinkOnly(fs, d, k, held, fs'[s].entries[f.value].inum, path[1..]);
      }
    }
  }

  /** After unlink the path leads nowhere. */
  lemma UnlinkGone(fs: seq<Node>, d: nat, k: nat, held: bool, s: nat, p: seq<string>)
    requires Inv(fs) && CanUnlink(fs, d, k) && fs[d].entries[k].inum != d && Walk(fs, s, p) == Some(d)
    ensures Walk(Unlinking(fs, d, k, held), s, p + [fs[d].entries[k].name]).None?
  {
    hide Inv, Find;
    var fs', name := Unlinking(fs, d, k, held), fs[d].entries[k].name;
    InvUnique(fs, d);
    ClearFinds(fs[d].entries, k, name);
    UnlinkOnly(fs, d, k, held, s, p);
    WalkJoined(fs', s, p, [name]);
  }

  function Init(path: seq<string>): seq<string>
    requires path != []
  {
    path[..|path| - 1]
  }

  lemma ParentLeads(fs: seq<Node>, s: nat, path: seq<string>)
    requires Parent(fs, s, path).Some?
    ensures path != [] && path == Init(path) + [LastName(path)]
    ensures var d := Parent(fs, s, path);
            Walk(fs, s, Init(path)) == d && d.value < |fs| && fs[d.value].kind == T_DIR
  {
  }

  lemma NotThere(fs: seq<Node>, s: nat, path: seq<string>)
    requires IsNew(fs, s, path)
    ensures Walk(fs, s, path).None?
  {
    ParentLeads(fs, s, path);
    WalkJoined(fs, s, Init(path), [LastName(path)]);
  }

  /** The directory that is to hold a new name is where the rest of the path leads. */
  lemma ParentIff(fs: seq<Node>, s: nat, p: seq<string>, name: string, d: nat)
    ensures Parent(fs, s, []).None? && LastName(p + [name]) == name
    ensures Parent(fs, s, p + [name]) == Some(d) <==> Walk(fs, s, p) == Some(d) && d < |fs| && fs[d].kind == T_DIR
  {
    assert (p + [name])[..|p|] == p;
  }

  /** link succeeds exactly if the old path leads to something other than a directory, and the new one
      leads nowhere yet but all of it except the name does lead to a directory. */
  lemma CanLinkIff(fs: seq<Node>, d: nat, from: seq<string>, e: nat, p: seq<string>, name: string)
    ensures !CanLink(fs, d, from, e, [])
    ensures CanLink(fs, d, from, e, p + [name]) <==>
              && Walk(fs, d, from).Some? && Walk(fs, d, from).value < |fs|
              && fs[Walk(fs, d, from).value].kind != T_DIR
              && Walk(fs, e, p).Some? && Walk(fs, e, p).value < |fs| && fs[Walk(fs, e, p).value].kind == T_DIR
              && Walk(fs, e, p + [name]).None?
  {
    WalkJoined(fs, e, p, [name]);
    assert (p + [name])[..|p|] == p;
  }

  /** unlink succeeds exactly if the path leads somewhere, its last name is not a dot, and a directory
      there has no names but the dots. */
  lemma MayUnlinkIff(fs: seq<Node>, s: nat, p: seq<string>, name: string)
    requires Inv(fs) && Reached(fs, s)
    ensures !MayUnlink(fs, s, [])
    ensures MayUnlink(fs, s, p + [name]) <==>
              && !Dots(name) && Walk(fs, s, p + [name]).Some?
              && var i := Walk(fs, s, p + [name]).value;
                 i < |fs| && (fs[i].kind == T_DIR ==> forall m :: Walk(fs, i, [m]).Some? ==> Dots(m))
  {
    hide Inv, Empty;
    WalkJoined(fs, s, p, [name]);
    assert (p + [name])[..|p|] == p;
    InvNavigable(fs);
    WalkLinked(fs, s, p + [name]);
    if Walk(fs, s, p + [name]).Some? {
      var i := Walk(fs, s, p + [name]).value;
      if fs[i].kind == T_DIR {
        EmptyIff(fs, i);
      }
    }
  }

  lemma EmptyIff(fs: seq<Node>, i: nat)
    requires Inv(fs) && i < |fs| && Linked(fs[i])
    ensures Empty(fs[i].entries) <==> forall m :: Walk(fs, i, [m]).Some? ==> Dots(m)
  {
    var es := fs[i].entries;
    forall m
      ensures Walk(fs, i, [m]).Some? <==> Find(es, m, 0).Some?
    {
      assert [m][1..] == [];
    }
    forall k: nat | k < |es|
      ensures EntryOk(fs, i, k)
      ensures es[k].inum != 0 ==> Find(es, es[k].name, 0).Some?
    {
      EntryAt(fs, i, k);
    }
    if forall m :: Walk(fs, i, [m]).Some? ==> Dots(m) {
      forall k | 2 <= k < |es|
        ensures es[k].inum == 0
      {
        assert Walk(fs, i, [es[k].name]).Some? ==> Dots(es[k].name);
      }
    }
  }

  lemma InvUnique(fs: seq<Node>, d: nat)
    requires Inv(fs) && d < |fs| && Linked(fs[d])
    ensures UniqueNames(fs[d].entries)
  {
    assert NodeOk(fs, d);
  }

  // ----- the calls

  class Tree {
    var fs: seq<Node>

    ghost predicate Valid()
      reads this
    {
      Inv(fs)
    }

    constructor (n: nat)
      requires ROOTINO < n
      ensures Valid() && fs == Fresh(n)
    {
      fs := Fresh(n);
      FreshInv(n);
    }

    /** The slot of the entry of that name (fs.c:554-577). */
    method Dirlookup(d: nat, name: string) returns (off: Option<nat>)
      requires d < |fs|
      ensures off == Find(fs[d].entries, name, 0)
    {
      var k := 0;
      while k < |fs[d].entries|
        invariant 0 <= k <= |fs[d].entries| && Find(fs[d].entries, name, 0) == Find(fs[d].entries, name, k)
      {
        if fs[d].entries[k].inum != 0 && fs[d].entries[k].name == name {
          return Some(k);
        }
        k := k + 1;
      }
      return None;
    }

    /** A new entry in the first free slot, unless the name is there (fs.c:581-607). */
    method Dirlink(d: nat, name: string, inum: nat) returns (ok: bool)
      requires d < |fs|
      modifies this
      ensures ok == Find(old(fs)[d].entries, name, 0).None?
      ensures ok ==> fs == old(fs)[d := Node(old(fs)[d].kind, old(fs)[d].nlink,
                AddEntry(old(fs)[d].entries, name, inum))]
      ensures !ok ==> fs == old(fs)
    {
      var off := Dirlookup(d, name);
      if off.Some? {
        return false;
      }
      var es := fs[d].entries;
      var k := 0;
      while k < |es|
        invariant 0 <= k <= |es| && Slot(es, 0) == Slot(es, k)
      {
        if es[k].inum == 0 {
          break;
        }
        k := k + 1;
      }
      var e := Dirent(inum, name);
      fs := fs[d := Node(fs[d].kind, fs[d].nlink, if k == |es| then es + [e] else es[k := e])];
      ok := true;
    }

    /** Whether only the first two slots have entries (sysfile.c:168-181). */
    method Isdirempty(d: nat) returns (r: bool)
      requires d < |fs|
      ensures r == Empty(fs[d].entries)
    {
      var k := 2;
      while k < |fs[d].entries|
        invariant 2 <= k && forall j :: 2 <= j < k && j < |fs[d].entries| ==> fs[d].entries[j].inum == 0
      {
        if fs[d].entries[k].inum != 0 {
          return false;
        }
        k := k + 1;
      }
      return true;
    }

    /** Follows a path, to its end or to the directory that holds its last element, whose name it then
        returns (fs.c:653-686). */
    method Namex(path: string, parent: bool, cwd: nat) returns (r: Option<nat>, name: string)
      requires Navigable(fs) && Startable(fs, path, cwd) && Reached(fs, ROOTINO)
      ensures !parent ==> r == Walk(fs, Start(path, cwd), Elements(path))
      ensures parent ==> r == Parent(fs, Start(path, cwd), Elements(path))
      ensures parent && r.Some? ==> Elements(path) != [] && name == LastName(Elements(path))
      ensures r.Some? ==> Reached(fs, r.value) && (parent ==> fs[r.value].kind == T_DIR)
    {
      hide Elements;
      var ip: nat := if path != "" && path[0] == '/' then ROOTINO else cwd;
      var at: nat := 0;
      ghost var es := Elements(path);
      name := "";
      assert path[0..] == path;
      while true
        invariant at <= |path| && Reached(fs, ip) && (parent ==> Elements(path[at..]) != [] || es == [])
        invariant Walk(fs, Start(path, cwd), es) == Walk(fs, ip, Elements(path[at..]))
        invariant parent ==> Parent(fs, Start(path, cwd), es) == Parent(fs, ip, Elements(path[at..]))
        invariant parent && es != [] ==> LastName(es) == LastName(Elements(path[at..]))
        decreases |path| - at
      {
        ghost var rest := Elements(path[at..]);
        var found, next, element := SkipElem(path, at);
        if !found {
          break;
        }
        ghost var more := Elements(path[next..]);
        FirstElement(fs, ip, element, more);
        name := element;
        at := next;
        if fs[ip].kind != T_DIR {
          return None, name;
        }
        if parent && at == |path| {
          return Some(ip), name;
        }
        var off := Dirlookup(ip, name);
        if off.None? {
          return None, name;
        }
        assert EntryLeads(fs, ip, off.value);
        ip := fs[ip].entries[off.value].inum;
      }
      if parent {
        return None, name;
      }
      r := Some(ip);
    }

    /** Links inode of path `from` as `to` as well, or changes nothing (sysfile.c:118-165). */
    method Link(from: string, to: string, cwd: nat) returns (ok: bool)
      requires Valid() && Startable(fs, from, cwd) && Startable(fs, to, cwd)
      modifies this
      ensures Valid()
      ensures ok == CanLink(old(fs), Start(from, cwd), Elements(from), Start(to, cwd), Elements(to))
      ensures ok ==> fs == Linking(old(fs), Parent(old(fs), Start(to, cwd), Elements(to)).value, LastName(Elements(to)),
                                   Walk(old(fs), Start(from, cwd), Elements(from)).value)
      ensures !ok ==> fs == old(fs)
      ensures ok ==> Walk(fs, Start(to, cwd), Elements(to)) == Walk(old(fs), Start(from, cwd), Elements(from))
      ensures forall s, p :: Walk(old(fs), s, p).Some? ==> Walk(fs, s, p) == Walk(old(fs), s, p)
    {
      hide Inv, Walk, Navigable, Find, Elements, Parent;
      InvNavigable(fs);
      RootReached(fs);
      var ip, name;
      ip, name := Namex(from, false, cwd);
      if ip.None? {
        return false;
      }
      var i := ip.value;
      if fs[i].kind == T_DIR {
        return false;
      }
      BumpNavigable(fs, i);
      fs := fs[i := Node(fs[i].kind, fs[i].nlink + 1, fs[i].entries)];
      ParentSame(old(fs), fs, Start(to, cwd), Elements(to));
      var dp;
      dp, name := Namex(to, true, cwd);
      if dp.None? {
        fs := fs[i := Node(fs[i].kind, fs[i].nlink - 1, fs[i].entries)];
        assert fs == old(fs);
        return false;
      }
      ok := Dirlink(dp.value, name, i);
      if !ok {
        fs := fs[i := Node(fs[i].kind, fs[i].nlink - 1, fs[i].entries)];
        assert fs == old(fs);
        return;
      }
      LinkKeepsInv(old(fs), dp.value, name, i);
      ParentLeads(old(fs), Start(to, cwd), Elements(to));
      LinkLeads(old(fs), Start(to, cwd), Init(Elements(to)), dp.value, name, i);
    }

    /** Removes an entry and, with its last link, the inode, unless somebody still holds that
        (sysfile.c:185-239, fs.c:332-353). */
    method Unlink(path: string, held: bool, cwd: nat) returns (ok: bool)
      requires Valid() && Startable(fs, path, cwd)
      modifies this
      ensures Valid()
      ensures ok == MayUnlink(old(fs), Start(path, cwd), Elements(path))
      ensures ok ==>
                var d := Parent(old(fs), Start(path, cwd), Elements(path)).value;
                var k := Find(old(fs)[d].entries, LastName(Elements(path)), 0).value;
                CanUnlink(old(fs), d, k) && old(fs)[d].entries[k].inum != d && fs == Unlinking(old(fs), d, k, held)
      ensures !ok ==> fs == old(fs)
      ensures ok ==> Walk(fs, Start(path, cwd), Elements(path)).None?
    {
      hide Inv, Walk, Navigable, Elements, Parent;
      InvNavigable(fs);
      RootReached(fs);
      var dp, name := Namex(path, true, cwd);
      if dp.None? {
        return false;
      }
      var d := dp.value;
      if name == "." || name == ".." {
        return false;
      }
      var off := Dirlookup(d, name);
      if off.None? {
        return false;
      }
      var k := off.value;
      var i := fs[d].entries[k].inum;
      BehindDots(fs, d, k);
      if fs[i].kind == T_DIR {
        var empty := Isdirempty(i);
        if !empty {
          return false;
        }
      }
      UnlinkFacts(fs, d, k);
      assert fs[i].nlink >= 1;           // no panic
      UnlinkKeepsInv(fs, d, k, held);
      fs := fs[d := Node(fs[d].kind, fs[d].nlink, fs[d].entries[k := FREE_SLOT])];
      if fs[i].kind == T_DIR {
        fs := fs[d := Node(fs[d].kind, fs[d].nlink - 1, fs[d].entries)];
      }
      fs := fs[i := Node(fs[i].kind, fs[i].nlink - 1, fs[i].entries)];
      if fs[i].nlink == 0 && !held {
        fs := fs[i := Node(0, 0, [])];
      }
      ok := true;
      assert fs == Unlinking(old(fs), d, k, held);
      ParentLeads(old(fs), Start(path, cwd), Elements(path));
      UnlinkGone(old(fs), d, k, held, Start(path, cwd), Init(Elements(path)));
    }

    /** Makes a new inode of that type, or finds a file where a file is wanted (sysfile.c:242-284). For a
        new one there must be a free inode. */
    method Create(path: string, kind: nat, cwd: nat) returns (r: Option<nat>)
      requires Valid() && Startable(fs, path, cwd) && kind != 0
      requires IsNew(fs, Start(path, cwd), Elements(path)) ==> exists i :: ROOTINO < i < |fs| && fs[i].kind == 0
      modifies this
      ensures Valid()
      ensures Parent(old(fs), Start(path, cwd), Elements(path)).None? ==> r.None? && fs == old(fs)
      ensures Parent(old(fs), Start(path, cwd), Elements(path)).Some? ==>
                var d, name := Parent(old(fs), Start(path, cwd), Elements(path)).value, LastName(Elements(path));
                match Find(old(fs)[d].entries, name, 0)
                case Some(k) =>
                  var i := old(fs)[d].entries[k].inum;
                  fs == old(fs) && i < |fs| && r == if kind == T_FILE && fs[i].kind == T_FILE then Some(i) else None
                case None =>
                  r.Some? && CanCreate(old(fs), d, name, kind, r.value)
                  && fs == Creating(old(fs), d, name, kind, r.value)
      ensures r.Some? ==> Walk(fs, Start(path, cwd), Elements(path)) == r && fs[r.value].kind == kind
      ensures r.Some? <==>
                && Parent(old(fs), Start(path, cwd), Elements(path)).Some?
                && (Walk(old(fs), Start(path, cwd), Elements(path)).Some? ==>
                    && kind == T_FILE && Walk(old(fs), Start(path, cwd), Elements(path)).value < |fs|
                    && old(fs)[Walk(old(fs), Start(path, cwd), Elements(path)).value].kind == T_FILE)
      ensures forall s, p :: Walk(old(fs), s, p).Some? ==> Walk(fs, s, p) == Walk(old(fs), s, p)
    {
      hide Inv, Walk, Navigable, Elements, Parent;
      InvNavigable(fs);
      RootReached(fs);
      var dp, name := Namex(path, true, cwd);
      if dp.None? {
        return None;
      }
      var d := dp.value;
      var off := Dirlookup(d, name);
      ParentLeads(fs, Start(path, cwd), Elements(path));
      if off.Some? {
        Leads(fs, d, off.value);
        assert Names(fs, Start(path, cwd), Init(Elements(path)), name, fs[d].entries[off.value].inum, d, off.value);
        WalkName(fs, Start(path, cwd), Init(Elements(path)), name, fs[d].entries[off.value].inum);
        var ip := fs[d].entries[off.value].inum;
        return if kind == T_FILE && fs[ip].kind == T_FILE then Some(ip) else None;
      }
      NotThere(fs, Start(path, cwd), Elements(path));
      var i := Add(d, name, kind);
      CreateLeads(old(fs), Start(path, cwd), Init(Elements(path)), d, name, kind, i);
      r := Some(i);
    }

    /** A new inode of that type, linked under that name (sysfile.c:261-281). */
    method Add(d: nat, name: string, kind: nat) returns (i: nat)
      requires Valid() && kind != 0 && exists i :: ROOTINO < i < |fs| && fs[i].kind == 0
      requires ROOTINO <= d < |fs| && Linked(fs[d]) && Find(fs[d].entries, name, 0).None?
      modifies this
      ensures Valid() && CanCreate(old(fs), d, name, kind, i) && fs == Creating(old(fs), d, name, kind, i)
    {
      hide Inv;
      RootInUse(fs);
      i := Ialloc();
      CreateKeepsInv(fs, d, name, kind, i);
      fs := fs[i := Node(kind, 1, [])];
      if kind == T_DIR {
        fs := fs[d := Node(fs[d].kind, fs[d].nlink + 1, fs[d].entries)];
        var dot := Dirlink(i, ".", i);
        var dotdot := Dirlink(i, "..", d);
        assert dot && dotdot && fs[i] == NewNode(kind, i, d);      // no panic
      }
      var added := Dirlink(d, name, i);
      assert added;                                                // no panic
      assert fs == Creating(old(fs), d, name, kind, i);
    }

    /** The first free inode (fs.c:195-215). */
    method Ialloc() returns (i: nat)
      requires ROOTINO < |fs| && fs[ROOTINO].kind != 0 && exists i :: ROOTINO < i < |fs| && fs[i].kind == 0
      ensures ROOTINO < i < |fs| && fs[i].kind == 0
      ensures forall j :: ROOTINO <= j < i ==> fs[j].kind != 0
    {
      i := 1;
      while fs[i].kind != 0
        invariant 1 <= i < |fs| && forall j :: 1 <= j < i ==> fs[j].kind != 0
        decreases |fs| - i
      {
        i := i + 1;
      }
    }

    /** The last holder of an inode without links gives it up (fs.c:332-353). */
    method Drop(i: nat)
      requires Valid() && i < |fs| && fs[i].kind != 0
      modifies this
      ensures Valid() && fs == if old(fs)[i].nlink == 0 then old(fs)[i := Node(0, 0, [])] else old(fs)
    {
      if fs[i].nlink == 0 {
        DropKeepsInv(fs, i);
        fs := fs[i := Node(0, 0, [])];
      }
    }
  }

  /** A directory can come to be held and not linked: mkdir, chdir, and an unlink by somebody else. A
      file that is then made in it breaks the counts. */
  method HeldDirectory(n: nat) returns (t: Tree, d: nat)
    requires ROOTINO + 2 < n
    ensures t.Valid() && ROOTINO < d < |t.fs| && t.fs[d].kind == T_DIR && !Linked(t.fs[d])
    ensures Find(t.fs[d].entries, "f", 0).None?
    ensures exists i :: ROOTINO < i < |t.fs| && t.fs[i].kind == 0 && !Inv(Creating(t.fs, d, "f", T_FILE, i))
  {
    hide Inv, Refs, Ordinary, RefsIn, OrdinaryIn, Elements;
    t := new Tree(n);
    PathToD();
    assert Fresh(n)[2].kind == 0 && Fresh(n)[3].kind == 0;
    NoD(n);
    var r := t.Create("/d", T_DIR, ROOTINO);
    d := r.value;
    DIsThere(n, d);
    var ok := t.Unlink("/d", true, ROOTINO);
    ghost var i := if d == 2 then 3 else 2;
    CreateKeepsInvIff(t.fs, d, "f", T_FILE, i);
  }

  lemma PathToD()
    ensures Elements("/d") == ["d"] && Absolute("/d")
  {
    OneName("d");
    assert "/d"[1..] == "d";
  }

  lemma InRoot(name: string)
    requires Plain(name) && |name| <= DIRSIZ
    ensures Elements("/" + name) == [name] && Absolute("/" + name) && [name] == [] + [name]
  {
    OneName(name);
    assert ("/" + name)[1..] == name;
  }

  lemma SlotOf(fs: seq<Node>, d: nat, name: string) returns (k: nat)
    requires Walk(fs, d, [name]).Some?
    ensures d < |fs| && k < |fs[d].entries| && Find(fs[d].entries, name, 0) == Some(k)
    ensures Walk(fs, d, [name]) == Some(fs[d].entries[k].inum)
  {
    assert [name][1..] == [];
    k := Find(fs[d].entries, name, 0).value;
  }

  lemma FreshFree(n: nat)
    requires ROOTINO + 1 < n
    ensures |Fresh(n)| == n && Fresh(n)[2].kind == 0
  {
  }

  lemma RootOnly(n: nat, name: string)
    requires ROOTINO < n && !Dots(name)
    ensures Walk(Fresh(n), ROOTINO, [name]).None? && IsNew(Fresh(n), ROOTINO, [name])
    ensures Parent(Fresh(n), ROOTINO, [name]) == Some(ROOTINO)
  {
    assert [name][..0] == [] && [name][1..] == [];
  }

  lemma OtherName(n: nat, f: string, g: string, i: nat)
    requires ROOTINO < n && !Dots(f) && !Dots(g) && f != g && ROOTINO < i < n
    ensures Walk(Creating(Fresh(n), ROOTINO, f, T_FILE, i), ROOTINO, [g]).None?
  {
    RootOnly(n, f);
    RootOnly(n, g);
    AddFinds(Fresh(n)[ROOTINO].entries, f, i, g);
  }

  /** A file that is made can be found. */
  method NewFile(n: nat, f: string) returns (t: Tree, i: nat)
    requires ROOTINO + 1 < n && Plain(f) && |f| <= DIRSIZ && !Dots(f)
    ensures fresh(t) && t.Valid() && ROOTINO < i < n == |t.fs| && t.fs == Creating(Fresh(n), ROOTINO, f, T_FILE, i)
    ensures Walk(t.fs, ROOTINO, [f]) == Some(i) && t.fs[i] == Node(T_FILE, 1, [])
  {
    hide Inv, Elements, Walk, Find, AddEntry, Parent, IsNew;
    t := new Tree(n);
    InRoot(f);
    RootOnly(n, f);
    FreshFree(n);
    var r := t.Create("/" + f, T_FILE, ROOTINO);
    i := r.value;
    InvNavigable(t.fs);
    RootReached(t.fs);
    var found, _ := t.Namex("/" + f, false, ROOTINO);
    assert found == Some(i);
  }

  /** A file in the root can be linked under any other name there. */
  method SecondName(t: Tree, f: string, g: string, i: nat)
    requires t.Valid() && Plain(f) && Plain(g) && |f| <= DIRSIZ && |g| <= DIRSIZ
    requires Walk(t.fs, ROOTINO, [f]) == Some(i) && i < |t.fs| && t.fs[i].kind != T_DIR
    requires Walk(t.fs, ROOTINO, [g]).None?
    modifies t
    ensures t.Valid() && |t.fs| == |old(t.fs)|
    ensures Walk(t.fs, ROOTINO, [f]) == Walk(t.fs, ROOTINO, [g]) == Some(i)
    ensures t.fs[i] == Node(old(t.fs)[i].kind, old(t.fs)[i].nlink + 1, old(t.fs)[i].entries)
  {
    hide Inv, Elements, Walk, Find, AddEntry, Parent, IsNew, CanLink;
    InRoot(f);
    InRoot(g);
    RootReached(t.fs);
    WalkJoined(t.fs, ROOTINO, [], []);
    CanLinkIff(t.fs, ROOTINO, [f], ROOTINO, [], g);
    ParentIff(t.fs, ROOTINO, [], g, ROOTINO);
    var linked := t.Link("/" + f, "/" + g, ROOTINO);
    assert linked;
  }

  /** Unlinking one of two names leaves the other. */
  method FirstNameGone(t: Tree, f: string, g: string, i: nat)
    requires t.Valid() && Plain(f) && |f| <= DIRSIZ && f != g && !Dots(f)
    requires Walk(t.fs, ROOTINO, [f]) == Walk(t.fs, ROOTINO, [g]) == Some(i)
    requires i < |t.fs| && t.fs[i].kind != T_DIR && t.fs[i].nlink == 2
    modifies t
    ensures t.Valid() && |t.fs| == |old(t.fs)|
    ensures Walk(t.fs, ROOTINO, [g]) == Some(i) && Walk(t.fs, ROOTINO, [f]).None?
    ensures t.fs[i] == Node(old(t.fs)[i].kind, 1, old(t.fs)[i].entries)
  {
    hide Inv, Elements, Walk, Find, Parent, MayUnlink;
    InRoot(f);
    RootReached(t.fs);
    WalkJoined(t.fs, ROOTINO, [], []);
    MayUnlinkIff(t.fs, ROOTINO, [], f);
    ParentIff(t.fs, ROOTINO, [], f, ROOTINO);
    ghost var k := SlotOf(t.fs, ROOTINO, f);
    var gone := t.Unlink("/" + f, false, ROOTINO);
    assert gone;
    RootReached(t.fs);
    UnlinkAvoids(old(t.fs), ROOTINO, k, false, ROOTINO, [g]);
  }

  /** Two names for a file: it is made under one, found, linked under the other and unlinked under the
      first, and then it has the other. */
  method TwoNames(n: nat, f: string, g: string) returns (t: Tree, i: nat)
    requires ROOTINO + 1 < n && Plain(f) && Plain(g) && |f| <= DIRSIZ && |g| <= DIRSIZ && f != g
    requires !Dots(f) && !Dots(g)
    ensures t.Valid() && ROOTINO < i < |t.fs| && t.fs[i] == Node(T_FILE, 1, [])
    ensures Walk(t.fs, ROOTINO, [g]) == Some(i) && Walk(t.fs, ROOTINO, [f]).None?
  {
    hide Inv, Walk, Creating;
    t, i := NewFile(n, f);
    OtherName(n, f, g, i);
    SecondName(t, f, g, i);
    FirstNameGone(t, f, g, i);
  }

  lemma NoD(n: nat)
    requires ROOTINO + 2 < n
    ensures Parent(Fresh(n), ROOTINO, ["d"]) == Some(ROOTINO) && LastName(["d"]) == "d"
    ensures Find(Fresh(n)[ROOTINO].entries, "d", 0) == None
  {
    assert ["d"][..0] == [];
  }

  lemma DIsThere(n: nat, d: nat)
    requires ROOTINO + 2 < n && ROOTINO < d < n
    ensures var fs := Creating(Fresh(n), ROOTINO, "d", T_DIR, d);
            && Parent(fs, ROOTINO, ["d"]) == Some(ROOTINO) && MayUnlink(fs, ROOTINO, ["d"])
            && Find(fs[ROOTINO].entries, "d", 0) == Some(2) && fs[ROOTINO].entries[2] == Dirent(d, "d")
            && fs[d] == Node(T_DIR, 1, [Dirent(d, "."), Dirent(ROOTINO, "..")])
  {
    var es := Fresh(n)[ROOTINO].entries;
    assert Slot(es, 0) == 2;
    var fs := Creating(Fresh(n), ROOTINO, "d", T_DIR, d);
    assert fs[ROOTINO].entries == [Dirent(ROOTINO, "."), Dirent(ROOTINO, ".."), Dirent(d, "d")];
    assert Find(fs[ROOTINO].entries, "d", 2) == Some(2);
    assert ["d"][..0] == [];
  }

  predicate CanLink(fs: seq<Node>, d: nat, from: seq<string>, e: nat, to: seq<string>) {
    && Walk(fs, d, from).Some? && Walk(fs, d, from).value < |fs| && fs[Walk(fs, d, from).value].kind != T_DIR
    && IsNew(fs, e, to)
  }

  /** There is a directory for the path's last element, and no entry of that name in it. */
  predicate IsNew(fs: seq<Node>, d: nat, path: seq<string>) {
    Parent(fs, d, path).Some? && Find(fs[Parent(fs, d, path).value].entries, LastName(path), 0).None?
  }

  predicate MayUnlink(fs: seq<Node>, d: nat, path: seq<string>) {
    && Parent(fs, d, path).Some? && !Dots(LastName(path))
    && var es := fs[Parent(fs, d, path).value].entries;
       && Find(es, LastName(path), 0).Some?
       && var i := es[Find(es, LastName(path), 0).value].inum;
          i < |fs| && (fs[i].kind == T_DIR ==> Empty(fs[i].entries))
  }

  lemma ParentSame(fs: seq<Node>, fs': seq<Node>, start: nat, path: seq<string>)
    requires SameNames(fs, fs')
    ensures Parent(fs', start, path) == Parent(fs, start, path)
  {
    if path != [] {
      WalkSame(fs, fs', start, path[..|path| - 1]);
    }
  }

  /** The first element of a path takes it one step, unless it is the last of a parent's path. */
  lemma FirstElement(fs: seq<Node>, d: nat, name: string, more: seq<string>)
    ensures ([name] + more)[1..] == more && (more == [] ==> LastName([name] + more) == name)
    ensures more == [] ==> Parent(fs, d, [name] + more) == if d < |fs| && fs[d].kind == T_DIR then Some(d) else None
    ensures more != [] ==> LastName([name] + more) == LastName(more)
    ensures more != [] ==>
              Parent(fs, d, [name] + more)
              == if d >= |fs| || fs[d].kind != T_DIR then None
                 else match Find(fs[d].entries, name, 0)
                      case None => None
                      case Some(k) => Parent(fs, fs[d].entries[k].inum, more)
  {
    var path := [name] + more;
    assert path[1..] == more;
    if more == [] {
      assert path[..|path| - 1] == [];
    } else {
      var init := path[..|path| - 1];
      assert init[0] == name && init[1..] == more[..|more| - 1];
    }
  }

  lemma RootReached(fs: seq<Node>)
    requires Inv(fs)
    ensures Reached(fs, ROOTINO) && fs[ROOTINO].kind == T_DIR
  {
  }

  /** An entry that is not a dot is behind the dots. */
  lemma BehindDots(fs: seq<Node>, d: nat, k: nat)
    requires Inv(fs) && Reached(fs, d) && fs[d].kind == T_DIR && k < |fs[d].entries|
    requires fs[d].entries[k].inum != 0 && !Dots(fs[d].entries[k].name)
    ensures 2 <= k && fs[d].entries[k].inum < |fs|
  {
    EntryAt(fs, d, k);
  }

  lemma Leads(fs: seq<Node>, d: nat, k: nat)
    requires Navigable(fs) && d < |fs| && Linked(fs[d]) && k < |fs[d].entries| && fs[d].entries[k].inum != 0
    ensures fs[d].entries[k].inum < |fs|
  {
    assert EntryLeads(fs, d, k);
  }

  lemma RootInUse(fs: seq<Node>)
    requires Inv(fs)
    ensures ROOTINO < |fs| && fs[ROOTINO].kind != 0
  {
  }
}
