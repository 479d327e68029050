/** What temp.c accepts, against what makes a file system sound: a statement about the places of addresses
    and entries in an image. Some sound images are rejected, and this module says which. */
module SoundImages {
  import opened Basics
  import opened Checker
  import opened Places

  // ----- soundness

  /** An address of a block behind the metadata and within the disk (or, in an indirect block, just behind
      it) that is marked. */
  predicate UseSound(g: Image, p: Place) {
    && g.ninodes / 8 + 3 + (g.size / 4096 + 1) <= AddrAt(g, p)
    && (if p.at < 13 then AddrAt(g, p) < g.size else AddrAt(g, p) <= g.size)
    && AddrAt(g, p) < |g.marked| && g.marked[AddrAt(g, p)]
  }

  ghost predicate Holds(g: Image, b: nat) {
    exists p :: IsUse(g, p) && AddrAt(g, p) == b
  }

  /** No block has two places, and behind the metadata the marked blocks are those that have one. */
  ghost predicate BlocksSound(g: Image) {
    && (forall p :: IsUse(g, p) ==> UseSound(g, p))
    && (forall p, q :: IsUse(g, p) && IsUse(g, q) && AddrAt(g, p) == AddrAt(g, q) ==> p == q)
    && (forall b: nat :: MetaBlocks(g) <= b < g.size && b < |g.marked| && g.marked[b] ==> Holds(g, b))
  }

  /** An entry is of an inode in use, "." names its own directory, and ".." of the root the root. */
  predicate EntrySound(g: Image, m: Mention) {
    && InUse(g, m.inum)
    && (m.name == "." ==> m.inum == m.dir)
    && (m.name == ".." && m.dir == ROOTINO ==> m.inum == m.dir)
  }

  /** Two ordinary entries for one directory. */
  predicate NameOne(g: Image, m: Mention, n: Mention) {
    NamesDirectory(g, m) && NamesDirectory(g, n) && m.inum == n.inum
  }

  ghost predicate EntriesSound(g: Image) {
    && (forall p :: IsEntry(g, p) ==> EntrySound(g, MentionAt(g, p)))
    && (forall p, q :: IsEntry(g, p) && IsEntry(g, q) && NameOne(g, MentionAt(g, p), MentionAt(g, q)) ==> p == q)
  }

  ghost predicate HasName(g: Image, i: nat, name: string) {
    exists p :: IsEntry(g, p) && p.node == i && EntryIn(g, p).name == name
  }

  ghost predicate DotsSound(g: Image, i: nat) {
    i < |g.inodes| && g.inodes[i].kind == T_DIR ==> HasName(g, i, ".") && HasName(g, i, "..")
  }

  ghost predicate Referenced(g: Image, i: nat) {
    exists p :: IsEntry(g, p) && EntryIn(g, p).inum == i
  }

  /** The entries that count towards the link count of file u. */
  function NamePlaces(g: Image, u: nat): set<Place> {
    set i: nat, j: nat | i < |g.inodes| && j < 32 * (12 + 128) && Names(g, Place(i, j), u) :: Place(i, j)
  }

  /** The entry has a name other than the dots and is of file u. */
  predicate Names(g: Image, p: Place, u: nat) {
    && IsEntry(g, p) && EntryIn(g, p).inum == u && u < |g.inodes| && g.inodes[u].kind == 2
    && EntryIn(g, p).name != "." && EntryIn(g, p).name != ".." && EntryIn(g, p).name != ""
  }

  /** Inodes in use are named, and the link count of a file is the number of its entries, in 16 bits. */
  ghost predicate LinksSound(g: Image, i: nat) {
    && (InUse(g, i) ==> Referenced(g, i))
    && (i < |g.inodes| && g.inodes[i].kind == T_FILE ==> g.inodes[i].nlink == Short(|NamePlaces(g, i)|))
  }

  ghost predicate Consistent(g: Image) {
    && KindsOk(g) && BlocksSound(g) && EntriesSound(g)
    && (forall i: nat :: i < g.ninodes ==> DotsSound(g, i))
    && (ROOTINO < |g.inodes| ==> g.inodes[ROOTINO].kind == T_DIR)
    && (forall i: nat :: ROOTINO <= i < g.ninodes ==> LinksSound(g, i))
  }

  /** The ordinary entry of a directory comes before every "." and ".." that names it: it is in a
      directory of lower number, or earlier in the same directory. */
  ghost predicate Ordered(g: Image) {
    forall p, q :: IsEntry(g, p) && IsEntry(g, q) && DotsBack(g, MentionAt(g, p), MentionAt(g, q)) ==> Before(p, q)
  }

  predicate DotsBack(g: Image, m: Mention, dot: Mention) {
    NamesDirectory(g, m) && !Ordinary(dot) && dot.inum == m.inum
  }

  // ----- the scan's lists and the places

  lemma UsesBlockIff(g: Image, b: nat)
    requires Readable(g)
    ensures UsesBlock(UsesFrom(g, 0), b) <==> Holds(g, b)
  {
    hide UsesFrom, IsUse, AddrAt;
    var ps := UsePlaces(g);
    var us := UsesFrom(g, 0);
    if UsesBlock(us, b) {
      var k :| 0 <= k < |us| && us[k].block == b;
      assert UseAt(g, ps[k]) == us[k];
    }
    if Holds(g, b) {
      var p :| IsUse(g, p) && AddrAt(g, p) == b;
      var k :| 0 <= k < |ps| && ps[k] == p;
      assert us[k] == UseAt(g, p);
    }
  }

  /** The scan's test of addresses is that of their places. */
  lemma BlocksIff(g: Image)
    requires Readable(g)
    ensures AddressesOk(g) <==> BlocksSound(g)
  {
    hide UsesFrom, IsUse, AddrAt;
    var ps := UsePlaces(g);
    var us := UsesFrom(g, 0);
    forall b: nat
      ensures UsesBlock(us, b) <==> Holds(g, b)
    {
      UsesBlockIff(g, b);
    }
    if AddressesOk(g) {
      forall p | IsUse(g, p)
        ensures UseSound(g, p)
      {
        var k :| 0 <= k < |ps| && ps[k] == p;
        assert us[k] == UseAt(g, p) && UseOk(g, us, k);
      }
      forall p, q | IsUse(g, p) && IsUse(g, q) && AddrAt(g, p) == AddrAt(g, q)
        ensures p == q
      {
        var j :| 0 <= j < |ps| && ps[j] == p;
        var k :| 0 <= k < |ps| && ps[k] == q;
        UsedOnce(g, us, j, k);
      }
    }
    if BlocksSound(g) {
      forall k: nat | k < |us|
        ensures UseOk(g, us, k)
      {
        assert UseSound(g, ps[k]) && us[k] == UseAt(g, ps[k]);
        forall j | 0 <= j < k
          ensures us[..k][j].block != us[k].block
        {
          assert us[j] == UseAt(g, ps[j]) && Before(ps[j], ps[k]);
        }
      }
    }
  }

  lemma NotBefore(g: Image, us: seq<Use>, k: nat)
    requires UsesOk(g, us) && k < |us|
    ensures forall j :: 0 <= j < k ==> us[j].block != us[k].block
  {
    assert UseOk(g, us, k);
    forall j | 0 <= j < k
      ensures us[j].block != us[k].block
    {
      assert us[..k][j] == us[j];
    }
  }

  lemma UsedOnce(g: Image, us: seq<Use>, j: nat, k: nat)
    requires UsesOk(g, us) && j < |us| && k < |us| && us[j].block == us[k].block
    ensures j == k
  {
    NotBefore(g, us, j);
    NotBefore(g, us, k);
  }

  lemma HasNameIff(g: Image, i: nat, name: string)
    requires Readable(g) && i < g.ninodes
    ensures g.inodes[i].kind == T_DIR ==> (Named(DirThen(g, i, []), name) <==> HasName(g, i, name))
  {
    hide DirThen, IsEntry, EntryIn;
    ScansNothing(Entries(g, i + 1), Mentions(g), Place(i + 1, 0));
    var ps := DirScan(g, i + 1, i, [], []);
    var ms := DirThen(g, i, []);
    if Named(ms, name) {
      var k :| 0 <= k < |ms| && ms[k].name == name;
      assert Entries(g, i + 1)(ps[k]) && ms[k] == Mentions(g)(ps[k]) && !Before(ps[k], Place(i, 0));
    }
    if HasName(g, i, name) {
      var p :| IsEntry(g, p) && p.node == i && EntryIn(g, p).name == name;
      assert Entries(g, i + 1)(p) && !Before(p, Place(i, 0));
      var k :| 0 <= k < |ps| && ps[k] == p;
      assert ms[k] == Mentions(g)(p);
    }
  }

  lemma DotsIff(g: Image, i: nat)
    requires Readable(g) && i < g.ninodes
    ensures DirOk(g, i) <==> DotsSound(g, i)
  {
    hide DirThen, HasName;
    HasNameIff(g, i, ".");
    HasNameIff(g, i, "..");
  }

  function CountedIn(g: Image, ps: seq<Place>, u: nat): set<Place> {
    set p | p in ps && Counts(g, MentionAt(g, p), u)
  }

  lemma CountedMore(g: Image, ps: seq<Place>, p: Place, u: nat)
    requires p !in ps
    ensures |CountedIn(g, ps + [p], u)| == |CountedIn(g, ps, u)| + if Counts(g, MentionAt(g, p), u) then 1 else 0
  {
    hide Counts, MentionAt;
    assert CountedIn(g, ps + [p], u) == CountedIn(g, ps, u) + if Counts(g, MentionAt(g, p), u) then {p} else {};
  }

  lemma {:induction false} CountIs(g: Image, ps: seq<Place>, ms: seq<Mention>, u: nat)
    requires |ps| == |ms| && forall j, k :: 0 <= j < k < |ps| ==> Before(ps[j], ps[k])
    requires forall k :: 0 <= k < |ps| ==> ms[k] == MentionAt(g, ps[k])
    ensures Count(g, ms, u) == |CountedIn(g, ps, u)|
  {
    if ps == [] {
      assert CountedIn(g, ps, u) == {};
    } else {
      hide Counts, MentionAt, CountedIn;
      var n := |ps| - 1;
      CountIs(g, ps[..n], ms[..n], u);
      CountedMore(g, ps[..n], ps[n], u);
      assert ps == ps[..n] + [ps[n]];
    }
  }

  lemma LinksIff(g: Image, i: nat)
    requires Readable(g) && i < g.ninodes
    ensures Found(g, i) <==> (InUse(g, i) ==> Referenced(g, i))
    ensures Count(g, MentionsFrom(g, 0), i) == |NamePlaces(g, i)|
    ensures InodeOk(g, i) <==> LinksSound(g, i)
  {
    hide MentionsFrom, IsEntry, EntryIn, Count;
    var ps := MentionPlaces(g);
    var ms := MentionsFrom(g, 0);
    CountIs(g, ps, ms, i);
    forall p
      ensures p in CountedIn(g, ps, i) <==> p in NamePlaces(g, i)
    {
      InRangeOf(g, p);
    }
    assert CountedIn(g, ps, i) == NamePlaces(g, i);
    if Mentioned(ms, i) {
      var k :| 0 <= k < |ms| && ms[k].inum == i;
      assert ms[k] == MentionAt(g, ps[k]);
    }
    if Referenced(g, i) {
      var p :| IsEntry(g, p) && EntryIn(g, p).inum == i;
      var k :| 0 <= k < |ps| && ps[k] == p;
      assert ms[k] == MentionAt(g, p);
    }
  }

  lemma InRangeOf(g: Image, p: Place)
    ensures IsEntry(g, p) ==> p.node < |g.inodes| && p.at < 32 * (12 + 128)
  {
  }

  /** Every entry follows those before it as it should if and only if the entries are sound and in order. */
  lemma MentionsIff(g: Image)
    requires Readable(g)
    ensures MentionsOk(g, MentionsFrom(g, 0)) <==> EntriesSound(g) && Ordered(g)
  {
    hide MentionsFrom, IsEntry, EntryIn, NamesDirectory;
    var ps := MentionPlaces(g);
    var ms := MentionsFrom(g, 0);
    if MentionsOk(g, ms) {
      forall p | IsEntry(g, p)
        ensures EntrySound(g, MentionAt(g, p))
      {
        var k :| 0 <= k < |ps| && ps[k] == p;
        assert ms[k] == MentionAt(g, p) && MentionOk(g, ms, k);
      }
      forall p, q | IsEntry(g, p) && IsEntry(g, q) && NamesDirectory(g, MentionAt(g, p))
                    && MentionAt(g, q).inum == MentionAt(g, p).inum
        ensures p == q || Before(p, q)
      {
        var k :| 0 <= k < |ps| && ps[k] == p;
        var j :| 0 <= j < |ps| && ps[j] == q;
        FirstMention(g, ms, j, k);
      }
      OnceAndFirst(g);
    }
    if EntriesSound(g) && Ordered(g) {
      forall k: nat | k < |ms|
        ensures MentionOk(g, ms, k)
      {
        assert IsEntry(g, ps[k]) && EntrySound(g, ms[k]);
        if Ordinary(ms[k]) && g.inodes[ms[k].inum].kind == T_DIR {
          assert NamesDirectory(g, ms[k]) by {
            InUseNames(g, ms[k]);
          }
          forall j | 0 <= j < k
            ensures ms[..k][j].inum != ms[k].inum
          {
            assert IsEntry(g, ps[j]) && ms[j] == MentionAt(g, ps[j]) && Before(ps[j], ps[k]);
            if ms[j].inum == ms[k].inum {
              DotOrOne(g, ms[j], ms[k]);
            }
          }
        }
      }
    }
  }

  lemma InUseNames(g: Image, m: Mention)
    requires InUse(g, m.inum) && Ordinary(m) && g.inodes[m.inum].kind == T_DIR
    ensures NamesDirectory(g, m)
  {
  }

  lemma DotOrOne(g: Image, m: Mention, n: Mention)
    requires m.inum == n.inum && NamesDirectory(g, n)
    ensures NameOne(g, m, n) || DotsBack(g, n, m)
  {
  }

  /** In a list in scan order an ordinary entry for a directory is its first mention. */
  lemma FirstMention(g: Image, ms: seq<Mention>, j: nat, k: nat)
    requires MentionsOk(g, ms) && j < |ms| && k < |ms| && NamesDirectory(g, ms[k]) && ms[j].inum == ms[k].inum
    ensures k <= j
  {
    assert MentionOk(g, ms, k);
    forall i | 0 <= i < k
      ensures ms[i].inum != ms[k].inum
    {
      assert ms[..k][i] == ms[i];
    }
  }

  lemma OnceAndFirst(g: Image)
    requires forall p, q :: IsEntry(g, p) && IsEntry(g, q) && NamesDirectory(g, MentionAt(g, p))
                            && MentionAt(g, q).inum == MentionAt(g, p).inum ==>
               p == q || Before(p, q)
    ensures forall p, q :: IsEntry(g, p) && IsEntry(g, q) && NameOne(g, MentionAt(g, p), MentionAt(g, q)) ==> p == q
    ensures Ordered(g)
  {
    hide IsEntry, EntryIn;
    forall p, q | IsEntry(g, p) && IsEntry(g, q) && NameOne(g, MentionAt(g, p), MentionAt(g, q))
      ensures p == q
    {
      assert p == q || Before(p, q);
      assert q == p || Before(q, p);
    }
    forall p, q | IsEntry(g, p) && IsEntry(g, q) && DotsBack(g, MentionAt(g, p), MentionAt(g, q))
      ensures Before(p, q)
    {
      assert p == q || Before(p, q);
    }
  }

  /** The checker accepts exactly the sound images in which every directory is found in the directory
      that holds it before it is found in a "." or "..". */
  lemma AcceptableIff(g: Image)
    requires Readable(g)
    ensures Acceptable(g) <==> Consistent(g) && Ordered(g)
  {
    hide MentionsFrom, UsesFrom, KindsOk, AddressesOk, BlocksSound, DirOk, DotsSound, InodeOk, LinksSound, MentionsOk,
        EntriesSound, Ordered;
    BlocksIff(g);
    MentionsIff(g);
    forall i: nat | i < g.ninodes
      ensures DirOk(g, i) <==> DotsSound(g, i)
      ensures InodeOk(g, i) <==> LinksSound(g, i)
    {
      DotsIff(g, i);
      LinksIff(g, i);
    }
  }

  // ----- what acceptance means

  /** No block is used twice, every used block is marked, and no other is. */
  lemma AcceptedBlocks(g: Image, p: Place, q: Place)
    requires Readable(g) && Acceptable(g) && IsUse(g, p) && IsUse(g, q)
    ensures AddrAt(g, p) == AddrAt(g, q) ==> p == q
    ensures MetaBlocks(g) <= AddrAt(g, p) <= g.size && g.marked[AddrAt(g, p)]
    ensures forall b: nat :: MetaBlocks(g) <= b < g.size ==> (g.marked[b] <==> Holds(g, b))
  {
    BlocksIff(g);
    hide AddressesOk, AddrAt, IsUse;
    forall b: nat | MetaBlocks(g) <= b < g.size && Holds(g, b)
      ensures g.marked[b]
    {
      var r :| IsUse(g, r) && AddrAt(g, r) == b;
      assert UseSound(g, r);
    }
    assert UseSound(g, p);
  }

  /** Every entry is of an inode in use, and no directory is named twice by ordinary entries. */
  lemma AcceptedTree(g: Image, p: Place, q: Place)
    requires Readable(g) && Acceptable(g) && IsEntry(g, p) && IsEntry(g, q)
    ensures InUse(g, EntryIn(g, p).inum)
    ensures Ordinary(MentionAt(g, p)) && Ordinary(MentionAt(g, q)) && EntryIn(g, p).inum == EntryIn(g, q).inum ==>
              g.inodes[EntryIn(g, p).inum].kind == T_DIR ==> p == q
  {
    hide IsEntry, EntryIn, Acceptable;
    AcceptableIff(g);
    assert EntrySound(g, MentionAt(g, p)) && EntrySound(g, MentionAt(g, q));
    assert NameOne(g, MentionAt(g, p), MentionAt(g, q)) ==> p == q;
  }

  lemma DotPlaces(g: Image, i: nat) returns (p: Place, q: Place)
    requires i < |g.inodes| && g.inodes[i].kind == T_DIR && EntriesSound(g) && DotsSound(g, i)
    ensures IsEntry(g, p) && p.node == i && EntryIn(g, p) == Dirent(i, ".")
    ensures IsEntry(g, q) && q.node == i && EntryIn(g, q).name == ".."
  {
    hide IsEntry, EntryIn;
    p :| IsEntry(g, p) && p.node == i && EntryIn(g, p).name == ".";
    q :| IsEntry(g, q) && q.node == i && EntryIn(g, q).name == "..";
    assert EntrySound(g, MentionAt(g, p));
  }

  /** Every directory has a "." that names it and a "..". */
  lemma AcceptedDots(g: Image, i: nat) returns (p: Place, q: Place)
    requires Readable(g) && Acceptable(g) && i < g.ninodes && g.inodes[i].kind == T_DIR
    ensures IsEntry(g, p) && p.node == i && EntryIn(g, p) == Dirent(i, ".")
    ensures IsEntry(g, q) && q.node == i && EntryIn(g, q).name == ".."
  {
    hide IsEntry, EntryIn, Acceptable, BlocksSound, LinksSound;
    AcceptableIff(g);
    assert DotsSound(g, i);
    p, q := DotPlaces(g, i);
  }

  /** The link count of a file is the number of its named entries, if these are fewer than 2^15. */
  lemma AcceptedCounts(g: Image, u: nat)
    requires Readable(g) && Acceptable(g) && ROOTINO <= u < g.ninodes && g.inodes[u].kind == T_FILE
    ensures |NamePlaces(g, u)| < 0x8000 ==> g.inodes[u].nlink == |NamePlaces(g, u)|
    ensures Referenced(g, u)
  {
    hide Acceptable, BlocksSound, EntriesSound, NamePlaces;
    AcceptableIff(g);
    assert LinksSound(g, u);
  }

  /** A directory whose inode number is below that of the directory that holds it is always reported
      as appearing more than once, although it may appear once: its own "." is read first. */
  lemma LowerChildRejected(g: Image, p: Place)
    requires Readable(g) && IsEntry(g, p) && NamesDirectory(g, MentionAt(g, p)) && EntryIn(g, p).inum < p.node
    ensures !Acceptable(g)
  {
    hide IsEntry, EntryIn, Acceptable, BlocksSound, LinksSound;
    AcceptableIff(g);
    if EntriesSound(g) && DotsSound(g, EntryIn(g, p).inum) {
      var dot, _ := DotPlaces(g, EntryIn(g, p).inum);
      assert DotsBack(g, MentionAt(g, p), MentionAt(g, dot)) && !Before(p, dot);
    }
  }

  // ----- what the checker says

  /** The address at p is also at another place that the scan comes to earlier. */
  ghost predicate UsedBefore(g: Image, p: Place) {
    exists q :: IsUse(g, q) && Before(q, p) && AddrAt(g, q) == AddrAt(g, p)
  }

  ghost predicate NamedBefore(g: Image, p: Place) {
    exists q :: IsEntry(g, q) && Before(q, p) && EntryIn(g, q).inum == EntryIn(g, p).inum
  }

  /** What error v says about the address at p. */
  ghost predicate UseFaulty(g: Image, p: Place, v: Verdict) {
    match v
    case BadAddress => !InRange(g, UseAt(g, p))
    case MarkedFree => AddrAt(g, p) < |g.marked| && !g.marked[AddrAt(g, p)]
    case UsedTwice => UsedBefore(g, p)
    case _ => false
  }

  /** What error v says about the entry at p. */
  ghost predicate EntryFaulty(g: Image, p: Place, v: Verdict) {
    var m := MentionAt(g, p);
    match v
    case FreeNamed => !InUse(g, m.inum)
    case BadDirectory => m.name == "." && m.inum != p.node
    case NoRoot => m.name == ".." && p.node == ROOTINO != m.inum
    case DirectoryTwice => NamesDirectory(g, m) && NamedBefore(g, p)
    case _ => false
  }

  /** What error v says about the image. */
  ghost predicate HasFault(g: Image, v: Verdict) {
    || (exists p :: IsUse(g, p) && UseFaulty(g, p, v))
    || (exists p :: IsEntry(g, p) && EntryFaulty(g, p, v))
    || (v == BadInode && !KindsOk(g))
    || (v == UnusedMarked && exists b: nat :: MetaBlocks(g) <= b < g.size && Stray(g, b))
    || (v == BadDirectory && exists i: nat :: i < g.ninodes && !DotsSound(g, i))
    || (v == NoRoot && ROOTINO < |g.inodes| && g.inodes[ROOTINO].kind != T_DIR)
    || (v == NotFound && exists i: nat :: ROOTINO <= i < g.ninodes && InUse(g, i) && !Referenced(g, i))
    || (v == BadCount && exists i: nat :: ROOTINO <= i < g.ninodes && InUse(g, i) && !LinksSound(g, i))
  }

  ghost predicate Stray(g: Image, b: nat) {
    b < |g.marked| && g.marked[b] && !Holds(g, b)
  }

  lemma UseFaultAt(g: Image, v: Verdict)
    requires Readable(g) && UseFault(g, UsesFrom(g, 0), v)
    ensures exists p :: IsUse(g, p) && UseFaulty(g, p, v)
  {
    hide UsesFrom, IsUse, AddrAt, InRange;
    var ps := UsePlaces(g);
    var us := UsesFrom(g, 0);
    var k: nat :| UseWrong(g, us, k, v);
    assert us[k] == UseAt(g, ps[k]);
    if v == UsedTwice {
      var j :| 0 <= j < |us[..k]| && us[..k][j].block == us[k].block;
      assert us[j] == UseAt(g, ps[j]) && Before(ps[j], ps[k]);
    }
    assert IsUse(g, ps[k]) && UseFaulty(g, ps[k], v);
  }

  lemma MentionFaultAt(g: Image, v: Verdict)
    requires Readable(g) && MentionFault(g, MentionsFrom(g, 0), v)
    ensures exists p :: IsEntry(g, p) && EntryFaulty(g, p, v)
  {
    hide MentionsFrom, IsEntry, EntryIn, InUse, NamesDirectory;
    var ps := MentionPlaces(g);
    var ms := MentionsFrom(g, 0);
    var k: nat :| Fault(g, ms, k, v);
    assert ms[k] == MentionAt(g, ps[k]);
    if v == DirectoryTwice {
      var j :| 0 <= j < |ms[..k]| && ms[..k][j].inum == ms[k].inum;
      assert ms[j] == MentionAt(g, ps[j]) && Before(ps[j], ps[k]);
    }
    assert IsEntry(g, ps[k]) && EntryFaulty(g, ps[k], v);
  }

  /** An error of the scan is one of the image. */
  lemma FaultAt(g: Image, v: Verdict)
    requires Readable(g) && ImageFault(g, v)
    ensures HasFault(g, v)
  {
    hide MentionsFrom, UsesFrom, DirOk, Found, CountOk, KindsOk, IsEntry, IsUse, UseFaulty, EntryFaulty, UseFault,
        MentionFault, DotsSound, LinksSound, Referenced;
    var us, ms := UsesFrom(g, 0), MentionsFrom(g, 0);
    if UseFault(g, us, v) {
      UseFaultAt(g, v);
    } else if MentionFault(g, ms, v) {
      MentionFaultAt(g, v);
    } else if v == UnusedMarked {
      var b: nat :| MetaBlocks(g) <= b < g.size && b < |g.marked| && g.marked[b] && !UsesBlock(us, b);
      UsesBlockIff(g, b);
      assert Stray(g, b);
    } else if v == BadDirectory {
      var i: nat :| i < g.ninodes && !DirOk(g, i);
      DotsIff(g, i);
    } else if v == NotFound || v == BadCount {
      var i: nat :| ROOTINO <= i < g.ninodes && if v == NotFound then !Found(g, i) else !CountOk(g, i);
      InodeFaultAt(g, i);
    }
  }

  lemma InodeFaultAt(g: Image, i: nat)
    requires Readable(g) && i < g.ninodes
    ensures !Found(g, i) ==> InUse(g, i) && !Referenced(g, i)
    ensures !CountOk(g, i) ==> InUse(g, i) && !LinksSound(g, i)
  {
    hide MentionsFrom, Referenced;
    LinksIff(g, i);
  }

  /** The only error that a sound image can get is that a directory appears more than once. */
  lemma SoundVerdict(g: Image, v: Verdict)
    requires Readable(g) && Consistent(g) && (v == Clean <==> Ordered(g)) && (v != Clean ==> HasFault(g, v))
    ensures v == if Ordered(g) then Clean else DirectoryTwice
  {
    hide Ordered, DotsSound, LinksSound, KindsOk, IsEntry, IsUse, EntryIn, AddrAt;
    forall p | IsUse(g, p)
      ensures !UseFaulty(g, p, v)
    {
      assert UseSound(g, p);
    }
    if exists p :: IsEntry(g, p) && EntryFaulty(g, p, v) {
      var p :| IsEntry(g, p) && EntryFaulty(g, p, v);
      assert EntrySound(g, MentionAt(g, p));
    } else if v == NotFound {
      var i: nat :| ROOTINO <= i < g.ninodes && InUse(g, i) && !Referenced(g, i);
      assert LinksSound(g, i);
      LinksParts(g, i);
    }
  }

  lemma LinksParts(g: Image, i: nat)
    requires LinksSound(g, i) && InUse(g, i)
    ensures Referenced(g, i)
  {
  }

  method CheckImage(g: Image) returns (v: Verdict)
    requires Readable(g)
    ensures v == Clean <==> Consistent(g) && Ordered(g)
    ensures v != Clean ==> HasFault(g, v)
    ensures Consistent(g) ==> v == if Ordered(g) then Clean else DirectoryTwice
  {
    hide Consistent, Ordered, Acceptable, ImageFault, HasFault;
    var c := new Checker(g);
    v := c.Check();
    AcceptableIff(g);
    if v != Clean {
      FaultAt(g, v);
    }
    if Consistent(g) {
      SoundVerdict(g, v);
    }
  }

  // ----- trees

  /** Entry q is not "..", or is the root's, or names a directory with an ordinary entry for its own. */
  ghost predicate NamesParent(g: Image, q: Place) {
    IsEntry(g, q) && EntryIn(g, q).name == ".." && q.node != ROOTINO ==>
      exists p :: IsEntry(g, p) && HoldsIt(MentionAt(g, p), MentionAt(g, q))
  }

  predicate HoldsIt(m: Mention, up: Mention) {
    Ordinary(m) && m.inum == up.dir && m.dir == up.inum
  }

  /** Every ".." names the parent, and no directory holds itself. */
  ghost predicate TreeLike(g: Image) {
    && (forall q :: NamesParent(g, q))
    && (forall p :: IsEntry(g, p) && NamesDirectory(g, MentionAt(g, p)) ==> p.node != EntryIn(g, p).inum)
  }

  /** Every directory that an ordinary entry names has a higher number than the one that holds it. */
  ghost predicate NumberedDown(g: Image) {
    forall p :: IsEntry(g, p) && NamesDirectory(g, MentionAt(g, p)) ==> p.node < EntryIn(g, p).inum
  }

  /** A tree is accepted exactly if it is sound and every directory in it is numbered above the one
      that holds it. */
  lemma TreeAcceptedIff(g: Image)
    requires Readable(g) && TreeLike(g)
    ensures Acceptable(g) <==> Consistent(g) && NumberedDown(g)
  {
    hide Acceptable;
    AcceptableIff(g);
    if Consistent(g) {
      if NumberedDown(g) {
        DownIsOrdered(g);
      }
      if Ordered(g) {
        OrderedIsDown(g);
      }
    }
  }

  lemma DownIsOrdered(g: Image)
    requires Readable(g) && Consistent(g) && TreeLike(g) && NumberedDown(g)
    ensures Ordered(g)
  {
    hide IsEntry, EntryIn, KindsOk, BlocksSound, DotsSound, LinksSound;
    forall p, q | IsEntry(g, p) && IsEntry(g, q) && DotsBack(g, MentionAt(g, p), MentionAt(g, q))
      ensures Before(p, q)
    {
      assert EntrySound(g, MentionAt(g, q)) && NamesParent(g, q);
      if EntryIn(g, q).name == ".." && q.node != ROOTINO {
        var up :| IsEntry(g, up) && HoldsIt(MentionAt(g, up), MentionAt(g, q));
        EntryDirectory(g, q);
        assert NamesDirectory(g, MentionAt(g, up));
      }
    }
  }

  lemma EntryDirectory(g: Image, p: Place)
    requires IsEntry(g, p)
    ensures p.node < |g.inodes| && g.inodes[p.node].kind == T_DIR
  {
  }

  lemma OrderedIsDown(g: Image)
    requires Readable(g) && Consistent(g) && Ordered(g) && TreeLike(g)
    ensures NumberedDown(g)
  {
    hide IsEntry, EntryIn, Acceptable, KindsOk, BlocksSound, DotsSound, LinksSound;
    AcceptableIff(g);
    forall p | IsEntry(g, p) && NamesDirectory(g, MentionAt(g, p))
      ensures p.node < EntryIn(g, p).inum
    {
      var dot, _ := AcceptedDots(g, EntryIn(g, p).inum);
      assert DotsBack(g, MentionAt(g, p), MentionAt(g, dot));
    }
  }

  // ----- a sound image that is rejected

  const ZEROS: seq<nat> := [0, 0, 0, 0, 0, 0, 0, 0, 0, 0, 0, 0]

  function Directory(b: nat, n: nat): Dinode {
    Dinode(T_DIR, 1, 16 * n, [b] + ZEROS)
  }

  /** Directory 3 is in the root, and directory 2 in directory 3. */
  function Grandchild(): Image {
    Image(7, 4,
          [Dinode(0, 0, 0, [0] + ZEROS), Directory(4, 3), Directory(5, 2), Directory(6, 3)],
          [false, false, false, false, true, true, true, false],
          [],
          [[], [], [], [],
           [Dirent(1, "."), Dirent(1, ".."), Dirent(3, "b")],
           [Dirent(2, "."), Dirent(3, "..")],
           [Dirent(3, "."), Dirent(1, ".."), Dirent(2, "a")]])
  }

  lemma GrandchildReadable()
    ensures Readable(Grandchild())
  {
  }

  /** All there is in that image. */
  lemma GrandchildPlaces(p: Place)
    ensures IsUse(Grandchild(), p) <==> 1 <= p.node <= 3 && p.at == 0
    ensures 1 <= p.node <= 3 && p.at == 0 ==> AddrAt(Grandchild(), p) == 3 + p.node
    ensures IsEntry(Grandchild(), p) <==> 1 <= p.node <= 3 && p.at < if p.node == 2 then 2 else 3
    ensures IsEntry(Grandchild(), p) ==>
              EntryIn(Grandchild(), p)
              == if p.at == 0 then Dirent(p.node, ".")
                 else if p.at == 1 then Dirent(if p.node == 2 then 3 else 1, "..")
                 else if p.node == 1 then Dirent(3, "b") else Dirent(2, "a")
  {
  }

  /** Every entry of the image is sound, and every directory has one name, but the scan meets the "."
      of directory 2 before the entry for it. */
  lemma GrandchildSound()
    ensures Readable(Grandchild()) && Consistent(Grandchild()) && !Ordered(Grandchild())
    ensures TreeLike(Grandchild()) && !NumberedDown(Grandchild())
  {
    GrandchildReadable();
    GrandchildBlocks();
    GrandchildEntries();
    hide IsEntry, EntryIn, Readable, BlocksSound;
    var g := Grandchild();
    GrandchildPlaces(Place(2, 0));
    GrandchildPlaces(Place(3, 2));
    var p, q := Place(3, 2), Place(2, 0);
    assert DotsBack(g, MentionAt(g, p), MentionAt(g, q)) && !Before(p, q);
    forall i: nat | 1 <= i < 4
      ensures DotsSound(g, i) && LinksSound(g, i)
    {
      GrandchildPlaces(Place(i, 0));
      GrandchildPlaces(Place(i, 1));
      assert EntryIn(g, Place(i, 0)) == Dirent(i, ".");
    }
  }

  lemma GrandchildBlocks()
    ensures BlocksSound(Grandchild())
  {
    hide IsUse, AddrAt;
    var g := Grandchild();
    forall p
      ensures IsUse(g, p) <==> 1 <= p.node <= 3 && p.at == 0
      ensures 1 <= p.node <= 3 && p.at == 0 ==> AddrAt(g, p) == 3 + p.node
    {
      GrandchildPlaces(p);
    }
    forall b: nat | 4 <= b < 7
      ensures Holds(g, b)
    {
      assert IsUse(g, Place(b - 3, 0));
    }
  }

  lemma GrandchildEntries()
    ensures EntriesSound(Grandchild()) && TreeLike(Grandchild())
  {
    hide IsEntry, EntryIn;
    var g := Grandchild();
    forall p
      ensures IsEntry(g, p) ==> EntrySound(g, MentionAt(g, p))
      ensures IsEntry(g, p) && NamesDirectory(g, MentionAt(g, p)) ==>
                (p == Place(1, 2) && EntryIn(g, p).inum == 3) || (p == Place(3, 2) && EntryIn(g, p).inum == 2)
      ensures NamesParent(g, p)
    {
      GrandchildPlaces(p);
      GrandchildPlaces(Place(1, 2));
      GrandchildPlaces(Place(3, 2));
      assert IsEntry(g, Place(1, 2)) && IsEntry(g, Place(3, 2));
    }
  }
}
