/** The file system checker of temp.c, over the parts of an image that it reads. */
module Checker {
  import opened Basics

  const NDIRECT: nat := 12
  const NINDIRECT: nat := 128
  const PERBLOCK: nat := 32            // directory entries in a block
  const IPB: nat := 8                  // inodes in a block
  const BPB: nat := 4096               // bits in a block
  const ROOTINO: nat := 1
  const T_DIR: int := 1
  const T_FILE: int := 2

  datatype Dirent = Dirent(inum: nat, name: string)
  datatype Dinode = Dinode(kind: int, nlink: int, size: nat, addrs: seq<nat>)

  /** The superblock's sizes, the inodes, the bitmap, and every block as index words and as entries. */
  datatype Image = Image(size: nat, ninodes: nat, inodes: seq<Dinode>, marked: seq<bool>,
                         words: seq<seq<nat>>, entries: seq<seq<Dirent>>)

  /** A use of a block by an inode: from the inode itself or from its indirect block. */
  datatype Use = Use(block: nat, indirect: bool)

  /** An entry of directory dir that names an inode. */
  datatype Mention = Mention(dir: nat, inum: nat, name: string)

  datatype Verdict = Clean | BadInode | BadAddress | MarkedFree | UsedTwice | UnusedMarked
                   | FreeNamed | BadDirectory | NoRoot | DirectoryTwice | NotFound | BadCount

  // ----- reading the image

  function Word(g: Image, b: nat, k: nat): nat {
    if b < |g.words| && k < |g.words[b]| then g.words[b][k] else 0
  }

  function EntryAt(g: Image, b: nat, k: nat): Dirent {
    if b < |g.entries| && k < |g.entries[b]| then g.entries[b][k] else Dirent(0, "")
  }

  function MetaBlocks(g: Image): nat {
    g.ninodes / IPB + 3 + (g.size / BPB + 1)
  }

  /** The block that holds directory block k. */
  function DirBlock(g: Image, x: Dinode, k: nat): nat
    requires |x.addrs| == NDIRECT + 1
  {
    if k < NDIRECT then x.addrs[k] else Word(g, x.addrs[NDIRECT], k - NDIRECT)
  }

  /** What the checker takes for granted: the parts have their sizes and no entry names an inode that
      does not exist. */
  ghost predicate Readable(g: Image) {
    && |g.inodes| == g.ninodes && |g.marked| > g.size
    && (forall i :: 0 <= i < g.ninodes ==> |g.inodes[i].addrs| == NDIRECT + 1)
    && forall b: nat, k: nat :: EntryAt(g, b, k).inum < g.ninodes || EntryAt(g, b, k).inum == 0
  }

  // ----- the uses of blocks, in the order in which they are checked

  function UseThen(a: nat, indirect: bool, rest: seq<Use>): seq<Use> {
    if a == 0 then rest else [Use(a, indirect)] + rest
  }

  function DirectThen(x: Dinode, j: nat, rest: seq<Use>): seq<Use>
    requires |x.addrs| == NDIRECT + 1 && j <= NDIRECT + 1
    decreases NDIRECT + 1 - j
  {
    if j == NDIRECT + 1 then rest else UseThen(x.addrs[j], false, DirectThen(x, j + 1, rest))
  }

  function IndirectThen(g: Image, b: nat, k: nat, rest: seq<Use>): seq<Use>
    requires k <= NINDIRECT
    decreases NINDIRECT - k
  {
    if k == NINDIRECT then rest else UseThen(Word(g, b, k), true, IndirectThen(g, b, k + 1, rest))
  }

  function IndexedThen(g: Image, x: Dinode, rest: seq<Use>): seq<Use>
    requires |x.addrs| == NDIRECT + 1
  {
    if x.addrs[NDIRECT] == 0 then rest else IndirectThen(g, x.addrs[NDIRECT], 0, rest)
  }

  /** The uses by inodes i and above. */
  function UsesFrom(g: Image, i: nat): seq<Use>
    requires Readable(g) && i <= g.ninodes
    decreases g.ninodes - i
  {
    if i == g.ninodes then [] else DirectThen(g.inodes[i], 0, IndexedThen(g, g.inodes[i], UsesFrom(g, i + 1)))
  }

  predicate InRange(g: Image, u: Use) {
    MetaBlocks(g) <= u.block && (if u.indirect then u.block <= g.size else u.block < g.size)
  }

  predicate UsesBlock(us: seq<Use>, b: nat) {
    exists k :: 0 <= k < |us| && us[k].block == b
  }

  /** Use k is in range and of a block that is marked and not used before. */
  predicate UseOk(g: Image, us: seq<Use>, k: nat) {
    k < |us| && InRange(g, us[k]) && us[k].block < |g.marked| && g.marked[us[k].block]
        && !UsesBlock(us[..k], us[k].block)
  }

  ghost predicate UsesOk(g: Image, us: seq<Use>) {
    forall k: nat :: k < |us| ==> UseOk(g, us, k)
  }

  /** What error v says about use k. */
  predicate UseWrong(g: Image, us: seq<Use>, k: nat, v: Verdict) {
    k < |us| &&
    match v
    case BadAddress => !InRange(g, us[k])
    case MarkedFree => us[k].block < |g.marked| && !g.marked[us[k].block]
    case UsedTwice => UsesBlock(us[..k], us[k].block)
    case _ => false
  }

  ghost predicate UseFault(g: Image, us: seq<Use>, v: Verdict) {
    exists k: nat :: UseWrong(g, us, k, v)
  }

  // ----- the mentions of inodes, in the order in which they are checked

  function MentionThen(dir: nat, e: Dirent, rest: seq<Mention>): seq<Mention> {
    if e.inum == 0 then rest else [Mention(dir, e.inum, e.name)] + rest
  }

  /** Entries i up to limit of block b. */
  function BlockThen(g: Image, dir: nat, b: nat, i: nat, limit: nat, rest: seq<Mention>): seq<Mention>
    requires i <= limit
    decreases limit - i
  {
    if i == limit then rest else MentionThen(dir, EntryAt(g, b, i), BlockThen(g, dir, b, i + 1, limit, rest))
  }

  function Limit(n: nat): nat {
    if n < PERBLOCK then n else PERBLOCK
  }

  /** The n entries from directory block k on. */
  function EntriesThen(g: Image, dir: nat, x: Dinode, k: nat, n: nat, rest: seq<Mention>): seq<Mention>
    requires |x.addrs| == NDIRECT + 1 && k <= NDIRECT + NINDIRECT
    decreases NDIRECT + NINDIRECT - k
  {
    if k == NDIRECT + NINDIRECT then rest
    else BlockThen(g, dir, DirBlock(g, x, k), 0, Limit(n),
                   if n <= PERBLOCK then rest else EntriesThen(g, dir, x, k + 1, n - PERBLOCK, rest))
  }

  function DirThen(g: Image, i: nat, rest: seq<Mention>): seq<Mention>
    requires Readable(g) && i < g.ninodes
  {
    if g.inodes[i].kind == T_DIR then EntriesThen(g, i, g.inodes[i], 0, g.inodes[i].size / 16, rest) else rest
  }

  /** The mentions in directories i and above. */
  function MentionsFrom(g: Image, i: nat): seq<Mention>
    requires Readable(g) && i <= g.ninodes
    decreases g.ninodes - i
  {
    if i == g.ninodes then [] else DirThen(g, i, MentionsFrom(g, i + 1))
  }

  predicate InUse(g: Image, u: nat) {
    u < |g.inodes| && g.inodes[u].kind != 0
  }

  predicate Ordinary(m: Mention) {
    m.name != "." && m.name != ".."
  }

  predicate Mentioned(ms: seq<Mention>, u: nat) {
    exists k :: 0 <= k < |ms| && ms[k].inum == u
  }

  /** Mention m after the mentions ms is in order: its inode is in use; "." names the directory itself
      and ".." of the root the root; an ordinary entry is the first mention of the directory it names. */
  predicate FollowsOk(g: Image, ms: seq<Mention>, m: Mention) {
    && InUse(g, m.inum)
    && (m.name == "." ==> m.inum == m.dir)
    && (m.name == ".." && m.dir == ROOTINO ==> m.inum == m.dir)
    && (Ordinary(m) && g.inodes[m.inum].kind == T_DIR ==> !Mentioned(ms, m.inum))
  }

  predicate MentionOk(g: Image, ms: seq<Mention>, k: nat) {
    k < |ms| && FollowsOk(g, ms[..k], ms[k])
  }

  ghost predicate MentionsOk(g: Image, ms: seq<Mention>) {
    forall k: nat :: k < |ms| ==> MentionOk(g, ms, k)
  }

  /** What error v says about mention k. */
  predicate Fault(g: Image, ms: seq<Mention>, k: nat, v: Verdict) {
    k < |ms| &&
    match v
    case FreeNamed => !InUse(g, ms[k].inum)
    case BadDirectory => ms[k].name == "." && ms[k].inum != ms[k].dir
    case NoRoot => ms[k].name == ".." && ms[k].dir == ROOTINO != ms[k].inum
    case DirectoryTwice => NamesDirectory(g, ms[k]) && Mentioned(ms[..k], ms[k].inum)
    case _ => false
  }

  /** An ordinary entry that names a directory. */
  predicate NamesDirectory(g: Image, m: Mention) {
    Ordinary(m) && m.inum < |g.inodes| && g.inodes[m.inum].kind == T_DIR
  }

  ghost predicate MentionFault(g: Image, ms: seq<Mention>, v: Verdict) {
    exists k: nat :: Fault(g, ms, k, v)
  }

  predicate Named(ms: seq<Mention>, name: string) {
    exists k :: 0 <= k < |ms| && ms[k].name == name
  }

  /** An entry that counts towards the link count of file u. */
  predicate Counts(g: Image, m: Mention, u: nat) {
    m.inum == u && Ordinary(m) && m.name != "" && u < |g.inodes| && g.inodes[u].kind == T_FILE
  }

  function Count(g: Image, ms: seq<Mention>, u: nat): nat {
    if ms == [] then 0 else Count(g, ms[..|ms| - 1], u) + if Counts(g, ms[|ms| - 1], u) then 1 else 0
  }

  // ----- what an accepted image is like

  ghost predicate KindsOk(g: Image) {
    forall i :: 0 <= i < |g.inodes| ==> 0 <= g.inodes[i].kind <= 3
  }

  ghost predicate MarksOk(g: Image, us: seq<Use>) {
    forall b: nat :: MetaBlocks(g) <= b < g.size && b < |g.marked| && g.marked[b] ==> UsesBlock(us, b)
  }

  /** All addresses are in range, distinct and marked, and nothing else is marked. */
  ghost predicate AddressesOk(g: Image)
    requires Readable(g)
  {
    UsesOk(g, UsesFrom(g, 0)) && MarksOk(g, UsesFrom(g, 0))
  }

  ghost predicate DirOk(g: Image, i: nat)
    requires Readable(g) && i < g.ninodes
  {
    g.inodes[i].kind == T_DIR ==> Named(DirThen(g, i, []), ".") && Named(DirThen(g, i, []), "..")
  }

  ghost predicate Found(g: Image, i: nat)
    requires Readable(g)
  {
    InUse(g, i) ==> Mentioned(MentionsFrom(g, 0), i)
  }

  ghost predicate CountOk(g: Image, i: nat)
    requires Readable(g) && i < g.ninodes
  {
    g.inodes[i].kind == T_FILE ==> g.inodes[i].nlink == Short(Count(g, MentionsFrom(g, 0), i))
  }

  ghost predicate InodeOk(g: Image, i: nat)
    requires Readable(g) && i < g.ninodes
  {
    Found(g, i) && CountOk(g, i)
  }

  ghost predicate NamesOk(g: Image)
    requires Readable(g)
  {
    && MentionsOk(g, MentionsFrom(g, 0))
    && (forall i: nat :: i < g.ninodes ==> DirOk(g, i))
    && (ROOTINO < g.ninodes ==> g.inodes[ROOTINO].kind == T_DIR)
    && (forall i: nat :: ROOTINO <= i < g.ninodes ==> InodeOk(g, i))
  }

  ghost predicate Acceptable(g: Image)
    requires Readable(g)
  {
    KindsOk(g) && AddressesOk(g) && NamesOk(g)
  }

  /** What error v says about the image. */
  ghost predicate ImageFault(g: Image, v: Verdict)
    requires Readable(g)
  {
    match v
    case Clean => false
    case BadInode => !KindsOk(g)
    case BadAddress => UseFault(g, UsesFrom(g, 0), v)
    case MarkedFree => UseFault(g, UsesFrom(g, 0), v)
    case UsedTwice => UseFault(g, UsesFrom(g, 0), v)
    case UnusedMarked => !MarksOk(g, UsesFrom(g, 0))
    case FreeNamed => MentionFault(g, MentionsFrom(g, 0), v)
    case DirectoryTwice => MentionFault(g, MentionsFrom(g, 0), v)
    case BadDirectory => MentionFault(g, MentionsFrom(g, 0), v) || exists i: nat :: i < g.ninodes && !DirOk(g, i)
    case NoRoot => MentionFault(g, MentionsFrom(g, 0), v) || (ROOTINO < g.ninodes && g.inodes[ROOTINO].kind != T_DIR)
    case NotFound => exists i: nat :: ROOTINO <= i < g.ninodes && !Found(g, i)
    case BadCount => exists i: nat :: ROOTINO <= i < g.ninodes && !CountOk(g, i)
  }

  // ----- checking one use and one mention

  lemma UsesBlockAdd(us: seq<Use>, u: Use, b: nat)
    ensures UsesBlock(us + [u], b) <==> UsesBlock(us, b) || u.block == b
  {
    if UsesBlock(us, b) {
      var k :| 0 <= k < |us| && us[k].block == b;
      assert (us + [u])[k].block == b;
    }
    assert (us + [u])[|us|] == u;
  }

  lemma UseAdded(g: Image, us: seq<Use>, u: Use)
    ensures UseOk(g, us + [u], |us|) <==>
              InRange(g, u) && u.block < |g.marked| && g.marked[u.block] && !UsesBlock(us, u.block)
    ensures UsesOk(g, us) && UseOk(g, us + [u], |us|) ==> UsesOk(g, us + [u])
  {
    assert (us + [u])[..|us|] == us;
    if UsesOk(g, us) && UseOk(g, us + [u], |us|) {
      forall k: nat | k < |us + [u]|
        ensures UseOk(g, us + [u], k)
      {
        assert k < |us| ==> UseOk(g, us, k) && (us + [u])[..k] == us[..k];
      }
    }
  }

  lemma UseFaultSpoils(g: Image, us: seq<Use>, v: Verdict)
    requires UseFault(g, us, v)
    ensures !UsesOk(g, us)
  {
    var k: nat :| UseWrong(g, us, k, v);
    assert !UseOk(g, us, k);
  }

  /** A wrong use is a fault of the whole list. */
  lemma WrongHere(g: Image, us: seq<Use>, u: Use, rest: seq<Use>, v: Verdict)
    requires UseWrong(g, us + [u], |us|, v)
    ensures UseFault(g, us + ([u] + rest), v)
  {
    var all := us + ([u] + rest);
    assert all[..|us|] == us == (us + [u])[..|us|];
    assert UseWrong(g, all, |us|, v);
  }

  lemma MentionedAdd(ms: seq<Mention>, m: Mention, u: nat)
    ensures Mentioned(ms + [m], u) <==> Mentioned(ms, u) || m.inum == u
  {
    if Mentioned(ms, u) {
      var k :| 0 <= k < |ms| && ms[k].inum == u;
      assert (ms + [m])[k].inum == u;
    }
    assert (ms + [m])[|ms|] == m;
  }

  lemma MentionAdded(g: Image, ms: seq<Mention>, m: Mention)
    ensures MentionOk(g, ms + [m], |ms|) <==> FollowsOk(g, ms, m)
    ensures MentionsOk(g, ms) && FollowsOk(g, ms, m) ==> MentionsOk(g, ms + [m])
  {
    assert (ms + [m])[..|ms|] == ms;
    if MentionsOk(g, ms) && FollowsOk(g, ms, m) {
      forall k: nat | k < |ms + [m]|
        ensures MentionOk(g, ms + [m], k)
      {
        assert k < |ms| ==> MentionOk(g, ms, k) && (ms + [m])[..k] == ms[..k];
      }
    }
  }

  lemma FaultSpoils(g: Image, ms: seq<Mention>, v: Verdict)
    requires MentionFault(g, ms, v)
    ensures !MentionsOk(g, ms)
  {
    var k: nat :| Fault(g, ms, k, v);
    assert !MentionOk(g, ms, k);
  }

  /** A faulty mention is a fault of the whole list. */
  lemma FaultHere(g: Image, ms: seq<Mention>, m: Mention, rest: seq<Mention>, v: Verdict)
    requires Fault(g, ms + [m], |ms|, v)
    ensures MentionFault(g, ms + ([m] + rest), v)
  {
    var all := ms + ([m] + rest);
    assert all[..|ms|] == ms == (ms + [m])[..|ms|];
    assert Fault(g, all, |ms|, v);
  }

  lemma CountAdd(g: Image, ms: seq<Mention>, m: Mention, u: nat)
    ensures Count(g, ms + [m], u) == Count(g, ms, u) + if Counts(g, m, u) then 1 else 0
  {
    assert (ms + [m])[..|ms + [m]| - 1] == ms;
  }

  predicate AddressError(v: Verdict) {
    v == BadAddress || v == MarkedFree || v == UsedTwice
  }

  // ----- the checker

  class Checker {
    const g: Image
    var bitmapCp: seq<bool>
    var inodeCp: seq<bool>
    var refcounts: seq<int>
    ghost var us: seq<Use>
    ghost var ms: seq<Mention>

    /** bitmap_cp has the marked blocks that have not been used yet. */
    ghost predicate TracksBlocks()
      reads this`bitmapCp, this`us
    {
      && |bitmapCp| == |g.marked| && UsesOk(g, us)
      && forall b: nat :: b < |bitmapCp| ==> (bitmapCp[b] <==> g.marked[b] && !UsesBlock(us, b))
    }

    /** inodebitmap_cp has the inodes in use that have not been mentioned yet; refcounts counts. */
    ghost predicate TracksInodes()
      reads this`inodeCp, this`refcounts, this`ms
    {
      && |inodeCp| == |refcounts| == |g.inodes| && MentionsOk(g, ms)
      && (forall u: nat :: u < |inodeCp| ==> (inodeCp[u] <==> InUse(g, u) && !Mentioned(ms, u)))
      && (forall u: nat :: u < |refcounts| ==> refcounts[u] == Short(Count(g, ms, u)))
    }

    lemma InOrder()
      requires TracksBlocks() && TracksInodes()
      ensures UsesOk(g, us) && MentionsOk(g, ms)
    {
    }

    /** The copies before the first check (temp.c:141-151). */
    constructor (g: Image)
      ensures this.g == g && TracksBlocks() && TracksInodes() && us == [] && ms == []
    {
      this.g := g;
      bitmapCp := g.marked;
      inodeCp := seq(|g.inodes|, i requires 0 <= i < |g.inodes| => g.inodes[i].kind != 0);
      refcounts := seq(|g.inodes|, _ => 0);
      us, ms := [], [];
    }

    /** One address (temp.c:162-187, 194-213). */
    method CheckUse(u: Use, ghost rest: seq<Use>) returns (v: Verdict)
      requires Readable(g) && TracksBlocks()
      modifies this`bitmapCp, this`us
      ensures v == Clean || AddressError(v)
      ensures v == Clean ==> TracksBlocks() && us == old(us) + [u]
      ensures v != Clean ==> UseFault(g, old(us) + ([u] + rest), v)
    {
      hide UsesOk, UsesBlock, UseFault;
      UseAdded(g, us, u);
      assert (us + [u])[..|us|] == us && (us + [u])[|us|] == u;
      if u.block < MetaBlocks(g) || (if u.indirect then u.block > g.size else u.block >= g.size) {
        WrongHere(g, us, u, rest, BadAddress);
        return BadAddress;
      }
      if !g.marked[u.block] {
        WrongHere(g, us, u, rest, MarkedFree);
        return MarkedFree;
      }
      if !bitmapCp[u.block] {
        WrongHere(g, us, u, rest, UsedTwice);
        return UsedTwice;
      }
      forall b: nat | b < |bitmapCp|
        ensures UsesBlock(us + [u], b) <==> UsesBlock(us, b) || u.block == b
      {
        UsesBlockAdd(us, u, b);
      }
      bitmapCp := bitmapCp[u.block := false];
      us := us + [u];
      return Clean;
    }

    /** The addresses of inode i (temp.c:161-215). */
    method CheckAddresses(i: nat, ghost rest: seq<Use>) returns (v: Verdict)
      requires Readable(g) && i < g.ninodes && TracksBlocks()
      modifies this`bitmapCp, this`us
      ensures v == Clean || AddressError(v)
      ensures v == Clean ==>
                TracksBlocks() && us + rest == old(us) + DirectThen(g.inodes[i], 0, IndexedThen(g, g.inodes[i], rest))
      ensures v != Clean ==> UseFault(g, old(us) + DirectThen(g.inodes[i], 0, IndexedThen(g, g.inodes[i], rest)), v)
    {
      hide UsesOk, IndexedThen, UsesBlock, InRange, UseFault;
      var x := g.inodes[i];
      ghost var indexed := IndexedThen(g, x, rest);
      ghost var all := us + DirectThen(x, 0, indexed);
      var j := 0;
      while j < NDIRECT + 1
        invariant 0 <= j <= NDIRECT + 1 && TracksBlocks() && us + DirectThen(x, j, indexed) == all
      {
        ghost var more := DirectThen(x, j + 1, indexed);
        if x.addrs[j] != 0 {
          Shift(us, Use(x.addrs[j], false), more);
          v := CheckUse(Use(x.addrs[j], false), more);
          if v != Clean {
            return;
          }
        }
        j := j + 1;
      }
      v := CheckIndirect(x, rest);
    }

    /** The addresses in the indirect block (temp.c:190-215). */
    method CheckIndirect(x: Dinode, ghost rest: seq<Use>) returns (v: Verdict)
      requires Readable(g) && |x.addrs| == NDIRECT + 1 && TracksBlocks()
      modifies this`bitmapCp, this`us
      ensures v == Clean || AddressError(v)
      ensures v == Clean ==> TracksBlocks() && us + rest == old(us) + IndexedThen(g, x, rest)
      ensures v != Clean ==> UseFault(g, old(us) + IndexedThen(g, x, rest), v)
    {
      hide UsesOk, UsesBlock, InRange, UseFault;
      if x.addrs[NDIRECT] != 0 {
        var b := x.addrs[NDIRECT];
        ghost var all := us + IndirectThen(g, b, 0, rest);
        var k := 0;
        while k < NINDIRECT
          invariant 0 <= k <= NINDIRECT && TracksBlocks() && us + IndirectThen(g, b, k, rest) == all
        {
          ghost var more := IndirectThen(g, b, k + 1, rest);
          if Word(g, b, k) != 0 {
            Shift(us, Use(Word(g, b, k), true), more);
            v := CheckUse(Use(Word(g, b, k), true), more);
            if v != Clean {
              return;
            }
          }
          k := k + 1;
        }
      }
      v := Clean;
    }

    /** One entry of directory dir (temp.c:55-88). */
    method CheckMention(m: Mention, ghost rest: seq<Mention>) returns (v: Verdict)
      requires Readable(g) && TracksInodes() && m.inum < g.ninodes
      modifies this`inodeCp, this`refcounts, this`ms
      ensures v == Clean || v == FreeNamed || v == BadDirectory || v == NoRoot || v == DirectoryTwice
      ensures v == Clean ==> TracksInodes() && ms == old(ms) + [m]
      ensures v != Clean ==> MentionFault(g, old(ms) + ([m] + rest), v)
    {
      hide MentionsOk, Mentioned, Count, Short, MentionFault;
      MentionAdded(g, ms, m);
      assert (ms + [m])[..|ms|] == ms && (ms + [m])[|ms|] == m;
      if g.inodes[m.inum].kind == 0 {
        FaultHere(g, ms, m, rest, FreeNamed);
        return FreeNamed;
      }
      if m.name == "." {
        if m.inum != m.dir {
          FaultHere(g, ms, m, rest, BadDirectory);
          return BadDirectory;
        }
      } else if m.name == ".." {
        if m.dir == ROOTINO && m.inum != m.dir {
          FaultHere(g, ms, m, rest, NoRoot);
          return NoRoot;
        }
      } else if g.inodes[m.inum].kind == T_DIR {
        if !inodeCp[m.inum] {
          FaultHere(g, ms, m, rest, DirectoryTwice);
          return DirectoryTwice;
        }
        inodeCp := inodeCp[m.inum := false];
      } else if g.inodes[m.inum].kind == T_FILE && m.name != "" {
        ShortAdd(Count(g, ms, m.inum));
        refcounts := refcounts[m.inum := Short(refcounts[m.inum] + 1)];
      }
      forall u: nat | u < |inodeCp|
        ensures Mentioned(ms + [m], u) <==> Mentioned(ms, u) || m.inum == u
        ensures Count(g, ms + [m], u) == Count(g, ms, u) + if Counts(g, m, u) then 1 else 0
      {
        MentionedAdd(ms, m, u);
        CountAdd(g, ms, m, u);
      }
      inodeCp := inodeCp[m.inum := false];
      ms := ms + [m];
      return Clean;
    }

    /** The entries of one block (temp.c:52-90); p0 and gp0 tell what the blocks before it had. */
    method CheckBlock(dir: nat, b: nat, limit: nat, p0: bool, gp0: bool, ghost after: seq<Mention>)
      returns (v: Verdict, pdir: bool, gpdir: bool, ghost here: seq<Mention>)
      requires Readable(g) && TracksInodes()
      modifies this`inodeCp, this`refcounts, this`ms
      ensures v == Clean || v == FreeNamed || v == BadDirectory || v == NoRoot || v == DirectoryTwice
      ensures v == Clean ==>
                TracksInodes() && ms == old(ms) + here && here + after == BlockThen(g, dir, b, 0, limit, after)
      ensures v == Clean ==> (pdir <==> p0 || Named(here, ".")) && (gpdir <==> gp0 || Named(here, ".."))
      ensures v != Clean ==> MentionFault(g, old(ms) + BlockThen(g, dir, b, 0, limit, after), v)
    {
      hide MentionsOk, TracksInodes, BlockThen, Named, MentionFault;
      ghost var all := BlockThen(g, dir, b, 0, limit, after);
      here := [];
      pdir, gpdir := p0, gp0;
      NoneNamed();
      var k := 0;
      while k < limit
        invariant 0 <= k <= limit && TracksInodes() && ms == old(ms) + here
        invariant here + BlockThen(g, dir, b, k, limit, after) == all
        invariant (pdir <==> p0 || Named(here, ".")) && (gpdir <==> gp0 || Named(here, ".."))
      {
        var e := EntryAt(g, b, k);
        BlockStep(g, dir, b, k, limit, after);
        if e.inum != 0 {
          var mention := Mention(dir, e.inum, e.name);
          ghost var more := BlockThen(g, dir, b, k + 1, limit, after);
          Shift(here, mention, more);
          assert ms + ([mention] + more) == old(ms) + all;
          v := CheckMention(mention, more);
          if v != Clean {
            return;
          }
          NamedAdd(here, mention);
          here := here + [mention];
          pdir := pdir || e.name == ".";
          gpdir := gpdir || e.name == "..";
        }
        k := k + 1;
      }
      BlockEnds(g, dir, b, limit, after);
      v := Clean;
    }

    /** All entries of directory i, and that "." and ".." are among them (temp.c:34-99). */
    method CheckDir(i: nat, ghost rest: seq<Mention>) returns (v: Verdict)
      requires Readable(g) && i < g.ninodes && g.inodes[i].kind == T_DIR && TracksInodes()
      modifies this`inodeCp, this`refcounts, this`ms
      ensures v == Clean || v == FreeNamed || v == BadDirectory || v == NoRoot || v == DirectoryTwice
      ensures v == Clean ==> TracksInodes() && ms + rest == old(ms) + DirThen(g, i, rest) && DirOk(g, i)
      ensures v != Clean ==> MentionFault(g, old(ms) + DirThen(g, i, rest), v) || (v == BadDirectory && !DirOk(g, i))
    {
      hide MentionsOk, TracksInodes, EntriesThen, BlockThen, Named, DirBlock, Limit;
      var x := g.inodes[i];
      ghost var all, here: seq<Mention> := DirThen(g, i, rest), [];
      var n: nat := x.size / 16;
      var pdir, gpdir := false, false;
      var counter := 0;
      NoneNamed();
      while counter < NDIRECT + NINDIRECT
        invariant 0 <= counter <= NDIRECT + NINDIRECT && TracksInodes() && ms == old(ms) + here
        invariant here + EntriesThen(g, i, x, counter, n, rest) == all
        invariant (pdir <==> Named(here, ".")) && (gpdir <==> Named(here, ".."))
      {
        ghost var after := if n <= PERBLOCK then rest else EntriesThen(g, i, x, counter + 1, n - PERBLOCK, rest);
        EntriesStep(g, i, x, counter, n, rest);
        ghost var more;
        Regroup(ms, old(ms), here, EntriesThen(g, i, x, counter, n, rest), all);
        v, pdir, gpdir, more := CheckBlock(i, DirBlock(g, x, counter), Limit(n), pdir, gpdir, after);
        if v != Clean {
          return;
        }
        Regroup(ms, old(ms) + here, more, after, more + after);
        Regroup(here + more, here, more, after, more + after);
        NamedJoin(here, more);
        here := here + more;
        if n <= PERBLOCK {
          break;
        }
        counter := counter + 1;
        n := n - PERBLOCK;
      }
      EntriesEnd(g, i, x, n, rest);
      OwnEntries(g, i, here, rest);
      if !pdir || !gpdir {
        return BadDirectory;
      }
      return Clean;
    }

    /** One inode: its type, its addresses, and its entries if it is a directory (temp.c:154-226). */
    method CheckInode(i: nat) returns (v: Verdict)
      requires Readable(g) && i < g.ninodes && TracksBlocks() && TracksInodes()
      requires Left(g, us, ms, i)
      modifies this
      ensures v == Clean ==> TracksBlocks() && TracksInodes()
      ensures v == Clean ==> Left(g, us, ms, i + 1) && Passes(g, i)
      ensures v != Clean ==> ImageFault(g, v)
    {
      hide MentionsOk, UsesOk, MentionFault, UseFault, TracksInodes, TracksBlocks, DirThen, DirectThen, IndexedThen,
          Named;
      if g.inodes[i].kind < 0 || g.inodes[i].kind > 3 {
        return BadInode;
      }
      v := CheckAddresses(i, UsesFrom(g, i + 1));
      if v != Clean {
        return;
      }
      if i == ROOTINO && g.inodes[i].kind != T_DIR {
        return NoRoot;
      }
      NotADirectory(g, i, MentionsFrom(g, i + 1));
      if g.inodes[i].kind == T_DIR {
        v := CheckDir(i, MentionsFrom(g, i + 1));
      }
    }

    /** All inodes (temp.c:153-227). */
    method CheckInodes() returns (v: Verdict)
      requires Readable(g) && us == [] && ms == [] && TracksBlocks() && TracksInodes()
      modifies this
      ensures v == Clean ==> TracksBlocks() && TracksInodes() && us == UsesFrom(g, 0) && ms == MentionsFrom(g, 0)
      ensures v == Clean ==> KindsOk(g) && (forall k: nat :: k < g.ninodes ==> DirOk(g, k))
                             && (ROOTINO < g.ninodes ==> g.inodes[ROOTINO].kind == T_DIR)
      ensures v != Clean ==> ImageFault(g, v)
    {
      hide ImageFault, MentionsOk, UsesOk, TracksInodes, TracksBlocks, UsesFrom, MentionsFrom, AddressesOk, NamesOk,
          KindsOk, Readable, Left, Passes, DirOk;
      InodesThere(g);
      NothingChecked(g, us, ms);
      var i := 0;
      while i < g.ninodes
        invariant 0 <= i <= g.ninodes && TracksBlocks() && TracksInodes() && Left(g, us, ms, i)
        invariant forall k: nat :: k < i ==> Passes(g, k)
      {
        v := CheckInode(i);
        if v != Clean {
          return;
        }
        i := i + 1;
      }
      NothingLeft(g, us, ms);
      v := Clean;
    }

    /** The whole check (temp.c:153-251). It returns without an error exactly if the image is
        acceptable, and the error that it reports is one that the image has. */
    method Check() returns (v: Verdict)
      requires Readable(g) && us == [] && ms == [] && TracksBlocks() && TracksInodes()
      modifies this
      ensures v == Clean <==> Acceptable(g)
      ensures v != Clean ==> ImageFault(g, v)
    {
      hide MentionsOk, UsesOk, TracksInodes, TracksBlocks, MarksOk, UsesFrom, MentionsFrom, DirOk, InodeOk, Found,
          CountOk, KindsOk;
      v := CheckInodes();
      if v != Clean {
        FaultyImage(g, v);
        return;
      }
      InOrder();
      v := CheckBitmap();
      if v == Clean {
        v := CheckCounts();
      }
    }

    /** No block is marked without being used (temp.c:229-234). */
    method CheckBitmap() returns (v: Verdict)
      requires Readable(g) && TracksBlocks()
      ensures v == if MarksOk(g, us) then Clean else UnusedMarked
    {
      var i := MetaBlocks(g);
      while i < g.size
        invariant MetaBlocks(g) <= i
        invariant forall b: nat :: MetaBlocks(g) <= b < i && b < g.size && g.marked[b] ==> UsesBlock(us, b)
      {
        if bitmapCp[i] {
          return UnusedMarked;
        }
        i := i + 1;
      }
      return Clean;
    }

    /** Every inode in use is mentioned, and the link counts of files are right (temp.c:236-250). */
    method CheckCounts() returns (v: Verdict)
      requires Readable(g) && TracksInodes() && ms == MentionsFrom(g, 0)
      ensures v == Clean || v == NotFound || v == BadCount
      ensures v == Clean <==> forall i: nat :: ROOTINO <= i < g.ninodes ==> InodeOk(g, i)
      ensures v != Clean ==> ImageFault(g, v)
    {
      var i := ROOTINO;
      while i < g.ninodes
        invariant ROOTINO <= i && forall k: nat :: ROOTINO <= k < i && k < g.ninodes ==> InodeOk(g, k)
      {
        if g.inodes[i].kind != 0 && inodeCp[i] {
          assert !Found(g, i) && !InodeOk(g, i);
          return NotFound;
        }
        if g.inodes[i].kind == T_FILE && g.inodes[i].nlink != refcounts[i] {
          assert !CountOk(g, i) && !InodeOk(g, i);
          return BadCount;
        }
        i := i + 1;
      }
      return Clean;
    }
  }

  lemma Shift<T>(a: seq<T>, x: T, b: seq<T>)
    ensures a + ([x] + b) == (a + [x]) + b
  {
  }

  lemma Regroup<T>(a: seq<T>, b: seq<T>, c: seq<T>, d: seq<T>, e: seq<T>)
    requires a == b + c && c + d == e
    ensures a + d == b + e
  {
    assert (b + c) + d == b + (c + d);
  }

  lemma NoneNamed()
    ensures forall name :: !Named([], name)
  {
  }

  lemma NamedAdd(ms: seq<Mention>, m: Mention)
    ensures forall name :: Named(ms + [m], name) <==> Named(ms, name) || m.name == name
  {
    forall name
      ensures Named(ms + [m], name) <==> Named(ms, name) || m.name == name
    {
      if Named(ms, name) {
        var k :| 0 <= k < |ms| && ms[k].name == name;
        assert (ms + [m])[k].name == name;
      }
      assert (ms + [m])[|ms|] == m;
    }
  }

  lemma NamedJoin(a: seq<Mention>, b: seq<Mention>)
    ensures forall name :: Named(a + b, name) <==> Named(a, name) || Named(b, name)
  {
    forall name
      ensures Named(a + b, name) <==> Named(a, name) || Named(b, name)
    {
      if Named(a, name) {
        var k :| 0 <= k < |a| && a[k].name == name;
        assert (a + b)[k].name == name;
      }
      if Named(b, name) {
        var k :| 0 <= k < |b| && b[k].name == name;
        assert (a + b)[|a| + k].name == name;
      }
    }
  }

  lemma InodesThere(g: Image)
    requires Readable(g)
    ensures |g.inodes| == g.ninodes
  {
  }

  /** What has been checked and what is left make up the whole lists. */
  ghost predicate Left(g: Image, us: seq<Use>, ms: seq<Mention>, i: nat)
    requires Readable(g) && i <= g.ninodes
  {
    us + UsesFrom(g, i) == UsesFrom(g, 0) && ms + MentionsFrom(g, i) == MentionsFrom(g, 0)
  }

  ghost predicate Passes(g: Image, i: nat)
    requires Readable(g) && i < g.ninodes
  {
    0 <= g.inodes[i].kind <= 3 && DirOk(g, i) && (i == ROOTINO ==> g.inodes[i].kind == T_DIR)
  }

  lemma NothingChecked(g: Image, us: seq<Use>, ms: seq<Mention>)
    requires Readable(g) && us == [] && ms == []
    ensures Left(g, us, ms, 0)
  {
    assert [] + UsesFrom(g, 0) == UsesFrom(g, 0) && [] + MentionsFrom(g, 0) == MentionsFrom(g, 0);
  }

  lemma NothingLeft(g: Image, us: seq<Use>, ms: seq<Mention>)
    requires Readable(g) && Left(g, us, ms, g.ninodes) && forall k: nat :: k < g.ninodes ==> Passes(g, k)
    ensures us == UsesFrom(g, 0) && ms == MentionsFrom(g, 0)
    ensures KindsOk(g) && (forall k: nat :: k < g.ninodes ==> DirOk(g, k))
    ensures ROOTINO < g.ninodes ==> g.inodes[ROOTINO].kind == T_DIR
  {
    assert us + [] == us && ms + [] == ms;
    assert forall k: nat :: k < g.ninodes ==> Passes(g, k);
    assert ROOTINO < g.ninodes ==> Passes(g, ROOTINO);
    forall k: nat | k < g.ninodes
      ensures 0 <= g.inodes[k].kind <= 3 && DirOk(g, k)
    {
      assert Passes(g, k);
    }
  }

  /** An image with a fault is not acceptable. */
  lemma FaultyImage(g: Image, v: Verdict)
    requires Readable(g) && ImageFault(g, v)
    ensures !Acceptable(g)
  {
    hide MentionsFrom, UsesFrom, MentionFault, UseFault, UsesOk, MentionsOk;
    var us, ms := UsesFrom(g, 0), MentionsFrom(g, 0);
    if UseFault(g, us, v) {
      UseFaultSpoils(g, us, v);
    }
    if MentionFault(g, ms, v) {
      FaultSpoils(g, ms, v);
    } else if v == NotFound || v == BadCount {
      var i: nat :| ROOTINO <= i < g.ninodes && (!Found(g, i) || !CountOk(g, i));
      assert !InodeOk(g, i);
    }
  }

  lemma EntriesStep(g: Image, dir: nat, x: Dinode, k: nat, n: nat, rest: seq<Mention>)
    requires |x.addrs| == NDIRECT + 1 && k < NDIRECT + NINDIRECT
    ensures EntriesThen(g, dir, x, k, n, rest)
            == BlockThen(g, dir, DirBlock(g, x, k), 0, Limit(n),
                         if n <= PERBLOCK then rest else EntriesThen(g, dir, x, k + 1, n - PERBLOCK, rest))
  {
  }

  lemma EntriesEnd(g: Image, dir: nat, x: Dinode, n: nat, rest: seq<Mention>)
    requires |x.addrs| == NDIRECT + 1
    ensures EntriesThen(g, dir, x, NDIRECT + NINDIRECT, n, rest) == rest
  {
  }

  lemma BlockStep(g: Image, dir: nat, b: nat, i: nat, limit: nat, rest: seq<Mention>)
    requires i < limit
    ensures BlockThen(g, dir, b, i, limit, rest)
            == MentionThen(dir, EntryAt(g, b, i), BlockThen(g, dir, b, i + 1, limit, rest))
  {
  }

  lemma BlockEnds(g: Image, dir: nat, b: nat, limit: nat, rest: seq<Mention>)
    ensures BlockThen(g, dir, b, limit, limit, rest) == rest
  {
  }

  lemma {:induction false} BlockSplit(g: Image, dir: nat, b: nat, i: nat, limit: nat, a: seq<Mention>,
      rest: seq<Mention>)
    requires i <= limit
    ensures BlockThen(g, dir, b, i, limit, a + rest) == BlockThen(g, dir, b, i, limit, a) + rest
    decreases limit - i
  {
    if i < limit {
      BlockSplit(g, dir, b, i + 1, limit, a, rest);
    }
  }

  lemma {:induction false} EntriesSplit(g: Image, dir: nat, x: Dinode, k: nat, n: nat, rest: seq<Mention>)
    requires |x.addrs| == NDIRECT + 1 && k <= NDIRECT + NINDIRECT
    ensures EntriesThen(g, dir, x, k, n, rest) == EntriesThen(g, dir, x, k, n, []) + rest
    decreases NDIRECT + NINDIRECT - k
  {
    hide EntriesThen, BlockThen, DirBlock, Limit;
    if k == NDIRECT + NINDIRECT {
      EntriesEnd(g, dir, x, n, rest);
      EntriesEnd(g, dir, x, n, []);
    } else {
      EntriesStep(g, dir, x, k, n, rest);
      EntriesStep(g, dir, x, k, n, []);
      var after := if n <= PERBLOCK then [] else EntriesThen(g, dir, x, k + 1, n - PERBLOCK, []);
      if n > PERBLOCK {
        EntriesSplit(g, dir, x, k + 1, n - PERBLOCK, rest);
      }
      BlockSplit(g, dir, DirBlock(g, x, k), 0, Limit(n), after, rest);
      assert [] + rest == rest;
    }
  }

  /** The entries that have been checked are the directory's own. */
  lemma OwnEntries(g: Image, i: nat, here: seq<Mention>, rest: seq<Mention>)
    requires Readable(g) && i < g.ninodes && g.inodes[i].kind == T_DIR && here + rest == DirThen(g, i, rest)
    ensures here == DirThen(g, i, [])
  {
    EntriesSplit(g, i, g.inodes[i], 0, g.inodes[i].size / 16, rest);
    var own := DirThen(g, i, []);
    assert |here| == |own|;
    assert here == (here + rest)[..|here|] == (own + rest)[..|own|] == own;
  }

  lemma NotADirectory(g: Image, i: nat, rest: seq<Mention>)
    requires Readable(g) && i < g.ninodes
    ensures g.inodes[i].kind != T_DIR ==> DirThen(g, i, rest) == rest && DirOk(g, i)
  {
  }
}
