/** Where the checker of temp.c looks in an image: the places of block addresses and of directory
    entries, found from the inodes without going through the scan, and a proof that the scan meets
    every one of them once, by inode number and then by position. */
module Places {
  import opened Basics
  import opened Checker

  /** Address or entry number at of an inode. */
  datatype Place = Place(node: nat, at: nat)

  predicate Before(p: Place, q: Place) {
    p.node < q.node || (p.node == q.node && p.at < q.at)
  }

  // ----- the places

  /** The word at k of the inode's indirect block. */
  function IndirectWord(g: Image, x: Dinode, k: nat): nat {
    if |x.addrs| == 13 && x.addrs[12] < |g.words| && k < |g.words[x.addrs[12]]| then g.words[x.addrs[12]][k] else 0
  }

  /** The twelve direct addresses, that of the indirect block, and the 128 addresses in it. */
  function AddrAt(g: Image, p: Place): nat {
    if p.node >= |g.inodes| || p.at >= 13 + 128 || |g.inodes[p.node].addrs| != 13 then 0
    else
      var x := g.inodes[p.node];
      if p.at < 13 then x.addrs[p.at] else if x.addrs[12] == 0 then 0 else IndirectWord(g, x, p.at - 13)
  }

  /** Entry j of a directory is in slot j % 32 of the block that its address j / 32 names, and from entry
      12 * 32 on of the block that word j / 32 - 12 of its indirect block names. */
  function EntryIn(g: Image, p: Place): Dirent {
    if p.node >= |g.inodes| || p.at / 32 >= 12 + 128 || |g.inodes[p.node].addrs| != 13 then Dirent(0, "")
    else
      var x, k := g.inodes[p.node], p.at / 32;
      var b := if k < 12 then x.addrs[k] else IndirectWord(g, x, k - 12);
      if b < |g.entries| && p.at % 32 < |g.entries[b]| then g.entries[b][p.at % 32] else Dirent(0, "")
  }

  predicate IsUse(g: Image, p: Place) {
    AddrAt(g, p) != 0
  }

  function UseAt(g: Image, p: Place): Use {
    Use(AddrAt(g, p), p.at >= 13)
  }

  /** An entry of a directory, within its size, that names an inode. */
  predicate IsEntry(g: Image, p: Place) {
    p.node < |g.inodes| && g.inodes[p.node].kind == 1 && p.at < g.inodes[p.node].size / 16 && EntryIn(g, p).inum != 0
  }

  function MentionAt(g: Image, p: Place): Mention {
    Mention(p.node, EntryIn(g, p).inum, EntryIn(g, p).name)
  }

  // ----- lists of places

  /** The list ms is of what is at the live places from `from` on, each once and in order. */
  ghost predicate Scans<M>(ps: seq<Place>, ms: seq<M>, live: Place -> bool, item: Place -> M, from: Place) {
    && |ps| == |ms|
    && (forall k :: 0 <= k < |ps| ==> live(ps[k]) && ms[k] == item(ps[k]) && !Before(ps[k], from))
    && (forall j, k :: 0 <= j < k < |ps| ==> Before(ps[j], ps[k]))
    && (forall p :: live(p) && !Before(p, from) ==> p in ps)
  }

  /** What p adds to a list of the live places behind it. */
  lemma ScansStep<M>(ps: seq<Place>, ms: seq<M>, live: Place -> bool, item: Place -> M, p: Place)
    requires Scans(ps, ms, live, item, Place(p.node, p.at + 1))
    ensures live(p) ==> Scans([p] + ps, [item(p)] + ms, live, item, p)
    ensures !live(p) ==> Scans(ps, ms, live, item, p)
  {
    if live(p) {
      forall q | live(q) && !Before(q, p)
        ensures q in [p] + ps
      {
        assert q != p ==> q in ps;
      }
    }
  }

  /** Places that are not live may be passed over. */
  lemma ScansSkip<M>(ps: seq<Place>, ms: seq<M>, live: Place -> bool, item: Place -> M, from: Place, to: Place)
    requires Scans(ps, ms, live, item, to) && !Before(to, from)
    requires forall p :: live(p) && !Before(p, from) ==> !Before(p, to)
    ensures Scans(ps, ms, live, item, from)
  {
  }

  lemma ScansNothing<M>(live: Place -> bool, item: Place -> M, from: Place)
    requires forall p :: live(p) ==> Before(p, from)
    ensures Scans([], [], live, item, from)
  {
  }

  // ----- the scan of addresses

  function Uses(g: Image): Place -> bool {
    (p: Place) => IsUse(g, p)
  }

  function Used(g: Image): Place -> Use {
    (p: Place) => UseAt(g, p)
  }

  lemma {:induction false} IndirectScan(g: Image, i: nat, k: nat, ps0: seq<Place>, rest: seq<Use>)
    returns (ps: seq<Place>)
    requires Readable(g) && i < g.ninodes && k <= NINDIRECT && g.inodes[i].addrs[NDIRECT] != 0
    requires Scans(ps0, rest, Uses(g), Used(g), Place(i + 1, 0))
    ensures Scans(ps, IndirectThen(g, g.inodes[i].addrs[NDIRECT], k, rest), Uses(g), Used(g), Place(i, 13 + k))
    decreases NINDIRECT - k
  {
    hide Scans;
    if k == NINDIRECT {
      ScansSkip(ps0, rest, Uses(g), Used(g), Place(i, 13 + k), Place(i + 1, 0));
      ps := ps0;
    } else {
      var more := IndirectScan(g, i, k + 1, ps0, rest);
      ScansStep(more, IndirectThen(g, g.inodes[i].addrs[NDIRECT], k + 1, rest), Uses(g), Used(g), Place(i, 13 + k));
      ps := if IsUse(g, Place(i, 13 + k)) then [Place(i, 13 + k)] + more else more;
    }
  }

  lemma {:induction false} DirectScan(g: Image, i: nat, j: nat, ps0: seq<Place>, rest: seq<Use>)
    returns (ps: seq<Place>)
    requires Readable(g) && i < g.ninodes && j <= NDIRECT + 1
    requires Scans(ps0, rest, Uses(g), Used(g), Place(i, 13))
    ensures Scans(ps, DirectThen(g.inodes[i], j, rest), Uses(g), Used(g), Place(i, j))
    decreases NDIRECT + 1 - j
  {
    hide Scans;
    if j == NDIRECT + 1 {
      ps := ps0;
    } else {
      var more := DirectScan(g, i, j + 1, ps0, rest);
      ScansStep(more, DirectThen(g.inodes[i], j + 1, rest), Uses(g), Used(g), Place(i, j));
      ps := if IsUse(g, Place(i, j)) then [Place(i, j)] + more else more;
    }
  }

  lemma {:induction false} UseScan(g: Image, i: nat) returns (ps: seq<Place>)
    requires Readable(g) && i <= g.ninodes
    ensures Scans(ps, UsesFrom(g, i), Uses(g), Used(g), Place(i, 0))
    decreases g.ninodes - i
  {
    hide Scans, IndirectThen, DirectThen;
    if i == g.ninodes {
      ScansNothing(Uses(g), Used(g), Place(i, 0));
      ps := [];
    } else {
      ps := UseScan(g, i + 1);
      var rest := UsesFrom(g, i + 1);
      if g.inodes[i].addrs[NDIRECT] == 0 {
        ScansSkip(ps, rest, Uses(g), Used(g), Place(i, 13), Place(i + 1, 0));
      } else {
        ps := IndirectScan(g, i, 0, ps, rest);
      }
      ps := DirectScan(g, i, 0, ps, IndexedThen(g, g.inodes[i], rest));
    }
  }

  // ----- the scan of entries

  /** Entries of the directories below a limit. */
  function Entries(g: Image, lim: nat): Place -> bool {
    (p: Place) => IsEntry(g, p) && p.node < lim
  }

  function Mentions(g: Image): Place -> Mention {
    (p: Place) => MentionAt(g, p)
  }

  lemma SlotIs(g: Image, i: nat, k: nat, s: nat)
    requires Readable(g) && i < g.ninodes && k < NDIRECT + NINDIRECT && s < PERBLOCK
    ensures EntryIn(g, Place(i, PERBLOCK * k + s)) == EntryAt(g, DirBlock(g, g.inodes[i], k), s)
  {
    var at := PERBLOCK * k + s;
    assert at / 32 == k && at % 32 == s;
  }

  lemma {:induction false} BlockScan(g: Image, lim: nat, i: nat, k: nat, s: nat, limit: nat, ps0: seq<Place>,
      rest: seq<Mention>) returns (ps: seq<Place>)
    requires Readable(g) && i < g.ninodes && i < lim && g.inodes[i].kind == T_DIR && k < NDIRECT + NINDIRECT
    requires s <= limit <= PERBLOCK && PERBLOCK * k + limit <= g.inodes[i].size / 16
    requires Scans(ps0, rest, Entries(g, lim), Mentions(g), Place(i, PERBLOCK * k + limit))
    ensures Scans(ps, BlockThen(g, i, DirBlock(g, g.inodes[i], k), s, limit, rest), Entries(g, lim), Mentions(g),
                  Place(i, PERBLOCK * k + s))
    decreases limit - s
  {
    hide Scans, EntryIn, EntryAt, DirBlock;
    if s == limit {
      ps := ps0;
    } else {
      var b, p := DirBlock(g, g.inodes[i], k), Place(i, PERBLOCK * k + s);
      var more := BlockScan(g, lim, i, k, s + 1, limit, ps0, rest);
      ScansStep(more, BlockThen(g, i, b, s + 1, limit, rest), Entries(g, lim), Mentions(g), p);
      SlotIs(g, i, k, s);
      ps := if IsEntry(g, p) then [p] + more else more;
    }
  }

  lemma {:induction false} EntryScan(g: Image, lim: nat, i: nat, k: nat, n: nat, ps0: seq<Place>,
      rest: seq<Mention>) returns (ps: seq<Place>)
    requires Readable(g) && i < g.ninodes && i < lim && g.inodes[i].kind == T_DIR && k <= NDIRECT + NINDIRECT
    requires PERBLOCK * k + n == g.inodes[i].size / 16
    requires Scans(ps0, rest, Entries(g, lim), Mentions(g), Place(i + 1, 0))
    ensures Scans(ps, EntriesThen(g, i, g.inodes[i], k, n, rest), Entries(g, lim), Mentions(g), Place(i, PERBLOCK * k))
    decreases NDIRECT + NINDIRECT - k
  {
    hide Scans, BlockThen, DirBlock;
    if k == NDIRECT + NINDIRECT {
      ScansSkip(ps0, rest, Entries(g, lim), Mentions(g), Place(i, PERBLOCK * k), Place(i + 1, 0));
      ps := ps0;
    } else if n <= PERBLOCK {
      ScansSkip(ps0, rest, Entries(g, lim), Mentions(g), Place(i, PERBLOCK * k + n), Place(i + 1, 0));
      ps := BlockScan(g, lim, i, k, 0, n, ps0, rest);
    } else {
      var more := EntryScan(g, lim, i, k + 1, n - PERBLOCK, ps0, rest);
      ps := BlockScan(g, lim, i, k, 0, PERBLOCK, more, EntriesThen(g, i, g.inodes[i], k + 1, n - PERBLOCK, rest));
    }
  }

  lemma DirScan(g: Image, lim: nat, i: nat, ps0: seq<Place>, rest: seq<Mention>) returns (ps: seq<Place>)
    requires Readable(g) && i < g.ninodes && i < lim
    requires Scans(ps0, rest, Entries(g, lim), Mentions(g), Place(i + 1, 0))
    ensures Scans(ps, DirThen(g, i, rest), Entries(g, lim), Mentions(g), Place(i, 0))
  {
    hide Scans, EntriesThen;
    if g.inodes[i].kind == T_DIR {
      ps := EntryScan(g, lim, i, 0, g.inodes[i].size / 16, ps0, rest);
    } else {
      ScansSkip(ps0, rest, Entries(g, lim), Mentions(g), Place(i, 0), Place(i + 1, 0));
      ps := ps0;
    }
  }

  lemma {:induction false} MentionScan(g: Image, i: nat) returns (ps: seq<Place>)
    requires Readable(g) && i <= g.ninodes
    ensures Scans(ps, MentionsFrom(g, i), Entries(g, g.ninodes), Mentions(g), Place(i, 0))
    decreases g.ninodes - i
  {
    hide Scans, DirThen;
    if i == g.ninodes {
      ScansNothing(Entries(g, g.ninodes), Mentions(g), Place(i, 0));
      ps := [];
    } else {
      var more := MentionScan(g, i + 1);
      ps := DirScan(g, g.ninodes, i, more, MentionsFrom(g, i + 1));
    }
  }

  // ----- what the scan meets

  /** The mentions are the entries of the directories, in order and each once. */
  lemma MentionPlaces(g: Image) returns (ps: seq<Place>)
    requires Readable(g)
    ensures |ps| == |MentionsFrom(g, 0)|
    ensures forall k :: 0 <= k < |ps| ==> IsEntry(g, ps[k]) && MentionsFrom(g, 0)[k] == MentionAt(g, ps[k])
    ensures forall j, k :: 0 <= j < k < |ps| ==> Before(ps[j], ps[k])
    ensures forall p :: IsEntry(g, p) ==> p in ps
  {
    hide MentionsFrom, IsEntry, MentionAt;
    ps := MentionScan(g, 0);
    forall p | IsEntry(g, p)
      ensures p in ps
    {
      EntryNode(g, p);
      assert Entries(g, g.ninodes)(p) && !Before(p, Place(0, 0));
    }
    forall k | 0 <= k < |ps|
      ensures IsEntry(g, ps[k]) && MentionsFrom(g, 0)[k] == MentionAt(g, ps[k])
    {
      assert Entries(g, g.ninodes)(ps[k]) && Mentions(g)(ps[k]) == MentionAt(g, ps[k]);
    }
  }

  lemma EntryNode(g: Image, p: Place)
    requires Readable(g) && IsEntry(g, p)
    ensures p.node < g.ninodes
  {
  }

  /** The uses are the addresses of the inodes and of their indirect blocks, in order and each once. */
  lemma UsePlaces(g: Image) returns (ps: seq<Place>)
    requires Readable(g)
    ensures |ps| == |UsesFrom(g, 0)|
    ensures forall k :: 0 <= k < |ps| ==> IsUse(g, ps[k]) && UsesFrom(g, 0)[k] == UseAt(g, ps[k])
    ensures forall j, k :: 0 <= j < k < |ps| ==> Before(ps[j], ps[k])
    ensures forall p :: IsUse(g, p) ==> p in ps
  {
    hide UsesFrom, IsUse, UseAt;
    ps := UseScan(g, 0);
    forall p | IsUse(g, p)
      ensures p in ps
    {
      assert Uses(g)(p) && !Before(p, Place(0, 0));
    }
    forall k | 0 <= k < |ps|
      ensures IsUse(g, ps[k]) && UsesFrom(g, 0)[k] == UseAt(g, ps[k])
    {
      assert Uses(g)(ps[k]) && Used(g)(ps[k]) == UseAt(g, ps[k]);
    }
  }
}
