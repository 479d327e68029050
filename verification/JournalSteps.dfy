/** What the loops of log.c do turn by turn, on images, and why the buffer cache has room for them.

    A commit has four stages: the copies into the log, the header, the copies home, the empty
    header. LogTurn and InstallTurn are about one turn of the two copying loops. CommitSteps says
    what each stage does to the disk and to what clients see, and CommitIsCrashSafe that the list
    of all writes is atomic wherever it is cut off.

    Both copying loops hold two buffers at once. RoomForOne and RoomForTwo say that they can be had
    while nobody else uses a buffer and fewer blocks are pinned than there are buffers. */
module JournalSteps {
  import opened Basics
  import opened Blocks
  import opened LogImage
  import opened BufferCache

  function SetOf(s: seq<nat>): set<nat> {
    set x | x in s
  }

  lemma {:induction false} SetOfBound(s: seq<nat>)
    ensures |SetOf(s)| <= |s|
  {
    if s != [] {
      SetOfBound(s[1..]);
      assert SetOf(s) == SetOf(s[1..]) + {s[0]};
    }
  }

  lemma ApplyLast(d: Disk, ws: seq<Write>, i: nat)
    requires i < |ws| && ws[i].at < |d|
    ensures Apply(d, ws[..i + 1]) == Apply(d, ws[..i])[ws[i].at := ws[i].data]
  {
    assert ws[..i + 1][..i] == ws[..i];
  }

  /** One more write of a list. */
  lemma OneMore(d: Disk, v: Disk, w0: seq<Write>, ws: seq<Write>, i: nat)
    requires i < |ws| && ws[i].at < |d| == |v|
    ensures w0 + ws[..i + 1] == w0 + ws[..i] + [ws[i]]
    ensures Apply(d, ws[..i + 1]) == Apply(d, ws[..i])[ws[i].at := ws[i].data]
    ensures Apply(v, ws[..i + 1]) == Apply(v, ws[..i])[ws[i].at := ws[i].data]
  {
    hide Apply;
    ApplyLast(d, ws, i);
    ApplyLast(v, ws, i);
    assert ws[..i + 1] == ws[..i] + [ws[i]];
  }

  lemma Ends(d: Disk, v: Disk, w0: seq<Write>, ws: seq<Write>)
    ensures ws[..|ws|] == ws && w0 + ws[..0] == w0 && Apply(d, ws[..0]) == d && Apply(v, ws[..0]) == v
  {
  }

  /** What write_log's turn `tail` reads and writes. */
  lemma LogTurn(g: Layout, v0: Disk, bs: seq<nat>, vs: seq<Block>, tail: nat)
    requires GoodLayout(g) && |v0| == g.disksize && Loggable(g, bs) && |vs| == |bs| && tail < |bs|
    requires forall i :: 0 <= i < |bs| ==> vs[i] == v0[bs[i]]
    ensures var x := g.start + 1 + tail;
            && LogWrites(g, vs)[tail] == Write(x, vs[tail]) && x < |v0| && x !in SetOf(bs)
            && bs[tail] < |v0| && bs[tail] in SetOf(bs) && bs[tail] != x
            && Apply(v0, LogWrites(g, vs)[..tail])[bs[tail]] == vs[tail]
  {
    hide Apply;
    LogPrefix(g, v0, vs, tail);
  }

  /** What install_trans's turn `tail` reads and writes. */
  lemma InstallTurn(g: Layout, v0: Disk, bs: seq<nat>, vs: seq<Block>, tail: nat)
    requires GoodLayout(g) && |v0| == g.disksize && Loggable(g, bs) && tail < |bs| && vs == LogData(g, v0, |bs|)
    ensures var x := g.start + 1 + tail;
            && InstallWrites(bs, vs)[tail] == Write(bs[tail], vs[tail]) && x < |v0|
            && bs[tail] < |v0| && bs[tail] != x
            && Apply(v0, InstallWrites(bs, vs)[..tail])[x] == vs[tail]
  {
    hide Apply, Loggable, Distinct, InLog;
    HomesOutside(g, bs, g.start + 1 + tail);
    InstallElsewhere(v0, bs, vs, tail, g.start + 1 + tail);
  }

  lemma InstallElsewhere(d: Disk, bs: seq<nat>, vs: seq<Block>, i: nat, x: nat)
    requires |bs| == |vs| && i <= |bs| && Distinct(bs) && x < |d| && forall j :: 0 <= j < |bs| ==>
              bs[j] < |d| && bs[j] != x
    ensures Apply(d, InstallWrites(bs, vs)[..i])[x] == d[x]
  {
    hide Apply, InstallWrites, Distinct;
    InstallPrefix(d, bs, vs, i);
    assert x !in bs[..i];
  }

  lemma HomesOutside(g: Layout, bs: seq<nat>, x: nat)
    requires GoodLayout(g) && Loggable(g, bs) && g.start < x <= g.start + |bs|
    ensures Distinct(bs) && x < g.disksize && |bs| + 1 <= g.size && forall j :: 0 <= j < |bs| ==>
              bs[j] < g.disksize && bs[j] != x
  {
  }

  lemma PinnedNone(bs: seq<nat>)
    ensures SetOf(bs[|bs|..]) == {}
  {
  }

  lemma PinnedRest(bs: seq<nat>, tail: nat)
    requires tail < |bs| && Distinct(bs)
    ensures bs[tail] in SetOf(bs[tail..]) && |SetOf(bs[tail..])| <= |bs|
    ensures SetOf(bs[tail..]) - {bs[tail]} == SetOf(bs[tail + 1..])
  {
    SetOfBound(bs[tail..]);
    assert bs[tail..] == [bs[tail]] + bs[tail + 1..];
    assert bs[tail] !in bs[tail + 1..];
  }

  lemma LoggableFacts(g: Layout, bs: seq<nat>)
    requires GoodLayout(g) && Loggable(g, bs)
    ensures Encodable(bs) && Encodable([]) && SetOf([]) == {} && Loggable(g, [])
    ensures forall i :: 0 <= i < |bs| ==> bs[i] < g.disksize
  {
  }

  lemma OnlyPinnedDiffer(bs: seq<Buf>, disk: seq<Block>, view: seq<Block>)
    requires Coherent(bs, disk, view)
    ensures |view| == |disk| && forall x :: 0 <= x < |disk| && x !in DirtyOf(bs) ==> view[x] == disk[x]
  {
  }

  lemma FourStages(d0: Disk, w0: seq<Write>, a: seq<Write>, h: Write, b: seq<Write>, c: Write)
    requires h.at < |d0| && c.at < |d0|
    ensures w0 + a + [h] + b + [c] == w0 + (a + [h] + b + [c])
    ensures Apply(d0, a + [h] + b + [c]) == Apply(Apply(d0, a)[h.at := h.data], b)[c.at := c.data]
  {
    hide Apply;
    ApplyConcat(d0, a, [h]);
    ApplyOne(Apply(d0, a), h);
    ApplyConcat(d0, a + [h], b);
    ApplyConcat(d0, a + [h] + b, [c]);
    ApplyOne(Apply(d0, a + [h] + b), c);
  }

  lemma CommitListSteps(g: Layout, d0: Disk, w0: seq<Write>, bs: seq<nat>, vs: seq<Block>)
    requires GoodLayout(g) && |d0| == g.disksize && Loggable(g, bs) && |vs| == |bs| && |bs| > 0
    ensures var h1 := PutHeader(d0[g.start], bs);
            var h2 := PutHeader(h1, []);
            var iw := InstallWrites(bs, vs);
            var d2 := Apply(d0, LogWrites(g, vs))[g.start := h1];
            && w0 + LogWrites(g, vs) + [Write(g.start, h1)] + iw + [Write(g.start, h2)]
               == w0 + CommitWrites(g, d0, bs, vs)
            && Apply(d0, CommitWrites(g, d0, bs, vs)) == Apply(d2, iw)[g.start := h2]
  {
    hide PutEntries, Word, Apply;
    var h1 := PutHeader(d0[g.start], bs);
    FourStages(d0, w0, LogWrites(g, vs), Write(g.start, h1), InstallWrites(bs, vs), Write(g.start, PutHeader(h1, [])));
  }

  lemma LoggedAtHeader(g: Layout, v0: Disk, bs: seq<nat>, vs: seq<Block>)
    requires GoodLayout(g) && |v0| == g.disksize && Loggable(g, bs) && |vs| == |bs|
    ensures var v1 := Apply(v0, LogWrites(g, vs));
            var h1 := PutHeader(v0[g.start], bs);
            var v2 := v1[g.start := h1];
            && v1[g.start] == v0[g.start] && LogData(g, v2, |bs|) == vs
            && Apply(v2, InstallWrites(bs, vs))[g.start] == h1 && g.start !in SetOf(bs)
  {
    hide PutEntries, Word;
    LogPrefix(g, v0, vs, |vs|);
    assert LogWrites(g, vs)[..|vs|] == LogWrites(g, vs);
    InstallAll(Apply(v0, LogWrites(g, vs))[g.start := PutHeader(v0[g.start], bs)], bs, vs);
    assert g.start !in bs;
  }

  /** The home blocks after a commit are those that clients saw before it. */
  lemma CommittedView(g: Layout, d0: Disk, v0: Disk, bs: seq<nat>, vs: seq<Block>, h1: Block, h2: Block)
    requires GoodLayout(g) && |v0| == |d0| == g.disksize && Loggable(g, bs) && |vs| == |bs|
    requires forall i :: 0 <= i < |bs| ==> vs[i] == v0[bs[i]]
    requires forall x :: 0 <= x < |d0| && x !in SetOf(bs) ==> v0[x] == d0[x]
    ensures SameHome(g, Apply(Apply(d0, LogWrites(g, vs))[g.start := h1], InstallWrites(bs, vs))[g.start := h2], v0)
  {
    hide Apply;
    LogPrefix(g, d0, vs, |vs|);
    assert LogWrites(g, vs)[..|vs|] == LogWrites(g, vs);
    var d2 := Apply(d0, LogWrites(g, vs))[g.start := h1];
    InstallAll(d2, bs, vs);
    forall b | 0 <= b < |d0| && !InLog(g, b)
      ensures Install(d2, bs, vs)[b] == v0[b]
    {
      if b in bs {
        var j :| 0 <= j < |bs| && bs[j] == b;
        assert Install(d2, bs, vs)[bs[j]] == vs[j];
      } else {
        assert b !in SetOf(bs);
      }
    }
  }

  /** The four stages of a commit, as seen on the disk and through the cache. */
  lemma CommitSteps(g: Layout, d0: Disk, v0: Disk, w0: seq<Write>, bs: seq<nat>, vs: seq<Block>)
    requires GoodLayout(g) && |v0| == |d0| == g.disksize && Loggable(g, bs) && |vs| == |bs|
    requires forall i :: 0 <= i < |bs| ==> vs[i] == v0[bs[i]]
    requires forall x :: 0 <= x < |d0| && x !in SetOf(bs) ==> v0[x] == d0[x]
    ensures |bs| == 0 ==> CommitWrites(g, d0, bs, vs) == [] && Apply(d0, []) == d0 && SameHome(g, d0, v0)
    ensures |bs| > 0 ==>
              var v1 := Apply(v0, LogWrites(g, vs));
              var d1 := Apply(d0, LogWrites(g, vs));
              var h1 := PutHeader(v0[g.start], bs);
              var v2, d2 := v1[g.start := h1], d1[g.start := h1];
              var iw := InstallWrites(bs, vs);
              var v3, d3 := Apply(v2, iw), Apply(d2, iw);
              var h2 := PutHeader(h1, []);
              var d4 := d3[g.start := h2];
              && v1[g.start] == v0[g.start] && LogData(g, v2, |bs|) == vs && v3[g.start] == h1
              && g.start !in SetOf(bs)
              && w0 + LogWrites(g, vs) + [Write(g.start, h1)] + iw + [Write(g.start, h2)]
                 == w0 + CommitWrites(g, d0, bs, vs)
              && Apply(d0, CommitWrites(g, d0, bs, vs)) == d4
              && SameHome(g, d4, v0)
  {
    hide PutEntries, Word, Apply;
    if |bs| == 0 {
      Ends(d0, v0, w0, []);
    } else {
      assert g.start !in bs;
      CommitListSteps(g, d0, w0, bs, vs);
      LoggedAtHeader(g, v0, bs, vs);
      CommittedView(g, d0, v0, bs, vs, PutHeader(v0[g.start], bs), PutHeader(PutHeader(v0[g.start], bs), []));
    }
  }

  predicate Empty(g: Layout, d: Disk) {
    WellFormed(g, d) && Header(d[g.start]) == []
  }

  /** Wherever in the list of writes a crash falls, recovery leaves at home either the old disk
      or everything that clients had released, and which one depends on the first header write. */
  ghost predicate CrashSafe(g: Layout, d0: Disk, v0: Disk, ws: seq<Write>, n: nat) {
    forall cut :: 0 <= cut <= |ws| ==>
      var e := Apply(d0, ws[..cut]);
      WellFormed(g, e) && SameHome(g, Recover(g, e), if cut <= n then d0 else v0)
  }

  lemma InstallIsView(g: Layout, d0: Disk, v0: Disk, bs: seq<nat>, vs: seq<Block>)
    requires GoodLayout(g) && |v0| == |d0| == g.disksize && Loggable(g, bs) && |vs| == |bs|
    requires forall i :: 0 <= i < |bs| ==> vs[i] == v0[bs[i]]
    requires forall x :: 0 <= x < |d0| && x !in SetOf(bs) ==> v0[x] == d0[x]
    ensures Install(d0, bs, vs) == v0
  {
    InstallAll(d0, bs, vs);
    forall b | 0 <= b < |d0|
      ensures Install(d0, bs, vs)[b] == v0[b]
    {
      if b in bs {
        var j :| 0 <= j < |bs| && bs[j] == b;
        assert Install(d0, bs, vs)[bs[j]] == vs[j];
      } else {
        assert b !in SetOf(bs);
      }
    }
  }

  lemma CommitIsCrashSafe(g: Layout, d0: Disk, v0: Disk, bs: seq<nat>, vs: seq<Block>)
    requires Empty(g, d0) && |v0| == |d0| && Loggable(g, bs) && |vs| == |bs|
    requires forall i :: 0 <= i < |bs| ==> vs[i] == v0[bs[i]]
    requires forall x :: 0 <= x < |d0| && x !in SetOf(bs) ==> v0[x] == d0[x]
    ensures CrashSafe(g, d0, v0, CommitWrites(g, d0, bs, vs), |bs|)
    ensures Empty(g, Apply(d0, CommitWrites(g, d0, bs, vs)))
  {
    hide Word, PutEntries, Apply, CommitWrites;
    var ws := CommitWrites(g, d0, bs, vs);
    InstallIsView(g, d0, v0, bs, vs);
    forall cut | 0 <= cut <= |ws|
      ensures var e := Apply(d0, ws[..cut]);
              WellFormed(g, e) && SameHome(g, Recover(g, e), if cut <= |bs| then d0 else v0)
    {
      CrashInCommit(g, d0, bs, vs, cut);
    }
    if |bs| == 0 {
      NoWrites(g, d0, bs, vs);
    } else {
      AfterCommit(g, d0, bs, vs);
    }
  }

  lemma NoWrites(g: Layout, d0: Disk, bs: seq<nat>, vs: seq<Block>)
    requires GoodLayout(g) && |d0| == g.disksize && Loggable(g, bs) && |vs| == |bs| == 0
    ensures Apply(d0, CommitWrites(g, d0, bs, vs)) == d0
  {
  }

  /** The stages of a recovery. */
  lemma RecoverySteps(g: Layout, d0: Disk, w0: seq<Write>)
    requires WellFormed(g, d0)
    ensures var bs := Header(d0[g.start]);
            var iw := InstallWrites(bs, LogData(g, d0, |bs|));
            var d1 := Apply(d0, iw);
            var h := PutHeader(d1[g.start], []);
            && Word(d0[g.start], 0) == |bs|
            && w0 + iw + [Write(g.start, h)] == w0 + RecoverWrites(g, d0)
            && d1[g.start := h] == Recover(g, d0)
            && Empty(g, Recover(g, d0))
  {
    hide Word, PutEntries, Apply;
    var bs := Header(d0[g.start]);
    RecoverShape(g, d0);
    InstallAll(d0, bs, LogData(g, d0, |bs|));
    assert g.start !in bs;
    RecoverEffect(g, d0);
  }

  // ----- running out of buffers

  /** Nobody uses a buffer. */
  ghost predicate Quiet(bs: seq<Buf>) {
    forall b :: 0 <= b < |bs| ==> bs[b].refcnt == 0 && !bs[b].locked
  }

  function Unavailable(bs: seq<Buf>): set<nat> {
    set b | 0 <= b < |bs| && !Eligible(bs, b)
  }

  lemma NoneEligible(bs: seq<Buf>)
    requires forall b: nat :: !Eligible(bs, b)
    ensures |Unavailable(bs)| == |bs|
  {
    BelowSize(|bs|);
    assert Unavailable(bs) == Below(|bs|);
  }

  lemma SomeEligible(bs: seq<Buf>)
    requires |Unavailable(bs)| < |bs|
    ensures exists b: nat :: Eligible(bs, b)
  {
    if forall b: nat :: !Eligible(bs, b) {
      NoneEligible(bs);
    }
  }

  function Below(n: nat): set<nat> {
    if n == 0 then {} else Below(n - 1) + {n - 1}
  }

  lemma {:induction false} BelowSize(n: nat)
    ensures |Below(n)| == n
    ensures forall x :: x in Below(n) <==> 0 <= x < n
  {
    if n > 0 {
      BelowSize(n - 1);
    }
  }

  lemma {:induction false} InjectiveSize(s: set<nat>, bs: seq<Buf>)
    requires forall b :: b in s ==> b < |bs|
    requires forall b, c :: b in s && c in s && b != c ==> bs[b].blockno != bs[c].blockno
    ensures |s| == |set b | b in s :: bs[b].blockno|
    decreases s
  {
    if s != {} {
      var b :| b in s;
      InjectiveSize(s - {b}, bs);
      var image := set c | c in s - {b} :: bs[c].blockno;
      assert (set c | c in s :: bs[c].blockno) == image + {bs[b].blockno};
      assert bs[b].blockno !in image;
    }
  }

  lemma DirtyAreCached(bs: seq<Buf>, disk: seq<Block>, view: seq<Block>)
    requires Coherent(bs, disk, view)
    ensures |view| == |disk|
    ensures forall x :: x in DirtyOf(bs) ==> x < |disk| && Cached(bs, x)
  {
    forall x | x in DirtyOf(bs)
      ensures x < |disk| && Cached(bs, x)
    {
      var b :| 0 <= b < |bs| && bs[b].dirty && bs[b].blockno == x;
      assert Holds(bs, b, x);
    }
  }

  /** In a quiet cache a buffer can be recycled exactly if fewer blocks are pinned than there are
      buffers. */
  lemma RoomForOne(bs: seq<Buf>, disk: seq<Block>, view: seq<Block>)
    requires Coherent(bs, disk, view) && Quiet(bs)
    ensures (exists b: nat :: Eligible(bs, b)) <==> |DirtyOf(bs)| < |bs|
  {
    var s := Unavailable(bs);
    InjectiveSize(s, bs);
    assert (set b | b in s :: bs[b].blockno) == DirtyOf(bs);
    if |s| < |bs| {
      SomeEligible(bs);
    } else if b: nat :| Eligible(bs, b) {
      BelowSize(|bs|);
      SubsetSize(s + {b}, Below(|bs|));
    }
  }

  /** The first buffer that a commit of blocks xs needs can be had exactly if fewer blocks are logged
      than there are buffers; otherwise bget panics. */
  lemma CommitReady(g: Layout, bs: seq<Buf>, disk: seq<Block>, view: seq<Block>, xs: seq<nat>)
    requires Coherent(bs, disk, view) && Quiet(bs) && GoodLayout(g) && Loggable(g, xs) && DirtyOf(bs) == SetOf(xs)
    ensures Ready(bs, g.start + 1) <==> |xs| < |bs|
  {
    RoomForOne(bs, disk, view);
    DistinctSize(xs);
    if |xs| >= |bs| {
      AllPinned(bs, g.start + 1);
    }
  }

  lemma AllPinned(bs: seq<Buf>, x: nat)
    requires Quiet(bs) && forall b: nat :: !Eligible(bs, b)
    ensures Cached(bs, x) ==> x in DirtyOf(bs)
  {
    if Cached(bs, x) {
      var b: nat :| Holds(bs, b, x);
      assert !Eligible(bs, b);
    }
  }

  lemma {:induction false} DistinctSize(xs: seq<nat>)
    requires Distinct(xs)
    ensures |SetOf(xs)| == |xs|
  {
    if xs != [] {
      DistinctSize(xs[1..]);
      assert SetOf(xs) == SetOf(xs[1..]) + {xs[0]};
    }
  }

  /** After one has been taken, still another, if there is room for two. */
  lemma RoomForTwo(bs: seq<Buf>, disk: seq<Block>, view: seq<Block>, l: nat, bs': seq<Buf>)
    requires Coherent(bs, disk, view) && Quiet(bs) && |DirtyOf(bs)| + 1 < |bs|
    requires l < |bs| == |bs'| && bs' == bs[l := bs'[l]]
    ensures exists b: nat :: Eligible(bs', b)
  {
    var s := Unavailable(bs);
    InjectiveSize(s, bs);
    assert (set b | b in s :: bs[b].blockno) == DirtyOf(bs);
    assert Unavailable(bs') <= s + {l};
    SubsetSize(Unavailable(bs'), s + {l});
    SomeEligible(bs');
  }

  lemma ReadyFirst(bs: seq<Buf>, disk: seq<Block>, view: seq<Block>, x: nat)
    requires Coherent(bs, disk, view) && Quiet(bs) && |DirtyOf(bs)| < |bs|
    ensures Ready(bs, x)
  {
    RoomForOne(bs, disk, view);
  }

  /** With only buffer t taken, for block x, a pinned block or a second buffer can be had. */
  lemma ReadySecond(bs: seq<Buf>, bs': seq<Buf>, disk: seq<Block>, view: seq<Block>, t: nat, x: nat, y: nat)
    requires Coherent(bs, disk, view) && Quiet(bs) && x != y
    requires Coherent(bs', disk, view) && t < |bs| == |bs'| && bs' == bs[t := bs'[t]] && Holds(bs', t, x)
    requires DirtyOf(bs') == DirtyOf(bs)
    requires y in DirtyOf(bs) || |DirtyOf(bs)| + 1 < |bs|
    ensures Ready(bs', y)
  {
    if y in DirtyOf(bs) {
      DirtyAreCached(bs', disk, view);
    } else {
      RoomForTwo(bs, disk, view, t, bs');
    }
  }

  /** Buffers s and t were given back; no other buffer changed. */
  predicate Returned(b2: seq<Buf>, b3: seq<Buf>, s: nat, t: nat) {
    && |b2| == |b3| && s < |b2| && t < |b2|
    && b3[s].refcnt == b2[s].refcnt - 1 && b3[t].refcnt == b2[t].refcnt - 1
    && !b3[s].locked && !b3[t].locked
    && forall c :: 0 <= c < |b3| && c != s && c != t ==> b3[c] == b2[c]
  }

  /** Taking two buffers and giving both back leaves the cache quiet. */
  lemma QuietAgain(b0: seq<Buf>, b1: seq<Buf>, b2: seq<Buf>, b3: seq<Buf>, s: nat, t: nat)
    requires Quiet(b0) && s != t
    requires |b0| == |b1| == |b2| == |b3| && s < |b0| && t < |b0|
    requires b1 == b0[s := b1[s]] && b1[s].refcnt == b0[s].refcnt + 1
    requires b2 == b1[t := b2[t]] && b2[t].refcnt == b1[t].refcnt + 1
    requires Returned(b2, b3, s, t) || Returned(b2, b3, t, s)
    ensures Quiet(b3)
  {
    forall c | 0 <= c < |b3|
      ensures b3[c].refcnt == 0 && !b3[c].locked
    {
      assert b0[c].refcnt == 0;
    }
  }

  lemma QuietAfterOne(b0: seq<Buf>, b1: seq<Buf>, b3: seq<Buf>, s: nat)
    requires Quiet(b0) && |b0| == |b1| == |b3| && s < |b0|
    requires b1 == b0[s := b1[s]] && b1[s].refcnt == b0[s].refcnt + 1
    requires b3[s].refcnt == b1[s].refcnt - 1 && !b3[s].locked
    requires forall c :: 0 <= c < |b3| && c != s ==> b3[c] == b1[c]
    ensures Quiet(b3)
  {
    forall c | 0 <= c < |b3|
      ensures b3[c].refcnt == 0 && !b3[c].locked
    {
      assert b0[c].refcnt == 0;
    }
  }

  lemma BlockInRange(bs: seq<Buf>, disk: seq<Block>, view: seq<Block>, b: nat)
    requires Coherent(bs, disk, view) && b < |bs| && bs[b].locked
    ensures bs[b].blockno < |disk|
  {
  }

  lemma HeldApart(bs: seq<Buf>, disk: seq<Block>, view: seq<Block>, s: nat, t: nat)
    requires Coherent(bs, disk, view) && s < |bs| && t < |bs| && s != t && bs[s].locked && bs[t].locked
    ensures bs[s].blockno < |disk| && bs[t].blockno < |disk| == |view| && bs[s].blockno != bs[t].blockno
  {
  }
}
