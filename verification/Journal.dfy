/** The methods of log.c over the buffer cache.  Each is proved to issue exactly the block
    writes that LogImage analyses, so a crash between any two of them is covered there. */
module Journal {
  import opened Basics
  import opened Blocks
  import opened LogImage
  import opened BufferCache
  import opened JournalSteps

  class Log {
    const cache: Cache
    const LOGSIZE: nat
    const MAXOPBLOCKS: nat
    const start: nat
    const size: nat
    var block: seq<nat>          // lh.block
    var n: nat                   // lh.n
    var outstanding: nat
    var committing: bool

    ghost function G(): Layout
      reads this, cache
    {
      Layout(start, size, |cache.memdisk|)
    }

    ghost predicate Shape()
      reads this, cache
    {
      && cache.Valid() && GoodLayout(G()) && |cache.view| == |cache.memdisk|
      && LOGSIZE + 1 < WORDS && 2 <= cache.nbuf
      && |block| == LOGSIZE && n <= LOGSIZE
    }

    /** The pinned buffers are exactly the logged blocks. */
    ghost predicate Pinned()
      reads this, cache
    {
      && Shape()
      && Loggable(G(), block[..n])
      && DirtyOf(cache.bufs) == SetOf(block[..n])
    }

    /** Outside commit and recovery: also, the on-disk header is empty. */
    ghost predicate Valid()
      reads this, cache
    {
      Pinned() && Empty(G(), cache.memdisk)
    }

    constructor (cache: Cache, LOGSIZE: nat, MAXOPBLOCKS: nat, start: nat, size: nat)
      ensures this.cache == cache && this.LOGSIZE == LOGSIZE && this.MAXOPBLOCKS == MAXOPBLOCKS
      ensures this.start == start && this.size == size && |block| == LOGSIZE
      ensures n == 0 && outstanding == 0 && !committing
    {
      this.cache, this.LOGSIZE, this.MAXOPBLOCKS, this.start, this.size := cache, LOGSIZE, MAXOPBLOCKS, start, size;
      n, outstanding, committing := 0, 0, false;
      block := seq(LOGSIZE, _ => 0);
    }

    /** Copy locked buffer src over locked buffer dst, write dst to the disk, release both. */
    method CopyOut(dst: nat, src: nat, ghost x: nat, ghost data: Block)
      requires cache.Holding(dst) && cache.bufs[dst].blockno == x && cache.Holding(src) && cache.bufs[src].data == data
      requires cache.Valid() && cache.Holding(dst) && cache.Holding(src) && dst != src
      requires cache.bufs[dst].valid && cache.bufs[src].valid
      requires cache.bufs[src].dirty || cache.bufs[src].data == cache.memdisk[cache.bufs[src].blockno]
      requires cache.bufs[src].data == cache.view[cache.bufs[src].blockno]
      modifies cache
      ensures cache.Valid()
      ensures Returned(old(cache.bufs), cache.bufs, dst, src)
      ensures DirtyOf(cache.bufs) == DirtyOf(old(cache.bufs)) - {x}
      ensures x < |old(cache.view)| == |old(cache.memdisk)|
      ensures cache.view == old(cache.view)[x := data] && cache.memdisk == old(cache.memdisk)[x := data]
      ensures cache.writes == old(cache.writes) + [Write(x, data)]
    {
      hide Coherent, Linked, NewestFirst, Distinct, DirtyOf;
      HeldApart(cache.bufs, cache.memdisk, cache.view, dst, src);
      ghost var b2 := cache.bufs;
      cache.SetData(dst, cache.bufs[src].data);
      cache.Bwrite(dst);
      cache.Brelse(src);
      cache.Brelse(dst);
      assert Returned(b2, cache.bufs, dst, src);
    }

    /** Copy logged block `tail` from the cache to its place in the log. */
    method LogOne(tail: nat)
      requires cache.Valid() && Quiet(cache.bufs) && tail < n <= |block| && start + 1 + tail < |cache.memdisk|
      requires |DirtyOf(cache.bufs)| < |cache.bufs|
      requires block[tail] in DirtyOf(cache.bufs) && block[tail] < |cache.memdisk|
      requires block[tail] != start + 1 + tail
      modifies cache
      ensures cache.Valid() && Quiet(cache.bufs)
      ensures DirtyOf(cache.bufs) == DirtyOf(old(cache.bufs)) - {start + 1 + tail}
      ensures cache.view == old(cache.view)[start + 1 + tail := old(cache.view)[block[tail]]]
      ensures cache.memdisk == old(cache.memdisk)[start + 1 + tail := old(cache.view)[block[tail]]]
      ensures cache.writes == old(cache.writes) + [Write(start + 1 + tail, old(cache.view)[block[tail]])]
    {
      hide Quiet, Ready, Coherent, Linked, NewestFirst, Distinct, DirtyOf, Eligible, Cached;
      ghost var b0, d0, v0 := cache.bufs, cache.memdisk, cache.view;
      var x := start + tail + 1;
      DirtyAreCached(b0, d0, v0);
      ReadyFirst(b0, d0, v0, x);
      var to := cache.Bread(ROOTDEV, x);
      ghost var b1 := cache.bufs;
      ReadySecond(b0, b1, d0, v0, to, x, block[tail]);
      var from := cache.Bread(ROOTDEV, block[tail]);
      ghost var b2 := cache.bufs;
      assert from != to && b2[to].blockno == x && b2[from].data == v0[block[tail]];
      assert cache.view == v0 && cache.memdisk == d0;
      CopyOut(to, from, x, v0[block[tail]]);
      QuietAgain(b0, b1, b2, cache.bufs, to, from);
    }

    /** Copy logged block `tail` from the log to its home. */
    method InstallOne(tail: nat)
      requires cache.Valid() && Quiet(cache.bufs) && tail < n <= |block| && start + 1 + tail < |cache.memdisk|
      requires |DirtyOf(cache.bufs)| < |cache.bufs| && block[tail] < |cache.memdisk|
      requires block[tail] in DirtyOf(cache.bufs) || |DirtyOf(cache.bufs)| + 1 < |cache.bufs|
      requires block[tail] != start + 1 + tail
      modifies cache
      ensures cache.Valid() && Quiet(cache.bufs)
      ensures DirtyOf(cache.bufs) == DirtyOf(old(cache.bufs)) - {block[tail]}
      ensures cache.view == old(cache.view)[block[tail] := old(cache.view)[start + 1 + tail]]
      ensures cache.memdisk == old(cache.memdisk)[block[tail] := old(cache.view)[start + 1 + tail]]
      ensures cache.writes == old(cache.writes) + [Write(block[tail], old(cache.view)[start + 1 + tail])]
    {
      hide Quiet, Ready, Coherent, Linked, NewestFirst, Distinct, DirtyOf, Eligible, Cached;
      ghost var b0, d0, v0 := cache.bufs, cache.memdisk, cache.view;
      var x := start + tail + 1;
      DirtyAreCached(b0, d0, v0);
      ReadyFirst(b0, d0, v0, x);
      var lbuf := cache.Bread(ROOTDEV, x);
      ghost var b1 := cache.bufs;
      ReadySecond(b0, b1, d0, v0, lbuf, x, block[tail]);
      var dbuf := cache.Bread(ROOTDEV, block[tail]);
      ghost var b2 := cache.bufs;
      assert dbuf != lbuf && b2[dbuf].blockno == block[tail] && b2[lbuf].data == v0[x];
      assert cache.view == v0 && cache.memdisk == d0;
      CopyOut(dbuf, lbuf, block[tail], v0[x]);
      QuietAgain(b0, b1, b2, cache.bufs, lbuf, dbuf);
    }

    /** What the commit will log: the current contents of the logged blocks. */
    ghost function Logged(): (vs: seq<Block>)
      requires n <= |block| && forall i :: 0 <= i < n ==> block[i] < |cache.view|
      reads this, cache
      ensures |vs| == n
    {
      var (b, v) := (block, cache.view);
      seq(n, i requires 0 <= i < |b| && b[i] < |v| => v[b[i]])
    }

    /** Copy the logged blocks to the log; a buffer for the copies must be left. */
    method WriteLog()
      requires Pinned() && Quiet(cache.bufs) && n < cache.nbuf
      modifies cache
      ensures Pinned() && Quiet(cache.bufs)
      ensures var ws := LogWrites(G(), old(Logged()));
              && cache.writes == old(cache.writes) + ws
              && cache.memdisk == Apply(old(cache.memdisk), ws)
              && cache.view == Apply(old(cache.view), ws)
    {
      hide Quiet, Coherent, Linked, NewestFirst, DirtyOf, Apply, LogWrites, SetOf;
      DirtyAreCached(cache.bufs, cache.memdisk, cache.view);
      ghost var v0, d0, w0, g := cache.view, cache.memdisk, cache.writes, G();
      ghost var bs, vs := block[..n], Logged();
      ghost var ws := LogWrites(g, vs);
      SetOfBound(bs);
      ghost var dirty := DirtyOf(cache.bufs);
      var tail := 0;
      Ends(d0, v0, w0, ws);
      while tail < n
        invariant 0 <= tail <= n && cache.Valid() && Quiet(cache.bufs)
        invariant DirtyOf(cache.bufs) == dirty && |cache.memdisk| == |d0|
        invariant cache.writes == w0 + ws[..tail]
        invariant cache.memdisk == Apply(d0, ws[..tail]) && cache.view == Apply(v0, ws[..tail])
      {
        LogTurn(g, v0, bs, vs, tail);
        OneMore(d0, v0, w0, ws, tail);
        assert block[tail] == bs[tail];
        LogOne(tail);
        tail := tail + 1;
      }
    }

    /** Copy the committed blocks from the log to their homes: after a commit, when they are
        all still pinned, or in recovery, when nothing is. */
    method InstallTrans()
      requires Shape() && Quiet(cache.bufs) && Loggable(G(), block[..n])
      requires (DirtyOf(cache.bufs) == SetOf(block[..n]) && n < cache.nbuf) || DirtyOf(cache.bufs) == {}
      modifies cache
      ensures Shape() && Quiet(cache.bufs) && DirtyOf(cache.bufs) == {}
      ensures var ws := InstallWrites(block[..n], LogData(old(G()), old(cache.view), n));
              && cache.writes == old(cache.writes) + ws
              && cache.memdisk == Apply(old(cache.memdisk), ws)
              && cache.view == Apply(old(cache.view), ws)
    {
      hide Quiet, Coherent, Linked, NewestFirst, DirtyOf, Apply, InstallWrites, LogData, SetOf;
      DirtyAreCached(cache.bufs, cache.memdisk, cache.view);
      ghost var v0, d0, w0, g := cache.view, cache.memdisk, cache.writes, G();
      ghost var bs, vs := block[..n], LogData(g, v0, n);
      ghost var ws := InstallWrites(bs, vs);
      ghost var pinned := DirtyOf(cache.bufs) != {};
      var tail := 0;
      Ends(d0, v0, w0, ws);
      assert bs[0..] == bs;
      while tail < n
        invariant 0 <= tail <= n && cache.Valid() && Quiet(cache.bufs)
        invariant DirtyOf(cache.bufs) == if pinned then SetOf(bs[tail..]) else {}
        invariant |cache.memdisk| == |d0|
        invariant cache.writes == w0 + ws[..tail]
        invariant cache.memdisk == Apply(d0, ws[..tail]) && cache.view == Apply(v0, ws[..tail])
      {
        InstallTurn(g, v0, bs, vs, tail);
        PinnedRest(bs, tail);
        OneMore(d0, v0, w0, ws, tail);
        assert block[tail] == bs[tail];
        InstallOne(tail);
        tail := tail + 1;
      }
      PinnedNone(bs);
    }

    /** Write the in-memory header to the disk. */
    method WriteHead()
      requires Shape() && Quiet(cache.bufs) && |DirtyOf(cache.bufs)| < |cache.bufs|
      requires Encodable(block[..n])
      modifies cache
      ensures Shape() && Quiet(cache.bufs)
      ensures DirtyOf(cache.bufs) == DirtyOf(old(cache.bufs)) - {start}
      ensures var hdr := PutHeader(old(cache.view)[start], block[..n]);
              && cache.writes == old(cache.writes) + [Write(start, hdr)]
              && cache.memdisk == old(cache.memdisk)[start := hdr]
              && cache.view == old(cache.view)[start := hdr]
    {
      hide Quiet, Ready, Coherent, Linked, NewestFirst, Distinct, DirtyOf, PutWord, Word;
      ghost var b0, d0, v0, bs := cache.bufs, cache.memdisk, cache.view, block[..n];
      ReadyFirst(b0, d0, v0, start);
      var buf := cache.Bread(ROOTDEV, start);
      ghost var b1 := cache.bufs;
      var hb := PutWord(cache.bufs[buf].data, 0, n);
      var i := 0;
      while i < n
        invariant 0 <= i <= n && hb == PutEntries(v0[start], bs, i)
      {
        assert block[i] == bs[i];
        hb := PutWord(hb, 1 + i, block[i]);
        i := i + 1;
      }
      cache.SetData(buf, hb);
      cache.Bwrite(buf);
      ghost var b2 := cache.bufs;
      cache.Brelse(buf);
      QuietAfterOne(b0, b1, cache.bufs, buf);
    }

    /** Read the header from the disk into memory. */
    method ReadHead()
      requires Shape() && Quiet(cache.bufs) && DirtyOf(cache.bufs) == {}
      requires Word(cache.view[start], 0) <= LOGSIZE
      modifies this`n, this`block, cache
      ensures Shape() && Quiet(cache.bufs) && DirtyOf(cache.bufs) == {}
      ensures cache.view == old(cache.view) && cache.memdisk == old(cache.memdisk) && cache.writes == old(cache.writes)
      ensures n == |Header(cache.view[start])| && block[..n] == Header(cache.view[start])
    {
      hide Quiet, Ready, Coherent, Linked, NewestFirst, Distinct, DirtyOf, PutWord, Word;
      ghost var b0, d0, v0, block0 := cache.bufs, cache.memdisk, cache.view, block;
      ReadyFirst(b0, d0, v0, start);
      var buf := cache.Bread(ROOTDEV, start);
      ghost var b1 := cache.bufs;
      var lh := cache.bufs[buf].data;
      n := Word(lh, 0);
      var i := 0;
      while i < n
        invariant 0 <= i <= n == Word(lh, 0) && |block| == LOGSIZE
        invariant forall j :: 0 <= j < i ==> block[j] == Word(lh, 1 + j)
        modifies this`block
      {
        block := block[i := Word(lh, 1 + i)];
        i := i + 1;
      }
      cache.Brelse(buf);
      QuietAfterOne(b0, b1, cache.bufs, buf);
    }

    /** Make the logged blocks permanent.  The disk goes through exactly the writes of
        CommitWrites, and ends up holding what clients last released. With as many blocks logged as
        there are buffers, bget would panic (JournalSteps.CommitReady). */
    method Commit()
      requires Valid() && Quiet(cache.bufs) && n < cache.nbuf
      modifies this`n, cache
      ensures Valid() && Quiet(cache.bufs) && n == 0
      ensures old(G()) == G() && |old(cache.memdisk)| == |cache.memdisk|
      ensures var ws := CommitWrites(old(G()), old(cache.memdisk), old(block[..n]), old(Logged()));
              && cache.writes == old(cache.writes) + ws
              && cache.memdisk == Apply(old(cache.memdisk), ws)
      ensures SameHome(G(), cache.memdisk, old(cache.view))
      ensures CrashSafe(old(G()), old(cache.memdisk), old(cache.view),
                CommitWrites(old(G()), old(cache.memdisk), old(block[..n]), old(Logged())), old(n))
    {
      hide Quiet, Coherent, Linked, NewestFirst, DirtyOf, Apply, LogWrites, InstallWrites, LogData, Word,
           PutEntries, Header, SameHome, CrashSafe, Empty, CommitWrites, Distinct, Loggable, Encodable, SetOf;
      LoggableFacts(G(), block[..n]);
      ghost var g, v0, d0, w0, bs, vs := G(), cache.view, cache.memdisk, cache.writes, block[..n], Logged();
      SetOfBound(bs);
      OnlyPinnedDiffer(cache.bufs, d0, v0);
      CommitSteps(g, d0, v0, w0, bs, vs);
      CommitIsCrashSafe(g, d0, v0, bs, vs);
      if n > 0 {
        WriteLog();
        WriteHead();
        InstallTrans();
        n := 0;
        assert block[..n] == [];
        WriteHead();
      }
      OnlyPinnedDiffer(cache.bufs, cache.memdisk, cache.view);
    }

    /** Finish whatever commit the last crash interrupted. */
    method RecoverFromLog()
      requires Shape() && Quiet(cache.bufs) && DirtyOf(cache.bufs) == {}
      requires WellFormed(G(), cache.memdisk) && |Header(cache.memdisk[start])| <= LOGSIZE
      modifies this`n, this`block, cache
      ensures Valid() && Quiet(cache.bufs) && n == 0 && old(G()) == G()
      ensures cache.writes == old(cache.writes) + RecoverWrites(old(G()), old(cache.memdisk))
      ensures cache.memdisk == Recover(old(G()), old(cache.memdisk)) && cache.view == cache.memdisk
    {
      hide Quiet, Coherent, Linked, NewestFirst, DirtyOf, Apply, LogWrites, InstallWrites, LogData, Word,
           PutEntries, Header, Recover, RecoverWrites;
      ghost var g, d0, w0 := G(), cache.memdisk, cache.writes;
      OnlyPinnedDiffer(cache.bufs, cache.memdisk, cache.view);
      assert cache.view == d0;
      RecoverySteps(g, d0, w0);
      ReadHead();
      InstallTrans();
      n := 0;
      assert block[..n] == [];
      WriteHead();
      OnlyPinnedDiffer(cache.bufs, cache.memdisk, cache.view);
    }

    /** Record that the client's locked buffer b belongs to the running transaction. */
    method LogWrite(b: nat)
      requires Valid() && cache.Holding(b) && cache.bufs[b].valid
      requires !InLog(G(), cache.bufs[b].blockno)
      requires n < LOGSIZE && n < size - 1        // else "too big a transaction"
      requires 1 <= outstanding                   // else "log_write outside of trans"
      modifies this`n, this`block, cache`bufs
      ensures Valid() && cache.Holding(b)
      ensures var x := cache.bufs[b].blockno;
              block[..n] == if x in old(block[..n]) then old(block[..n]) else old(block[..n]) + [x]
      ensures cache.bufs == old(cache.bufs)[b := old(cache.bufs[b]).(dirty := true)]
    {
      var x := cache.bufs[b].blockno;
      BlockInRange(cache.bufs, cache.memdisk, cache.view, b);
      hide Coherent, Linked, NewestFirst, DirtyOf, Empty;
      ghost var bs := block[..n];
      var i := 0;
      while i < n && block[i] != x
        invariant 0 <= i <= n && x !in bs[..i]
      {
        i := i + 1;
      }
      block := block[i := x];
      if i == n {
        n := n + 1;
        assert block[..n] == bs + [x];
      } else {
        assert block[..n] == bs;
        assert x in bs;
      }
      assert SetOf(block[..n]) == SetOf(bs) + {x};
      cache.SetDirty(b);
    }

    /** One turn of begin_op's loop: start an operation unless it has to sleep. */
    method TryBeginOp() returns (ok: bool)
      requires Valid()
      modifies this`outstanding
      ensures Valid()
      ensures ok <==> !committing && n + (old(outstanding) + 1) * MAXOPBLOCKS <= LOGSIZE
      ensures outstanding == old(outstanding) + if ok then 1 else 0
    {
      if committing {
        ok := false;
      } else if n + (outstanding + 1) * MAXOPBLOCKS > LOGSIZE {
        ok := false;
      } else {
        outstanding := outstanding + 1;
        ok := true;
      }
    }

    /** End an operation; the last one out commits. */
    method EndOp()
      requires Valid() && 1 <= outstanding && (outstanding == 1 ==> Quiet(cache.bufs) && n < cache.nbuf)
      requires !committing                        // else "log.committing"
      modifies this`n, this`outstanding, this`committing, cache
      ensures Valid() && !committing && outstanding == old(outstanding) - 1
      ensures old(outstanding) > 1 ==>
                && block[..n] == old(block[..n]) && cache.view == old(cache.view) && cache.bufs == old(cache.bufs)
                && cache.memdisk == old(cache.memdisk) && cache.writes == old(cache.writes) && n == old(n)
      ensures old(outstanding) == 1 ==>
                && n == 0 && G() == old(G())
                && SameHome(G(), cache.memdisk, old(cache.view))
                && cache.writes == old(cache.writes)
                     + CommitWrites(G(), old(cache.memdisk), old(block[..n]), old(Logged()))
                && CrashSafe(G(), old(cache.memdisk), old(cache.view),
                     CommitWrites(G(), old(cache.memdisk), old(block[..n]), old(Logged())), old(n))
    {
      hide Quiet, Coherent, Linked, NewestFirst, DirtyOf, Apply, CommitWrites, CrashSafe, SameHome, Empty, Loggable;
      var doCommit := false;
      outstanding := outstanding - 1;
      if outstanding == 0 {
        doCommit := true;
        committing := true;
      }
      if doCommit {
        Commit();
        committing := false;
      }
    }
  }

  /** Boot on an image: recovery, and then an empty log. */
  method Boot(image: Disk, nbuf: nat, logsize: nat, maxop: nat, g: Layout) returns (log: Log)
    requires WellFormed(g, image) && |Header(image[g.start])| <= logsize
    requires logsize + 1 < WORDS && 2 <= nbuf
    ensures fresh(log) && fresh(log.cache) && log.Valid() && Quiet(log.cache.bufs) && log.G() == g
    ensures log.cache.nbuf == nbuf && log.LOGSIZE == logsize && log.MAXOPBLOCKS == maxop
    ensures log.n == 0 && log.outstanding == 0 && !log.committing
    ensures log.cache.memdisk == log.cache.view == Recover(g, image)
  {
    hide Coherent, Linked, NewestFirst, Distinct, RecoverWrites, Empty, Word, Recover, Header, Eligible;
    WellFormedLayout(g, image);
    var cache := new Cache(nbuf, image);
    log := new Log(cache, logsize, maxop, g.start, g.size);
    assert DirtyOf(cache.bufs) == {};
    assert log.G() == g;
    log.RecoverFromLog();
  }

  /** Home block x gets the contents data within a running operation, in the way log.c asks its callers
      to: bread, modify, log_write, brelse. */
  method WriteBlock(log: Log, x: nat, data: Block)
    requires log.Valid() && Quiet(log.cache.bufs) && log.n < log.cache.nbuf && 1 <= log.outstanding
    requires log.n < log.LOGSIZE && log.n < log.size - 1 && x < |log.cache.memdisk| && !InLog(log.G(), x)
    modifies log`n, log`block, log.cache
    ensures log.Valid() && Quiet(log.cache.bufs) && log.G() == old(log.G())
    ensures log.cache.view == old(log.cache.view)[x := data]
    ensures log.block[..log.n]
            == if x in old(log.block[..log.n]) then old(log.block[..log.n]) else old(log.block[..log.n]) + [x]
  {
    hide Coherent, Linked, NewestFirst, Distinct, Empty, Eligible, Ready, DirtyOf, SetOf;
    var cache := log.cache;
    SetOfBound(log.block[..log.n]);
    ReadyFirst(cache.bufs, cache.memdisk, cache.view, x);
    ghost var b0 := cache.bufs;
    var b := cache.Bread(ROOTDEV, x);
    ghost var b1 := cache.bufs;
    cache.SetData(b, data);
    log.LogWrite(b);
    cache.Brelse(b);
    QuietAfterOne(b0, b1, cache.bufs, b);
  }

  /** One operation, from begin_op to end_op, that gives home block x the contents data. */
  method Operate(log: Log, x: nat, data: Block)
    requires log.Valid() && Quiet(log.cache.bufs) && log.n == 0 && log.outstanding == 0 && !log.committing
    requires 1 <= log.MAXOPBLOCKS <= log.LOGSIZE && 2 <= log.size && x < |log.cache.memdisk| && !InLog(log.G(), x)
    modifies log, log.cache
    ensures log.Valid() && log.n == 0 && log.outstanding == 0 && log.G() == old(log.G())
    ensures SameHome(log.G(), log.cache.memdisk, old(log.cache.view)[x := data])
  {
    hide Coherent, Linked, NewestFirst, Distinct, Apply, CommitWrites, CrashSafe, Empty, Eligible, SameHome;
    var ok := log.TryBeginOp();
    assert ok;
    WriteBlock(log, x, data);
    log.EndOp();
  }

  /** Boot on an image that a crash has left, then run one operation. */
  method OneOperation(image: Disk, nbuf: nat, logsize: nat, maxop: nat, g: Layout, x: nat, data: Block)
    returns (disk: Disk)
    requires WellFormed(g, image) && |Header(image[g.start])| <= logsize
    requires logsize + 1 < WORDS && 2 <= g.size && 2 <= nbuf && 1 <= maxop <= logsize
    requires x < g.disksize && !InLog(g, x)
    ensures |disk| == |image| && SameHome(g, disk, Recover(g, image)[x := data])
    ensures Empty(g, disk)
  {
    hide Coherent, Linked, NewestFirst, Distinct, Empty, Word, Recover, Header, Quiet, SameHome;
    WellFormedLayout(g, image);
    var log := Boot(image, nbuf, logsize, maxop, g);
    Operate(log, x, data);
    disk := log.cache.memdisk;
  }

  // ----- a transaction that pins every buffer

  /** As many operations as begin_op lets in write as many blocks as each may; all but one end. If
      LOGSIZE is NBUF, the commit of the last one will find no buffer for the log block. */
  method FillLog(log: Log, ops: nat, homes: seq<nat>, data: Block)
    requires log.Valid() && Quiet(log.cache.bufs) && log.n == 0 && log.outstanding == 0 && !log.committing
    requires ops * log.MAXOPBLOCKS == log.LOGSIZE == log.cache.nbuf < log.size
    requires |homes| == log.LOGSIZE && Distinct(homes)
    requires forall i :: 0 <= i < |homes| ==> homes[i] < |log.cache.memdisk| && !InLog(log.G(), homes[i])
    modifies log, log.cache
    ensures log.Valid() && Quiet(log.cache.bufs) && !log.committing && log.outstanding == 1
    ensures log.n == log.cache.nbuf && log.block[..log.n] == homes && !Ready(log.cache.bufs, log.start + 1)
  {
    hide Coherent, Linked, NewestFirst, Empty, Eligible, Ready, DirtyOf, Loggable, InLog;
    var i := 0;
    while i < ops
      invariant 0 <= i <= ops && log.Valid() && Quiet(log.cache.bufs) && !log.committing
      invariant log.n == 0 && log.outstanding == i && log.G() == old(log.G())
    {
      Times(i + 1, ops, log.MAXOPBLOCKS);
      var ok := log.TryBeginOp();
      assert ok;
      i := i + 1;
    }
    var k := 0;
    while k < |homes|
      invariant 0 <= k <= |homes| && log.Valid() && Quiet(log.cache.bufs) && !log.committing
      invariant log.n == k && log.block[..log.n] == homes[..k]
      invariant log.outstanding == ops && log.G() == old(log.G())
    {
      assert homes[k] !in homes[..k] && homes[..k + 1] == homes[..k] + [homes[k]];
      WriteBlock(log, homes[k], data);
      assert |log.block[..log.n]| == k + 1;
      k := k + 1;
    }
    assert homes[..k] == homes;
    while log.outstanding > 1
      invariant log.Valid() && Quiet(log.cache.bufs) && !log.committing && 1 <= log.outstanding
      invariant log.n == |homes| && log.block[..log.n] == homes && log.G() == old(log.G())
      decreases log.outstanding
    {
      log.EndOp();
    }
    CommitReady(log.G(), log.cache.bufs, log.cache.memdisk, log.cache.view, homes);
  }

  /** So from a boot with NBUF equal to LOGSIZE, and room in the log, a state can be reached in which
      the next end_op panics in bget. */
  method PinsEveryBuffer(image: Disk, ops: nat, maxop: nat, g: Layout, homes: seq<nat>, data: Block)
    returns (log: Log)
    requires WellFormed(g, image) && |Header(image[g.start])| <= |homes| == ops * maxop
    requires 2 <= |homes| && |homes| + 1 < WORDS && |homes| < g.size && Distinct(homes)
    requires forall i :: 0 <= i < |homes| ==> homes[i] < g.disksize && !InLog(g, homes[i])
    ensures log.Valid() && Quiet(log.cache.bufs) && !log.committing && log.outstanding == 1
    ensures log.n == log.cache.nbuf && !Ready(log.cache.bufs, log.start + 1)
  {
    hide Coherent, Linked, NewestFirst, Empty, Word, Recover, Header, Quiet, Ready, InLog;
    WellFormedLayout(g, image);
    log := Boot(image, |homes|, |homes|, maxop, g);
    FillLog(log, ops, homes, data);
  }

  lemma WellFormedLayout(g: Layout, d: Disk)
    requires WellFormed(g, d)
    ensures GoodLayout(g) && |d| == g.disksize
  {
  }
}
