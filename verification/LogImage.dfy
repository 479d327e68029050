/** The write-ahead log as a sequence of single-block disk writes.  A commit and a recovery
    are lists of writes; a crash keeps any prefix of such a list.  Everything here is about
    disk images; module Journal proves that the methods of log.c issue exactly these lists. */
module LogImage {
  import opened Basics
  import opened Blocks

  type Disk = seq<Block>

  datatype Write = Write(at: nat, data: Block)

  /** Header block at `start`, copies of logged blocks at start+1 .. start+size-1. */
  datatype Layout = Layout(start: nat, size: nat, disksize: nat)

  predicate GoodLayout(g: Layout) {
    1 <= g.size && g.start + g.size <= g.disksize <= 0x1_0000_0000
  }

  predicate InLog(g: Layout, b: nat) {
    g.start <= b < g.start + g.size
  }

  function Apply(d: Disk, ws: seq<Write>): (r: Disk)
    ensures |r| == |d|
  {
    if ws == [] then d else
      var r := Apply(d, ws[..|ws| - 1]);
      var w := ws[|ws| - 1];
      if w.at < |d| then r[w.at := w.data] else r
  }

  lemma {:induction false} ApplyConcat(d: Disk, a: seq<Write>, b: seq<Write>)
    ensures Apply(d, a + b) == Apply(Apply(d, a), b)
    decreases b
  {
    if b == [] {
      assert a + b == a;
    } else {
      assert (a + b)[..|a + b| - 1] == a + b[..|b| - 1];
      ApplyConcat(d, a, b[..|b| - 1]);
    }
  }

  lemma ApplyOne(d: Disk, w: Write)
    requires w.at < |d|
    ensures Apply(d, [w]) == d[w.at := w.data]
  {
    assert [w][..0] == [];
  }

  // ----- the header block

  predicate Encodable(bs: seq<nat>) {
    |bs| < WORDS && forall i :: 0 <= i < |bs| ==> bs[i] < 0x1_0000_0000
  }

  /** The header buffer after write_head has stored the count and the first i entries. */
  function PutEntries(hdr: Block, bs: seq<nat>, i: nat): (r: Block)
    requires Encodable(bs) && i <= |bs|
    ensures Word(r, 0) == |bs|
    ensures forall j :: 0 <= j < i ==> Word(r, 1 + j) == bs[j]
    ensures forall k: nat :: i < k < WORDS ==> Word(r, k) == Word(hdr, k)
  {
    if i == 0 then PutWord(hdr, 0, |bs|) else PutWord(PutEntries(hdr, bs, i - 1), i, bs[i - 1])
  }

  function PutHeader(hdr: Block, bs: seq<nat>): Block
    requires Encodable(bs)
  {
    PutEntries(hdr, bs, |bs|)
  }

  /** The block numbers that read_head takes from a header block. */
  function Header(hdr: Block): (bs: seq<nat>)
    requires Word(hdr, 0) < WORDS
    ensures Encodable(bs)
  {
    seq(Word(hdr, 0), j requires 0 <= j < Word(hdr, 0) => Word(hdr, 1 + j))
  }

  lemma HeaderRoundTrip(hdr: Block, bs: seq<nat>)
    requires Encodable(bs)
    ensures Word(PutHeader(hdr, bs), 0) == |bs| && Header(PutHeader(hdr, bs)) == bs
  {
    var h := PutHeader(hdr, bs);
    assert forall j :: 0 <= j < |bs| ==> Word(h, 1 + j) == bs[j];
  }

  // ----- write lists

  /** A set of block numbers that may be logged: it fits, and it consists of different home blocks. */
  predicate Loggable(g: Layout, bs: seq<nat>) {
    && |bs| + 1 <= g.size
    && |bs| < WORDS
    && Distinct(bs)
    && forall i :: 0 <= i < |bs| ==> bs[i] < g.disksize && !InLog(g, bs[i])
  }

  function LogWrites(g: Layout, vs: seq<Block>): (ws: seq<Write>)
    ensures |ws| == |vs|
  {
    seq(|vs|, j requires 0 <= j < |vs| => Write(g.start + 1 + j, vs[j]))
  }

  function InstallWrites(bs: seq<nat>, vs: seq<Block>): (ws: seq<Write>)
    requires |bs| == |vs|
    ensures |ws| == |bs|
  {
    seq(|bs|, j requires 0 <= j < |bs| => Write(bs[j], vs[j]))
  }

  function CommitWrites(g: Layout, d: Disk, bs: seq<nat>, vs: seq<Block>): (ws: seq<Write>)
    requires GoodLayout(g) && |d| == g.disksize && Loggable(g, bs) && |vs| == |bs|
    ensures |ws| == if |bs| == 0 then 0 else 2 * |bs| + 2
  {
    if |bs| == 0 then [] else
      LogWrites(g, vs)
      + [Write(g.start, PutHeader(d[g.start], bs))]
      + InstallWrites(bs, vs)
      + [Write(g.start, PutHeader(PutHeader(d[g.start], bs), []))]
  }

  /** An image whose header is readable and names home blocks. */
  predicate WellFormed(g: Layout, d: Disk) {
    && GoodLayout(g)
    && |d| == g.disksize
    && Word(d[g.start], 0) < WORDS
    && Loggable(g, Header(d[g.start]))
  }

  function LogData(g: Layout, d: Disk, n: nat): (vs: seq<Block>)
    requires GoodLayout(g) && |d| == g.disksize && n + 1 <= g.size
    ensures |vs| == n
  {
    seq(n, j requires 0 <= j < n => d[g.start + 1 + j])
  }

  function RecoverWrites(g: Layout, d: Disk): seq<Write>
    requires WellFormed(g, d)
  {
    var bs := Header(d[g.start]);
    InstallWrites(bs, LogData(g, d, |bs|)) + [Write(g.start, PutHeader(d[g.start], []))]
  }

  function Recover(g: Layout, d: Disk): Disk
    requires WellFormed(g, d)
  {
    Apply(d, RecoverWrites(g, d))
  }

  /** The home blocks after a transaction that gives blocks bs the contents vs. */
  function Install(d: Disk, bs: seq<nat>, vs: seq<Block>): Disk
    requires |bs| == |vs|
  {
    Apply(d, InstallWrites(bs, vs))
  }

  predicate SameHome(g: Layout, d: Disk, e: Disk) {
    |d| == |e| && forall b :: 0 <= b < |d| && !InLog(g, b) ==> d[b] == e[b]
  }

  // ----- what the lists do, block by block

  lemma {:induction false} LogPrefix(g: Layout, d: Disk, vs: seq<Block>, i: nat)
    requires GoodLayout(g) && |d| == g.disksize && |vs| + 1 <= g.size && i <= |vs|
    ensures var e := Apply(d, LogWrites(g, vs)[..i]);
            forall b :: 0 <= b < |d| ==>
              e[b] == if g.start + 1 <= b < g.start + 1 + i then vs[b - g.start - 1] else d[b]
  {
    var ws := LogWrites(g, vs)[..i];
    if i == 0 {
      assert ws == [];
    } else {
      LogPrefix(g, d, vs, i - 1);
      assert ws[..i - 1] == LogWrites(g, vs)[..i - 1];
      assert ws[i - 1] == Write(g.start + i, vs[i - 1]);
      assert ws[..|ws| - 1] == LogWrites(g, vs)[..i - 1];
      assert Apply(d, ws) == Apply(d, LogWrites(g, vs)[..i - 1])[g.start + i := vs[i - 1]];
    }
  }

  lemma {:induction false} InstallPrefix(d: Disk, bs: seq<nat>, vs: seq<Block>, i: nat)
    requires |bs| == |vs| && i <= |bs| && Distinct(bs)
    requires forall j :: 0 <= j < |bs| ==> bs[j] < |d|
    ensures var e := Apply(d, InstallWrites(bs, vs)[..i]);
            && (forall j :: 0 <= j < i ==> e[bs[j]] == vs[j])
            && (forall b :: 0 <= b < |d| && b !in bs[..i] ==> e[b] == d[b])
  {
    var ws := InstallWrites(bs, vs)[..i];
    if i == 0 {
      assert ws == [];
    } else {
      InstallPrefix(d, bs, vs, i - 1);
      assert ws[..i - 1] == InstallWrites(bs, vs)[..i - 1];
      assert ws[i - 1] == Write(bs[i - 1], vs[i - 1]);
      assert bs[..i] == bs[..i - 1] + [bs[i - 1]];
    }
  }

  lemma InstallAll(d: Disk, bs: seq<nat>, vs: seq<Block>)
    requires |bs| == |vs| && Distinct(bs)
    requires forall j :: 0 <= j < |bs| ==> bs[j] < |d|
    ensures forall j :: 0 <= j < |bs| ==> Install(d, bs, vs)[bs[j]] == vs[j]
    ensures forall b :: 0 <= b < |d| && b !in bs ==> Install(d, bs, vs)[b] == d[b]
  {
    InstallPrefix(d, bs, vs, |bs|);
    assert InstallWrites(bs, vs)[..|bs|] == InstallWrites(bs, vs);
    assert bs[..|bs|] == bs;
  }

  // ----- recovery

  lemma RecoverShape(g: Layout, d: Disk)
    requires WellFormed(g, d)
    ensures var bs := Header(d[g.start]);
            Recover(g, d) == Install(d, bs, LogData(g, d, |bs|))[g.start := PutHeader(d[g.start], [])]
  {
    var bs := Header(d[g.start]);
    var vs := LogData(g, d, |bs|);
    var clear := Write(g.start, PutHeader(d[g.start], []));
    ApplyConcat(d, InstallWrites(bs, vs), [clear]);
    ApplyOne(Install(d, bs, vs), clear);
  }

  /** Recovery puts the logged data home, clears the header, and touches nothing else. */
  lemma RecoverEffect(g: Layout, d: Disk)
    requires WellFormed(g, d)
    ensures WellFormed(g, Recover(g, d)) && Header(Recover(g, d)[g.start]) == []
    ensures forall j :: 0 <= j < |Header(d[g.start])| ==>
              Recover(g, d)[Header(d[g.start])[j]] == LogData(g, d, |Header(d[g.start])|)[j]
    ensures forall b :: 0 <= b < |d| && b != g.start && b !in Header(d[g.start]) ==> Recover(g, d)[b] == d[b]
  {
    hide Word, PutWord, PutEntries;
    RecoverShape(g, d);
    var bs := Header(d[g.start]);
    InstallAll(d, bs, LogData(g, d, |bs|));
    HeaderRoundTrip(d[g.start], []);
  }

  /** Two images with the same header, the same log data, and home blocks that differ only
      where the header says they are about to be overwritten, recover to the same home blocks. */
  lemma RecoverAgrees(g: Layout, d: Disk, e: Disk)
    requires WellFormed(g, d) && WellFormed(g, e)
    requires Header(d[g.start]) == Header(e[g.start])
    requires LogData(g, d, |Header(d[g.start])|) == LogData(g, e, |Header(d[g.start])|)
    requires forall b :: 0 <= b < |d| && !InLog(g, b) && b !in Header(d[g.start]) ==> d[b] == e[b]
    ensures SameHome(g, Recover(g, d), Recover(g, e))
  {
    hide Word, PutWord, PutEntries;
    RecoverEffect(g, d);
    RecoverEffect(g, e);
    var bs := Header(d[g.start]);
    forall b | 0 <= b < |d| && !InLog(g, b)
      ensures Recover(g, d)[b] == Recover(g, e)[b]
    {
      if b in bs {
        var j :| 0 <= j < |bs| && bs[j] == b;
        assert Recover(g, d)[bs[j]] == Recover(g, e)[bs[j]];
      }
    }
  }

  lemma RecoverClean(g: Layout, d: Disk)
    requires WellFormed(g, d) && Header(d[g.start]) == []
    ensures SameHome(g, Recover(g, d), d)
  {
    RecoverEffect(g, d);
  }

  /** A crash inside recovery, at any block write, loses nothing: running recovery again
      reaches the home blocks that the interrupted recovery would have reached. */
  lemma CrashInRecovery(g: Layout, d: Disk, cut: nat)
    requires WellFormed(g, d) && cut <= |RecoverWrites(g, d)|
    ensures var e := Apply(d, RecoverWrites(g, d)[..cut]);
            WellFormed(g, e) && SameHome(g, Recover(g, e), Recover(g, d))
  {
    hide Word, PutWord, PutEntries;
    var ws := RecoverWrites(g, d);
    var bs := Header(d[g.start]);
    var vs := LogData(g, d, |bs|);
    var e := Apply(d, ws[..cut]);
    if cut <= |bs| {
      assert ws[..cut] == InstallWrites(bs, vs)[..cut];
      InstallPrefix(d, bs, vs, cut);
      assert forall b :: b in bs[..cut] ==> b in bs;
      assert forall b: nat :: b in bs ==> !InLog(g, b);
      RecoverAgrees(g, e, d);
    } else {
      assert ws[..cut] == ws;
      RecoverEffect(g, d);
      RecoverClean(g, e);
    }
  }

  // ----- commit

  /** Until the header write, a commit has only filled the log area. */
  lemma BeforeHeader(g: Layout, d: Disk, bs: seq<nat>, vs: seq<Block>, cut: nat)
    requires WellFormed(g, d) && Header(d[g.start]) == []
    requires Loggable(g, bs) && |vs| == |bs| && 0 < |bs| && cut <= |bs|
    ensures var e := Apply(d, CommitWrites(g, d, bs, vs)[..cut]);
            WellFormed(g, e) && Header(e[g.start]) == [] && SameHome(g, e, d)
  {
    hide Word, PutWord, PutEntries;
    assert CommitWrites(g, d, bs, vs)[..cut] == LogWrites(g, vs)[..cut];
    LogPrefix(g, d, vs, cut);
  }

  /** The image just after the first header write. */
  function AtHeader(g: Layout, d: Disk, bs: seq<nat>, vs: seq<Block>): (e: Disk)
    requires GoodLayout(g) && |d| == g.disksize && Loggable(g, bs) && |vs| == |bs|
    ensures |e| == |d|
  {
    Apply(d, LogWrites(g, vs))[g.start := PutHeader(d[g.start], bs)]
  }

  lemma AtHeaderEffect(g: Layout, d: Disk, bs: seq<nat>, vs: seq<Block>)
    requires WellFormed(g, d) && Loggable(g, bs) && |vs| == |bs|
    ensures var e := AtHeader(g, d, bs, vs);
            && WellFormed(g, e) && Header(e[g.start]) == bs && LogData(g, e, |bs|) == vs
            && SameHome(g, e, d)
    ensures Apply(d, LogWrites(g, vs) + [Write(g.start, PutHeader(d[g.start], bs))]) == AtHeader(g, d, bs, vs)
  {
    hide Word, PutWord, PutEntries;
    LogPrefix(g, d, vs, |vs|);
    assert LogWrites(g, vs)[..|vs|] == LogWrites(g, vs);
    HeaderRoundTrip(d[g.start], bs);
    var head := Write(g.start, PutHeader(d[g.start], bs));
    ApplyConcat(d, LogWrites(g, vs), [head]);
    ApplyOne(Apply(d, LogWrites(g, vs)), head);
  }

  lemma WhileInstallingShape(g: Layout, d: Disk, bs: seq<nat>, vs: seq<Block>, cut: nat)
    requires WellFormed(g, d) && Loggable(g, bs) && |vs| == |bs| && 0 < |bs|
    requires |bs| < cut <= 2 * |bs| + 1
    ensures Apply(d, CommitWrites(g, d, bs, vs)[..cut])
            == Apply(AtHeader(g, d, bs, vs), InstallWrites(bs, vs)[..cut - |bs| - 1])
  {
    hide Word, PutWord, PutEntries;
    var first := LogWrites(g, vs) + [Write(g.start, PutHeader(d[g.start], bs))];
    var iw := InstallWrites(bs, vs)[..cut - |bs| - 1];
    assert CommitWrites(g, d, bs, vs)[..cut] == first + iw;
    AtHeaderEffect(g, d, bs, vs);
    ApplyConcat(d, first, iw);
  }

  /** Installing never touches the log area. */
  lemma InstallKeepsLog(g: Layout, d: Disk, bs: seq<nat>, vs: seq<Block>, i: nat)
    requires WellFormed(g, d) && Loggable(g, bs) && |vs| == |bs| && i <= |bs|
    ensures var e := Apply(d, InstallWrites(bs, vs)[..i]);
            && e[g.start] == d[g.start] && LogData(g, e, |bs|) == LogData(g, d, |bs|)
            && (forall b :: 0 <= b < |d| && b !in bs ==> e[b] == d[b])
  {
    InstallPrefix(d, bs, vs, i);
    var e := Apply(d, InstallWrites(bs, vs)[..i]);
    forall b | 0 <= b < |d| && b !in bs
      ensures e[b] == d[b]
    {
      assert b !in bs[..i];
    }
  }

  /** From the header write until it is cleared, header and log data stand, and only logged
      blocks have changed at home. */
  lemma WhileInstalling(g: Layout, d: Disk, bs: seq<nat>, vs: seq<Block>, cut: nat)
    requires WellFormed(g, d) && Loggable(g, bs) && |vs| == |bs| && 0 < |bs|
    requires |bs| < cut <= 2 * |bs| + 1
    ensures var e := Apply(d, CommitWrites(g, d, bs, vs)[..cut]);
            && WellFormed(g, e) && Header(e[g.start]) == bs && LogData(g, e, |bs|) == vs
            && (forall b :: 0 <= b < |d| && !InLog(g, b) && b !in bs ==> e[b] == d[b])
  {
    hide Word, PutWord, PutEntries, Apply, CommitWrites, InstallWrites, AtHeader, LogData, Header;
    var e := Apply(d, CommitWrites(g, d, bs, vs)[..cut]);
    var d2 := AtHeader(g, d, bs, vs);
    AtHeaderEffect(g, d, bs, vs);
    assert && e[g.start] == d2[g.start] && LogData(g, e, |bs|) == LogData(g, d2, |bs|)
           && (forall b :: 0 <= b < |d| && b !in bs ==> e[b] == d2[b]) by {
      WhileInstallingShape(g, d, bs, vs, cut);
      InstallKeepsLog(g, d2, bs, vs, cut - |bs| - 1);
    }
  }

  lemma AllInstalled(g: Layout, d: Disk, bs: seq<nat>, vs: seq<Block>)
    requires WellFormed(g, d) && Loggable(g, bs) && |vs| == |bs| && 0 < |bs|
    ensures SameHome(g, Apply(d, CommitWrites(g, d, bs, vs)[..2 * |bs| + 1]), Install(d, bs, vs))
  {
    hide Word, PutWord, PutEntries;
    var d2 := AtHeader(g, d, bs, vs);
    assert SameHome(g, Install(d2, bs, vs), Install(d, bs, vs)) by {
      AtHeaderEffect(g, d, bs, vs);
      InstalledAgree(g, d2, d, bs, vs);
    }
    assert Apply(d, CommitWrites(g, d, bs, vs)[..2 * |bs| + 1]) == Install(d2, bs, vs) by {
      WhileInstallingShape(g, d, bs, vs, 2 * |bs| + 1);
      assert InstallWrites(bs, vs)[..|bs|] == InstallWrites(bs, vs);
    }
  }

  /** A completed commit leaves an empty header and the new home blocks. */
  lemma AfterCommit(g: Layout, d: Disk, bs: seq<nat>, vs: seq<Block>)
    requires WellFormed(g, d) && Loggable(g, bs) && |vs| == |bs| && 0 < |bs|
    ensures var e := Apply(d, CommitWrites(g, d, bs, vs));
            WellFormed(g, e) && Header(e[g.start]) == [] && SameHome(g, e, Install(d, bs, vs))
  {
    hide Word, PutWord, PutEntries;
    var ws := CommitWrites(g, d, bs, vs);
    var m := 2 * |bs| + 1;
    WhileInstalling(g, d, bs, vs, m);
    AllInstalled(g, d, bs, vs);
    assert ws == ws[..m] + [ws[m]];
    ApplyConcat(d, ws[..m], [ws[m]]);
    ApplyOne(Apply(d, ws[..m]), ws[m]);
    HeaderRoundTrip(PutHeader(d[g.start], bs), []);
  }

  lemma InstalledAgree(g: Layout, d: Disk, e: Disk, bs: seq<nat>, vs: seq<Block>)
    requires |bs| == |vs| && Distinct(bs)
    requires forall j :: 0 <= j < |bs| ==> bs[j] < |d|
    requires SameHome(g, d, e)
    ensures SameHome(g, Install(d, bs, vs), Install(e, bs, vs))
  {
    InstallAll(d, bs, vs);
    InstallAll(e, bs, vs);
    forall b | 0 <= b < |d| && !InLog(g, b)
      ensures Install(d, bs, vs)[b] == Install(e, bs, vs)[b]
    {
      if b in bs {
        var j :| 0 <= j < |bs| && bs[j] == b;
        assert Install(d, bs, vs)[bs[j]] == Install(e, bs, vs)[bs[j]];
      }
    }
  }

  /** Crash atomicity of one commit: cut it after any number of block writes, recover, and the
      home blocks are the old ones if the first header write had not completed, else the new ones. */
  lemma CrashInCommit(g: Layout, d: Disk, bs: seq<nat>, vs: seq<Block>, cut: nat)
    requires WellFormed(g, d) && Header(d[g.start]) == []
    requires Loggable(g, bs) && |vs| == |bs|
    requires cut <= |CommitWrites(g, d, bs, vs)|
    ensures var e := Apply(d, CommitWrites(g, d, bs, vs)[..cut]);
            && WellFormed(g, e)
            && SameHome(g, Recover(g, e), if cut <= |bs| then d else Install(d, bs, vs))
  {
    hide Word, PutWord, PutEntries;
    var ws := CommitWrites(g, d, bs, vs);
    var e := Apply(d, ws[..cut]);
    if |bs| == 0 {
      RecoverClean(g, d);
    } else if cut <= |bs| {
      BeforeHeader(g, d, bs, vs, cut);
      RecoverClean(g, e);
    } else if cut <= 2 * |bs| + 1 {
      WhileInstalling(g, d, bs, vs, cut);
      RecoverEffect(g, e);
      InstallAll(d, bs, vs);
      forall b | 0 <= b < |d| && !InLog(g, b)
        ensures Recover(g, e)[b] == Install(d, bs, vs)[b]
      {
        if b in bs {
          var j :| 0 <= j < |bs| && bs[j] == b;
          assert Recover(g, e)[bs[j]] == vs[j];
        }
      }
    } else {
      assert ws[..cut] == ws;
      AfterCommit(g, d, bs, vs);
      RecoverClean(g, e);
    }
  }

  // ----- whole runs: commits, crashes and interrupted recoveries in any order

  datatype Event =
    | Commit(bs: seq<nat>, vs: seq<Block>)                    // a commit that completes
    | CrashCommit(bs: seq<nat>, vs: seq<Block>, cut: nat)     // power fails after cut block writes
    | CrashIdle                                               // power fails between commits
    | CrashRecovery(cut: nat)                                 // power fails inside recovery
    | Boot                                                    // recovery completes

  /** The machine: its disk, and whether recovery has completed since the last crash. */
  datatype Machine = Machine(disk: Disk, up: bool)

  ghost predicate Enabled(g: Layout, m: Machine, e: Event) {
    && WellFormed(g, m.disk)
    && match e
       case Commit(bs, vs) => m.up && Loggable(g, bs) && |vs| == |bs|
       case CrashCommit(bs, vs, cut) =>
         m.up && Loggable(g, bs) && |vs| == |bs| && cut <= |CommitWrites(g, m.disk, bs, vs)|
       case CrashIdle => m.up
       case CrashRecovery(cut) => !m.up && cut <= |RecoverWrites(g, m.disk)|
       case Boot => !m.up
  }

  ghost function Next(g: Layout, m: Machine, e: Event): Machine
    requires Enabled(g, m, e)
  {
    match e
    case Commit(bs, vs) => Machine(Apply(m.disk, CommitWrites(g, m.disk, bs, vs)), true)
    case CrashCommit(bs, vs, cut) => Machine(Apply(m.disk, CommitWrites(g, m.disk, bs, vs)[..cut]), false)
    case CrashIdle => Machine(m.disk, false)
    case CrashRecovery(cut) => Machine(Apply(m.disk, RecoverWrites(g, m.disk)[..cut]), false)
    case Boot => Machine(Recover(g, m.disk), true)
  }

  ghost predicate Runs(g: Layout, m: Machine, es: seq<Event>, m': Machine)
    decreases |es|
  {
    if es == [] then m' == m
    else Enabled(g, m, es[0]) && Runs(g, Next(g, m, es[0]), es[1..], m')
  }

  /** A transaction takes effect exactly when its first header write reaches the disk. */
  predicate Committed(e: Event) {
    e.Commit? || (e.CrashCommit? && |e.bs| < e.cut)
  }

  /** The contents after the committed transactions of a run, in order, and nothing else. */
  function Contents(d: Disk, es: seq<Event>): Disk
    requires forall e :: e in es ==> (e.Commit? || e.CrashCommit?) ==> |e.bs| == |e.vs|
    decreases |es|
  {
    if es == [] then d
    else Contents(if Committed(es[0]) then Install(d, es[0].bs, es[0].vs) else d, es[1..])
  }

  /** What a machine stands for: the disk that recovery would leave, and, once recovery has
      completed, the disk itself. */
  ghost predicate Represents(g: Layout, m: Machine, d: Disk) {
    && WellFormed(g, m.disk)
    && SameHome(g, Recover(g, m.disk), d)
    && (m.up ==> Header(m.disk[g.start]) == [] && SameHome(g, m.disk, d))
  }

  lemma StepRepresents(g: Layout, m: Machine, e: Event, d: Disk)
    requires Represents(g, m, d) && Enabled(g, m, e)
    ensures (e.Commit? || e.CrashCommit?) ==> |e.bs| == |e.vs|
    ensures Represents(g, Next(g, m, e), if Committed(e) then Install(d, e.bs, e.vs) else d)
  {
    hide Word, PutWord, PutEntries, RecoverWrites;
    match e
    case Commit(bs, vs) =>
      var ws := CommitWrites(g, m.disk, bs, vs);
      assert ws[..|ws|] == ws;
      CrashInCommit(g, m.disk, bs, vs, |ws|);
      InstalledAgree(g, m.disk, d, bs, vs);
      if |bs| == 0 {
        assert InstallWrites(bs, vs) == [];
      } else {
        AfterCommit(g, m.disk, bs, vs);
      }
    case CrashCommit(bs, vs, cut) =>
      CrashInCommit(g, m.disk, bs, vs, cut);
      InstalledAgree(g, m.disk, d, bs, vs);
    case CrashIdle =>
    case CrashRecovery(cut) =>
      CrashInRecovery(g, m.disk, cut);
    case Boot =>
      RecoverEffect(g, m.disk);
      RecoverClean(g, Recover(g, m.disk));
  }

  /** Crash atomicity over whole runs: whatever commits, crashes inside commits, crashes inside
      recovery and reboots have happened, finishing recovery leaves the home blocks exactly as
      the committed transactions, applied in order, leave them. */
  lemma {:induction false} CrashAtomicity(g: Layout, m: Machine, es: seq<Event>, m': Machine, d: Disk)
    requires Represents(g, m, d) && Runs(g, m, es, m')
    ensures forall e :: e in es ==> (e.Commit? || e.CrashCommit?) ==> |e.bs| == |e.vs|
    ensures Represents(g, m', Contents(d, es))
    decreases |es|
  {
    hide Represents, Enabled, Next, Install;
    if es != [] {
      var e := es[0];
      assert Enabled(g, m, e);
      StepRepresents(g, m, e, d);
      CrashAtomicity(g, Next(g, m, e), es[1..], m', if Committed(e) then Install(d, e.bs, e.vs) else d);
      assert es == [e] + es[1..];
    }
  }

  /** A freshly made file system: empty header, so every image is its own contents. */
  lemma FreshRepresents(g: Layout, d: Disk)
    requires WellFormed(g, d) && Header(d[g.start]) == []
    ensures Represents(g, Machine(d, false), d)
  {
    RecoverClean(g, d);
  }
}
