/** The seeking-tutor protocol of csmc.c: students, one coordinator and tutors around two
    counting semaphores.  A section under seatLock is one step; so is a read or write of a
    variable outside it, a sem_post, and a sem_wait that does not block. */
module Tutors {
  import opened Sums

  datatype Params = Params(students: nat, tutors: nat, chairs: int, help: int)

  datatype StudentPc =
    | Top        // csmc.c:141, about to compare its tutored times with help_num
    | Sit        // :160, about to look for a chair
    | Post       // :177, seated, about to post sem_student
    | Wait       // :180, spinning until tutored
    | Reset      // :187, about to clear its tutorFinishedQueue entry
    | Count      // :192, about to count the session
    | Leave      // :143, about to increment done
    | LastPost   // :148, about to post sem_student for the last time
    | Gone

  /** One student: its program counter and its entries in the shared arrays
      newArrivedStudentQueue, tutorFinishedQueue, priorityQueue and student_priority. */
  datatype Student = Student(pc: StudentPc, arrived: int, finished: int, times: int, order: int, helped: int)

  datatype CoordinatorPc =
    | CTop                 // :282
    | CWait                // :296
    | CScan                // :298
    | CEnd(posted: nat)    // :285, has posted sem_coordinator `posted` times
    | CGone

  datatype TutorPc =
    | TTop                 // :211
    | TWait                // :221
    | TPick                // :223
    | TTeach(s: nat)       // :255, student s popped
    | TPublish(s: nat)     // :266, session counted
    | TGone

  datatype State = State(
    students: seq<Student>, coordinator: CoordinatorPc, tutors: seq<TutorPc>,
    semStudent: nat, semCoordinator: nat,
    done: int, requests: int, sessions: int, tutoring: int, occupied: int)

  datatype Step = StudentMoves(s: nat) | CoordinatorMoves | TutorMoves(t: nat)

  function Init(p: Params): State {
    State(seq(p.students, _ => Student(Top, -1, -1, -1, -1, 0)), CTop, seq(p.tutors, _ => TTop),
          0, 0, 0, 0, 0, 0, 0)
  }

  // ----- the two scans under seatLock

  /** The tutor's running choice: the best (times, order) so far, and whose it is. */
  datatype Choice = Choice(times: int, order: int, who: int)

  function Scan(p: Params, xs: seq<Student>, n: nat): (c: Choice)
    requires n <= |xs|
    ensures -1 <= c.who < n
  {
    if n == 0 then Choice(p.help - 1, p.students * p.help + 1, -1) else
      var c := Scan(p, xs, n - 1);
      var x := xs[n - 1];
      if x.times > -1 && x.times <= c.times && x.order < c.order then Choice(x.times, x.order, n - 1) else c
  }

  function Pick(p: Params, xs: seq<Student>): int {
    Scan(p, xs, |xs|).who
  }

  /** The coordinator moves a new arrival into the priority queue. */
  function Enqueue(x: Student): Student {
    if x.arrived > -1 then x.(times := x.helped, order := x.arrived, arrived := -1) else x
  }

  function Arrived(x: Student): int { if x.arrived > -1 then 1 else 0 }

  // ----- steps

  predicate Enabled(p: Params, s: State, e: Step) {
    match e
    case StudentMoves(i) =>
      && i < |s.students| && s.students[i].pc != Gone
      && (s.students[i].pc == Wait ==> s.students[i].finished != -1)
    case CoordinatorMoves => s.coordinator != CGone && (s.coordinator == CWait ==> s.semStudent > 0)
    case TutorMoves(t) => t < |s.tutors| && s.tutors[t] != TGone && (s.tutors[t] == TWait ==> s.semCoordinator > 0)
  }

  function StudentStep(p: Params, s: State, i: nat): State
    requires Enabled(p, s, StudentMoves(i))
  {
    var x := s.students[i];
    match x.pc
    case Top =>
      s.(students := s.students[i := x.(pc := if x.helped >= p.help then Leave else Sit)])
    case Sit =>
      if s.occupied >= p.chairs then s.(students := s.students[i := x.(pc := Top)])
      else s.(occupied := s.occupied + 1, requests := s.requests + 1,
              students := s.students[i := x.(pc := Post, arrived := s.requests + 1)])
    case Post => s.(semStudent := s.semStudent + 1, students := s.students[i := x.(pc := Wait)])
    case Wait => s.(students := s.students[i := x.(pc := Reset)])
    case Reset => s.(students := s.students[i := x.(pc := Count, finished := -1)])
    case Count => s.(students := s.students[i := x.(pc := Top, helped := x.helped + 1)])
    case Leave => s.(done := s.done + 1, students := s.students[i := x.(pc := LastPost)])
    case LastPost => s.(semStudent := s.semStudent + 1, students := s.students[i := x.(pc := Gone)])
    case Gone => s
  }

  function CoordinatorStep(p: Params, s: State): State
    requires Enabled(p, s, CoordinatorMoves)
  {
    match s.coordinator
    case CTop => s.(coordinator := if s.done == p.students then CEnd(0) else CWait)
    case CWait => s.(coordinator := CScan, semStudent := s.semStudent - 1)
    case CScan =>
      s.(coordinator := CTop,
         students := seq(|s.students|, i requires 0 <= i < |s.students| => Enqueue(s.students[i])),
         semCoordinator := s.semCoordinator + Seated(s.students))
    case CEnd(k) =>
      if k < p.tutors then s.(coordinator := CEnd(k + 1), semCoordinator := s.semCoordinator + 1)
      else s.(coordinator := CGone)
    case CGone => s
  }

  /** How many arrivals the coordinator's scan posts for. */
  function Seated(xs: seq<Student>): nat {
    SumNonNegative(Arrived, xs);
    Sum(Arrived, xs)
  }

  /** Tutor t has the number t + students + 1. */
  function TutorStep(p: Params, s: State, t: nat): State
    requires Enabled(p, s, TutorMoves(t))
  {
    match s.tutors[t]
    case TTop => s.(tutors := s.tutors[t := if s.done == p.students then TGone else TWait])
    case TWait => s.(tutors := s.tutors[t := TPick], semCoordinator := s.semCoordinator - 1)
    case TPick =>
      var i := Pick(p, s.students);
      if i == -1 then s.(tutors := s.tutors[t := TTop])
      else s.(tutors := s.tutors[t := TTeach(i)], occupied := s.occupied - 1, tutoring := s.tutoring + 1,
              students := s.students[i := s.students[i].(times := -1, order := -1)])
    case TTeach(i) =>
      s.(tutors := s.tutors[t := TPublish(i)], tutoring := s.tutoring - 1, sessions := s.sessions + 1)
    case TPublish(i) =>
      if i < |s.students| then
        s.(tutors := s.tutors[t := TTop],
           students := s.students[i := s.students[i].(finished := t + p.students + 1)])
      else s
    case TGone => s
  }

  function Next(p: Params, s: State, e: Step): State
    requires Enabled(p, s, e)
  {
    match e
    case StudentMoves(i) => StudentStep(p, s, i)
    case CoordinatorMoves => CoordinatorStep(p, s)
    case TutorMoves(t) => TutorStep(p, s, t)
  }

  predicate Runs(p: Params, s: State, es: seq<Step>)
    decreases |es|
  {
    es == [] || (Enabled(p, s, es[0]) && Runs(p, Next(p, s, es[0]), es[1..]))
  }

  function After(p: Params, s: State, es: seq<Step>): State
    requires Runs(p, s, es)
    decreases |es|
  {
    if es == [] then s else After(p, Next(p, s, es[0]), es[1..])
  }

  // ----- counting

  predicate InFlight(x: Student) {
    x.pc == Post || x.pc == Wait || x.pc == Reset || x.pc == Count
  }

  function Queued(x: Student): int { if x.times > -1 then 1 else 0 }

  /** Chairs this student takes: newly arrived, or waiting in the priority queue. */
  function Chairs(x: Student): int { Arrived(x) + Queued(x) }

  /** Requests this student has made: one per counted session, and one in flight. */
  function Requests(x: Student): int { x.helped + if InFlight(x) then 1 else 0 }

  /** Sessions that tutors have handed to this student. */
  function Received(x: Student): int { x.helped + if x.finished != -1 || x.pc == Count then 1 else 0 }

  /** 1 if the student's request is with a tutor. */
  function WithTutor(x: Student): int { Requests(x) - Received(x) - Chairs(x) }

  function Finished(x: Student): int { if x.pc == LastPost || x.pc == Gone then 1 else 0 }

  function Teaching(y: TutorPc): int { if y.TTeach? then 1 else 0 }
  function Publishing(y: TutorPc): int { if y.TPublish? then 1 else 0 }
  function Busy(y: TutorPc): int { Teaching(y) + Publishing(y) }
  function Picking(y: TutorPc): int { if y.TPick? then 1 else 0 }
  function PastWait(y: TutorPc): int { if y.TWait? then 0 else 1 }

  predicate Ending(s: State) {
    s.coordinator.CEnd? || s.coordinator.CGone?
  }

  function EndPosts(p: Params, s: State): nat {
    if s.coordinator.CEnd? then s.coordinator.posted else if s.coordinator.CGone? then p.tutors else 0
  }

  // ----- the invariant

  /** Each student is where its array entries say. */
  predicate StudentOk(p: Params, s: State, x: Student) {
    && -1 <= x.arrived && -1 <= x.times && -1 <= x.finished
    && 0 <= x.helped && (x.helped <= p.help || x.helped == 0)
    && (x.pc == Sit || InFlight(x) ==> x.helped < p.help)
    && (x.pc == Leave || x.pc == LastPost || x.pc == Gone ==> x.helped >= p.help)
    && Chairs(x) + (if x.finished != -1 then 1 else 0)
       <= (if x.pc == Post || x.pc == Wait || x.pc == Reset then 1 else 0)
    && (x.pc == Reset ==> x.finished != -1)
    && (x.arrived > -1 ==> 1 <= x.arrived <= s.requests)
    && (x.times > -1 ==> x.times == x.helped && 1 <= x.order <= s.requests)
  }

  /** A busy tutor holds a student that is in no queue and not yet told. */
  predicate TutorOk(s: State, y: TutorPc) {
    (y.TTeach? || y.TPublish?) ==>
      && y.s < |s.students|
      && (s.students[y.s].pc == Post || s.students[y.s].pc == Wait)
      && Chairs(s.students[y.s]) == 0 && s.students[y.s].finished == -1
  }

  predicate Holds(y: TutorPc, i: nat) {
    (y.TTeach? || y.TPublish?) && y.s == i
  }

  ghost predicate Local(p: Params, s: State) {
    && |s.students| == p.students && |s.tutors| == p.tutors
    && (forall i :: 0 <= i < |s.students| ==> StudentOk(p, s, s.students[i]))
    && (forall t :: 0 <= t < |s.tutors| ==> TutorOk(s, s.tutors[t]))
    && (forall t, u, i: nat :: 0 <= t < u < |s.tutors| ==> !(Holds(s.tutors[t], i) && Holds(s.tutors[u], i)))
  }

  /** The program's counters count what they should. */
  ghost predicate Counters(p: Params, s: State) {
    && s.requests == Sum(Requests, s.students)
    && s.occupied == Sum(Chairs, s.students)
    && s.tutoring == Sum(Teaching, s.tutors)
    && s.sessions == Sum(Received, s.students) + Sum(Publishing, s.tutors)
    && Sum(WithTutor, s.students) == Sum(Busy, s.tutors)
    && s.done == Sum(Finished, s.students)
    && (s.occupied <= p.chairs || s.occupied == 0)
  }

  /** sem_coordinator counts the queued students that no woken tutor has claimed; once all
      students are done, it has a wake-up for every tutor that still waits. */
  ghost predicate CoordinatorSemaphore(p: Params, s: State) {
    && (s.coordinator.CEnd? ==> s.coordinator.posted <= p.tutors)
    && (if Ending(s) then s.semCoordinator + Sum(PastWait, s.tutors) >= EndPosts(p, s)
        else Sum(Queued, s.students) == s.semCoordinator + Sum(Picking, s.tutors))
  }

  /** sem_student has a wake-up for every arrival already posted, and for the last departure. */
  ghost predicate StudentSemaphore(p: Params, s: State) {
    && (forall i :: 0 <= i < |s.students| && s.students[i].arrived > -1 && s.students[i].pc != Post ==>
          s.semStudent > 0 || s.coordinator == CScan)
    && (s.done == p.students && s.coordinator == CWait ==>
          s.semStudent > 0 || exists i :: 0 <= i < |s.students| && s.students[i].pc == LastPost)
    && (Ending(s) ==> s.done == p.students)
    && (forall t :: 0 <= t < |s.tutors| ==> s.tutors[t] == TGone ==> s.done == p.students)
  }

  ghost predicate Inv(p: Params, s: State) {
    Local(p, s) && Counters(p, s) && CoordinatorSemaphore(p, s) && StudentSemaphore(p, s)
  }

  lemma InitInv(p: Params)
    ensures Inv(p, Init(p))
  {
    hide Sum;
    var s := Init(p);
    FreshStudents(s.students);
    FreshTutors(s.tutors);
  }

  lemma FreshStudents(xs: seq<Student>)
    requires forall i :: 0 <= i < |xs| ==> xs[i] == Student(Top, -1, -1, -1, -1, 0)
    ensures Sum(Requests, xs) == Sum(Chairs, xs) == Sum(Received, xs) == Sum(WithTutor, xs) == 0
    ensures Sum(Finished, xs) == Sum(Queued, xs) == 0
  {
    hide Sum;
    var x := Student(Top, -1, -1, -1, -1, 0);
    SumFresh(Requests, xs, x);
    SumFresh(Chairs, xs, x);
    SumFresh(Received, xs, x);
    SumFresh(WithTutor, xs, x);
    SumFresh(Finished, xs, x);
    SumFresh(Queued, xs, x);
  }

  lemma FreshTutors(ys: seq<TutorPc>)
    requires forall t :: 0 <= t < |ys| ==> ys[t] == TTop
    ensures Sum(Teaching, ys) == Sum(Publishing, ys) == Sum(Busy, ys) == Sum(Picking, ys) == 0
  {
    hide Sum;
    SumFresh(Teaching, ys, TTop);
    SumFresh(Publishing, ys, TTop);
    SumFresh(Busy, ys, TTop);
    SumFresh(Picking, ys, TTop);
  }

  lemma StudentSums(xs: seq<Student>, i: nat, x: Student)
    requires i < |xs|
    ensures Sum(Requests, xs[i := x]) == Sum(Requests, xs) - Requests(xs[i]) + Requests(x)
    ensures Sum(Chairs, xs[i := x]) == Sum(Chairs, xs) - Chairs(xs[i]) + Chairs(x)
    ensures Sum(Received, xs[i := x]) == Sum(Received, xs) - Received(xs[i]) + Received(x)
    ensures Sum(WithTutor, xs[i := x]) == Sum(WithTutor, xs) - WithTutor(xs[i]) + WithTutor(x)
    ensures Sum(Finished, xs[i := x]) == Sum(Finished, xs) - Finished(xs[i]) + Finished(x)
    ensures Sum(Queued, xs[i := x]) == Sum(Queued, xs) - Queued(xs[i]) + Queued(x)
  {
    SumUpdate(Requests, xs, i, x);
    SumUpdate(Chairs, xs, i, x);
    SumUpdate(Received, xs, i, x);
    SumUpdate(WithTutor, xs, i, x);
    SumUpdate(Finished, xs, i, x);
    SumUpdate(Queued, xs, i, x);
  }

  lemma TutorSums(ys: seq<TutorPc>, t: nat, y: TutorPc)
    requires t < |ys|
    ensures Sum(Teaching, ys[t := y]) == Sum(Teaching, ys) - Teaching(ys[t]) + Teaching(y)
    ensures Sum(Publishing, ys[t := y]) == Sum(Publishing, ys) - Publishing(ys[t]) + Publishing(y)
    ensures Sum(Busy, ys[t := y]) == Sum(Busy, ys) - Busy(ys[t]) + Busy(y)
    ensures Sum(Picking, ys[t := y]) == Sum(Picking, ys) - Picking(ys[t]) + Picking(y)
    ensures Sum(PastWait, ys[t := y]) == Sum(PastWait, ys) - PastWait(ys[t]) + PastWait(y)
  {
    SumUpdate(Teaching, ys, t, y);
    SumUpdate(Publishing, ys, t, y);
    SumUpdate(Busy, ys, t, y);
    SumUpdate(Picking, ys, t, y);
    SumUpdate(PastWait, ys, t, y);
  }

  /** done counts students, so once it reaches student_num they are all past counting. */
  lemma {:induction false} DoneBound(xs: seq<Student>)
    ensures Sum(Finished, xs) <= |xs|
    ensures Sum(Finished, xs) == |xs| ==> forall i :: 0 <= i < |xs| ==> Finished(xs[i]) == 1
  {
    if xs != [] {
      DoneBound(xs[1..]);
      assert forall i :: 0 < i < |xs| ==> xs[i] == xs[1..][i - 1];
    }
  }

  lemma StudentKeepsLocal(p: Params, s: State, i: nat)
    requires Inv(p, s) && Enabled(p, s, StudentMoves(i))
    ensures Local(p, StudentStep(p, s, i))
    ensures Chairs(StudentStep(p, s, i).students[i]) >= 0
  {
    hide Sum, Counters, CoordinatorSemaphore, StudentSemaphore;
    var s' := StudentStep(p, s, i);
    var x, x' := s.students[i], s'.students[i];
    assert s'.students == s.students[i := x'];
    assert StudentOk(p, s, x);
    RequestsCounted(p, s);
    forall j | 0 <= j < |s.students|
      ensures StudentOk(p, s', s'.students[j])
    {
      assert StudentOk(p, s, s.students[j]);
    }
    forall t | 0 <= t < |s.tutors|
      ensures TutorOk(s', s'.tutors[t])
    {
      assert TutorOk(s, s.tutors[t]);
    }
  }

  lemma RequestsCounted(p: Params, s: State)
    requires Inv(p, s)
    ensures 0 <= s.requests && 0 <= s.occupied
  {
    assert forall i :: 0 <= i < |s.students| ==> StudentOk(p, s, s.students[i]);
    SumNonNegative(Chairs, s.students);
    SumNonNegative(Requests, s.students);
  }

  lemma StudentKeepsInv(p: Params, s: State, i: nat)
    requires Inv(p, s) && Enabled(p, s, StudentMoves(i))
    ensures Inv(p, StudentStep(p, s, i))
  {
    hide Sum;
    StudentKeepsLocal(p, s, i);
    var s' := StudentStep(p, s, i);
    var x, x' := s.students[i], s'.students[i];
    RequestsCounted(p, s);
    StudentSums(s.students, i, x');
    DoneBound(s.students);
    assert s'.students == s.students[i := x'];
    assert StudentOk(p, s, x);
    hide Local;
  }

  lemma ScanSums(xs: seq<Student>, xs': seq<Student>)
    requires |xs'| == |xs| && forall i :: 0 <= i < |xs| ==> xs'[i] == Enqueue(xs[i])
    requires forall i :: 0 <= i < |xs| ==> Chairs(xs[i]) <= 1 && -1 <= xs[i].arrived && 0 <= xs[i].helped
    ensures Sum(Requests, xs') == Sum(Requests, xs)
    ensures Sum(Chairs, xs') == Sum(Chairs, xs)
    ensures Sum(Received, xs') == Sum(Received, xs)
    ensures Sum(WithTutor, xs') == Sum(WithTutor, xs)
    ensures Sum(Finished, xs') == Sum(Finished, xs)
    ensures Sum(Queued, xs') == Sum(Queued, xs) + Seated(xs)
  {
    SumSame(Requests, xs', Requests, xs);
    SumSame(Chairs, xs', Chairs, xs);
    SumSame(Received, xs', Received, xs);
    SumSame(WithTutor, xs', WithTutor, xs);
    SumSame(Finished, xs', Finished, xs);
    SumAdd(Queued, Arrived, xs, Queued, xs');
  }

  lemma CoordinatorKeepsInv(p: Params, s: State)
    requires Inv(p, s) && Enabled(p, s, CoordinatorMoves)
    ensures Inv(p, CoordinatorStep(p, s))
  {
    hide Sum;
    var s' := CoordinatorStep(p, s);
    assert forall i :: 0 <= i < |s.students| ==> StudentOk(p, s, s.students[i]);
    if s.coordinator == CScan {
      ScanSums(s.students, s'.students);
      forall i | 0 <= i < |s.students|
        ensures StudentOk(p, s', s'.students[i])
      {
      }
      forall t | 0 <= t < |s.tutors|
        ensures TutorOk(s', s'.tutors[t])
      {
        assert TutorOk(s, s.tutors[t]);
      }
    }
    SumNonNegative(PastWait, s.tutors);
  }

  /** Looking a student up in the tutor's scan. */
  lemma {:induction false} ScanFinds(p: Params, xs: seq<Student>, n: nat)
    requires n <= |xs|
    ensures var c := Scan(p, xs, n);
            && (c.who == -1 ==> c.times == p.help - 1 && c.order == p.students * p.help + 1)
            && (c.who != -1 ==> xs[c.who].times > -1 && c.times == xs[c.who].times && c.order == xs[c.who].order)
    ensures forall i :: (0 <= i < n && -1 < xs[i].times <= p.help - 1 && xs[i].order < p.students * p.help + 1) ==>
              Scan(p, xs, n).who != -1
  {
    if n > 0 {
      ScanFinds(p, xs, n - 1);
    }
  }

  lemma RequestsBound(p: Params, s: State)
    requires Inv(p, s) && 0 <= p.help
    ensures s.requests <= p.students * p.help
  {
    forall i | 0 <= i < |s.students|
      ensures Requests(s.students[i]) <= p.help
    {
      assert StudentOk(p, s, s.students[i]);
    }
    SumAtMost(Requests, s.students, p.help);
    assert p.help * |s.students| == p.students * p.help;
  }

  /** Until the end, a tutor woken by sem_coordinator always finds a student in the queue. */
  lemma WokenTutorFinds(p: Params, s: State, t: nat)
    requires Inv(p, s) && !Ending(s) && t < |s.tutors| && s.tutors[t] == TPick
    ensures 0 <= Pick(p, s.students) < p.students && s.students[Pick(p, s.students)].times > -1
  {
    hide Sum, Scan;
    SumAtLeast(Picking, s.tutors, t);
    var i := SumPositive(Queued, s.students);
    assert StudentOk(p, s, s.students[i]);
    RequestsBound(p, s);
    ScanFinds(p, s.students, |s.students|);
  }

  lemma TutorKeepsLocal(p: Params, s: State, t: nat)
    requires Inv(p, s) && Enabled(p, s, TutorMoves(t))
    ensures Local(p, TutorStep(p, s, t))
  {
    hide Sum, Scan, Counters, CoordinatorSemaphore, StudentSemaphore;
    var s' := TutorStep(p, s, t);
    var y, y' := s.tutors[t], s'.tutors[t];
    assert TutorOk(s, y);
    ScanFinds(p, s.students, |s.students|);
    forall j | 0 <= j < |s.students|
      ensures StudentOk(p, s', s'.students[j])
    {
      assert StudentOk(p, s, s.students[j]);
    }
    forall u | 0 <= u < |s.tutors|
      ensures TutorOk(s', s'.tutors[u])
    {
      assert TutorOk(s, s.tutors[u]);
      if u != t && (y.TPublish? || y.TTeach?) {
        assert !(Holds(s.tutors[t], y.s) && Holds(s.tutors[u], y.s));
      }
    }
    OthersHold(s, s', t);
  }

  lemma TutorKeepsCounts(p: Params, s: State, t: nat)
    requires Inv(p, s) && Enabled(p, s, TutorMoves(t))
    ensures Counters(p, TutorStep(p, s, t)) && CoordinatorSemaphore(p, TutorStep(p, s, t))
  {
    hide Sum, Scan;
    var s' := TutorStep(p, s, t);
    var y, y' := s.tutors[t], s'.tutors[t];
    assert TutorOk(s, y);
    TutorSums(s.tutors, t, y');
    if y == TPick {
      ScanFinds(p, s.students, |s.students|);
      if !Ending(s) {
        WokenTutorFinds(p, s, t);
      }
      var i := Pick(p, s.students);
      if i != -1 {
        assert StudentOk(p, s, s.students[i]);
        assert forall j :: 0 <= j < |s.students| ==> StudentOk(p, s, s.students[j]);
        SumAtLeast(Chairs, s.students, i);
        StudentSums(s.students, i, s'.students[i]);
      }
    } else if y.TPublish? {
      assert StudentOk(p, s, s.students[y.s]);
      StudentSums(s.students, y.s, s'.students[y.s]);
    }
  }

  lemma TutorKeepsInv(p: Params, s: State, t: nat)
    requires Inv(p, s) && Enabled(p, s, TutorMoves(t))
    ensures Inv(p, TutorStep(p, s, t))
  {
    hide Sum, Scan, Counters, CoordinatorSemaphore;
    TutorKeepsLocal(p, s, t);
    TutorKeepsCounts(p, s, t);
    var s' := TutorStep(p, s, t);
    assert TutorOk(s, s.tutors[t]);
    assert forall j :: 0 <= j < |s.students| ==> s'.students[j].pc == s.students[j].pc;
  }

  /** No two tutors come to hold one student. */
  lemma OthersHold(s: State, s': State, t: nat)
    requires t < |s.tutors| == |s'.tutors| && s'.tutors == s.tutors[t := s'.tutors[t]]
    requires forall t, u, i: nat :: 0 <= t < u < |s.tutors| ==> !(Holds(s.tutors[t], i) && Holds(s.tutors[u], i))
    requires forall i: nat :: Holds(s'.tutors[t], i) ==>
               Holds(s.tutors[t], i) || forall u :: 0 <= u < |s.tutors| ==> !Holds(s.tutors[u], i)
    ensures forall t, u, i: nat :: 0 <= t < u < |s'.tutors| ==> !(Holds(s'.tutors[t], i) && Holds(s'.tutors[u], i))
  {
  }

  lemma StepKeepsInv(p: Params, s: State, e: Step)
    requires Inv(p, s) && Enabled(p, s, e)
    ensures Inv(p, Next(p, s, e))
  {
    hide Inv, Enabled, StudentStep, CoordinatorStep, TutorStep;
    match e
    case StudentMoves(i) => StudentKeepsInv(p, s, i);
    case CoordinatorMoves => CoordinatorKeepsInv(p, s);
    case TutorMoves(t) => TutorKeepsInv(p, s, t);
  }

  lemma {:induction false} RunKeepsInv(p: Params, s: State, es: seq<Step>)
    requires Inv(p, s) && Runs(p, s, es)
    ensures Inv(p, After(p, s, es))
    decreases |es|
  {
    hide Inv, Next;
    if es != [] {
      StepKeepsInv(p, s, es[0]);
      RunKeepsInv(p, Next(p, s, es[0]), es[1..]);
    }
  }

  /** A state that the program can be in. */
  ghost predicate Reachable(p: Params, s: State) {
    exists es :: Runs(p, Init(p), es) && After(p, Init(p), es) == s
  }

  lemma ReachableInv(p: Params, s: State)
    requires Reachable(p, s)
    ensures Inv(p, s)
  {
    hide Inv;
    var es :| Runs(p, Init(p), es) && After(p, Init(p), es) == s;
    InitInv(p);
    RunKeepsInv(p, Init(p), es);
  }

  // ----- conservation

  predicate AllGone(s: State) {
    && (forall i :: 0 <= i < |s.students| ==> s.students[i].pc == Gone)
    && s.coordinator == CGone
    && (forall t :: 0 <= t < |s.tutors| ==> s.tutors[t] == TGone)
  }

  function HelpNeeded(p: Params): nat {
    if p.help < 0 then 0 else p.help
  }

  /** Every request is being waited for, taught, or counted; no more students sit than there are
      chairs; and once all students are done, each has had exactly help_num sessions. */
  lemma Conservation(p: Params, s: State)
    requires Reachable(p, s)
    ensures s.requests == s.sessions + s.tutoring + s.occupied
    ensures s.occupied == Sum(Arrived, s.students) + Sum(Queued, s.students)
    ensures 0 <= s.occupied && (s.occupied <= p.chairs || s.occupied == 0)
    ensures forall i :: 0 <= i < |s.students| ==> 0 <= Chairs(s.students[i]) <= 1
    ensures s.done == p.students ==> s.sessions == p.students * HelpNeeded(p) && s.occupied == 0 && s.tutoring == 0
  {
    hide Sum;
    ReachableInv(p, s);
    var xs, ys := s.students, s.tutors;
    assert forall i :: 0 <= i < |xs| ==> StudentOk(p, s, xs[i]);
    SumAdd(WithTutor, Chairs, xs, NotReceived, xs);
    SumAdd(NotReceived, Received, xs, Requests, xs);
    SumAdd(Teaching, Publishing, ys, Busy, ys);
    SumAdd(Arrived, Queued, xs, Chairs, xs);
    SumNonNegative(Chairs, xs);
    if s.done == p.students {
      DoneBound(xs);
      AllServed(p, s);
    }
  }

  function NotReceived(x: Student): int { Requests(x) - Received(x) }

  lemma AllServed(p: Params, s: State)
    requires Inv(p, s) && forall i :: 0 <= i < |s.students| ==> Finished(s.students[i]) == 1
    ensures s.requests == p.students * HelpNeeded(p)
    ensures s.occupied == 0 && s.tutoring == 0 && Sum(Publishing, s.tutors) == 0
    ensures Sum(Received, s.students) == s.requests
  {
    hide Sum;
    var xs, ys := s.students, s.tutors;
    assert forall i :: 0 <= i < |xs| ==> StudentOk(p, s, xs[i]);
    SumZero(Chairs, xs);
    SumZero(WithTutor, xs);
    SumAdd(Teaching, Publishing, ys, Busy, ys);
    SumNonNegative(Teaching, ys);
    SumNonNegative(Publishing, ys);
    SumSame(Received, xs, Requests, xs);
    SumConstant(Requests, xs, HelpNeeded(p));
    assert HelpNeeded(p) * |xs| == p.students * HelpNeeded(p);
  }

  // ----- progress

  function PcWeight(pc: StudentPc): nat {
    match pc
    case Top => 20
    case Sit => 19
    case Post => 8
    case Wait => 3
    case Reset => 2
    case Count => 1
    case Leave => 10
    case LastPost => 9
    case Gone => 0
  }

  /** The steps that this student's remaining sessions can still cause. */
  function StudentWeight(p: Params): Student -> int {
    (x: Student) =>
      100 * (if x.helped < p.help then p.help - x.helped else 0) + PcWeight(x.pc) + 5 * Arrived(x) + 2 * Queued(x)
  }

  function TutorWeight(y: TutorPc): int {
    match y
    case TTop => 1
    case TWait => 0
    case TPick => 2
    case TTeach(_) => 3
    case TPublish(_) => 2
    case TGone => 0
  }

  function CoordinatorWeight(p: Params, c: CoordinatorPc): int {
    match c
    case CTop => 4 * p.tutors + 3
    case CWait => 4 * p.tutors + 2
    case CScan => 4 * p.tutors + 4
    case CEnd(k) => 4 * (p.tutors - k) + 1
    case CGone => 0
  }

  function Measure(p: Params, s: State): int {
    Sum(StudentWeight(p), s.students) + Sum(TutorWeight, s.tutors) + CoordinatorWeight(p, s.coordinator)
    + 3 * s.semStudent + 3 * s.semCoordinator
  }

  lemma MeasureNonNegative(p: Params, s: State)
    requires Inv(p, s)
    ensures 0 <= Measure(p, s)
  {
    SumNonNegative(StudentWeight(p), s.students);
    SumNonNegative(TutorWeight, s.tutors);
  }

  /** Every step but one kind lowers the measure: a student that finds no empty chair goes back. */
  predicate FindsNoChair(p: Params, s: State, e: Step)
    requires Enabled(p, s, e)
  {
    e.StudentMoves? && s.students[e.s].pc == Sit && s.occupied >= p.chairs
  }

  lemma StudentLowers(p: Params, s: State, i: nat)
    requires Inv(p, s) && Enabled(p, s, StudentMoves(i)) && !FindsNoChair(p, s, StudentMoves(i))
    ensures Measure(p, StudentStep(p, s, i)) < Measure(p, s)
  {
    hide Sum, Counters, CoordinatorSemaphore, StudentSemaphore;
    var s' := StudentStep(p, s, i);
    var x' := s'.students[i];
    assert StudentOk(p, s, s.students[i]);
    RequestsCounted(p, s);
    assert s'.students == s.students[i := x'];
    SumUpdate(StudentWeight(p), s.students, i, x');
  }

  lemma TutorLowers(p: Params, s: State, t: nat)
    requires Inv(p, s) && Enabled(p, s, TutorMoves(t))
    ensures Measure(p, TutorStep(p, s, t)) < Measure(p, s)
  {
    hide Sum, Scan, Counters, CoordinatorSemaphore, StudentSemaphore;
    var s' := TutorStep(p, s, t);
    var y := s.tutors[t];
    assert TutorOk(s, y);
    SumUpdate(TutorWeight, s.tutors, t, s'.tutors[t]);
    if y == TPick {
      ScanFinds(p, s.students, |s.students|);
      var i := Pick(p, s.students);
      if i != -1 {
        SumUpdate(StudentWeight(p), s.students, i, s'.students[i]);
      }
    } else if y.TPublish? {
      SumUpdate(StudentWeight(p), s.students, y.s, s'.students[y.s]);
    }
  }

  lemma CoordinatorLowers(p: Params, s: State)
    requires Inv(p, s) && Enabled(p, s, CoordinatorMoves)
    ensures Measure(p, CoordinatorStep(p, s)) < Measure(p, s)
  {
    hide Sum;
    if s.coordinator == CScan {
      assert forall i :: 0 <= i < |s.students| ==> StudentOk(p, s, s.students[i]);
      EnqueueLowers(p, s.students, CoordinatorStep(p, s).students);
    }
  }

  lemma StepLowers(p: Params, s: State, e: Step)
    requires Inv(p, s) && Enabled(p, s, e) && !FindsNoChair(p, s, e)
    ensures Measure(p, Next(p, s, e)) < Measure(p, s)
  {
    hide Inv, Enabled, Measure, StudentStep, TutorStep, CoordinatorStep;
    match e
    case StudentMoves(i) => StudentLowers(p, s, i);
    case CoordinatorMoves => CoordinatorLowers(p, s);
    case TutorMoves(t) => TutorLowers(p, s, t);
  }

  lemma {:induction false} EnqueueLowers(p: Params, xs: seq<Student>, xs': seq<Student>)
    requires |xs'| == |xs| && forall i :: 0 <= i < |xs| ==> xs'[i] == Enqueue(xs[i])
    requires forall i :: 0 <= i < |xs| ==> Chairs(xs[i]) <= 1 && 0 <= xs[i].helped
    ensures Sum(StudentWeight(p), xs') + 3 * Sum(Arrived, xs) <= Sum(StudentWeight(p), xs)
  {
    if xs != [] {
      EnqueueLowers(p, xs[1..], xs'[1..]);
    }
  }

  /** Either nobody needs help, or there are a tutor and a chair to give it. */
  predicate Staffed(p: Params) {
    p.students == 0 || p.help <= 0 || (1 <= p.tutors && 1 <= p.chairs)
  }

  predicate CanAct(p: Params, s: State, e: Step) {
    Enabled(p, s, e) && !FindsNoChair(p, s, e)
  }

  lemma AllWaitOnEnd(p: Params, s: State, t: nat)
    requires Inv(p, s) && s.coordinator == CGone && t < |s.tutors| && s.tutors[t] == TWait
    ensures s.semCoordinator > 0
  {
    PastWaitBound(s.tutors, t);
  }

  lemma {:induction false} PastWaitBound(ys: seq<TutorPc>, t: nat)
    requires t < |ys| && ys[t] == TWait
    ensures Sum(PastWait, ys) <= |ys| - 1
  {
    SumAtMost(PastWait, ys[1..], 1);
    if t > 0 {
      PastWaitBound(ys[1..], t - 1);
    }
  }

  lemma NotDone(p: Params, s: State, i: nat)
    requires Inv(p, s) && i < |s.students| && Finished(s.students[i]) == 0
    ensures s.done < p.students && !Ending(s)
  {
    DoneBound(s.students);
  }

  /** If some student is not gone, and nobody but students can act, a seated student would have
      woken someone; so all chairs are free. */
  lemma QuietChairsFree(p: Params, s: State, i: nat)
    requires Inv(p, s) && Staffed(p) && i < |s.students|
    requires forall j :: 0 <= j < |s.students| ==>
               (s.students[j].pc == Sit || s.students[j].pc == Wait || s.students[j].pc == Gone)
               && (s.students[j].pc == Wait ==> s.students[j].finished == -1)
    requires s.students[i].pc != Gone
    requires s.coordinator == CWait && s.semStudent == 0
    requires forall t :: 0 <= t < |s.tutors| ==> s.tutors[t] == TWait
    requires |s.tutors| > 0 ==> s.semCoordinator == 0
    ensures s.students[i].pc == Sit && s.occupied < p.chairs
  {
    hide Sum;
    var xs, ys := s.students, s.tutors;
    assert forall j :: 0 <= j < |xs| ==> StudentOk(p, s, xs[j]);
    assert StudentOk(p, s, xs[i]);
    SumZero(Picking, ys);
    SumZero(Busy, ys);
    forall j | 0 <= j < |xs|
      ensures Chairs(xs[j]) == 0
    {
      if Queued(xs[j]) == 1 {
        SumAtLeast(Queued, xs, j);
      }
    }
    SumZero(Chairs, xs);
    if xs[i].pc == Wait {
      SumAtLeast(WithTutor, xs, i);
    }
  }

  /** No deadlock: while any thread is alive, one can act and lower the measure. */
  lemma SomeoneActs(p: Params, s: State) returns (e: Step)
    requires Inv(p, s) && Staffed(p) && !AllGone(s)
    ensures CanAct(p, s, e)
  {
    hide Sum, Local, Counters, CoordinatorSemaphore;
    if i: nat :| i < |s.students| && CanAct(p, s, StudentMoves(i)) {
      e := StudentMoves(i);
    } else if t: nat :| t < |s.tutors| && CanAct(p, s, TutorMoves(t)) {
      e := TutorMoves(t);
    } else {
      e := CoordinatorMoves;
      forall j | 0 <= j < |s.students|
        ensures s.students[j].pc == Sit || s.students[j].pc == Wait || s.students[j].pc == Gone
        ensures s.students[j].pc == Wait ==> s.students[j].finished == -1
      {
        assert !CanAct(p, s, StudentMoves(j));
      }
      forall t | 0 <= t < |s.tutors|
        ensures s.tutors[t] == TGone || (s.tutors[t] == TWait && s.semCoordinator == 0)
      {
        assert !CanAct(p, s, TutorMoves(t));
      }
      if i: nat :| i < |s.students| && s.students[i].pc != Gone {
        NotDone(p, s, i);
        if !Enabled(p, s, CoordinatorMoves) {
          assert forall t :: 0 <= t < |s.tutors| ==> s.tutors[t] == TWait;
          assert |s.tutors| > 0 ==> s.tutors[0] == TWait;
          assert !CanAct(p, s, StudentMoves(i));
          QuietChairsFree(p, s, i);
          assert false;
        }
      } else {
        EveryoneGone(p, s);
        if s.coordinator == CGone {
          var t: nat :| t < |s.tutors| && s.tutors[t] != TGone;
          assert s.tutors[t] == TWait;
          AllWaitOnEnd(p, s, t);
        }
      }
    }
  }

  lemma EveryoneGone(p: Params, s: State)
    requires Inv(p, s) && forall i: nat :: i < |s.students| ==> s.students[i].pc == Gone
    ensures s.done == p.students
  {
    SumConstant(Finished, s.students, 1);
  }

  /** From every reachable state the program can run to the end, in at most Measure steps. */
  lemma {:induction false} CanFinish(p: Params, s: State) returns (es: seq<Step>)
    requires Inv(p, s) && Staffed(p)
    ensures Runs(p, s, es) && AllGone(After(p, s, es)) && |es| <= Measure(p, s)
    decreases Measure(p, s)
  {
    hide Inv, Next, AllGone, Staffed, Measure;
    MeasureNonNegative(p, s);
    if AllGone(s) {
      es := [];
    } else {
      var e := SomeoneActs(p, s);
      StepLowers(p, s, e);
      StepKeepsInv(p, s, e);
      MeasureNonNegative(p, Next(p, s, e));
      var rest := CanFinish(p, Next(p, s, e));
      es := [e] + rest;
      assert es[0] == e && es[1..] == rest;
    }
  }

  lemma {:induction false} Unstaffed(p: Params, s: State, es: seq<Step>)
    requires Inv(p, s) && Runs(p, s, es)
    ensures p.tutors == 0 ==> After(p, s, es).sessions == s.sessions
    ensures p.chairs <= 0 ==> After(p, s, es).requests == s.requests
    decreases |es|
  {
    hide Sum;
    if es != [] {
      StepKeepsInv(p, s, es[0]);
      SumNonNegative(Chairs, s.students);
      assert forall i :: 0 <= i < |s.students| ==> StudentOk(p, s, s.students[i]);
      Unstaffed(p, Next(p, s, es[0]), es[1..]);
    }
  }

  /** The program can terminate exactly if nobody needs help or there are a tutor and a chair. */
  lemma FinishesIff(p: Params)
    ensures (exists s :: Reachable(p, s) && AllGone(s)) <==> Staffed(p)
  {
    if Staffed(p) {
      InitInv(p);
      var es := CanFinish(p, Init(p));
      assert Reachable(p, After(p, Init(p), es));
    } else {
      forall s | Reachable(p, s)
        ensures !AllGone(s)
      {
        NeverFinishes(p, s);
      }
    }
  }

  lemma NeverFinishes(p: Params, s: State)
    requires Reachable(p, s) && !Staffed(p)
    ensures !AllGone(s)
  {
    hide Inv, Next, AllGone, Enabled, Sum, Runs, After;
    var es :| Runs(p, Init(p), es) && After(p, Init(p), es) == s;
    InitInv(p);
    Unstaffed(p, Init(p), es);
    Conservation(p, s);
    assert p.students * p.help >= 1 * p.help;
    if AllGone(s) {
      ReachableInv(p, s);
      GoneMeansDone(p, s);
    }
  }

  lemma GoneMeansDone(p: Params, s: State)
    requires Inv(p, s) && AllGone(s)
    ensures s.done == p.students
  {
    EveryoneGone(p, s);
  }

  // ----- whom a tutor picks

  /** The tutor's loop over the priority queue (csmc.c:216-234). */
  method FindStudent(p: Params, xs: seq<Student>) returns (idStudent: int)
    ensures idStudent == Pick(p, xs)
  {
    var tutoredTimes, sequence := p.help - 1, p.students * p.help + 1;
    idStudent := -1;
    var i := 0;
    while i < |xs|
      invariant 0 <= i <= |xs| && Scan(p, xs, i) == Choice(tutoredTimes, sequence, idStudent)
    {
      if xs[i].times > -1 && xs[i].times <= tutoredTimes && xs[i].order < sequence {
        tutoredTimes := xs[i].times;
        sequence := xs[i].order;
        idStudent := i;
      }
      i := i + 1;
    }
  }

  /** The coordinator's loop over the new arrivals (csmc.c:300-312). */
  method QueueArrivals(xs: seq<Student>) returns (ys: seq<Student>, posts: nat)
    ensures |ys| == |xs| && forall i :: 0 <= i < |xs| ==> ys[i] == Enqueue(xs[i])
    ensures posts == Seated(xs)
  {
    ys, posts := xs, 0;
    var i := 0;
    assert xs[..0] == [];
    while i < |xs|
      invariant 0 <= i <= |xs| == |ys|
      invariant forall j :: 0 <= j < |xs| ==> ys[j] == if j < i then Enqueue(xs[j]) else xs[j]
      invariant posts == Sum(Arrived, xs[..i])
    {
      SumConcat(Arrived, xs[..i], [xs[i]]);
      assert xs[..i + 1] == xs[..i] + [xs[i]];
      assert Sum(Arrived, [xs[i]]) == Arrived(xs[i]);
      if ys[i].arrived > -1 {
        ys := ys[i := ys[i].(times := ys[i].helped, order := ys[i].arrived, arrived := -1)];
        posts := posts + 1;
      }
      i := i + 1;
    }
    assert xs[..|xs|] == xs;
  }

  /** No queued student is ahead of this one both in tutored times and in order of arrival. */
  predicate Undominated(xs: seq<Student>, c: Choice, n: nat)
    requires n <= |xs|
  {
    forall j :: 0 <= j < n && xs[j].times > -1 ==> !(xs[j].times <= c.times && xs[j].order < c.order)
  }

  lemma {:induction false} ScanUndominated(p: Params, xs: seq<Student>, n: nat)
    requires n <= |xs|
    ensures Undominated(xs, Scan(p, xs, n), n)
  {
    if n > 0 {
      ScanUndominated(p, xs, n - 1);
    }
  }

  /** What a woken tutor gets, in every reachable state before the end. */
  lemma PickIsUndominated(p: Params, s: State, t: nat)
    requires Reachable(p, s) && !Ending(s) && t < |s.tutors| && s.tutors[t] == TPick
    ensures var i := Pick(p, s.students);
            && 0 <= i < p.students && s.students[i].times > -1
            && forall j :: 0 <= j < |s.students| && s.students[j].times > -1 ==>
                 !(s.students[j].times <= s.students[i].times && s.students[j].order < s.students[i].order)
  {
    ReachableInv(p, s);
    WokenTutorFinds(p, s, t);
    ScanFinds(p, s.students, |s.students|);
    ScanUndominated(p, s.students, |s.students|);
  }

  /** The comment's promise (csmc.c:224-225): least tutored first, earlier arrivals first among equals. */
  predicate First(xs: seq<Student>, m: nat) {
    && m < |xs| && xs[m].times > -1
    && forall j :: 0 <= j < |xs| && j != m && xs[j].times > -1 ==>
         xs[m].times < xs[j].times || (xs[m].times == xs[j].times && xs[m].order < xs[j].order)
  }

  lemma {:induction false} ScanSticks(p: Params, xs: seq<Student>, m: nat, n: nat)
    requires First(xs, m) && m < n <= |xs|
    requires xs[m].times <= p.help - 1 && xs[m].order < p.students * p.help + 1
    ensures Scan(p, xs, n).who == m <==> Scan(p, xs, m).order > xs[m].order
    ensures Scan(p, xs, n).order <= Scan(p, xs, m).order
    decreases n
  {
    if n == m + 1 {
      ScanFinds(p, xs, m);
    } else {
      ScanSticks(p, xs, m, n - 1);
      ScanFinds(p, xs, n - 1);
    }
  }

  /** The scan keeps that promise exactly when the test that it makes at student m (csmc.c:229),
      m's arrival against the best found so far, succeeds. */
  lemma PicksFirstIff(p: Params, xs: seq<Student>, m: nat)
    requires First(xs, m) && xs[m].times <= p.help - 1 && xs[m].order < p.students * p.help + 1
    ensures Pick(p, xs) == m <==> Scan(p, xs, m).order > xs[m].order
  {
    ScanSticks(p, xs, m, |xs|);
  }

  // ----- a run on which the tutor does not keep it

  /** Two students, one tutor and two chairs; each student needs help twice. */
  const TWO: Params := Params(2, 1, 2, 2)

  lemma {:induction false} RunsOneMore(p: Params, s: State, es: seq<Step>, e: Step)
    requires Runs(p, s, es) && Enabled(p, After(p, s, es), e)
    ensures Runs(p, s, es + [e]) && After(p, s, es + [e]) == Next(p, After(p, s, es), e)
    decreases |es|
  {
    hide Enabled, Next;
    if es == [] {
      assert [e][1..] == [];
    } else {
      assert (es + [e])[1..] == es[1..] + [e];
      RunsOneMore(p, Next(p, s, es[0]), es[1..], e);
    }
  }

  lemma ReachNext(p: Params, s: State, e: Step) returns (s': State)
    requires Reachable(p, s) && Enabled(p, s, e)
    ensures s' == Next(p, s, e) && Reachable(p, s')
  {
    hide Enabled, Next, Runs, After;
    var es :| Runs(p, Init(p), es) && After(p, Init(p), es) == s;
    RunsOneMore(p, Init(p), es, e);
    s' := Next(p, s, e);
  }

  /** From the loop's top to the chair, if one is free. */
  lemma StudentSits(p: Params, s: State, i: nat) returns (s': State)
    requires Reachable(p, s) && i < |s.students| && s.students[i].pc == Top
    requires s.students[i].helped < p.help && s.occupied < p.chairs
    ensures Reachable(p, s')
    ensures s' == s.(occupied := s.occupied + 1, requests := s.requests + 1, semStudent := s.semStudent + 1,
                     students := s.students[i := s.students[i].(pc := Wait, arrived := s.requests + 1)])
  {
    hide Reachable;
    s' := ReachNext(p, s, StudentMoves(i));
    s' := ReachNext(p, s', StudentMoves(i));
    s' := ReachNext(p, s', StudentMoves(i));
  }

  /** From the wait to the loop's top, after the tutor has answered. */
  lemma StudentCounts(p: Params, s: State, i: nat) returns (s': State)
    requires Reachable(p, s) && i < |s.students| && s.students[i].pc == Wait && s.students[i].finished != -1
    ensures Reachable(p, s')
    ensures s' == s.(students := s.students[i := s.students[i].(pc := Top, finished := -1,
              helped := s.students[i].helped + 1)])
  {
    hide Reachable;
    s' := ReachNext(p, s, StudentMoves(i));
    s' := ReachNext(p, s', StudentMoves(i));
    s' := ReachNext(p, s', StudentMoves(i));
  }

  /** Once around the coordinator's loop. */
  lemma CoordinatorQueues(p: Params, s: State) returns (s': State)
    requires Reachable(p, s) && s.coordinator == CTop && s.done != p.students && s.semStudent > 0
    ensures Reachable(p, s')
    ensures s' == s.(semStudent := s.semStudent - 1, semCoordinator := s.semCoordinator + Seated(s.students),
                     students := seq(|s.students|, i requires 0 <= i < |s.students| => Enqueue(s.students[i])))
  {
    hide Reachable, Seated;
    s' := ReachNext(p, s, CoordinatorMoves);
    s' := ReachNext(p, s', CoordinatorMoves);
    s' := ReachNext(p, s', CoordinatorMoves);
  }

  /** To the tutor's choice. */
  lemma TutorWakes(p: Params, s: State) returns (s': State)
    requires Reachable(p, s) && s.tutors == [TTop] && s.done != p.students && s.semCoordinator > 0
    ensures Reachable(p, s') && s' == s.(tutors := [TPick], semCoordinator := s.semCoordinator - 1)
  {
    hide Reachable;
    s' := ReachNext(p, s, TutorMoves(0));
    s' := ReachNext(p, s', TutorMoves(0));
  }

  /** From the choice to the tutor's loop's top. */
  lemma TutorServes(p: Params, s: State) returns (s': State)
    requires Reachable(p, s) && s.tutors == [TPick] && 0 <= Pick(p, s.students) < |s.students|
    ensures Reachable(p, s')
    ensures var i := Pick(p, s.students);
            s' == s.(tutors := [TTop], occupied := s.occupied - 1, sessions := s.sessions + 1,
                     students := s.students[i := s.students[i].(times := -1, order := -1, finished := p.students + 1)])
  {
    hide Reachable, Pick;
    s' := ReachNext(p, s, TutorMoves(0));
    s' := ReachNext(p, s', TutorMoves(0));
    s' := ReachNext(p, s', TutorMoves(0));
  }

  /** Student 0 has been helped once and sits again, student 1 comes after it for the first time; both
      are queued and the tutor is about to choose. */
  lemma BothQueued() returns (s: State)
    ensures Reachable(TWO, s) && s.tutors == [TPick] && !Ending(s)
    ensures s.students == [Student(Wait, -1, -1, 1, 2, 1), Student(Wait, -1, -1, 0, 3, 0)]
  {
    var idle := Student(Top, -1, -1, -1, -1, 0);
    assert Runs(TWO, Init(TWO), []) && After(TWO, Init(TWO), []) == Init(TWO);
    hide Reachable, Pick, Seated;
    s := StudentSits(TWO, Init(TWO), 0);
    s := QueueOne(s);
    s := TutorWakes(TWO, s);
    OnlyOne(TWO, s.students);
    s := TutorServes(TWO, s);
    s := StudentCounts(TWO, s, 0);
    assert s.students == [Student(Top, -1, -1, -1, -1, 1), idle];
    s := StudentSits(TWO, s, 0);
    s := StudentSits(TWO, s, 1);
    s := QueueOne(s);
    s := TutorWakes(TWO, s);
  }

  lemma QueueOne(s: State) returns (s': State)
    requires Reachable(TWO, s) && s.coordinator == CTop && s.done == 0 && s.semStudent > 0 && |s.students| == 2
    requires s.students[0].arrived > -1
    ensures Reachable(TWO, s') && s'.semCoordinator > s.semCoordinator
    ensures s' == s.(semStudent := s.semStudent - 1, semCoordinator := s'.semCoordinator,
                     students := [Enqueue(s.students[0]), Enqueue(s.students[1])])
  {
    s' := CoordinatorQueues(TWO, s);
    SumNonNegative(Arrived, s.students);
    SumAtLeast(Arrived, s.students, 0);
  }

  lemma OnlyOne(p: Params, xs: seq<Student>)
    requires |xs| == 2 && -1 < xs[0].times <= p.help - 1 && xs[0].order < p.students * p.help + 1 && xs[1].times == -1
    ensures Pick(p, xs) == 0
  {
    assert Scan(p, xs, 1).who == 0;
    assert Scan(p, xs, 2).who == 0;
  }

  /** The tutor does not always keep the promise: on some run it chooses a student that has been
      tutored once and came earlier over one that has never been tutored. */
  lemma PromiseFails()
    ensures exists s :: Reachable(TWO, s) && s.tutors == [TPick] && !Ending(s)
                        && First(s.students, 1) && Pick(TWO, s.students) == 0
  {
    var s := BothQueued();
    hide Reachable;
    var xs := s.students;
    assert Scan(TWO, xs, 0) == Choice(1, 5, -1);
    assert Scan(TWO, xs, 1) == Choice(1, 2, 0);
    assert Scan(TWO, xs, 2) == Choice(1, 2, 0);
  }
}
