/** A death test as two processes joined by a pipe: the child executes the
    statement and reports when it should have died but did not, the parent
    reads the report and reaps the child. Every interleaving is a sequence of
    the steps below. */
module DeathTestProtocol {
  import opened CStrings

  datatype AbortReason = TestEncounteredReturnStatement | TestThrewException | TestDidNotDie
  datatype Outcome = InProgress | Died | Lived | Returned | Threw

  const DEATH_TEST_LIVED: char := 'L'
  const DEATH_TEST_RETURNED: char := 'R'
  const DEATH_TEST_THREW: char := 'T'
  const DEATH_TEST_INTERNAL_ERROR: char := 'I'

  /** The status byte Abort writes. */
  function StatusByte(reason: AbortReason): char {
    match reason
    case TestDidNotDie => DEATH_TEST_LIVED
    case TestThrewException => DEATH_TEST_THREW
    case TestEncounteredReturnStatement => DEATH_TEST_RETURNED
  }

  /** How the parent takes a status byte; None means it ends the program. */
  function Interpret(flag: char): Option<Outcome> {
    if flag == DEATH_TEST_RETURNED then Some(Returned)
    else if flag == DEATH_TEST_THREW then Some(Threw)
    else if flag == DEATH_TEST_LIVED then Some(Lived)
    else None
  }

  function OutcomeOf(reason: AbortReason): Outcome {
    match reason
    case TestDidNotDie => Lived
    case TestThrewException => Threw
    case TestEncounteredReturnStatement => Returned
  }

  // ---------------------------------------------------------------------
  // Steps
  // ---------------------------------------------------------------------

  /** What a child has written: nothing, a status byte, or an internal error. */
  datatype Report = Silent | Aborted(reason: AbortReason) | Internal

  datatype Child =
    | Executing
    | Aborting(reason: AbortReason)   // in Abort, before its write
    | Exiting                         // has written, about to _exit
    | Gone(status: int)

  datatype Parent =
    | Spawned                         // still holds the write end
    | Reading
    | Waiting                         // has closed the read end
    | Done(exitStatus: int)
    | Fatal

  datatype State = State(child: Child, report: Report, pipe: string, parent: Parent, outcome: Outcome)

  datatype Step =
    | StatementDies(status: int)      // the statement ends the process
    | StatementEnds(reason: AbortReason)
    | InternalError(message: string)  // DeathTestAbort in an exec-style child
    | WriteStatus
    | ChildExits(status: int)         // _exit(1), or killed on the way
    | CloseWriteEnd
    | Interrupted                     // read returns -1 with EINTR
    | ReadStatus
    | Reap

  const INITIAL: State := State(Executing, Silent, "", Spawned, InProgress)

  /** A read returns as soon as there is data or no writer is left. */
  predicate ReadReturns(s: State) {
    s.pipe != "" || s.child.Gone?
  }

  predicate Enabled(s: State, step: Step) {
    match step
    case StatementDies(_) => s.child.Executing?
    case StatementEnds(_) => s.child.Executing?
    case InternalError(_) => s.child.Executing?
    case WriteStatus => s.child.Aborting?
    case ChildExits(_) => s.child.Exiting? || s.child.Aborting?
    case CloseWriteEnd => s.parent.Spawned?
    case Interrupted => s.parent.Reading?
    case ReadStatus => s.parent.Reading? && ReadReturns(s)
    case Reap => s.parent.Waiting? && s.child.Gone?
  }

  function Apply(s: State, step: Step): State
    requires Enabled(s, step)
  {
    match step
    case StatementDies(status) => s.(child := Gone(status))
    case StatementEnds(reason) => s.(child := Aborting(reason))
    case InternalError(message) =>
      s.(child := Exiting, report := Internal, pipe := s.pipe + [DEATH_TEST_INTERNAL_ERROR] + message)
    case WriteStatus =>
      s.(child := Exiting, report := Aborted(s.child.reason), pipe := s.pipe + [StatusByte(s.child.reason)])
    case ChildExits(status) => s.(child := Gone(status))
    case CloseWriteEnd => s.(parent := Reading)
    case Interrupted => s
    case ReadStatus =>
      if s.pipe == "" then s.(parent := Waiting, outcome := Died)
      else if Interpret(s.pipe[0]).None? then s.(parent := Fatal, pipe := s.pipe[1..])
      else s.(parent := Waiting, outcome := Interpret(s.pipe[0]).value, pipe := s.pipe[1..])
    case Reap => s.(parent := Done(s.child.status))
  }

  // The state reached by taking the steps one after the other, if each is enabled.
  function Reached(steps: seq<Step>): Option<State> {
    if steps == [] then Some(INITIAL)
    else
      match Reached(steps[..|steps| - 1])
      case None => None
      case Some(s) => if Enabled(s, steps[|steps| - 1]) then Some(Apply(s, steps[|steps| - 1])) else None
  }

  predicate IsRun(steps: seq<Step>) { Reached(steps).Some? }

  /** The state a run leads to. */
  function After(steps: seq<Step>): State
    requires IsRun(steps)
  {
    Reached(steps).value
  }

  // ---------------------------------------------------------------------
  // What every step keeps
  // ---------------------------------------------------------------------

  function Written(r: Report): Option<char> {
    match r
    case Silent => None
    case Aborted(reason) => Some(StatusByte(reason))
    case Internal => Some(DEATH_TEST_INTERNAL_ERROR)
  }

  predicate Inv(s: State) {
    // a report is written once, on the way out
    && (s.child.Executing? || s.child.Aborting? ==> s.report.Silent?)
    && (s.child.Exiting? ==> !s.report.Silent?)
    // until the parent reads, the pipe holds what was reported
    && (s.parent.Spawned? || s.parent.Reading? ==>
          && s.outcome.InProgress?
          && (s.report.Silent? <==> s.pipe == "")
          && (s.pipe != "" ==> Written(s.report) == Some(s.pipe[0])))
    // after that, the outcome is decided by it
    && (s.parent.Waiting? || s.parent.Done? ==> s.outcome == Verdict(s.report) && !s.report.Internal?)
    && (s.outcome.Died? ==> s.child.Gone?)
    && (s.parent.Fatal? ==> s.outcome.InProgress? && s.report.Internal?)
    && (s.parent.Done? ==> s.child == Gone(s.parent.exitStatus))
  }

  function Verdict(r: Report): Outcome {
    match r
    case Silent => Died
    case Aborted(reason) => OutcomeOf(reason)
    case Internal => InProgress
  }

  lemma StepKeepsInv(s: State, step: Step)
    requires Inv(s) && Enabled(s, step)
    ensures Inv(Apply(s, step))
  {
  }

  lemma {:induction false} RunKeepsInv(steps: seq<Step>)
    requires IsRun(steps)
    ensures Inv(After(steps))
  {
    if steps != [] {
      RunKeepsInv(steps[..|steps| - 1]);
      StepKeepsInv(After(steps[..|steps| - 1]), steps[|steps| - 1]);
    }
  }

  /** In every interleaving, once the parent has decided, its outcome is LIVED,
      THREW or RETURNED exactly when the child reported that reason, and DIED
      exactly when the child is gone without having written anything. */
  lemma OutcomeExact(steps: seq<Step>)
    requires IsRun(steps)
    requires After(steps).parent.Waiting? || After(steps).parent.Done?
    ensures var s := After(steps);
            && (s.outcome.Lived? <==> s.report == Aborted(TestDidNotDie))
            && (s.outcome.Threw? <==> s.report == Aborted(TestThrewException))
            && (s.outcome.Returned? <==> s.report == Aborted(TestEncounteredReturnStatement))
            && (s.outcome.Died? <==> s.child.Gone? && s.report.Silent?)
            && !s.outcome.InProgress?
  {
    RunKeepsInv(steps);
  }

  /** A parent that has read has given up exactly when the child reported an
      internal error. */
  lemma FatalExact(steps: seq<Step>)
    requires IsRun(steps)
    requires !After(steps).parent.Spawned? && !After(steps).parent.Reading?
    ensures After(steps).parent.Fatal? <==> After(steps).report.Internal?
  {
    RunKeepsInv(steps);
  }

  // ---------------------------------------------------------------------
  // Nothing gets stuck, and everything ends
  // ---------------------------------------------------------------------

  predicate IsProgress(step: Step) { !step.Interrupted? }

  /** As long as the parent has neither finished nor given up, some step other
      than an interrupted read can be taken, and one that does not need the
      statement to end unless the child is still executing it. */
  lemma NeverStuck(steps: seq<Step>)
    requires IsRun(steps) && !After(steps).parent.Done? && !After(steps).parent.Fatal?
    ensures exists step :: IsProgress(step) && Enabled(After(steps), step)
    ensures !After(steps).child.Executing? ==>
              exists step :: IsProgress(step) && Enabled(After(steps), step) &&
                             !step.StatementDies? && !step.StatementEnds? && !step.InternalError?
  {
    var s := After(steps);
    if s.parent.Spawned? {
      assert IsProgress(CloseWriteEnd) && Enabled(s, CloseWriteEnd);
    } else if s.child.Executing? {
      assert IsProgress(StatementDies(0)) && Enabled(s, StatementDies(0));
    } else if !s.child.Gone? {
      assert IsProgress(ChildExits(1)) && Enabled(s, ChildExits(1));
    } else if s.parent.Reading? {
      assert IsProgress(ReadStatus) && Enabled(s, ReadStatus);
    } else {
      assert IsProgress(Reap) && Enabled(s, Reap);
    }
  }

  function StepsLeft(s: State): nat {
    (match s.child
     case Executing => 3
     case Aborting(_) => 2
     case Exiting => 1
     case Gone(_) => 0) +
    (match s.parent
     case Spawned => 3
     case Reading => 2
     case Waiting => 1
     case Done(_) => 0
     case Fatal => 0)
  }

  function Progress(steps: seq<Step>): nat {
    if steps == [] then 0
    else Progress(steps[..|steps| - 1]) + if IsProgress(steps[|steps| - 1]) then 1 else 0
  }

  /** No run has more than six steps besides interrupted reads. */
  lemma {:induction false} RunsAreShort(steps: seq<Step>)
    requires IsRun(steps)
    ensures Progress(steps) + StepsLeft(After(steps)) <= 6
  {
    if steps != [] {
      RunsAreShort(steps[..|steps| - 1]);
    }
  }

  // ---------------------------------------------------------------------
  // What the steps say
  // ---------------------------------------------------------------------

  predicate EndsStatement(step: Step) { step.StatementDies? || step.StatementEnds? || step.InternalError? }

  /** The child's process ends with that status. */
  predicate EndsProcess(step: Step, status: int) { step == StatementDies(status) || step == ChildExits(status) }

  // How the child and its report follow from the steps taken.
  ghost predicate ToldBy(steps: seq<Step>, s: State) {
    && (s.child.Executing? <==> forall x | x in steps :: !EndsStatement(x))
    && (forall x, y | x in steps && y in steps && EndsStatement(x) && EndsStatement(y) :: x == y)
    && (s.child.Aborting? ==> StatementEnds(s.child.reason) in steps)
    && (s.report.Aborted? ==> StatementEnds(s.report.reason) in steps)
    && (s.report.Aborted? <==> WriteStatus in steps)
    && (s.report.Internal? <==> exists x | x in steps :: x.InternalError?)
    && (s.child.Gone? ==> exists x | x in steps :: EndsProcess(x, s.child.status))
    && (forall x, status | x in steps && EndsProcess(x, status) :: s.child == Gone(status))
  }

  lemma {:induction false} RunIsTold(steps: seq<Step>)
    requires IsRun(steps)
    ensures ToldBy(steps, After(steps))
  {
    if steps != [] {
      var before, last := steps[..|steps| - 1], steps[|steps| - 1];
      RunIsTold(before);
      RunKeepsInv(before);
      StepIsTold(before, After(before), last);
      assert steps == before + [last];
    }
  }

  lemma StepIsTold(before: seq<Step>, s: State, last: Step)
    requires ToldBy(before, s) && Inv(s) && Enabled(s, last)
    ensures ToldBy(before + [last], Apply(s, last))
  {
    var steps, s' := before + [last], Apply(s, last);
    assert forall x :: x in steps <==> x in before || x == last;
    assert last in steps;
    if s'.child.Gone? && !EndsProcess(last, s'.child.status) {
      var x :| x in before && EndsProcess(x, s'.child.status);
      assert x in steps;
    }
    if s.report.Internal? {
      var x :| x in before && x.InternalError?;
      assert x in steps;
    }
  }

  /** In every interleaving, the outcome a parent has decided on is told by the
      steps the child took: LIVED, THREW or RETURNED exactly when its statement
      ended that way and it wrote its status byte, DIED exactly when its process
      ended without it. */
  lemma OutcomeBySteps(steps: seq<Step>)
    requires IsRun(steps)
    requires After(steps).parent.Waiting? || After(steps).parent.Done?
    ensures var s := After(steps);
            && (s.outcome.Lived? <==> StatementEnds(TestDidNotDie) in steps && WriteStatus in steps)
            && (s.outcome.Threw? <==> StatementEnds(TestThrewException) in steps && WriteStatus in steps)
            && (s.outcome.Returned? <==> StatementEnds(TestEncounteredReturnStatement) in steps && WriteStatus in steps)
            && (s.outcome.Died? <==>
                  WriteStatus !in steps && exists x, status :: x in steps && EndsProcess(x, status))
  {
    OutcomeExact(steps);
    RunIsTold(steps);
    RunKeepsInv(steps);
  }

  /** The parent gives up exactly when the child reported an internal error. */
  lemma FatalBySteps(steps: seq<Step>)
    requires IsRun(steps)
    requires !After(steps).parent.Spawned? && !After(steps).parent.Reading?
    ensures After(steps).parent.Fatal? <==> exists x | x in steps :: x.InternalError?
  {
    FatalExact(steps);
    RunIsTold(steps);
  }

  /** The bytes themselves. */
  lemma StatusBytes(reason: AbortReason, flag: char)
    ensures StatusByte(TestDidNotDie) == 'L' && Interpret('L') == Some(Lived)
    ensures StatusByte(TestThrewException) == 'T' && Interpret('T') == Some(Threw)
    ensures StatusByte(TestEncounteredReturnStatement) == 'R' && Interpret('R') == Some(Returned)
    ensures Interpret(flag).Some? <==> flag in {'L', 'T', 'R'}
  {
  }

  // ---------------------------------------------------------------------
  // The verdict
  // ---------------------------------------------------------------------

  /** A finished death test has died, with an exit status the predicate accepts,
      exactly when the child never wrote its status byte and its process ended
      with such a status. */
  lemma PassedExact(steps: seq<Step>, statusOk: int -> bool)
    requires IsRun(steps) && After(steps).parent.Done?
    ensures var s := After(steps);
            s.outcome.Died? && statusOk(s.parent.exitStatus) <==>
            WriteStatus !in steps && exists x, status :: x in steps && EndsProcess(x, status) && statusOk(status)
  {
    RunIsTold(steps);
    RunKeepsInv(steps);
    OutcomeBySteps(steps);
  }
}
