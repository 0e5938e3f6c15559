/** Running a verification task with retries. */
module RetryTask {

  const OK_ERRORS := ["Contract source code already verified"]

  const FATAL_ERRORS := [
    "The address provided as argument contains a contract, but its bytecode",
    "Daily limit of 100 source code submissions reached",
    "has no bytecode. Is the contract deployed to this network",
    "The constructor for"
  ]

  const UNABLE_VERIFY_ERROR := "Fail - Unable to verify"

  predicate PartAt(message: string, part: string, i: nat) {
    i + |part| <= |message| && message[i..i + |part|] == part
  }

  predicate Includes(message: string, part: string) {
    exists i: nat | i <= |message| :: PartAt(message, part, i)
  }

  datatype Kind = OkResponse | FatalError | Retryable(unableToVerify: bool)

  /** How the handler takes a message: the tests are made in this order. */
  function KindOf(message: string): Kind {
    if exists part <- OK_ERRORS :: Includes(message, part) then OkResponse
    else if exists part <- FATAL_ERRORS :: Includes(message, part) then FatalError
    else Retryable(Includes(message, UNABLE_VERIFY_ERROR))
  }

  /** What the task and the clean-up do in one round. */
  datatype Attempt = Completed | Failed(message: string)

  datatype Outcome = Outcome(run: Attempt, cleanup: Attempt)

  /** The same, with the messages as the handler takes them. */
  datatype Result = Returns | Throws(kind: Kind)

  datatype Round = Round(run: Result, cleanup: Result)

  function Taken(attempt: Attempt): Result {
    match attempt
    case Completed => Returns
    case Failed(message) => Throws(KindOf(message))
  }

  function RoundsOf(outcomes: nat -> Outcome): nat -> Round {
    (k: nat) => Round(Taken(outcomes(k).run), Taken(outcomes(k).cleanup))
  }

  datatype Event = Run(relatedSources: bool) | Cleanup(done: bool)

  datatype Ending = Running | Verified | AlreadyVerified | Fatal | Exhausted

  // ---------- one round ----------

  datatype State = State(times: int, relatedSources: bool, log: seq<Event>, ending: Ending)

  /** The `catch` block: `counter` is one less for the next round. */
  function Caught(times: int, relatedSources: bool, log: seq<Event>, kind: Kind): State {
    match kind
    case OkResponse => State(times - 1, relatedSources, log, AlreadyVerified)
    case FatalError => State(times - 1, relatedSources, log, Fatal)
    case Retryable(unable) => State(times - 1, relatedSources && !unable, log, Running)
  }

  function Step(st: State, round: Round): State {
    if st.ending != Running then st
    else if st.times >= 1 then
      var related := st.relatedSources && st.times != 1;
      var log := st.log + [Run(related)];
      match round.run
      case Throws(kind) => Caught(st.times, related, log, kind)
      case Returns =>
        match round.cleanup
        case Throws(kind) => Caught(st.times, related, log + [Cleanup(false)], kind)
        case Returns => State(st.times - 1, related, log + [Cleanup(true)], Verified)
    else
      match round.cleanup
      case Throws(kind) => Caught(st.times, st.relatedSources, st.log + [Cleanup(false)], kind)
      case Returns => State(st.times - 1, st.relatedSources, st.log + [Cleanup(true)], Exhausted)
  }

  /** What a round appends to the log: the run if one is made, and the clean-up if it is reached. */
  function Events(st: State, round: Round): seq<Event> {
    var run := if st.times >= 1 then [Run(st.relatedSources && st.times != 1)] else [];
    if st.times >= 1 && round.run.Throws? then run else run + [Cleanup(round.cleanup.Returns?)]
  }

  /** What a round throws, if anything: the task's own message, or that of the clean-up. */
  function Thrown(outcome: Outcome, times: int): Attempt {
    if times >= 1 && outcome.run.Failed? then outcome.run else outcome.cleanup
  }

  lemma StepCases(st: State, outcome: Outcome)
    requires st.ending == Running
    ensures var round := Round(Taken(outcome.run), Taken(outcome.cleanup));
      var related, log := st.relatedSources && st.times != 1, st.log + Events(st, round);
      Step(st, round) == match Thrown(outcome, st.times)
                         case Completed => State(st.times - 1, related, log, if st.times >= 1 then Verified else Exhausted)
                         case Failed(message) => Caught(st.times, related, log, KindOf(message))
  {
  }

  function After(st: State, rounds: nat -> Round, from: nat, n: nat): State
    decreases n
  {
    if n == 0 then st else After(Step(st, rounds(from)), rounds, from + 1, n - 1)
  }

  // ---------- the recursion ----------

  class Verification {
    var relatedSources: bool
    var log: seq<Event>

    constructor ()
      ensures relatedSources && log == []
    {
      relatedSources := true;
      log := [];
    }
  }

  /** The `try` block, and what it throws. */
  method TryOnce(params: Verification, times: int, outcome: Outcome) returns (thrown: Attempt)
    modifies params
    ensures thrown == Thrown(outcome, times)
    ensures params.relatedSources == (old(params.relatedSources) && times != 1)
    ensures params.log == old(params.log) + Events(State(times, old(params.relatedSources), old(params.log), Running),
                                                   Round(Taken(outcome.run), Taken(outcome.cleanup)))
  {
    thrown := Completed;
    if times > 1 {
      params.log := params.log + [Run(params.relatedSources)];
      thrown := outcome.run;
    } else if times == 1 {
      params.relatedSources := false;
      params.log := params.log + [Run(params.relatedSources)];
      thrown := outcome.run;
    }
    if thrown.Completed? {
      params.log := params.log + [Cleanup(outcome.cleanup.Completed?)];
      thrown := outcome.cleanup;
    }
  }

  /** `runTaskWithRetry`, in round `from` of the task. It is asked to end: k rounds later the task
      does not throw an ordinary message. */
  method RunTaskWithRetry(params: Verification, times: int, outcomes: nat -> Outcome, from: nat, ghost k: nat)
    returns (ending: Ending, ghost steps: nat)
    requires !GoesOnAt(times, RoundsOf(outcomes), from, k)
    modifies params
    ensures ending != Running && steps <= k + 1
    ensures var end := After(State(times, old(params.relatedSources), old(params.log), Running),
                             RoundsOf(outcomes), from, steps);
      end.ending == ending && end.relatedSources == params.relatedSources && end.log == params.log
    decreases k
  {
    ghost var start, rounds := State(times, params.relatedSources, params.log, Running), RoundsOf(outcomes);
    var thrown := TryOnce(params, times, outcomes(from));
    StepCases(start, outcomes(from));
    OneStep(start, rounds, from);
    if thrown.Completed? {
      ending, steps := if times >= 1 then Verified else Exhausted, 1;
      return;
    }
    match KindOf(thrown.message)
    case OkResponse =>
      ending, steps := AlreadyVerified, 1;
    case FatalError =>
      ending, steps := Fatal, 1;
    case Retryable(unableToVerify) =>
      if unableToVerify { params.relatedSources := false; }
      assert GoesOnAt(times, rounds, from, 0);
      OneFurther(times, rounds, from, k - 1);
      ending, steps := RunTaskWithRetry(params, times - 1, outcomes, from + 1, k - 1);
      steps := steps + 1;
  }

  lemma OneStep(st: State, rounds: nat -> Round, from: nat)
    ensures After(st, rounds, from, 1) == Step(st, rounds(from))
  {
    assert After(Step(st, rounds(from)), rounds, from + 1, 0) == Step(st, rounds(from));
  }

  // ---------- over every sequence of outcomes ----------

  function Positive(times: int): nat { if times > 0 then times else 0 }

  function Runs(log: seq<Event>): nat {
    if log == [] then 0 else Runs(log[..|log| - 1]) + if log[|log| - 1].Run? then 1 else 0
  }

  /** How often the clean-up was done without failing. */
  function CleanedUp(log: seq<Event>): nat {
    if log == [] then 0 else CleanedUp(log[..|log| - 1]) + if log[|log| - 1] == Cleanup(true) then 1 else 0
  }

  /** The number of the last run was made without the related sources. */
  predicate LastRunUploadsAll(log: seq<Event>) {
    log != [] && if log[|log| - 1].Run? then !log[|log| - 1].relatedSources else LastRunUploadsAll(log[..|log| - 1])
  }

  /** No run is made with the related sources after one without. */
  ghost predicate NeverRestored(log: seq<Event>) {
    forall i, j | 0 <= i < j < |log| && log[i].Run? && log[j].Run? :: log[j].relatedSources ==> log[i].relatedSources
  }

  ghost predicate OnlyRunWithSources(log: seq<Event>) {
    forall e <- log | e.Run? :: e.relatedSources
  }

  /** What the log says about the related sources while the parameter still has them, or not. */
  ghost predicate SourcesSound(log: seq<Event>, relatedSources: bool) {
    (relatedSources ==> OnlyRunWithSources(log)) && NeverRestored(log)
  }

  /** What every round keeps, for a task started with `allowed` attempts. */
  ghost predicate Sound(allowed: nat, st: State) {
    && SourcesSound(st.log, st.relatedSources)
    && Counts(allowed, st.times, st.log, st.ending)
  }

  ghost predicate Counts(allowed: nat, times: int, log: seq<Event>, ending: Ending) {
    && Runs(log) <= allowed
    && (ending == Running ==> Runs(log) == allowed - Positive(times))
    && (Runs(log) == allowed > 0 ==> LastRunUploadsAll(log))
    && CleanedUp(log) == if ending == Verified || ending == Exhausted then 1 else 0
  }

  lemma AppendEvent(log: seq<Event>, e: Event)
    ensures Runs(log + [e]) == Runs(log) + if e.Run? then 1 else 0
    ensures CleanedUp(log + [e]) == CleanedUp(log) + if e == Cleanup(true) then 1 else 0
    ensures LastRunUploadsAll(log + [e]) == if e.Run? then !e.relatedSources else LastRunUploadsAll(log)
  {
    assert (log + [e])[..|log|] == log;
  }

  lemma AppendRun(log: seq<Event>, relatedSources: bool, flag: bool)
    requires SourcesSound(log, relatedSources) && (flag ==> relatedSources)
    ensures SourcesSound(log + [Run(flag)], flag)
  {
    var more := log + [Run(flag)];
    forall i, j | 0 <= i < j < |more| && more[i].Run? && more[j].Run?
      ensures more[j].relatedSources ==> more[i].relatedSources
    {
      assert more[i] in log;
      if j < |log| { assert log[i] == more[i] && log[j] == more[j]; }
    }
  }

  lemma AppendCleanup(log: seq<Event>, relatedSources: bool, done: bool)
    requires SourcesSound(log, relatedSources)
    ensures SourcesSound(log + [Cleanup(done)], relatedSources)
  {
    var more := log + [Cleanup(done)];
    forall i, j | 0 <= i < j < |more| && more[i].Run? && more[j].Run?
      ensures more[j].relatedSources ==> more[i].relatedSources
    {
      assert log[i] == more[i] && log[j] == more[j];
    }
  }

  lemma StepKeepsSources(st: State, round: Round)
    requires SourcesSound(st.log, st.relatedSources)
    ensures SourcesSound(Step(st, round).log, Step(st, round).relatedSources)
  {
    if st.ending == Running {
      var flag := st.relatedSources && st.times != 1;
      if st.times >= 1 {
        AppendRun(st.log, st.relatedSources, flag);
        AppendCleanup(st.log + [Run(flag)], flag, round.cleanup.Returns?);
      } else {
        AppendCleanup(st.log, st.relatedSources, round.cleanup.Returns?);
      }
    }
  }

  lemma StepAppends(st: State, round: Round)
    requires st.ending == Running
    ensures Step(st, round).log == st.log + Events(st, round) && Step(st, round).times == st.times - 1
    ensures (Step(st, round).ending == Verified || Step(st, round).ending == Exhausted)
            <==> Cleanup(true) in Events(st, round)
  {
  }

  lemma AppendEvents(st: State, round: Round)
    ensures var events := Events(st, round);
      && Runs(st.log + events) == Runs(st.log) + (if st.times >= 1 then 1 else 0)
      && CleanedUp(st.log + events) == CleanedUp(st.log) + (if Cleanup(true) in events then 1 else 0)
      && LastRunUploadsAll(st.log + events)
         == if st.times >= 1 then !(st.relatedSources && st.times != 1) else LastRunUploadsAll(st.log)
  {
    var run, cleanup := Run(st.relatedSources && st.times != 1), Cleanup(round.cleanup.Returns?);
    if st.times >= 1 {
      AppendEvent(st.log, run);
      if round.run.Returns? {
        AppendEvent(st.log + [run], cleanup);
        assert st.log + Events(st, round) == st.log + [run] + [cleanup];
      } else {
        assert Events(st, round) == [run];
      }
    } else {
      AppendEvent(st.log, cleanup);
      assert Events(st, round) == [cleanup];
    }
  }

  lemma StepCounts(allowed: nat, st: State, round: Round)
    requires Counts(allowed, st.times, st.log, st.ending)
    ensures Counts(allowed, Step(st, round).times, Step(st, round).log, Step(st, round).ending)
  {
    if st.ending == Running {
      StepAppends(st, round);
      AppendEvents(st, round);
    }
  }

  lemma StepIsSound(allowed: nat, st: State, round: Round)
    requires Sound(allowed, st)
    ensures Sound(allowed, Step(st, round))
  {
    StepKeepsSources(st, round);
    StepCounts(allowed, st, round);
  }

  lemma {:induction false} RoundsAreSound(allowed: nat, st: State, rounds: nat -> Round, from: nat, n: nat)
    requires Sound(allowed, st)
    ensures Sound(allowed, After(st, rounds, from, n))
    decreases n
  {
    if n == 0 {
    } else {
      StepIsSound(allowed, st, rounds(from));
      RoundsAreSound(allowed, Step(st, rounds(from)), rounds, from + 1, n - 1);
    }
  }

  /** For every sequence of outcomes and after any number of rounds: at most `times` runs are made;
      the related sources are never restored, and the last permitted run is made without them; the
      clean-up succeeds at most once, exactly once if the task was verified or the attempts are used up. */
  lemma EveryRunOfTheTask(times: int, rounds: nat -> Round, n: nat)
    ensures var st := After(State(times, true, [], Running), rounds, 0, n);
      && Runs(st.log) <= Positive(times)
      && NeverRestored(st.log)
      && (Runs(st.log) == times > 0 ==> LastRunUploadsAll(st.log))
      && CleanedUp(st.log) == (if st.ending == Verified || st.ending == Exhausted then 1 else 0)
  {
    RoundsAreSound(Positive(times), State(times, true, [], Running), rounds, 0, n);
  }

  // ---------- messages and related sources ----------

  /** The message has `part` somewhere inside. */
  ghost predicate Mentions(message: string, part: string) {
    exists before: string, after: string :: message == before + part + after
  }

  lemma IncludesIsMentions(message: string, part: string)
    ensures Includes(message, part) <==> Mentions(message, part)
  {
    if Includes(message, part) {
      var i: nat :| i <= |message| && PartAt(message, part, i);
      assert message == message[..i] + part + message[i + |part|..];
    }
    if Mentions(message, part) {
      var before: string, after: string :| message == before + part + after;
      assert message[|before|..|before| + |part|] == part;
      assert PartAt(message, part, |before|);
    }
  }

  ghost predicate MentionsSome(message: string, parts: seq<string>) {
    exists part <- parts :: Mentions(message, part)
  }

  /** The fine parts are looked for before the fatal ones, and these before the part about sources. */
  lemma KindOfMessage(message: string)
    ensures KindOf(message).OkResponse? <==> MentionsSome(message, OK_ERRORS)
    ensures KindOf(message).FatalError? <==> !MentionsSome(message, OK_ERRORS) && MentionsSome(message, FATAL_ERRORS)
    ensures KindOf(message).Retryable? ==> (KindOf(message).unableToVerify <==> Mentions(message, UNABLE_VERIFY_ERROR))
  {
    forall part: string ensures Includes(message, part) <==> Mentions(message, part) {
      IncludesIsMentions(message, part);
    }
  }

  /** How a round of a running task ends it, in terms of the message thrown. */
  lemma RoundEnds(st: State, outcome: Outcome)
    requires st.ending == Running
    ensures var next := Step(st, Round(Taken(outcome.run), Taken(outcome.cleanup))).ending;
      match Thrown(outcome, st.times)
      case Completed => next == if st.times >= 1 then Verified else Exhausted
      case Failed(message) =>
        && (next == AlreadyVerified <==> MentionsSome(message, OK_ERRORS))
        && (next == Fatal <==> !MentionsSome(message, OK_ERRORS) && MentionsSome(message, FATAL_ERRORS))
        && (next == Running <==> !MentionsSome(message, OK_ERRORS) && !MentionsSome(message, FATAL_ERRORS))
  {
    match Thrown(outcome, st.times)
    case Completed =>
    case Failed(message) => KindOfMessage(message);
  }

  /** The parts a message is searched for. */
  lemma PartsLookedFor(message: string)
    ensures MentionsSome(message, OK_ERRORS) <==> Mentions(message, "Contract source code already verified")
    ensures MentionsSome(message, FATAL_ERRORS) <==>
            || Mentions(message, "The address provided as argument contains a contract, but its bytecode")
            || Mentions(message, "Daily limit of 100 source code submissions reached")
            || Mentions(message, "has no bytecode. Is the contract deployed to this network")
            || Mentions(message, "The constructor for")
    ensures UNABLE_VERIFY_ERROR == "Fail - Unable to verify"
  {
    assert OK_ERRORS[0] in OK_ERRORS;
    assert FATAL_ERRORS[0] in FATAL_ERRORS && FATAL_ERRORS[1] in FATAL_ERRORS;
    assert FATAL_ERRORS[2] in FATAL_ERRORS && FATAL_ERRORS[3] in FATAL_ERRORS;
  }

  /** What a round of a running task logs: a run while attempts are left, and the clean-up unless the
      run failed. */
  lemma RoundIsLogged(st: State, outcome: Outcome)
    requires st.ending == Running
    ensures var next := Step(st, Round(Taken(outcome.run), Taken(outcome.cleanup)));
      && next.times == st.times - 1
      && (st.times >= 1 && outcome.run.Failed? ==>
            next.log == st.log + [Run(st.relatedSources && st.times > 1)])
      && (st.times >= 1 && outcome.run.Completed? ==>
            next.log == st.log + [Run(st.relatedSources && st.times > 1), Cleanup(outcome.cleanup.Completed?)])
      && (st.times < 1 ==> next.log == st.log + [Cleanup(outcome.cleanup.Completed?)])
  {
    StepAppends(st, Round(Taken(outcome.run), Taken(outcome.cleanup)));
  }

  /** The round throws a message that the sources could not be verified. */
  ghost predicate UnableToVerify(outcome: Outcome) {
    && Thrown(outcome, 1).Failed?
    && Mentions(Thrown(outcome, 1).message, UNABLE_VERIFY_ERROR)
  }

  /** For every run in the log, in order, whether it had the related sources. */
  function RunFlags(log: seq<Event>): seq<bool> {
    if log == [] then []
    else RunFlags(log[..|log| - 1]) + if log[|log| - 1].Run? then [log[|log| - 1].relatedSources] else []
  }

  lemma AppendFlag(log: seq<Event>, e: Event)
    ensures RunFlags(log + [e]) == RunFlags(log) + if e.Run? then [e.relatedSources] else []
  {
    assert (log + [e])[..|log|] == log;
  }

  /** What one round adds to the flags. */
  lemma StepFlags(st: State, round: Round)
    requires st.ending == Running
    ensures RunFlags(Step(st, round).log)
            == RunFlags(st.log) + if st.times >= 1 then [st.relatedSources && st.times != 1] else []
  {
    var run, cleanup := Run(st.relatedSources && st.times != 1), Cleanup(round.cleanup.Returns?);
    StepAppends(st, round);
    AppendFlag(st.log, run);
    AppendFlag(st.log + [run], cleanup);
    AppendFlag(st.log, cleanup);
    assert Events(st, round) == [run] || Events(st, round) == [cleanup]
           || st.log + Events(st, round) == st.log + [run] + [cleanup];
  }

  /** Whether the sources are kept for the next round. */
  lemma StepSources(st: State, outcome: Outcome)
    requires st.ending == Running && st.times > 1
    requires Step(st, Round(Taken(outcome.run), Taken(outcome.cleanup))).ending == Running
    ensures Step(st, Round(Taken(outcome.run), Taken(outcome.cleanup))).relatedSources
            <==> st.relatedSources && !UnableToVerify(outcome)
  {
    KindOfMessage(Thrown(outcome, 1).message);
  }

  lemma StepFlagsGrow(st: State, round: Round)
    requires st.ending == Running
    ensures RunFlags(st.log) <= RunFlags(Step(st, round).log)
    ensures |RunFlags(Step(st, round).log)| + Positive(Step(st, round).times) == |RunFlags(st.log)| + Positive(st.times)
  {
    StepFlags(st, round);
    StepAppends(st, round);
  }

  /** Only attempts that are left add flags. */
  lemma {:induction false} FlagsGrow(st: State, rounds: nat -> Round, from: nat, n: nat)
    ensures RunFlags(st.log) <= RunFlags(After(st, rounds, from, n).log)
    ensures |RunFlags(After(st, rounds, from, n).log)| <= |RunFlags(st.log)| + Positive(st.times)
    decreases n
  {
    if n == 0 {
    } else if st.ending != Running {
      EndedStays(st, rounds, from, n);
    } else {
      var next := Step(st, rounds(from));
      StepFlagsGrow(st, rounds(from));
      FlagsGrow(next, rounds, from + 1, n - 1);
      PrefixOfPrefix(RunFlags(st.log), RunFlags(next.log), RunFlags(After(next, rounds, from + 1, n - 1).log));
    }
  }

  lemma PrefixOfPrefix(a: seq<bool>, b: seq<bool>, c: seq<bool>)
    requires a <= b <= c
    ensures a <= c
  {
  }

  /** No round in the range threw the message that the sources could not be verified. */
  ghost predicate AbleBetween(outcomes: nat -> Outcome, from: nat, to: nat) {
    forall j: nat | from <= j < to :: !UnableToVerify(outcomes(j))
  }

  lemma FirstAndLaterRounds(outcomes: nat -> Outcome, from: nat, to: nat)
    requires from < to
    ensures AbleBetween(outcomes, from, to) <==> !UnableToVerify(outcomes(from)) && AbleBetween(outcomes, from + 1, to)
  {
  }

  lemma FirstRunFlag(st: State, rounds: nat -> Round, from: nat, n: nat)
    requires st.ending == Running && |RunFlags(st.log)| < |RunFlags(After(st, rounds, from, n).log)|
    ensures RunFlags(After(st, rounds, from, n).log)[|RunFlags(st.log)|] == (st.relatedSources && st.times != 1)
  {
    FlagsGrow(st, rounds, from, n);
    StepFlags(st, rounds(from));
    FlagsGrow(Step(st, rounds(from)), rounds, from + 1, n - 1);
  }

  /** If run k + 1 is still to come, the next round goes on, and from there it is run k. */
  lemma MoreRunsToCome(st: State, outcomes: nat -> Outcome, from: nat, n: nat, k: nat) returns (next: State)
    requires st.ending == Running && k > 0
    requires |RunFlags(st.log)| + k < |RunFlags(After(st, RoundsOf(outcomes), from, n).log)|
    ensures n > 0 && next.ending == Running && next.times == st.times - 1 && st.times > 1
    ensures |RunFlags(next.log)| == |RunFlags(st.log)| + 1
    ensures After(next, RoundsOf(outcomes), from + 1, n - 1) == After(st, RoundsOf(outcomes), from, n)
    ensures next.relatedSources <==> st.relatedSources && !UnableToVerify(outcomes(from))
  {
    var rounds := RoundsOf(outcomes);
    next := Step(st, rounds(from));
    FlagsGrow(st, rounds, from, n);
    StepFlags(st, rounds(from));
    StepAppends(st, rounds(from));
    if next.ending != Running { EndedStays(next, rounds, from + 1, n - 1); }
    StepSources(st, outcomes(from));
  }

  lemma {:induction false} LaterRunFlag(st: State, outcomes: nat -> Outcome, from: nat, n: nat, k: nat, flags: seq<bool>)
    requires st.ending == Running && flags == RunFlags(After(st, RoundsOf(outcomes), from, n).log)
    requires |RunFlags(st.log)| + k < |flags|
    ensures flags[|RunFlags(st.log)| + k]
            == (st.relatedSources && k != st.times - 1 && AbleBetween(outcomes, from, from + k))
    decreases n
  {
    if k == 0 {
      FirstRunFlag(st, RoundsOf(outcomes), from, n);
    } else {
      var next := MoreRunsToCome(st, outcomes, from, n, k);
      FirstAndLaterRounds(outcomes, from, from + k);
      LaterRunFlag(next, outcomes, from + 1, n - 1, k - 1, flags);
    }
  }

  /** Over every sequence of outcomes: run number k of the task has the related sources if and only if
      the task had them at the start, it is not the last permitted run, and no earlier round threw the
      message that they could not be verified. */
  lemma RunHasSourcesIff(times: int, relatedSources: bool, outcomes: nat -> Outcome, n: nat, k: nat)
    requires k < |RunFlags(After(State(times, relatedSources, [], Running), RoundsOf(outcomes), 0, n).log)|
    ensures RunFlags(After(State(times, relatedSources, [], Running), RoundsOf(outcomes), 0, n).log)[k]
            <==> relatedSources && k != times - 1 && forall j: nat | j < k :: !UnableToVerify(outcomes(j))
  {
    var st := State(times, relatedSources, [], Running);
    LaterRunFlag(st, outcomes, 0, n, k, RunFlags(After(st, RoundsOf(outcomes), 0, n).log));
  }

  // ---------- when it ends ----------

  /** The round throws a message that is neither fine nor fatal. */
  predicate GoesOn(times: int, round: Round) {
    if times >= 1 && round.run.Throws? then round.run.kind.Retryable?
    else round.cleanup.Throws? && round.cleanup.kind.Retryable?
  }

  predicate GoesOnAt(times: int, rounds: nat -> Round, from: nat, j: nat) {
    GoesOn(times - j, rounds(from + j))
  }

  ghost predicate AllGoOn(times: int, rounds: nat -> Round, from: nat, n: nat) {
    forall j: nat | j < n :: GoesOnAt(times, rounds, from, j)
  }

  function EndingOf(times: int, round: Round): Ending {
    var thrown := if times >= 1 && round.run.Throws? then round.run else round.cleanup;
    match thrown
    case Returns => if times >= 1 then Verified else Exhausted
    case Throws(kind) =>
      match kind
      case OkResponse => AlreadyVerified
      case FatalError => Fatal
      case Retryable(_) => Running
  }

  lemma StepEnds(st: State, round: Round)
    requires st.ending == Running
    ensures Step(st, round).ending == EndingOf(st.times, round)
    ensures Step(st, round).ending == Running <==> GoesOn(st.times, round)
    ensures Step(st, round).times == st.times - 1
  {
  }

  lemma {:induction false} EndedStays(st: State, rounds: nat -> Round, from: nat, n: nat)
    requires st.ending != Running
    ensures After(st, rounds, from, n) == st
    decreases n
  {
    if n == 0 {
    } else {
      EndedStays(st, rounds, from + 1, n - 1);
    }
  }

  lemma OneFurther(times: int, rounds: nat -> Round, from: nat, j: nat)
    ensures GoesOnAt(times - 1, rounds, from + 1, j) <==> GoesOnAt(times, rounds, from, j + 1)
  {
    assert times - 1 - j == times - (j + 1) && from + 1 + j == from + (j + 1);
  }

  lemma FirstAndRest(times: int, rounds: nat -> Round, from: nat, n: nat)
    requires n > 0
    ensures AllGoOn(times, rounds, from, n)
            <==> GoesOn(times, rounds(from)) && AllGoOn(times - 1, rounds, from + 1, n - 1)
  {
    assert GoesOnAt(times, rounds, from, 0) <==> GoesOn(times, rounds(from));
    if AllGoOn(times, rounds, from, n) {
      var times', from' := times - 1, from + 1;
      forall j: nat | j < n - 1 ensures GoesOnAt(times', rounds, from', j) {
        OneFurther(times, rounds, from, j);
      }
    }
    if AllGoOn(times - 1, rounds, from + 1, n - 1) && GoesOn(times, rounds(from)) {
      forall j: nat | j < n ensures GoesOnAt(times, rounds, from, j) {
        if j > 0 { OneFurther(times, rounds, from, j - 1); }
      }
    }
  }

  /** The task is still running exactly while every round so far went on. */
  lemma {:induction false} RunningWhileRoundsGoOn(st: State, rounds: nat -> Round, from: nat, n: nat)
    requires st.ending == Running
    ensures After(st, rounds, from, n).ending == Running <==> AllGoOn(st.times, rounds, from, n)
    ensures After(st, rounds, from, n).ending == Running ==> After(st, rounds, from, n).times == st.times - n
    decreases n
  {
    if n == 0 {
    } else {
      var next := Step(st, rounds(from));
      StepEnds(st, rounds(from));
      FirstAndRest(st.times, rounds, from, n);
      if next.ending == Running {
        RunningWhileRoundsGoOn(next, rounds, from + 1, n - 1);
      } else {
        EndedStays(next, rounds, from + 1, n - 1);
      }
    }
  }

  function EndingAt(times: int, rounds: nat -> Round, from: nat, k: nat): Ending {
    EndingOf(times - k, rounds(from + k))
  }

  lemma EndingOneFurther(times: int, rounds: nat -> Round, from: nat, k: nat)
    ensures EndingAt(times - 1, rounds, from + 1, k) == EndingAt(times, rounds, from, k + 1)
  {
    assert times - 1 - k == times - (k + 1) && from + 1 + k == from + (k + 1);
  }

  /** The first round that does not go on decides how the task ends, and nothing happens after it. */
  lemma {:induction false} FirstStopDecides(st: State, rounds: nat -> Round, from: nat, k: nat, n: nat)
    requires st.ending == Running && k < n
    requires AllGoOn(st.times, rounds, from, k) && !GoesOnAt(st.times, rounds, from, k)
    ensures After(st, rounds, from, n).ending == EndingAt(st.times, rounds, from, k) != Running
    ensures After(st, rounds, from, n) == After(st, rounds, from, k + 1)
    decreases k
  {
    var next := Step(st, rounds(from));
    StepEnds(st, rounds(from));
    if k == 0 {
      assert from + 0 == from;
      EndedStays(next, rounds, from + 1, n - 1);
      OneStep(st, rounds, from);
    } else {
      FirstAndRest(st.times, rounds, from, k);
      OneFurther(st.times, rounds, from, k - 1);
      EndingOneFurther(st.times, rounds, from, k - 1);
      FirstStopDecides(next, rounds, from + 1, k - 1, n - 1);
    }
  }

  /** From round `limit` on the clean-up does not fail any more. */
  ghost predicate CleansUpFrom(rounds: nat -> Round, limit: nat) {
    forall k: nat :: k >= limit ==> rounds(k).cleanup.Returns?
  }

  /** If the clean-up stops failing, the task ends one round after both its attempts and the failures
      are used up; without failures, after `times` + 1 rounds at most. */
  lemma EndsInTime(st: State, rounds: nat -> Round, limit: nat, n: nat)
    requires CleansUpFrom(rounds, limit) && n > limit && n > st.times
    ensures After(st, rounds, 0, n).ending != Running
  {
    if st.ending != Running {
      EndedStays(st, rounds, 0, n);
    } else {
      RunningWhileRoundsGoOn(st, rounds, 0, n);
      assert rounds(0 + (n - 1)).cleanup.Returns?;
      assert !GoesOnAt(st.times, rounds, 0, n - 1);
    }
  }

  /** Otherwise it need not end: a clean-up that always fails with an ordinary message is retried
      forever once the attempts are used up. */
  lemma FailingCleanupNeverEnds(st: State, rounds: nat -> Round, n: nat)
    requires st.ending == Running && st.times <= 0
    requires forall k: nat :: rounds(k).cleanup.Throws? && rounds(k).cleanup.kind.Retryable?
    ensures After(st, rounds, 0, n).ending == Running
  {
    RunningWhileRoundsGoOn(st, rounds, 0, n);
    forall j: nat | j < n ensures GoesOnAt(st.times, rounds, 0, j) {
      assert rounds(0 + j).cleanup.Throws?;
    }
  }
}
