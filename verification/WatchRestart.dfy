/** The restarts of the watch mode: compiler events, file changes, exits and cleanup interleaving with a
    serialized chain of restart jobs. packages/cli/start/start-project.ts */
module WatchRestart {
  import opened Options

  /** A process of the application: the job that started it and the number of events before its start. */
  datatype Process = Process(alive: bool, aborted: bool, job: nat, born: nat)

  /** Where the running restart job is: between two awaits nothing else runs. */
  datatype Phase = Idle | AwaitingProcess | AwaitingHook

  datatype Event =
    | Started
    | Success
    | CompileErrors
    | FileChange
    | Cleanup
    | Exit(process: nat)
    | JobBegins
    | ProcessGone
    | JobEnds

  /** `jobs` counts the restarts ever chained, `finished` the ones that ran to their end. */
  datatype State = State(
    compiled: bool, cleanedUp: bool, processes: seq<Process>, current: Option<nat>,
    jobs: nat, finished: nat, phase: Phase, clock: nat)

  const INITIAL := State(false, false, [], None, 0, 0, Idle, 0)

  predicate Gone(s: State) {
    s.current.None? || s.current.value >= |s.processes| || !s.processes[s.current.value].alive
  }

  predicate Enabled(s: State, e: Event) {
    match e
    case Exit(i) => i < |s.processes| && s.processes[i].alive
    case JobBegins => s.phase == Idle && s.finished < s.jobs
    case ProcessGone => s.phase == AwaitingProcess && Gone(s)
    case JobEnds => s.phase == AwaitingHook
    case _ => true
  }

  /** The abort of the last started process, if it is still there to receive it. */
  function Abort(s: State): State {
    if Gone(s) then s
    else s.(processes := s.processes[s.current.value := s.processes[s.current.value].(aborted := true)])
  }

  function Start(s: State): State {
    s.(processes := s.processes + [Process(true, false, s.finished, s.clock)], current := Some(|s.processes|))
  }

  function Next(s: State, e: Event): State {
    var t :=
      match e
      case Started => s.(compiled := false)
      case Success => s.(compiled := true, jobs := s.jobs + 1)
      case CompileErrors => Abort(s.(compiled := false))
      case FileChange => if s.compiled then s.(jobs := s.jobs + 1) else s
      case Cleanup => if s.cleanedUp then s else Abort(s.(cleanedUp := true))
      case Exit(i) =>
        if i < |s.processes| then s.(processes := s.processes[i := s.processes[i].(alive := false)]) else s
      case JobBegins => Abort(s).(phase := AwaitingProcess)
      case ProcessGone => s.(phase := AwaitingHook)
      case JobEnds => (if s.compiled && !s.cleanedUp then Start(s) else s).(phase := Idle, finished := s.finished + 1);
    t.(clock := s.clock + 1)
  }

  class Watcher {
    var compiled: bool
    var cleanedUp: bool
    var processes: seq<Process>
    var running: Option<nat>
    var jobs: nat
    var finished: nat
    var phase: Phase
    var clock: nat
    /** What happened so far. */
    ghost var events: seq<Event>

    ghost function Now(): State
      reads this
    {
      State(compiled, cleanedUp, processes, running, jobs, finished, phase, clock)
    }

    /** The watcher is where the run of its events leads. */
    ghost predicate Valid()
      reads this
    {
      Run(events) && Now() == After(events)
    }

    constructor ()
      ensures Valid() && events == [] && Now() == INITIAL
    {
      events := [];
      compiled, cleanedUp, processes, running, jobs, finished, phase, clock := false, false, [], None, 0, 0, Idle, 0;
    }

    method AbortRunning()
      modifies this`processes
      ensures Now() == Abort(old(Now()))
    {
      if running.Some? && running.value < |processes| && processes[running.value].alive {
        processes := processes[running.value := processes[running.value].(aborted := true)];
      }
    }

    /** Chains one more restart after the ones before it. */
    method Restart()
      modifies this`jobs
      ensures jobs == old(jobs) + 1
    {
      jobs := jobs + 1;
    }

    method OnStarted()
      requires Valid()
      modifies this
      ensures Now() == Next(old(Now()), Started)
      ensures Valid() && events == old(events) + [Started]
    {
      hide After, Run;
      OneMore(events, Started);
      compiled := false;
      clock, events := clock + 1, events + [Started];
    }

    method OnSuccess()
      requires Valid()
      modifies this
      ensures Now() == Next(old(Now()), Success)
      ensures Valid() && events == old(events) + [Success]
    {
      hide After, Run;
      OneMore(events, Success);
      compiled := true;
      Restart();
      clock, events := clock + 1, events + [Success];
    }

    method OnCompileErrors()
      requires Valid()
      modifies this
      ensures Now() == Next(old(Now()), CompileErrors)
      ensures Valid() && events == old(events) + [CompileErrors]
    {
      hide After, Run;
      OneMore(events, CompileErrors);
      compiled := false;
      AbortRunning();
      clock, events := clock + 1, events + [CompileErrors];
    }

    method OnFileChange()
      requires Valid()
      modifies this
      ensures Now() == Next(old(Now()), FileChange)
      ensures Valid() && events == old(events) + [FileChange]
    {
      hide After, Run;
      OneMore(events, FileChange);
      if compiled {
        Restart();
      }
      clock, events := clock + 1, events + [FileChange];
    }

    /** Done only once, however the process ends. */
    method OnCleanup()
      requires Valid()
      modifies this
      ensures Now() == Next(old(Now()), Cleanup)
      ensures Valid() && events == old(events) + [Cleanup]
    {
      hide After, Run;
      OneMore(events, Cleanup);
      if !cleanedUp {
        cleanedUp := true;
        AbortRunning();
      }
      clock, events := clock + 1, events + [Cleanup];
    }

    /** The first segment of a job, up to the await of the previous process. */
    method BeginJob()
      requires Valid() && phase == Idle && finished < jobs
      modifies this
      ensures Now() == Next(old(Now()), JobBegins)
      ensures Valid() && events == old(events) + [JobBegins]
    {
      hide After, Run;
      OneMore(events, JobBegins);
      AbortRunning();
      phase := AwaitingProcess;
      clock, events := clock + 1, events + [JobBegins];
    }

    /** The second segment, up to the await of the hook. */
    method ResumeJob()
      requires Valid() && phase == AwaitingProcess && forall i :: 0 <= i < |processes| ==> !processes[i].alive
      modifies this
      ensures Now() == Next(old(Now()), ProcessGone)
      ensures Valid() && events == old(events) + [ProcessGone]
    {
      hide After, Run;
      OneMore(events, ProcessGone);
      phase := AwaitingHook;
      clock, events := clock + 1, events + [ProcessGone];
    }

    /** The last segment: a compilation started or failed meanwhile keeps the process from starting. */
    method EndJob()
      requires Valid() && phase == AwaitingHook
      modifies this
      ensures Now() == Next(old(Now()), JobEnds)
      ensures Valid() && events == old(events) + [JobEnds]
    {
      hide After, Run;
      OneMore(events, JobEnds);
      if compiled && !cleanedUp {
        running := Some(|processes|);
        processes := processes + [Process(true, false, finished, clock)];
      }
      phase := Idle;
      finished := finished + 1;
      clock, events := clock + 1, events + [JobEnds];
    }

    method OnExit(i: nat)
      requires Valid() && i < |processes| && processes[i].alive
      modifies this
      ensures Now() == Next(old(Now()), Exit(i))
      ensures Valid() && events == old(events) + [Exit(i)]
    {
      hide After, Run;
      OneMore(events, Exit(i));
      processes := processes[i := processes[i].(alive := false)];
      clock, events := clock + 1, events + [Exit(i)];
    }

    /** Whatever its handlers did, the watcher has at most one process alive, the last started one, and
        none that is not aborted after errors or cleanup. It has chained a restart for each event that
        asks for one. */
    lemma ProcessesNow()
      requires Valid()
      ensures forall i :: 0 <= i < |processes| && processes[i].alive ==> running == Some(i)
      ensures forall i :: 0 <= i < |processes| ==> FollowsEvents(events, i, processes[i])
      ensures Broken(events) || cleanedUp ==>
                forall i :: 0 <= i < |processes| && processes[i].alive ==> processes[i].aborted
      ensures jobs == |Asking(events)| && finished == |Ends(events)|
    {
      hide FollowsEvents, After, Asking, Ends;
      AtMostOneAlive(events);
      LiveOnesAreAborted(events);
      FlagsFollowEvents(events);
      RestartsAreAsked(events);
      forall i | 0 <= i < |processes| ensures FollowsEvents(events, i, processes[i]) {
        ProcessesFollowEvents(events, i);
      }
    }
  }

  // Runs

  ghost function After(events: seq<Event>): State {
    if events == [] then INITIAL else Next(After(events[..|events| - 1]), events[|events| - 1])
  }

  /** Every event of a run is one that can happen when it does. */
  ghost predicate Run(events: seq<Event>) {
    events == [] ||
    (Run(events[..|events| - 1]) && Enabled(After(events[..|events| - 1]), events[|events| - 1]))
  }

  lemma OneMore(events: seq<Event>, e: Event)
    ensures Run(events + [e]) <==> Run(events) && Enabled(After(events), e)
    ensures After(events + [e]) == Next(After(events), e)
  {
    assert (events + [e])[..|events|] == events;
  }

  ghost predicate CompileEvent(e: Event) {
    e.Started? || e.Success? || e.CompileErrors?
  }

  ghost function LastCompile(events: seq<Event>): Option<Event> {
    if events == [] then None
    else if CompileEvent(events[|events| - 1]) then Some(events[|events| - 1])
    else LastCompile(events[..|events| - 1])
  }

  /** Errors were reported, and no success since. */
  ghost predicate Broken(events: seq<Event>) {
    events != [] && !events[|events| - 1].Success? &&
    (events[|events| - 1].CompileErrors? || Broken(events[..|events| - 1]))
  }

  ghost predicate OneAlive(s: State) {
    forall i :: 0 <= i < |s.processes| && s.processes[i].alive ==> s.current == Some(i)
  }

  ghost predicate AllAborted(s: State) {
    forall i :: 0 <= i < |s.processes| && s.processes[i].alive ==> s.processes[i].aborted
  }

  ghost predicate Sound(s: State) {
    && OneAlive(s)
    && (s.current.Some? ==> s.current.value < |s.processes|)
    && s.finished <= s.jobs && (s.phase != Idle ==> s.finished < s.jobs)
    && (s.phase == AwaitingProcess ==> AllAborted(s))
    && (s.phase == AwaitingHook ==> forall i :: 0 <= i < |s.processes| ==> !s.processes[i].alive)
  }

  lemma NextStaysSound(s: State, e: Event)
    requires Sound(s) && Enabled(s, e)
    ensures Sound(Next(s, e))
  {}

  /** At most one process is alive in any run, and it is the last started one. */
  lemma {:induction false} AtMostOneAlive(events: seq<Event>)
    requires Run(events)
    ensures Sound(After(events))
    ensures forall i, j :: 0 <= i < j < |After(events).processes| ==>
              !(After(events).processes[i].alive && After(events).processes[j].alive)
  {
    if events != [] {
      AtMostOneAlive(events[..|events| - 1]);
      NextStaysSound(After(events[..|events| - 1]), events[|events| - 1]);
    }
  }

  lemma {:induction false} FlagsFollowEvents(events: seq<Event>)
    ensures After(events).compiled <==> LastCompile(events) == Some(Success)
    ensures After(events).cleanedUp <==> Cleanup in events
    ensures After(events).clock == |events|
  {
    if events != [] {
      FlagsFollowEvents(events[..|events| - 1]);
      assert events == events[..|events| - 1] + [events[|events| - 1]];
    }
  }

  ghost predicate StartsAt(events: seq<Event>, n: nat)
    requires n < |events|
  {
    |After(events[..n]).processes| < |After(events[..n + 1]).processes|
  }

  /** A process starts exactly when a job ends while the last compile event is a success and no cleanup
      ran. */
  lemma StartsExactly(events: seq<Event>, n: nat)
    requires n < |events|
    ensures StartsAt(events, n) <==>
            events[n] == JobEnds && LastCompile(events[..n]) == Some(Success) && Cleanup !in events[..n]
  {
    FlagsFollowEvents(events[..n]);
    assert events[..n + 1][..n] == events[..n];
  }

  /** After compile errors, until a later success, and after cleanup, every live process is aborted. */
  lemma {:induction false} LiveOnesAreAborted(events: seq<Event>)
    requires Run(events)
    ensures Broken(events) || Cleanup in events ==> AllAborted(After(events))
  {
    if events != [] {
      var init, last := events[..|events| - 1], events[|events| - 1];
      LiveOnesAreAborted(init);
      AtMostOneAlive(init);
      FlagsFollowEvents(init);
      BrokenIsNotCompiled(init);
      assert events == init + [last];
      assert Cleanup in events <==> Cleanup in init || last == Cleanup;
      NextKeepsAborted(After(init), last);
    }
  }

  lemma {:induction false} BrokenIsNotCompiled(events: seq<Event>)
    ensures Broken(events) ==> LastCompile(events) != Some(Success)
  {
    if events != [] {
      BrokenIsNotCompiled(events[..|events| - 1]);
    }
  }

  lemma NextKeepsAborted(s: State, e: Event)
    requires Sound(s) && Enabled(s, e)
    ensures AllAborted(s) && !(e.JobEnds? && s.compiled && !s.cleanedUp) ==> AllAborted(Next(s, e))
    ensures e.CompileErrors? || (e.Cleanup? && !s.cleanedUp) ==> AllAborted(Next(s, e))
  {}

  /** Between compile errors and the next success, and ever after cleanup, no process starts. */
  lemma NoneStartsWhileDown(events: seq<Event>, n: nat)
    requires n < |events| && (Broken(events[..n]) || Cleanup in events[..n])
    ensures !StartsAt(events, n)
  {
    if StartsAt(events, n) {
      StartsExactly(events, n);
      BrokenIsNotCompiled(events[..n]);
    }
  }

  lemma NextAfterCleanup(s: State, e: Event)
    requires s.cleanedUp
    ensures Next(s, e).cleanedUp && |Next(s, e).processes| == |s.processes|
  {}

  lemma AfterOne(events: seq<Event>, n: nat)
    requires n < |events|
    ensures After(events[..n + 1]) == Next(After(events[..n]), events[n])
  {
    assert events[..n + 1][..n] == events[..n];
  }

  lemma {:induction false} NoneStartsAfterCleanup(events: seq<Event>, k: nat, n: nat)
    requires k < n <= |events| && events[k] == Cleanup
    ensures After(events[..n]).cleanedUp && |After(events[..n]).processes| == |After(events[..k + 1]).processes|
  {
    hide Next, After;
    AfterOne(events, n - 1);
    if k + 1 < n {
      NoneStartsAfterCleanup(events, k, n - 1);
      NextAfterCleanup(After(events[..n - 1]), events[n - 1]);
    } else {
      CleanupIsNoted(After(events[..k]));
    }
  }

  lemma CleanupIsNoted(s: State)
    ensures Next(s, Cleanup).cleanedUp
  {}

  // The restarts

  /** A success asks for a restart, and so does a file that changes while the last compile event is one. */
  ghost predicate Asks(events: seq<Event>, k: nat)
    requires k < |events|
  {
    events[k] == Success || (events[k] == FileChange && LastCompile(events[..k]) == Some(Success))
  }

  ghost function Asking(events: seq<Event>): set<nat> {
    set k: nat | k < |events| && Asks(events, k)
  }

  ghost function Ends(events: seq<Event>): set<nat> {
    set k: nat | k < |events| && events[k] == JobEnds
  }

  /** One restart is chained for each event that asks for one, and the ended ones are counted by the ends. */
  lemma {:induction false} RestartsAreAsked(events: seq<Event>)
    ensures After(events).jobs == |Asking(events)|
    ensures After(events).finished == |Ends(events)|
  {
    if events != [] {
      hide Next, Asking, Ends, Asks;
      var init, last := events[..|events| - 1], events[|events| - 1];
      RestartsAreAsked(init);
      FlagsFollowEvents(init);
      NextCounts(After(init), last);
      OneMoreAsks(events);
      OneMoreEnds(events);
    }
  }

  lemma OneMoreAsks(events: seq<Event>)
    requires events != []
    ensures
      var init, last := events[..|events| - 1], events[|events| - 1];
      |Asking(events)| == |Asking(init)| +
      if last == Success || (last == FileChange && LastCompile(init) == Some(Success)) then 1 else 0
  {
    hide LastCompile;
    var init, n := events[..|events| - 1], |events| - 1;
    forall k: nat | k < n ensures Asks(init, k) <==> Asks(events, k) {
      AsksEarlier(events, k);
    }
    assert Asking(events) == Asking(init) + if Asks(events, n) then {n} else {};
  }

  lemma OneMoreEnds(events: seq<Event>)
    requires events != []
    ensures |Ends(events)| == |Ends(events[..|events| - 1])| + if events[|events| - 1] == JobEnds then 1 else 0
  {
    var init, n := events[..|events| - 1], |events| - 1;
    assert Ends(events) == Ends(init) + if events[n] == JobEnds then {n} else {};
  }

  lemma AsksEarlier(events: seq<Event>, k: nat)
    requires k < |events| - 1
    ensures Asks(events[..|events| - 1], k) <==> Asks(events, k)
  {
    assert events[..|events| - 1][..k] == events[..k];
  }

  lemma NextCounts(s: State, e: Event)
    ensures Next(s, e).jobs == s.jobs + if e == Success || (e == FileChange && s.compiled) then 1 else 0
    ensures Next(s, e).finished == s.finished + if e == JobEnds then 1 else 0
  {}

  ghost function Begins(events: seq<Event>): set<nat> {
    set k: nat | k < |events| && events[k] == JobBegins
  }

  /** The jobs run one at a time: at most one has begun and not ended. */
  lemma {:induction false} OneJobAtATime(events: seq<Event>)
    requires Run(events)
    ensures |Begins(events)| == |Ends(events)| + if After(events).phase == Idle then 0 else 1
  {
    if events != [] {
      hide Next, Begins, Ends;
      var init, last := events[..|events| - 1], events[|events| - 1];
      OneJobAtATime(init);
      OneMoreEnds(events);
      OneMoreBegins(events);
      NextPhase(After(init), last);
    }
  }

  lemma OneMoreBegins(events: seq<Event>)
    requires events != []
    ensures |Begins(events)| == |Begins(events[..|events| - 1])| + if events[|events| - 1] == JobBegins then 1 else 0
  {
    var init, n := events[..|events| - 1], |events| - 1;
    assert Begins(events) == Begins(init) + if events[n] == JobBegins then {n} else {};
  }

  lemma NextPhase(s: State, e: Event)
    requires Enabled(s, e)
    ensures e == JobBegins ==> s.phase == Idle && Next(s, e).phase != Idle
    ensures e == JobEnds ==> s.phase != Idle && Next(s, e).phase == Idle
    ensures e != JobBegins && e != JobEnds ==> (Next(s, e).phase == Idle <==> s.phase == Idle)
  {}

  /** What the chain does next: it waits for the running process to exit, which it aborted. */
  ghost function Forward(s: State): Event
    requires Sound(s)
  {
    if s.phase == Idle then JobBegins
    else if s.phase == AwaitingHook then JobEnds
    else if Gone(s) then ProcessGone
    else Exit(s.current.value)
  }

  ghost predicate Drained(s: State) {
    s.phase == Idle && s.finished == s.jobs
  }

  ghost function StepsLeft(s: State): nat
    requires Sound(s)
  {
    4 * (s.jobs - s.finished) -
    match s.phase
    case Idle => 0
    case AwaitingProcess => if Gone(s) then 2 else 1
    case AwaitingHook => 3
  }

  lemma ForwardIsOneLess(s: State)
    requires Sound(s) && !Drained(s)
    ensures Enabled(s, Forward(s)) && Sound(Next(s, Forward(s)))
    ensures StepsLeft(Next(s, Forward(s))) < StepsLeft(s) && Next(s, Forward(s)).jobs == s.jobs
  {
    NextStaysSound(s, Forward(s));
  }

  /** From every state the chain drains without any other event, once the process it aborts exits. */
  lemma {:induction false} ChainDrains(events: seq<Event>) returns (rest: seq<Event>)
    requires Run(events)
    ensures Run(events + rest) && Drained(After(events + rest))
    ensures forall e :: e in rest ==> e.JobBegins? || e.ProcessGone? || e.JobEnds? || e.Exit?
    ensures After(events + rest).jobs == After(events).jobs
    decreases (AtMostOneAlive(events); StepsLeft(After(events)))
  {
    hide Next, Enabled, Sound, StepsLeft, Run, After;
    AtMostOneAlive(events);
    var s := After(events);
    if Drained(s) {
      assert events + [] == events;
      rest := [];
    } else {
      var e := Forward(s);
      ForwardIsOneLess(s);
      OneMore(events, e);
      rest := ChainDrains(events + [e]);
      assert events + ([e] + rest) == events + [e] + rest;
      rest := [e] + rest;
    }
  }

  /** As long as a restart is left to run, the chain can go on, or waits for a process that is aborted and
      goes on as soon as that exits. */
  lemma ChainGoesOn(events: seq<Event>)
    requires Run(events) && |Asking(events)| > |Ends(events)|
    ensures
      var s := After(events);
      Enabled(s, JobBegins) || Enabled(s, ProcessGone) || Enabled(s, JobEnds) ||
      exists i: nat :: Enabled(s, Exit(i)) && s.processes[i].aborted && Enabled(Next(s, Exit(i)), ProcessGone)
  {
    RestartsAreAsked(events);
    AtMostOneAlive(events);
    var s := After(events);
    if s.phase == AwaitingProcess && !Gone(s) {
      assert Enabled(s, Exit(s.current.value));
    }
  }

  // The processes

  /** Compile errors, the first cleanup and a restart that begins abort whatever runs. */
  ghost predicate Aborts(events: seq<Event>, n: nat)
    requires n < |events|
  {
    events[n] == CompileErrors || events[n] == JobBegins || (events[n] == Cleanup && Cleanup !in events[..n])
  }

  /** The process started at `born` was aborted before it exited. */
  ghost predicate AbortedInTime(events: seq<Event>, i: nat, born: nat)
    requires born < |events|
  {
    exists n: nat :: born < n < |events| && Aborts(events, n) && Exit(i) !in events[born..n]
  }

  ghost predicate FollowsEvents(events: seq<Event>, i: nat, p: Process) {
    && p.born < |events| && events[p.born] == JobEnds
    && LastCompile(events[..p.born]) == Some(Success) && Cleanup !in events[..p.born]
    && (p.alive <==> Exit(i) !in events[p.born..])
    && (p.aborted <==> AbortedInTime(events, i, p.born))
  }

  lemma AbortedInTimeGrows(events: seq<Event>, e: Event, i: nat, born: nat)
    requires born < |events|
    ensures AbortedInTime(events + [e], i, born) <==>
            AbortedInTime(events, i, born) || (Aborts(events + [e], |events|) && Exit(i) !in events[born..])
  {
    hide Aborts;
    var more := events + [e];
    forall n: nat | born < n <= |events| ensures more[born..n] == events[born..n] {}
    forall n: nat | n < |events| ensures Aborts(more, n) <==> Aborts(events, n) {
      AbortsEarlier(events, e, n);
    }
  }

  lemma AbortsEarlier(events: seq<Event>, e: Event, n: nat)
    requires n < |events|
    ensures Aborts(events + [e], n) <==> Aborts(events, n)
  {
    assert (events + [e])[..n] == events[..n];
  }

  lemma FollowsOneMore(events: seq<Event>, e: Event, i: nat, p: Process, q: Process)
    requires FollowsEvents(events, i, p)
    requires q.born == p.born
    requires q.alive <==> p.alive && e != Exit(i)
    requires q.aborted <==> p.aborted || (p.alive && Aborts(events + [e], |events|))
    ensures FollowsEvents(events + [e], i, q)
  {
    hide Aborts, AbortedInTime, LastCompile;
    AbortedInTimeGrows(events, e, i, p.born);
    assert (events + [e])[p.born..] == events[p.born..] + [e];
    assert (events + [e])[..p.born] == events[..p.born];
  }

  lemma StartedFollows(events: seq<Event>, i: nat, p: Process)
    requires LastCompile(events) == Some(Success) && Cleanup !in events
    requires p.born == |events| && p.alive && !p.aborted
    ensures FollowsEvents(events + [JobEnds], i, p)
  {
    hide LastCompile;
    assert (events + [JobEnds])[..|events|] == events && (events + [JobEnds])[|events|..] == [JobEnds];
  }

  /** What one event does to the process `i`. */
  lemma NextProcess(s: State, e: Event, i: nat)
    requires Sound(s) && Enabled(s, e) && i < |s.processes|
    ensures
      var p, q := s.processes[i], Next(s, e).processes[i];
      q.born == p.born && (q.alive <==> p.alive && e != Exit(i)) &&
      (q.aborted <==>
         p.aborted || (p.alive && (e == CompileErrors || e == JobBegins || (e == Cleanup && !s.cleanedUp))))
  {}

  lemma NextStarts(s: State, e: Event)
    ensures
      var t := Next(s, e);
      if e == JobEnds && s.compiled && !s.cleanedUp
      then t.processes == s.processes + [Process(true, false, s.finished, s.clock)]
      else |t.processes| == |s.processes|
  {}

  /** Each process was started by the end of a restart while the last compile event was a success. It is
      alive until it exits, and aborted exactly when the errors, a cleanup or a restart met it alive. */
  lemma {:induction false} ProcessesFollowEvents(events: seq<Event>, i: nat)
    requires Run(events) && i < |After(events).processes|
    ensures FollowsEvents(events, i, After(events).processes[i])
  {
    hide Next, FollowsEvents, Enabled, Sound, LastCompile;
    assert events != [];
    var init, e := events[..|events| - 1], events[|events| - 1];
    assert events == init + [e];
    AtMostOneAlive(init);
    FlagsFollowEvents(init);
    NextStarts(After(init), e);
    if i < |After(init).processes| {
      ProcessesFollowEvents(init, i);
      NextProcess(After(init), e, i);
      assert events[..|init|] == init;
      FollowsOneMore(init, e, i, After(init).processes[i], After(events).processes[i]);
    } else {
      StartedFollows(init, i, After(events).processes[i]);
    }
  }

  // Draining

  /** From an event on that asks for a restart, with no compile event and no cleanup since. */
  ghost predicate Settled(events: seq<Event>, k: nat) {
    && k < |events| && Asks(events, k) && Cleanup !in events
    && forall i :: k < i < |events| ==> !CompileEvent(events[i])
  }

  /** What holds since then: the jobs that ended since each started a process, and only a job
      that has begun has aborted the last one. */
  ghost predicate Served(s: State, owed: nat, k: nat) {
    && s.compiled && !s.cleanedUp && owed < s.jobs
    && (s.finished > owed ==>
          && s.current.Some? && s.current.value < |s.processes|
          && s.processes[s.current.value].job == s.finished - 1
          && s.processes[s.current.value].born > k
          && (s.phase == Idle ==> !s.processes[s.current.value].aborted))
  }

  lemma NextKeepsServed(s: State, e: Event, owed: nat, k: nat)
    requires Sound(s) && Enabled(s, e) && Served(s, owed, k) && s.clock > k
    requires !CompileEvent(e) && e != Cleanup
    ensures Served(Next(s, e), owed, k)
  {}

  lemma {:induction false} SettledIsServed(events: seq<Event>, k: nat)
    requires Run(events) && Settled(events, k)
    ensures Served(After(events), After(events[..k]).jobs, k)
  {
    var init, last := events[..|events| - 1], events[|events| - 1];
    AtMostOneAlive(init);
    FlagsFollowEvents(init);
    FlagsFollowEvents(events);
    if k == |events| - 1 {
      assert events[..k] == init;
      assert last != Cleanup;
      assert Cleanup !in init;
    } else {
      hide Next;
      SettledEarlier(events, k);
      assert init[..k] == events[..k];
      SettledIsServed(init, k);
      assert last in events;
      NextKeepsServed(After(init), last, After(events[..k]).jobs, k);
    }
  }

  lemma SettledEarlier(events: seq<Event>, k: nat)
    requires Settled(events, k) && k < |events| - 1
    ensures Settled(events[..|events| - 1], k) && !CompileEvent(events[|events| - 1])
  {
    AsksEarlier(events, k);
  }

  /** Once the chain drains, the last start came after the last success, and after each file change since
      it, by the last restart asked for, and its process was not aborted. */
  lemma DrainedIsRestarted(events: seq<Event>, k: nat)
    requires Run(events) && Settled(events, k)
    requires After(events).phase == Idle && After(events).finished == After(events).jobs
    ensures var s := After(events);
            && s.current.Some? && s.current.value == |s.processes| - 1
            && s.processes[s.current.value].born > k
            && s.processes[s.current.value].job == s.jobs - 1
            && !s.processes[s.current.value].aborted
  {
    SettledIsServed(events, k);
    CurrentIsLast(events);
  }

  ghost predicate LastIsCurrent(s: State) {
    s.current == if s.processes == [] then None else Some(|s.processes| - 1)
  }

  lemma NextKeepsCurrent(s: State, e: Event)
    requires LastIsCurrent(s)
    ensures LastIsCurrent(Next(s, e))
  {}

  lemma {:induction false} CurrentIsLast(events: seq<Event>)
    ensures LastIsCurrent(After(events))
  {
    hide Next;
    if events != [] {
      CurrentIsLast(events[..|events| - 1]);
      NextKeepsCurrent(After(events[..|events| - 1]), events[|events| - 1]);
    }
  }
}
