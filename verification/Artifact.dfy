// The lazy initialiser of a service artifact: ensure() as atomic steps between
// awaits, with any number of callers, failures and retries.
module Artifact {
  import opened Wrappers

  datatype Config = Config(install: Option<string>, repository: bool, workspace: bool)

  // The artifact's root directory: missing, made but not filled, filled.
  datatype Directory = Absent | Partial | Complete

  // How an activation ended; a failed materialise may leave the directory behind.
  datatype Ending = MaterializeFailed(dirLeft: bool) | HookFailed | Succeeded

  // Where one runEnsure activation is suspended.
  datatype Phase =
    | Probing                        // pathExists(root)
    | Cloning                        // gitInit
    | Copying                        // copyFilesFrom(workspace)
    | Materialized                   // materialize() has returned
    | Hooking(pending: seq<string>)  // the hook runner
    | Ended(ending: Ending)

  // One call of ensure(): waiting on an activation's promise, or settled, at
  // once or by an activation. inHook marks calls made by the install hook.
  datatype Caller =
    | Parked(act: nat, inHook: bool)
    | Settled(ok: bool, via: Option<nat>, inHook: bool)

  // The three fields of the class and the directory, the suspended activations
  // and callers, and histories: commands pushed, commands handed to the runner,
  // runner calls, probes that found no directory.
  datatype State = State(
    ensured: bool,
    promise: Option<nat>,
    emitted: seq<string>,
    root: Directory,
    acts: seq<Phase>,
    callers: map<nat, Caller>,
    pushed: seq<string>,
    handed: seq<string>,
    runs: nat,
    misses: nat)

  // A fresh object, over whatever directory earlier processes left.
  function Initial(root: Directory): State {
    State(false, None, [], root, [], map[], [], [], 0, 0)
  }

  // What the awaited step did. Cloning and copying first make the directory and
  // can fail before or after that; getting a hook runner and running it either
  // succeed or not.
  datatype Answer = Success | FailedBefore | FailedAfter

  // Resume continues an activation with its answer; the probe reads the directory.
  datatype Event =
    | Call(caller: nat, inHook: bool)
    | Resume(act: nat, answer: Answer)

  predicate Live(s: State, a: nat) {
    a < |s.acts| && !s.acts[a].Ended?
  }

  predicate HookRunning(s: State) {
    exists a :: 0 <= a < |s.acts| && s.acts[a].Hooking?
  }

  predicate Enabled(s: State, e: Event) {
    match e
    case Call(c, inHook) => c !in s.callers && (inHook ==> HookRunning(s))
    case Resume(a, _) => Live(s, a)
  }

  function EnsureCall(s: State, c: nat, inHook: bool): State {
    if s.ensured then s.(callers := s.callers[c := Settled(true, None, inHook)])
    else if s.promise.Some? then s.(callers := s.callers[c := Parked(s.promise.value, inHook)])
    else s.(acts := s.acts + [Probing], promise := Some(|s.acts|), callers := s.callers[c := Parked(|s.acts|, inHook)])
  }

  function Settle(callers: map<nat, Caller>, a: nat, ok: bool): map<nat, Caller> {
    map c | c in callers ::
      if callers[c].Parked? && callers[c].act == a then Settled(ok, Some(a), callers[c].inHook) else callers[c]
  }

  // The finally block, with every caller of this activation settling.
  function Finish(s: State, a: nat, ending: Ending): State
    requires a < |s.acts|
  {
    s.(acts := s.acts[a := Ended(ending)], promise := None, callers := Settle(s.callers, a, ending.Succeeded?))
  }

  function MoveTo(s: State, a: nat, phase: Phase): State
    requires a < |s.acts|
  {
    s.(acts := s.acts[a := phase])
  }

  // A step that fills the directory, goes on to the next phase when it succeeds.
  function Fill(s: State, a: nat, answer: Answer, filled: Directory, next: Phase): State
    requires a < |s.acts|
  {
    match answer
    case Success => MoveTo(s.(root := filled), a, next)
    case FailedBefore => Finish(s, a, MaterializeFailed(s.root != Absent))
    case FailedAfter => Finish(s.(root := Partial), a, MaterializeFailed(true))
  }

  function AfterCloning(cfg: Config): Phase {
    if cfg.workspace then Copying else Materialized
  }

  function InstallCommands(cfg: Config): seq<string> {
    if cfg.install.Some? then [cfg.install.value] else []
  }

  function Continue(cfg: Config, s: State, a: nat, answer: Answer): State
    requires Live(s, a)
  {
    match s.acts[a]
    case Probing =>
      if s.root != Absent then MoveTo(s, a, Materialized)
      else
        MoveTo(s, a, Cloning).(emitted := s.emitted + InstallCommands(cfg), pushed := s.pushed + InstallCommands(cfg),
                               misses := s.misses + 1)
    case Cloning =>
      if !cfg.repository then MoveTo(s, a, AfterCloning(cfg))
      else Fill(s, a, answer, if cfg.workspace then Partial else Complete, AfterCloning(cfg))
    case Copying => Fill(s, a, answer, Complete, Materialized)
    case Materialized =>
      var s1 := s.(ensured := true);
      if s.emitted != [] && answer.Success? then
        MoveTo(s1, a, Hooking(s.emitted)).(emitted := [], handed := s.handed + s.emitted, runs := s.runs + 1)
      else Finish(s1, a, Succeeded)
    case Hooking(_) => Finish(s, a, if answer.Success? then Succeeded else HookFailed)
  }

  function Step(cfg: Config, s: State, e: Event): State {
    if !Enabled(s, e) then s
    else match e
      case Call(c, inHook) => EnsureCall(s, c, inHook)
      case Resume(a, answer) => Continue(cfg, s, a, answer)
  }

  function Run(cfg: Config, s: State, es: seq<Event>): State
    decreases |es|
  {
    if es == [] then s else Run(cfg, Step(cfg, s, es[0]), es[1..])
  }

  // ---- The invariant of every reachable state ----

  ghost predicate PastMaterialize(p: Phase) {
    p.Hooking? || (p.Ended? && !p.ending.MaterializeFailed?)
  }

  ghost predicate SingleFlight(s: State) {
    forall a: nat :: Live(s, a) <==> s.promise == Some(a)
  }

  ghost predicate EnsuredMeaning(s: State) {
    && (s.ensured <==> exists a :: 0 <= a < |s.acts| && PastMaterialize(s.acts[a]))
    && (forall a: nat :: Live(s, a) && s.ensured ==> s.acts[a].Hooking?)
    && (s.runs > 0 ==> s.ensured) && s.runs <= 1 && (s.runs == 0 ==> s.handed == [])
  }

  ghost predicate CallersSound(s: State) {
    && (forall c :: c in s.callers && s.callers[c].Parked? ==> Live(s, s.callers[c].act) && !s.callers[c].inHook)
    && (forall c :: c in s.callers && s.callers[c].Settled? ==>
          match s.callers[c].via
          case None => s.callers[c].ok && s.ensured
          case Some(a) => a < |s.acts| && s.acts[a].Ended? && s.acts[a].ending.Succeeded? == s.callers[c].ok)
  }

  // Some attempt failed after the directory was made.
  ghost predicate LeftPartial(s: State) {
    exists a :: 0 <= a < |s.acts| && s.acts[a] == Ended(MaterializeFailed(true))
  }

  // What a live activation at work implies of the directory.
  ghost predicate AtWork(cfg: Config, s: State, a: nat)
    requires a < |s.acts|
  {
    match s.acts[a]
    case Cloning => s.root == Absent
    case Copying => cfg.workspace && s.root == if cfg.repository then Partial else Absent
    case Materialized => cfg.repository || cfg.workspace ==> s.root != Absent
    case _ => true
  }

  ghost predicate HalfWay(cfg: Config, s: State) {
    cfg.repository && exists a :: 0 <= a < |s.acts| && s.acts[a].Copying?
  }

  // The directory is partial exactly when it was so from the start, or an attempt
  // left it so, or the one at work has cloned and not yet copied. One that was
  // there from the start is never touched.
  ghost predicate DirectoryMeaning(cfg: Config, start: Directory, s: State) {
    && (forall a: nat :: Live(s, a) ==> AtWork(cfg, s, a))
    && (s.root == Partial <==> start == Partial || LeftPartial(s) || HalfWay(cfg, s))
    && (start != Absent ==> s.root == start && !LeftPartial(s) && !HalfWay(cfg, s))
    && (LeftPartial(s) ==> !HalfWay(cfg, s))
    && (s.ensured && (cfg.repository || cfg.workspace) ==> s.root != Absent)
  }

  function Repeat(x: seq<string>, n: nat): seq<string> {
    if n == 0 then [] else Repeat(x, n - 1) + x
  }

  ghost predicate Inv(cfg: Config, start: Directory, s: State) {
    && SingleFlight(s)
    && EnsuredMeaning(s)
    && CallersSound(s)
    && DirectoryMeaning(cfg, start, s)
    && s.pushed == s.handed + s.emitted
    && s.pushed == Repeat(InstallCommands(cfg), s.misses)
  }

  lemma CallKeepsDirectory(cfg: Config, start: Directory, s: State, c: nat, inHook: bool)
    requires DirectoryMeaning(cfg, start, s)
    ensures DirectoryMeaning(cfg, start, EnsureCall(s, c, inHook))
  {
    var s' := EnsureCall(s, c, inHook);
    assert forall a :: 0 <= a < |s.acts| ==> s'.acts[a] == s.acts[a];
    forall a: nat | Live(s', a) ensures AtWork(cfg, s', a) {
      if a < |s.acts| { assert Live(s, a); }
    }
  }

  lemma CallKeepsMeaning(s: State, c: nat, inHook: bool)
    requires EnsuredMeaning(s)
    ensures EnsuredMeaning(EnsureCall(s, c, inHook))
  {
    var s' := EnsureCall(s, c, inHook);
    assert forall a :: 0 <= a < |s.acts| ==> s'.acts[a] == s.acts[a];
  }

  lemma CallKeepsInv(cfg: Config, start: Directory, s: State, c: nat, inHook: bool)
    requires Inv(cfg, start, s) && Enabled(s, Call(c, inHook))
    ensures Inv(cfg, start, EnsureCall(s, c, inHook))
  {
    CallKeepsDirectory(cfg, start, s, c, inHook);
    CallKeepsMeaning(s, c, inHook);
    var s' := EnsureCall(s, c, inHook);
    if inHook {
      var a :| 0 <= a < |s.acts| && s.acts[a].Hooking?;
      assert PastMaterialize(s.acts[a]);
    }
    assert forall a :: 0 <= a < |s.acts| ==> s'.acts[a] == s.acts[a];
  }

  lemma FinishKeepsInv(s: State, a: nat, ending: Ending)
    requires SingleFlight(s) && CallersSound(s) && Live(s, a)
    ensures SingleFlight(Finish(s, a, ending)) && CallersSound(Finish(s, a, ending))
  {
    var s' := Finish(s, a, ending);
    assert s.promise == Some(a);
    forall c | c in s.callers && s.callers[c].Parked? ensures s.callers[c].act == a {
      assert Live(s, s.callers[c].act);
    }
    assert forall b: nat :: Live(s', b) ==> Live(s, b) && b != a;
  }

  lemma ContinueLocal(cfg: Config, s: State, a: nat, answer: Answer)
    requires SingleFlight(s) && Live(s, a)
    ensures var s' := Continue(cfg, s, a, answer);
      && s.promise == Some(a) && |s'.acts| == |s.acts|
      && (forall b :: 0 <= b < |s.acts| && b != a ==> s'.acts[b] == s.acts[b] && s.acts[b].Ended?)
      && (forall b: nat :: Live(s', b) ==> b == a)
      && (s'.promise == if s'.acts[a].Ended? then None else Some(a))
  {
    var s' := Continue(cfg, s, a, answer);
    assert s.promise == Some(a);
    forall b: nat | b != a && b < |s.acts| ensures !Live(s', b) && s.acts[b].Ended? {
      assert !Live(s, b);
      assert s'.acts[b] == s.acts[b];
    }
  }

  lemma ContinueKeepsMeaning(cfg: Config, s: State, a: nat, answer: Answer)
    requires SingleFlight(s) && EnsuredMeaning(s) && Live(s, a)
    ensures EnsuredMeaning(Continue(cfg, s, a, answer))
  {
    var s' := Continue(cfg, s, a, answer);
    ContinueLocal(cfg, s, a, answer);
    if s'.ensured {
      assert PastMaterialize(s'.acts[a]);
    } else {
      assert forall b :: 0 <= b < |s.acts| ==> !PastMaterialize(s.acts[b]);
    }
  }

  // Only the live activation can be half-way, and only an ended one can have left
  // the directory partial.
  lemma DirectoryLocal(cfg: Config, s: State, a: nat)
    requires SingleFlight(s) && Live(s, a)
    ensures HalfWay(cfg, s) <==> cfg.repository && s.acts[a].Copying?
  {
    assert s.promise == Some(a);
    forall b | 0 <= b < |s.acts| && s.acts[b].Copying? ensures b == a {
      assert Live(s, b);
    }
  }

  lemma LeftPartialMoves(s: State, s': State, a: nat)
    requires |s'.acts| == |s.acts| && Live(s, a)
    requires forall b :: 0 <= b < |s.acts| && b != a ==> s'.acts[b] == s.acts[b]
    ensures LeftPartial(s') <==> LeftPartial(s) || s'.acts[a] == Ended(MaterializeFailed(true))
  {
    if LeftPartial(s) {
      var b :| 0 <= b < |s.acts| && s.acts[b] == Ended(MaterializeFailed(true));
      assert s'.acts[b] == s.acts[b];
    }
  }

  lemma HalfWayMoves(cfg: Config, s: State, s': State, a: nat)
    requires SingleFlight(s) && Live(s, a) && |s'.acts| == |s.acts|
    requires forall b :: 0 <= b < |s.acts| && b != a ==> s'.acts[b] == s.acts[b]
    ensures HalfWay(cfg, s') <==> cfg.repository && s'.acts[a].Copying?
  {
    assert s.promise == Some(a);
    forall b | 0 <= b < |s'.acts| && s'.acts[b].Copying? ensures b == a {
      if b != a { assert Live(s, b); }
    }
  }

  lemma ContinueKeepsDirectory(cfg: Config, start: Directory, s: State, a: nat, answer: Answer)
    requires SingleFlight(s) && EnsuredMeaning(s) && DirectoryMeaning(cfg, start, s) && Live(s, a)
    ensures DirectoryMeaning(cfg, start, Continue(cfg, s, a, answer))
  {
    var s' := Continue(cfg, s, a, answer);
    ContinueLocal(cfg, s, a, answer);
    DirectoryLocal(cfg, s, a);
    LeftPartialMoves(s, s', a);
    HalfWayMoves(cfg, s, s', a);
    assert AtWork(cfg, s, a);
  }

  // One activation moved, and its callers settled if that ended it.
  ghost predicate MovesCallers(s: State, s': State, a: nat)
    requires a < |s.acts|
  {
    && a < |s'.acts| && s'.acts == s.acts[a := s'.acts[a]]
    && (s'.acts[a].Ended? ==>
          s'.promise == None && s'.callers == Settle(s.callers, a, s'.acts[a].ending.Succeeded?))
    && (!s'.acts[a].Ended? ==> s'.promise == s.promise && s'.callers == s.callers)
    && (s.ensured ==> s'.ensured)
  }

  lemma FillMovesCallers(s: State, a: nat, answer: Answer, filled: Directory, next: Phase)
    requires a < |s.acts| && !next.Ended?
    ensures MovesCallers(s, Fill(s, a, answer, filled, next), a)
  {
  }

  lemma ContinueMovesCallers(cfg: Config, s: State, a: nat, answer: Answer)
    requires Live(s, a)
    ensures MovesCallers(s, Continue(cfg, s, a, answer), a)
  {
    match s.acts[a] {
      case Cloning =>
        FillMovesCallers(s, a, answer, if cfg.workspace then Partial else Complete, AfterCloning(cfg));
      case Copying =>
        FillMovesCallers(s, a, answer, Complete, Materialized);
      case _ =>
    }
  }

  lemma ContinueKeepsCallers(cfg: Config, s: State, a: nat, answer: Answer)
    requires SingleFlight(s) && CallersSound(s) && Live(s, a)
    ensures SingleFlight(Continue(cfg, s, a, answer)) && CallersSound(Continue(cfg, s, a, answer))
  {
    var s' := Continue(cfg, s, a, answer);
    ContinueMovesCallers(cfg, s, a, answer);
    if s'.acts[a].Ended? {
      FinishKeepsInv(s.(ensured := s'.ensured), a, s'.acts[a].ending);
      SameCallers(Finish(s.(ensured := s'.ensured), a, s'.acts[a].ending), s');
    } else {
      MovedCallers(s, s', a);
    }
  }

  lemma SameCallers(s: State, s': State)
    requires s'.acts == s.acts && s'.callers == s.callers && s'.promise == s.promise && s'.ensured == s.ensured
    requires SingleFlight(s) && CallersSound(s)
    ensures SingleFlight(s') && CallersSound(s')
  {
    assert forall b: nat :: Live(s', b) <==> Live(s, b);
  }

  lemma MovedCallers(s: State, s': State, a: nat)
    requires Live(s, a) && |s'.acts| == |s.acts| && s'.acts == s.acts[a := s'.acts[a]] && !s'.acts[a].Ended?
    requires s'.callers == s.callers && s'.promise == s.promise && (s.ensured ==> s'.ensured)
    requires SingleFlight(s) && CallersSound(s)
    ensures SingleFlight(s') && CallersSound(s')
  {
    assert forall b: nat :: Live(s', b) <==> Live(s, b);
  }

  lemma ContinueKeepsCommands(cfg: Config, s: State, a: nat, answer: Answer)
    requires Live(s, a) && s.pushed == s.handed + s.emitted && s.pushed == Repeat(InstallCommands(cfg), s.misses)
    ensures var s' := Continue(cfg, s, a, answer);
      s'.pushed == s'.handed + s'.emitted && s'.pushed == Repeat(InstallCommands(cfg), s'.misses)
  {
    if s.acts[a].Probing? {
      var install := InstallCommands(cfg);
      assert s.handed + (s.emitted + install) == s.handed + s.emitted + install;
    }
  }

  lemma ContinueKeepsInv(cfg: Config, start: Directory, s: State, a: nat, answer: Answer)
    requires Inv(cfg, start, s) && Live(s, a)
    ensures Inv(cfg, start, Continue(cfg, s, a, answer))
  {
    ContinueKeepsMeaning(cfg, s, a, answer);
    ContinueKeepsDirectory(cfg, start, s, a, answer);
    ContinueKeepsCallers(cfg, s, a, answer);
    ContinueKeepsCommands(cfg, s, a, answer);
  }

  lemma StepKeepsInv(cfg: Config, start: Directory, s: State, e: Event)
    requires Inv(cfg, start, s)
    ensures Inv(cfg, start, Step(cfg, s, e))
  {
    if Enabled(s, e) {
      match e {
        case Call(c, inHook) => CallKeepsInv(cfg, start, s, c, inHook);
        case Resume(a, answer) => ContinueKeepsInv(cfg, start, s, a, answer);
      }
    }
  }

  lemma {:induction false} RunKeepsInv(cfg: Config, start: Directory, s: State, es: seq<Event>)
    requires Inv(cfg, start, s)
    ensures Inv(cfg, start, Run(cfg, s, es))
    decreases |es|
  {
    if es == [] {
    } else {
      StepKeepsInv(cfg, start, s, es[0]);
      RunKeepsInv(cfg, start, Step(cfg, s, es[0]), es[1..]);
    }
  }

  // ---- Main results ----

  // Single flight, under every interleaving of callers, failures and retries:
  // a runEnsure is live exactly while ensurePromise is set, and then it is that
  // one; the hook runner is called at most once; every command ever pushed was
  // handed to the runner or is still in emittedCommands, in order; and what was
  // pushed is the install command once for every probe that found no directory.
  lemma SingleFlightAlways(cfg: Config, start: Directory, es: seq<Event>)
    ensures var s := Run(cfg, Initial(start), es);
      && (forall a: nat :: Live(s, a) <==> s.promise == Some(a))
      && (s.ensured <==> exists a :: 0 <= a < |s.acts| && PastMaterialize(s.acts[a]))
      && s.runs <= 1
      && s.pushed == s.handed + s.emitted
      && s.pushed == Repeat(InstallCommands(cfg), s.misses)
  {
    RunKeepsInv(cfg, start, Initial(start), es);
  }

  // The flag turns true only when a materialise that returned normally is
  // continued, and never turns back.
  lemma EnsuredTurnsOnce(cfg: Config, s: State, e: Event)
    ensures s.ensured ==> Step(cfg, s, e).ensured
    ensures !s.ensured && Step(cfg, s, e).ensured ==> e.Resume? && Live(s, e.act) && s.acts[e.act] == Materialized
  {
  }

  lemma {:induction false} EnsuredStays(cfg: Config, s: State, es: seq<Event>)
    requires s.ensured
    ensures Run(cfg, s, es).ensured
    decreases |es|
  {
    if es == [] {
    } else {
      EnsuredTurnsOnce(cfg, s, es[0]);
      EnsuredStays(cfg, Step(cfg, s, es[0]), es[1..]);
    }
  }

  // A call from inside the install hook settles at once, successfully: it can
  // never wait for the activation it runs in.
  lemma HookCallNeverWaits(cfg: Config, start: Directory, es: seq<Event>, c: nat)
    requires Enabled(Run(cfg, Initial(start), es), Call(c, true))
    ensures Step(cfg, Run(cfg, Initial(start), es), Call(c, true)).callers[c] == Settled(true, None, true)
  {
    RunKeepsInv(cfg, start, Initial(start), es);
    var s := Run(cfg, Initial(start), es);
    var a :| 0 <= a < |s.acts| && s.acts[a].Hooking?;
    assert PastMaterialize(s.acts[a]);
  }

  // ---- What the hook runner gets ----

  // A caller that waits for an activation settles with this outcome; no other caller
  // changes.
  ghost predicate Settles(s: State, s': State, a: nat, ok: bool) {
    && s'.callers.Keys == s.callers.Keys
    && forall c :: c in s.callers ==>
         s'.callers[c] ==
         if s.callers[c].Parked? && s.callers[c].act == a then Settled(ok, Some(a), s.callers[c].inHook)
         else s.callers[c]
  }

  // Nothing has been handed over before an activation whose materialise returned goes
  // on.
  lemma NothingHandedYet(cfg: Config, start: Directory, s: State, a: nat)
    requires Inv(cfg, start, s) && Live(s, a) && s.acts[a] == Materialized
    ensures s.runs == 0 && s.handed == [] && s.pushed == s.emitted && s.promise == Some(a)
  {
    assert s.promise == Some(a);
  }

  // All commands go to the runner and the callers wait on, or they stay and the
  // callers settle.
  ghost predicate HandedOver(s: State, s': State, a: nat, running: bool)
    requires a < |s.acts|
  {
    && s'.ensured && s'.pushed == s.pushed && s'.root == s.root
    && (running ==>
          && s'.runs == 1 && s'.handed == s.pushed && s'.emitted == []
          && s'.acts == s.acts[a := Hooking(s.pushed)] && s'.callers == s.callers && s'.promise == Some(a))
    && (!running ==>
          && s'.runs == 0 && s'.handed == [] && s'.emitted == s.pushed
          && s'.acts == s.acts[a := Ended(Succeeded)] && Settles(s, s', a, true) && s'.promise == None)
  }

  lemma HandOver(cfg: Config, s: State, a: nat, answer: Answer)
    requires Live(s, a) && s.acts[a] == Materialized
    requires s.runs == 0 && s.handed == [] && s.pushed == s.emitted && s.promise == Some(a)
    ensures HandedOver(s, Continue(cfg, s, a, answer), a, answer.Success? && s.emitted != [])
  {
    assert [] + s.emitted == s.emitted;
  }

  // In every run, an activation whose materialise has returned marks the artifact
  // ensured. With commands emitted and a runner, the one runner call of the whole run
  // gets every command ever pushed, nothing is left to hand over, and the callers wait
  // on; otherwise the commands stay and the callers settle, successfully.
  lemma HandsOverAll(cfg: Config, start: Directory, es: seq<Event>, a: nat, answer: Answer)
    requires Live(Run(cfg, Initial(start), es), a) && Run(cfg, Initial(start), es).acts[a] == Materialized
    ensures var s := Run(cfg, Initial(start), es);
      s.runs == 0 && HandedOver(s, Step(cfg, s, Resume(a, answer)), a, answer.Success? && s.emitted != [])
  {
    var s := Run(cfg, Initial(start), es);
    RunKeepsInv(cfg, start, Initial(start), es);
    NothingHandedYet(cfg, start, s, a);
    HandOver(cfg, s, a, answer);
  }

  // The hook's own outcome is that of everyone who waits for it.
  lemma HookDecides(cfg: Config, start: Directory, es: seq<Event>, a: nat, answer: Answer)
    requires Live(Run(cfg, Initial(start), es), a) && Run(cfg, Initial(start), es).acts[a].Hooking?
    ensures var s := Run(cfg, Initial(start), es);
      var s' := Step(cfg, s, Resume(a, answer));
      && Settles(s, s', a, answer == Success)
      && s'.acts == s.acts[a := Ended(if answer == Success then Succeeded else HookFailed)]
      && s' == s.(acts := s'.acts, callers := s'.callers, promise := None)
  {
  }

  // A probe that finds a directory pushes nothing; one that finds none pushes the
  // install command, if there is one, behind what earlier attempts left.
  lemma ProbePushes(cfg: Config, start: Directory, es: seq<Event>, a: nat, answer: Answer)
    requires Live(Run(cfg, Initial(start), es), a) && Run(cfg, Initial(start), es).acts[a] == Probing
    ensures var s := Run(cfg, Initial(start), es);
      var s' := Step(cfg, s, Resume(a, answer));
      && (s.root != Absent ==> s' == s.(acts := s.acts[a := Materialized]))
      && (s.root == Absent ==>
            && s'.acts == s.acts[a := Cloning] && s'.root == Absent && s'.handed == s.handed && s'.callers == s.callers
            && s'.misses == s.misses + 1
            && (cfg.install == None ==> s'.emitted == s.emitted)
            && (cfg.install.Some? ==> s'.emitted == s.emitted + [cfg.install.value]))
  {
  }

  // A failing clone or copy ends the activation, and everyone who waits for it fails;
  // the directory is there afterwards if it was before or the failure came after
  // making it.
  lemma FailureDecides(cfg: Config, start: Directory, es: seq<Event>, a: nat, answer: Answer)
    requires Live(Run(cfg, Initial(start), es), a) && answer != Success
    requires var s := Run(cfg, Initial(start), es);
      s.acts[a] == Copying || (s.acts[a] == Cloning && cfg.repository)
    ensures var s := Run(cfg, Initial(start), es);
      var s' := Step(cfg, s, Resume(a, answer));
      && Settles(s, s', a, false) && s'.promise == None && s'.ensured == s.ensured
      && s'.root == (if answer == FailedAfter then Partial else s.root)
      && s'.acts == s.acts[a := Ended(MaterializeFailed(s'.root != Absent))]
      && s'.emitted == s.emitted && s'.handed == s.handed
  {
  }

  // ---- One undisturbed installation ----

  function FreshEvents(cfg: Config): seq<Event> {
    [Call(0, false), Resume(0, Success), Resume(0, Success)] +
    (if cfg.workspace then [Resume(0, Success)] else []) +
    [Resume(0, Success)] +
    (if cfg.install.Some? then [Resume(0, Success)] else [])
  }

  lemma {:induction false} RunConcat(cfg: Config, s: State, es: seq<Event>, more: seq<Event>)
    ensures Run(cfg, s, es + more) == Run(cfg, Run(cfg, s, es), more)
    decreases |es|
  {
    if es == [] {
      assert es + more == more;
    } else {
      assert (es + more)[1..] == es[1..] + more;
      RunConcat(cfg, Step(cfg, s, es[0]), es[1..], more);
    }
  }

  lemma RunOne(cfg: Config, s: State, e: Event)
    ensures Run(cfg, s, [e]) == Step(cfg, s, e)
  {
    assert [e][1..] == [];
  }

  lemma FreshMaterialized(cfg: Config)
    ensures var s := Run(cfg, Initial(Absent), [Call(0, false), Resume(0, Success), Resume(0, Success)]);
      var filled := if cfg.workspace then Run(cfg, s, [Resume(0, Success)]) else Run(cfg, s, []);
      filled == State(false, Some(0), InstallCommands(cfg),
                      if cfg.repository || cfg.workspace then Complete else Absent,
                      [Materialized], map[0 := Parked(0, false)], InstallCommands(cfg), [], 0, 1)
  {
    RunThree(cfg, Initial(Absent), Call(0, false), Resume(0, Success), Resume(0, Success));
    var s1 := Step(cfg, Initial(Absent), Call(0, false));
    assert s1.acts == [Probing] && s1.callers == map[0 := Parked(0, false)];
    var s2 := Step(cfg, s1, Resume(0, Success));
    assert s2.acts == [Cloning] && s2.emitted == InstallCommands(cfg);
    var s3 := Step(cfg, s2, Resume(0, Success));
    assert s3.acts == [AfterCloning(cfg)];
    if cfg.workspace {
      RunOne(cfg, s3, Resume(0, Success));
      assert Step(cfg, s3, Resume(0, Success)).acts == [Materialized];
    }
  }

  // From nothing, one call with everything succeeding fills the directory, hands the
  // install command, if any, to the runner once, and returns.
  lemma FreshInstall(cfg: Config)
    ensures var s := Run(cfg, Initial(Absent), FreshEvents(cfg));
      && s.ensured && s.promise == None && s.callers == map[0 := Settled(true, Some(0), false)]
      && s.root == (if cfg.repository || cfg.workspace then Complete else Absent)
      && s.emitted == []
      && (cfg.install.Some? ==> s.handed == [cfg.install.value] && s.runs == 1)
      && (cfg.install == None ==> s.handed == [] && s.runs == 0)
  {
    var first := [Call(0, false), Resume(0, Success), Resume(0, Success)];
    var copy := if cfg.workspace then [Resume(0, Success)] else [];
    var hook := if cfg.install.Some? then [Resume(0, Success)] else [];
    FreshMaterialized(cfg);
    RunConcat(cfg, Initial(Absent), first, copy);
    RunConcat(cfg, Initial(Absent), first + copy, [Resume(0, Success)]);
    RunConcat(cfg, Initial(Absent), first + copy + [Resume(0, Success)], hook);
    var m := Run(cfg, Initial(Absent), first + copy);
    RunOne(cfg, m, Resume(0, Success));
    FreshHook(cfg, m);
  }

  lemma FreshHook(cfg: Config, m: State)
    requires m == State(false, Some(0), InstallCommands(cfg),
                        if cfg.repository || cfg.workspace then Complete else Absent,
                        [Materialized], map[0 := Parked(0, false)], InstallCommands(cfg), [], 0, 1)
    ensures var hook := if cfg.install.Some? then [Resume(0, Success)] else [];
      var s := Run(cfg, Step(cfg, m, Resume(0, Success)), hook);
      && s.ensured && s.promise == None && s.callers == map[0 := Settled(true, Some(0), false)]
      && s.root == m.root && s.emitted == [] && s.handed == InstallCommands(cfg) && s.runs == |InstallCommands(cfg)|
  {
    var h := Step(cfg, m, Resume(0, Success));
    if cfg.install.Some? {
      assert h.acts == [Hooking(InstallCommands(cfg))];
      RunOne(cfg, h, Resume(0, Success));
    }
  }

  // ---- When "ensured" does not mean complete ----

  // In every run, an ensured artifact has a partial directory if and only if it was
  // partial from the start or some attempt failed after making it. Otherwise it is
  // complete whenever there is anything to fill it with.
  lemma EnsuredOverPartial(cfg: Config, start: Directory, es: seq<Event>)
    requires Run(cfg, Initial(start), es).ensured
    ensures var s := Run(cfg, Initial(start), es);
      && (s.root == Partial <==> start == Partial || LeftPartial(s))
      && (start != Partial && !LeftPartial(s) && (cfg.repository || cfg.workspace) ==> s.root == Complete)
  {
    RunKeepsInv(cfg, start, Initial(start), es);
    var s := Run(cfg, Initial(start), es);
    if HalfWay(cfg, s) {
      var a :| 0 <= a < |s.acts| && s.acts[a].Copying?;
      assert Live(s, a);
    }
  }

  lemma StepLeavesPartial(cfg: Config, s: State, e: Event)
    requires LeftPartial(s)
    ensures LeftPartial(Step(cfg, s, e))
  {
    var b :| 0 <= b < |s.acts| && s.acts[b] == Ended(MaterializeFailed(true));
    assert Step(cfg, s, e).acts[b] == s.acts[b];
  }

  // A directory once left partial, by an attempt or before the first, stays so: no
  // retry ever repairs it.
  lemma {:induction false} NeverRepaired(cfg: Config, start: Directory, s: State, es: seq<Event>)
    requires Inv(cfg, start, s) && (LeftPartial(s) || start == Partial)
    ensures Run(cfg, s, es).root == Partial
    decreases |es|
  {
    if es == [] {
    } else {
      StepKeepsInv(cfg, start, s, es[0]);
      if LeftPartial(s) { StepLeavesPartial(cfg, s, es[0]); }
      NeverRepaired(cfg, start, Step(cfg, s, es[0]), es[1..]);
    }
  }

  // Any attempt trusts a directory it finds: whatever the answers, it pushes no
  // command, neither clones nor copies, and marks the artifact ensured.
  lemma RetryTrustsLeftovers(cfg: Config, start: Directory, es: seq<Event>, a: nat, x: Answer, y: Answer)
    requires Run(cfg, Initial(start), es).root != Absent && Live(Run(cfg, Initial(start), es), a)
    requires Run(cfg, Initial(start), es).acts[a] == Probing
    ensures var s := Run(cfg, Initial(start), es);
      var probed := Step(cfg, s, Resume(a, x));
      var resumed := Step(cfg, probed, Resume(a, y));
      && probed == s.(acts := s.acts[a := Materialized])
      && resumed.ensured && resumed.root == s.root && resumed.pushed == s.pushed
  {
  }

  lemma RunThree(cfg: Config, s: State, e: Event, f: Event, g: Event)
    ensures Run(cfg, s, [e, f, g]) == Step(cfg, Step(cfg, Step(cfg, s, e), f), g)
  {
    assert [e, f, g][1..] == [f, g] && [f, g][1..] == [g] && [g][1..] == [];
    assert Run(cfg, s, [e, f, g]) == Run(cfg, Step(cfg, s, e), [f, g]);
    assert Run(cfg, Step(cfg, s, e), [f, g]) == Run(cfg, Step(cfg, Step(cfg, s, e), f), [g]);
  }

  // A run that gets there: a clone that fails after making the directory.
  lemma ClonesCanLeavePartial(cfg: Config)
    requires cfg.repository
    ensures LeftPartial(Run(cfg, Initial(Absent), [Call(0, false), Resume(0, Success), Resume(0, FailedAfter)]))
  {
    RunThree(cfg, Initial(Absent), Call(0, false), Resume(0, Success), Resume(0, FailedAfter));
    var s := Step(cfg, Step(cfg, Initial(Absent), Call(0, false)), Resume(0, Success));
    assert s.acts == [Cloning];
    assert Step(cfg, s, Resume(0, FailedAfter)).acts[0] == Ended(MaterializeFailed(true));
  }

  // ---- Progress ----

  function Rank(p: Phase): nat {
    match p
    case Probing => 5
    case Cloning => 4
    case Copying => 3
    case Materialized => 2
    case Hooking(_) => 1
    case Ended(_) => 0
  }

  function Resumes(es: seq<Event>, a: nat): nat {
    if es == [] then 0 else (if es[0].Resume? && es[0].act == a then 1 else 0) + Resumes(es[1..], a)
  }

  // Each resumption of an activation lowers its rank; nothing else changes it.
  lemma StepRank(cfg: Config, s: State, e: Event, a: nat)
    requires a < |s.acts|
    ensures var s' := Step(cfg, s, e);
      && a < |s'.acts|
      && (if e.Resume? && e.act == a then Rank(s'.acts[a]) == 0 || Rank(s'.acts[a]) < Rank(s.acts[a])
          else s'.acts[a] == s.acts[a])
      && (s.acts[a].Ended? ==> s'.acts[a] == s.acts[a])
  {
    if e.Resume? && Enabled(s, e) { MovesOne(cfg, s, e.act, e.answer); }
  }

  lemma MovesOne(cfg: Config, s: State, a: nat, answer: Answer)
    requires Live(s, a)
    ensures var s' := Continue(cfg, s, a, answer);
      && |s'.acts| == |s.acts|
      && (forall b :: 0 <= b < |s.acts| && b != a ==> s'.acts[b] == s.acts[b])
      && Rank(s'.acts[a]) < Rank(s.acts[a])
  {
  }

  // A caller waits for the activation it joined and takes that one's outcome.
  ghost predicate Follows(s: State, c: nat, a: nat) {
    && c in s.callers && a < |s.acts|
    && match s.callers[c]
       case Parked(b, _) => b == a
       case Settled(ok, via, _) => via == Some(a) && s.acts[a].Ended? && s.acts[a].ending.Succeeded? == ok
  }

  lemma CallFollows(s: State, d: nat, inHook: bool, c: nat, a: nat)
    requires Follows(s, c, a) && d !in s.callers
    ensures Follows(EnsureCall(s, d, inHook), c, a)
  {
    assert EnsureCall(s, d, inHook).callers[c] == s.callers[c];
  }

  lemma ContinueFollows(cfg: Config, s: State, b: nat, answer: Answer, c: nat, a: nat)
    requires Follows(s, c, a) && Live(s, b)
    ensures Follows(Continue(cfg, s, b, answer), c, a)
  {
    ContinueMovesCallers(cfg, s, b, answer);
  }

  lemma StepFollows(cfg: Config, s: State, e: Event, c: nat, a: nat)
    requires Follows(s, c, a)
    ensures Follows(Step(cfg, s, e), c, a)
  {
    if Enabled(s, e) {
      match e {
        case Call(d, inHook) => CallFollows(s, d, inHook, c, a);
        case Resume(b, answer) => ContinueFollows(cfg, s, b, answer, c, a);
      }
    }
  }

  lemma ParkedOnLive(cfg: Config, start: Directory, s: State, c: nat, a: nat)
    requires Inv(cfg, start, s) && Follows(s, c, a)
    ensures s.callers[c].Parked? ==> Live(s, a)
  {
  }

  // Every parked caller settles, with the activation's own outcome, once that
  // activation has been resumed as often as its rank (at most five times),
  // whatever else happens in between.
  lemma {:induction false} ParkedSettles(cfg: Config, start: Directory, s: State, es: seq<Event>, c: nat, a: nat)
    requires Inv(cfg, start, s) && Follows(s, c, a)
    requires Resumes(es, a) >= Rank(s.acts[a])
    ensures var s' := Run(cfg, s, es);
      && a < |s'.acts| && s'.acts[a].Ended?
      && c in s'.callers && s'.callers[c].Settled? && s'.callers[c].via == Some(a)
      && s'.callers[c].ok == s'.acts[a].ending.Succeeded?
    decreases |es|
  {
    if es == [] {
      ParkedOnLive(cfg, start, s, c, a);
    } else {
      StepKeepsInv(cfg, start, s, es[0]);
      StepRank(cfg, s, es[0], a);
      StepFollows(cfg, s, es[0], c, a);
      ParkedSettles(cfg, start, Step(cfg, s, es[0]), es[1..], c, a);
    }
  }

  // ---- The class ----

  // The fields of DevnetServiceArtifact and the directory it manages. One method
  // per stretch of code between two awaits; the suspended activations and callers
  // are ghost.
  class DevnetServiceArtifact {
    const config: Config
    var ensured: bool
    var ensurePromise: Option<nat>
    var emittedCommands: seq<string>
    var root: Directory
    var activations: nat
    ghost var acts: seq<Phase>
    ghost var callers: map<nat, Caller>
    ghost var pushed: seq<string>
    ghost var handed: seq<string>
    ghost var runs: nat
    ghost var misses: nat

    ghost function View(): State
      reads this
    {
      State(ensured, ensurePromise, emittedCommands, root, acts, callers, pushed, handed, runs, misses)
    }

    // Activations are numbered by their start.
    ghost predicate Valid()
      reads this
    {
      activations == |acts|
    }

    constructor (config: Config, root: Directory)
      ensures this.config == config && Valid() && View() == Initial(root)
    {
      this.config, this.root, activations := config, root, 0;
      ensured, ensurePromise, emittedCommands := false, None, [];
      acts, callers, pushed, handed, runs, misses := [], map[], [], [], 0, 0;
    }

    method Ensure(ghost caller: nat, ghost inHook: bool)
      requires Valid() && Enabled(View(), Call(caller, inHook))
      modifies this
      ensures Valid() && View() == Step(config, old(View()), Call(caller, inHook))
    {
      if ensured {
        callers := callers[caller := Settled(true, None, inHook)];
        return;
      }
      if ensurePromise.Some? {
        callers := callers[caller := Parked(ensurePromise.value, inHook)];
        return;
      }
      acts := acts + [Probing];
      ensurePromise := Some(activations);
      callers := callers[caller := Parked(activations, inHook)];
      activations := activations + 1;
    }

    // The end of every activation, normal or not: the promise is dropped.
    method Finally(ghost act: nat, ghost ending: Ending)
      requires Valid() && act < |acts|
      modifies this`ensurePromise, this`acts, this`callers
      ensures Valid() && View() == Finish(old(View()), act, ending)
    {
      ensurePromise := None;
      acts := acts[act := Ended(ending)];
      callers := Settle(callers, act, ending.Succeeded?);
    }

    // The rest of materialize() up to the clone.
    method AfterProbe(ghost act: nat, ghost answer: Answer)
      requires Valid() && Live(View(), act) && acts[act] == Probing
      modifies this
      ensures Valid() && View() == Step(config, old(View()), Resume(act, answer))
    {
      var destinationExists := root != Absent;
      if destinationExists {
        acts := acts[act := Materialized];
        return;
      }
      if config.install.Some? {
        emittedCommands := emittedCommands + [config.install.value];
        pushed := pushed + [config.install.value];
      }
      misses := misses + 1;
      acts := acts[act := Cloning];
    }

    // Making the directory and filling it; a failure ends the activation.
    method FillDirectory(ghost act: nat, answer: Answer, filled: Directory, ghost next: Phase)
      requires Valid() && act < |acts|
      modifies this`root, this`ensurePromise, this`acts, this`callers
      ensures Valid() && View() == Fill(old(View()), act, answer, filled, next)
    {
      match answer {
        case Success =>
          root := filled;
          acts := acts[act := next];
        case FailedBefore =>
          Finally(act, MaterializeFailed(root != Absent));
        case FailedAfter =>
          root := Partial;
          Finally(act, MaterializeFailed(true));
      }
    }

    method AfterClone(ghost act: nat, answer: Answer)
      requires Valid() && Live(View(), act) && acts[act] == Cloning
      modifies this
      ensures Valid() && View() == Step(config, old(View()), Resume(act, answer))
    {
      if config.repository {
        FillDirectory(act, answer, if config.workspace then Partial else Complete, AfterCloning(config));
      } else {
        acts := acts[act := AfterCloning(config)];
      }
    }

    method AfterCopy(ghost act: nat, answer: Answer)
      requires Valid() && Live(View(), act) && acts[act] == Copying
      modifies this
      ensures Valid() && View() == Step(config, old(View()), Resume(act, answer))
    {
      FillDirectory(act, answer, Complete, Materialized);
    }

    // Marks the artifact ensured before firing hooks.
    method AfterMaterialize(ghost act: nat, runner: Answer) returns (pending: seq<string>)
      requires Valid() && Live(View(), act) && acts[act] == Materialized
      modifies this
      ensures Valid() && View() == Step(config, old(View()), Resume(act, runner))
      ensures pending != [] <==> acts[act] == Hooking(pending)
    {
      ensured := true;
      pending := [];
      if |emittedCommands| > 0 && runner.Success? {
        pending := emittedCommands;
        emittedCommands := [];
        acts := acts[act := Hooking(pending)];
        handed := handed + pending;
        runs := runs + 1;
        return;
      }
      Finally(act, Succeeded);
    }

    method AfterHook(ghost act: nat, answer: Answer)
      requires Valid() && Live(View(), act) && acts[act].Hooking?
      modifies this
      ensures Valid() && View() == Step(config, old(View()), Resume(act, answer))
    {
      Finally(act, if answer.Success? then Succeeded else HookFailed);
    }
  }
}
