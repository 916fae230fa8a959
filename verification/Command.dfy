// The execution wrapper of commands: a global depth counter and a
// try/catch/finally that can override what the handler returned or threw.
module Command {
  import opened Seqs
  import opened Strings
  import opened Wrappers

  datatype ErrorKind = ZodError | ExecaError | DevNetError | OtherError

  // What JavaScript can throw. Errors are truthy objects; text is what String()
  // makes of any other value.
  datatype Thrown =
    | ErrorObject(kind: ErrorKind, message: string)
    | TruthyValue(text: string)
    | FalsyValue(text: string)  // 0, "", false
    | Nullish(text: string)     // undefined, null

  datatype Value = Undefined | Data(id: int)

  datatype Outcome = Returned(value: Value) | Threw(error: Thrown)

  predicate IsTruthy(t: Thrown) {
    t.ErrorObject? || t.TruthyValue?
  }

  // A sequential handler: it finishes with an outcome of its choice, or runs a
  // nested command and goes on in one of finitely many ways, both depending on
  // the outcomes it has seen. Catching and rethrowing are such choices.
  datatype Handler =
    | Done(result: seq<Outcome> -> Outcome)
    | Invoke(command: Command, choose: seq<Outcome> -> nat, next: seq<Handler>)

  // service: params.service when it is a string; chainDeployed: what
  // isChainDeployed() resolves to, false when it rejects.
  datatype Command = Command(name: string, service: Option<string>, chainDeployed: bool, handler: Handler)

  // ---- Notifications ----

  datatype EventType = Delete | Deploy | Redeploy | ServiceDown | ServiceRestart | ServiceUp
  datatype Event = Event(kind: EventType, service: Option<string>)
  datatype Status = Succeeded | Failed
  datatype Notification = Notification(event: Event, status: Status, error: Option<string>, commandName: string)

  predicate EndsWith(s: string, suffix: string) {
    |suffix| <= |s| && s[|s| - |suffix|..] == suffix
  }

  function CommandAction(name: string): string {
    var parts := Split(Trim(name), ' ');
    var action := parts[|parts| - 1];
    if EndsWith(action, "-up") then "up" else if EndsWith(action, "-down") then "down" else action
  }

  function ServiceName(name: string, service: Option<string>): string {
    var parts := Split(Trim(name), ' ');
    var action, front := parts[|parts| - 1], parts[..|parts| - 1];
    if service.Some? then service.value
    else if |parts| <= 1 then name
    else if EndsWith(action, "-up") then Join(front + [action[..|action| - 3]], ' ')
    else if EndsWith(action, "-down") then Join(front + [action[..|action| - 5]], ' ')
    else Join(front, ' ')
  }

  function NotificationEvent(c: Command, isRoot: bool): Option<Event> {
    var action := CommandAction(c.name);
    var service := Some(ServiceName(c.name, c.service));
    if c.name == "down" || c.name == "down-offchain" then Some(Event(Delete, None))
    else if isRoot && ("stands " <= c.name || c.name == "up" || c.name == "up-full" || c.name == "chain up") then
      Some(Event(if c.chainDeployed then Redeploy else Deploy, None))
    else if action == "up" then Some(Event(ServiceUp, service))
    else if action == "deploy" then Some(Event(Deploy, service))
    else if action == "down" then Some(Event(ServiceDown, service))
    else if action == "restart" || action == "restart-service" then Some(Event(ServiceRestart, service))
    else None
  }

  // ---- Which event a name stands for ----

  lemma EndsExactly(s: string, suffix: string)
    ensures EndsWith(s, suffix) <==> exists stem :: s == stem + suffix
  {
    if EndsWith(s, suffix) { assert s == s[..|s| - |suffix|] + suffix; }
    if exists stem :: s == stem + suffix {
      var stem :| s == stem + suffix;
      assert s[|s| - |suffix|..] == suffix;
    }
  }

  // A name of several words: what comes before the last one, and that.
  ghost predicate HasWords(name: string, front: string, word: string) {
    ' ' !in word && Trim(name) == front + [' '] + word
  }

  lemma WordsSplit(name: string, front: string, word: string)
    requires HasWords(name, front, word)
    ensures Split(Trim(name), ' ') == Split(front, ' ') + [word]
    ensures Join(Split(front, ' '), ' ') == front
  {
    SplitLast(front, ' ', word);
    SplitExact(front, ' ');
  }

  predicate IsUp(word: string) {
    word == "up" || EndsWith(word, "-up")
  }

  predicate IsDown(word: string) {
    !EndsWith(word, "-up") && (word == "down" || EndsWith(word, "-down"))
  }

  // The last word decides the action.
  lemma ActionOfWord(name: string, word: string)
    requires ' ' !in word && (Trim(name) == word || exists front :: HasWords(name, front, word))
    ensures CommandAction(name) == if IsUp(word) then "up" else if IsDown(word) then "down" else word
  {
    if Trim(name) == word {
      SplitNone(word, ' ');
    } else {
      var front :| HasWords(name, front, word);
      WordsSplit(name, front, word);
    }
  }

  // The service of a name of several words is what comes before the last one, with
  // the stem of a last word that ends in -up or -down; of a single word, the name.
  lemma ServiceOfName(name: string, front: string, word: string, stem: string)
    ensures ' ' !in Trim(name) ==> ServiceName(name, None) == name
    ensures HasWords(name, front, word) && word == stem + "-up" ==> ServiceName(name, None) == front + [' '] + stem
    ensures HasWords(name, front, word) && word == stem + "-down" && !EndsWith(word, "-up") ==>
      ServiceName(name, None) == front + [' '] + stem
    ensures HasWords(name, front, word) && !EndsWith(word, "-up") && !EndsWith(word, "-down") ==>
      ServiceName(name, None) == front
  {
    if ' ' !in Trim(name) { SplitNone(Trim(name), ' '); }
    if HasWords(name, front, word) {
      WordsSplit(name, front, word);
      JoinLast(Split(front, ' '), ' ', stem);
      if word == stem + "-up" {
        EndsExactly(word, "-up");
        assert word[..|word| - 3] == stem;
      }
      if word == stem + "-down" {
        EndsExactly(word, "-down");
        assert word[..|word| - 5] == stem;
      }
    }
  }

  predicate IsDeployName(name: string) {
    "stands " <= name || name in ["up", "up-full", "chain up"]
  }

  // The event of every command, by its name.
  lemma EventOfName(c: Command, isRoot: bool, word: string)
    requires ' ' !in word && (Trim(c.name) == word || exists front :: HasWords(c.name, front, word))
    ensures var e := NotificationEvent(c, isRoot);
      var service := Some(if c.service.Some? then c.service.value else ServiceName(c.name, None));
      if c.name in ["down", "down-offchain"] then e == Some(Event(Delete, None))
      else if isRoot && IsDeployName(c.name) then e == Some(Event(if c.chainDeployed then Redeploy else Deploy, None))
      else if IsUp(word) then e == Some(Event(ServiceUp, service))
      else if IsDown(word) then e == Some(Event(ServiceDown, service))
      else if word == "deploy" then e == Some(Event(Deploy, service))
      else if word in ["restart", "restart-service"] then e == Some(Event(ServiceRestart, service))
      else e == None
  {
    ActionOfWord(c.name, word);
    EventOfAction(c, isRoot, CommandAction(c.name));
    ActionsDiffer(word);
  }

  lemma ActionsDiffer(word: string)
    ensures !(IsUp(word) && IsDown(word))
    ensures word in ["deploy", "restart", "restart-service"] ==> !IsUp(word) && !IsDown(word)
    ensures word == "up" ==> IsUp(word)
    ensures word == "down" ==> IsDown(word)
  {
    if IsUp(word) && word != "up" { assert word[|word| - 1] == "-up"[2]; }
    if IsDown(word) && word != "down" { assert word[|word| - 1] == "-down"[4]; }
  }

  // By action, once the name is no delete and no root deploy.
  lemma EventOfAction(c: Command, isRoot: bool, action: string)
    requires action == CommandAction(c.name)
    ensures var e := NotificationEvent(c, isRoot);
      var service := Some(if c.service.Some? then c.service.value else ServiceName(c.name, None));
      if c.name in ["down", "down-offchain"] then e == Some(Event(Delete, None))
      else if isRoot && IsDeployName(c.name) then e == Some(Event(if c.chainDeployed then Redeploy else Deploy, None))
      else if action == "up" then e == Some(Event(ServiceUp, service))
      else if action == "deploy" then e == Some(Event(Deploy, service))
      else if action == "down" then e == Some(Event(ServiceDown, service))
      else if action in ["restart", "restart-service"] then e == Some(Event(ServiceRestart, service))
      else e == None
  {
  }

  function ErrorMessage(t: Thrown): string {
    match t
    case ErrorObject(_, message) => message
    case TruthyValue(text) => text
    case FalsyValue(text) => text
    case Nullish(text) => text
  }

  // getNotificationEvent as a value; the wrapper's results hold for any.
  type Classifier = (Command, bool) -> Option<Event>

  // What one finished command sends, if it is classified.
  function Notice(classify: Classifier, c: Command, isRoot: bool, o: Outcome): seq<Notification> {
    match classify(c, isRoot)
    case None => []
    case Some(e) =>
      match o
      case Returned(_) => [Notification(e, Succeeded, None, c.name)]
      case Threw(t) => [Notification(e, Failed, Some(ErrorMessage(t)), c.name)]
  }

  // ---- Meaning without the wrapper ----

  function Plain(h: Handler, seen: seq<Outcome>): Outcome
    decreases h
  {
    match h
    case Done(result) => result(seen)
    case Invoke(c, choose, next) =>
      var seen' := seen + [Plain(c.handler, [])];
      if choose(seen') < |next| then Plain(next[choose(seen')], seen') else Returned(Undefined)
  }

  // One execution of a command: how deep it ran and how its handler ended.
  datatype Execution = Execution(command: Command, level: nat, outcome: Outcome)

  // Every execution below a handler at a level, nested ones before the command
  // that made them.
  function PostOrder(h: Handler, level: nat, seen: seq<Outcome>): seq<Execution>
    decreases h
  {
    match h
    case Done(_) => []
    case Invoke(c, choose, next) =>
      var o := Plain(c.handler, []);
      var seen' := seen + [o];
      PostOrder(c.handler, level + 1, []) + [Execution(c, level, o)] +
      (if choose(seen') < |next| then PostOrder(next[choose(seen')], level, seen') else [])
  }

  function Notices(classify: Classifier, es: seq<Execution>): seq<Notification> {
    if es == [] then []
    else Notice(classify, es[0].command, es[0].level == 0, es[0].outcome) + Notices(classify, es[1..])
  }

  // ---- The wrapper ----

  // The error for reading the message of undefined or null.
  function MissingMessage(text: string): string {
    "Cannot read properties of " + text + " (reading 'message')"
  }

  // How a try, catch or finally block completes.
  datatype Completion = Normal | Return(value: Value) | Throw(error: Thrown)

  // The catch block: known errors are logged and returned on; any other value
  // has its message read, which itself throws for undefined and null.
  function CatchBlock(t: Thrown): Completion {
    if t.ErrorObject? && t.kind != OtherError then Return(Undefined)
    else if t.Nullish? then Throw(ErrorObject(OtherError, MissingMessage(t.text)))
    else Normal
  }

  // What leaves the wrapper around a handler outcome at a nesting level. The root
  // never throws and returns no value; inside it, 0, "" and false are swallowed,
  // though the notification says failed, and undefined and null replaced.
  function Surface(level: nat, o: Outcome): Outcome {
    if level == 0 then Returned(Undefined)
    else match o
      case Returned(v) => o
      case Threw(t) =>
        if IsTruthy(t) then o
        else if t.Nullish? then Threw(ErrorObject(OtherError, MissingMessage(t.text)))
        else Returned(Undefined)
  }

  datatype Visit = Visit(name: string, depth: int)

  // Outcome, notifications sent, and the depth each handler started at.
  datatype Report = Report(outcome: Outcome, sent: seq<Notification>, visits: seq<Visit>)

  function Exec(classify: Classifier, c: Command, level: nat): Report
    decreases c, 1
  {
    var r := ExecHandler(classify, c.handler, level + 1, []);
    Report(Surface(level, r.outcome), r.sent + Notice(classify, c, level == 0, r.outcome),
           [Visit(c.name, level + 1)] + r.visits)
  }

  function ExecHandler(classify: Classifier, h: Handler, level: nat, seen: seq<Outcome>): Report
    decreases h, 0
  {
    match h
    case Done(result) => Report(result(seen), [], [])
    case Invoke(c, choose, next) =>
      var r := Exec(classify, c, level);
      var seen' := seen + [r.outcome];
      if choose(seen') < |next| then
        var rest := ExecHandler(classify, next[choose(seen')], level, seen');
        Report(rest.outcome, r.sent + rest.sent, r.visits + rest.visits)
      else Report(Returned(Undefined), r.sent, r.visits)
  }

  // The report r was added to what had been sent and visited before.
  ghost predicate Adds(r: Report, o: Outcome, sent0: seq<Notification>, visits0: seq<Visit>,
                       sent: seq<Notification>, visits: seq<Visit>)
  {
    o == r.outcome && sent == sent0 + r.sent && visits == visits0 + r.visits
  }

  // The module-level counter, and what has been sent and started so far.
  class Runtime {
    const classify: Classifier
    var depth: nat
    var sent: seq<Notification>
    ghost var visits: seq<Visit>

    constructor ()
      ensures depth == 0 && sent == [] && visits == []
      ensures classify == NotificationEvent
    {
      classify := NotificationEvent;
      depth, sent, visits := 0, [], [];
    }

    method ExecuteCommandWithLogging(c: Command) returns (o: Outcome)
      modifies this
      ensures depth == old(depth)
      ensures depth == 0 ==> o == Returned(Undefined)
      ensures Adds(Exec(classify, c, old(depth)), o, old(sent), old(visits), sent, visits)
      decreases c, 1
    {
      var isRoot := depth == 0;
      var notification := classify(c, isRoot);
      // try
      depth := depth + 1;
      visits := visits + [Visit(c.name, depth)];
      var result := RunHandler(c.handler, []);
      var lastError: Option<Thrown>, completion, status, errorMessage := None, Normal, Succeeded, None;
      match result {
        case Returned(value) =>
          completion := Return(value);
        case Threw(error) =>
          // catch
          lastError, status, errorMessage := Some(error), Failed, Some(ErrorMessage(error));
          completion := CatchBlock(error);
      }
      // finally
      if notification.Some? {
        sent := sent + [Notification(notification.value, status, errorMessage, c.name)];
      }
      depth := depth - 1;
      if depth == 0 { return Returned(Undefined); }
      if lastError.Some? && IsTruthy(lastError.value) { return Threw(lastError.value); }
      o := match completion
        case Normal => Returned(Undefined)
        case Return(value) => Returned(value)
        case Throw(error) => Threw(error);
    }

    method RunHandler(h: Handler, seen: seq<Outcome>) returns (o: Outcome)
      modifies this
      ensures depth == old(depth)
      ensures Adds(ExecHandler(classify, h, old(depth), seen), o, old(sent), old(visits), sent, visits)
      decreases h, 0
    {
      match h {
        case Done(result) =>
          o := result(seen);
        case Invoke(c, choose, next) =>
          var r := ExecuteCommandWithLogging(c);
          var seen' := seen + [r];
          if choose(seen') < |next| {
            o := RunHandler(next[choose(seen')], seen');
          } else {
            o := Returned(Undefined);
          }
      }
    }
  }

  // What the wrapper passes on.
  predicate Passes(o: Outcome) {
    o.Returned? || IsTruthy(o.error)
  }

  // ---- Main results ----

  ghost predicate AllPass(es: seq<Execution>) {
    forall e :: e in es ==> Passes(e.outcome)
  }

  // The nesting levels at which handlers start, outermost first.
  function Levels(h: Handler, level: nat, seen: seq<Outcome>): seq<Visit>
    decreases h
  {
    match h
    case Done(_) => []
    case Invoke(c, choose, next) =>
      var seen' := seen + [Plain(c.handler, [])];
      [Visit(c.name, level + 1)] + Levels(c.handler, level + 1, []) +
      (if choose(seen') < |next| then Levels(next[choose(seen')], level, seen') else [])
  }

  lemma {:induction false} NoticesConcat(classify: Classifier, a: seq<Execution>, b: seq<Execution>)
    ensures Notices(classify, a + b) == Notices(classify, a) + Notices(classify, b)
  {
    if a == [] {
      assert a + b == b;
    } else {
      NoticesConcat(classify, a[1..], b);
      assert (a + b)[0] == a[0] && (a + b)[1..] == a[1..] + b;
      Associative(Notice(classify, a[0].command, a[0].level == 0, a[0].outcome),
                  Notices(classify, a[1..]), Notices(classify, b));
    }
  }

  lemma NoticesOfOne(classify: Classifier, e: Execution)
    ensures Notices(classify, [e]) == Notice(classify, e.command, e.level == 0, e.outcome)
  {
    assert [e][1..] == [];
  }

  // Every execution caused by running a command at a level.
  function Executions(c: Command, level: nat): seq<Execution> {
    PostOrder(c.handler, level + 1, []) + [Execution(c, level, Plain(c.handler, []))]
  }

  lemma AllPassConcat(a: seq<Execution>, b: seq<Execution>)
    ensures AllPass(a + b) <==> AllPass(a) && AllPass(b)
  {
    assert forall e :: e in a + b <==> e in a || e in b;
  }

  // All executions of a nested command pass: those inside it, and its own.
  lemma ExecutionsPass(c: Command, level: nat)
    ensures AllPass(Executions(c, level)) <==>
            AllPass(PostOrder(c.handler, level + 1, [])) && Passes(Plain(c.handler, []))
  {
    AllPassConcat(PostOrder(c.handler, level + 1, []), [Execution(c, level, Plain(c.handler, []))]);
    assert Execution(c, level, Plain(c.handler, [])) in [Execution(c, level, Plain(c.handler, []))];
  }

  // Executions a handler still causes after its first nested command.
  function RestOrder(h: Handler, level: nat, seen: seq<Outcome>): seq<Execution>
    requires h.Invoke?
  {
    var seen' := seen + [Plain(h.command.handler, [])];
    if h.choose(seen') < |h.next| then PostOrder(h.next[h.choose(seen')], level, seen') else []
  }

  lemma PostOrderSplits(h: Handler, level: nat, seen: seq<Outcome>)
    requires h.Invoke?
    ensures PostOrder(h, level, seen) == Executions(h.command, level) + RestOrder(h, level, seen)
    ensures AllPass(PostOrder(h, level, seen)) <==>
            AllPass(Executions(h.command, level)) && AllPass(RestOrder(h, level, seen))
  {
    AllPassConcat(Executions(h.command, level), RestOrder(h, level, seen));
  }

  lemma {:induction false} HandlerMeaning(classify: Classifier, h: Handler, level: nat, seen: seq<Outcome>)
    requires level > 0 && AllPass(PostOrder(h, level, seen))
    ensures ExecHandler(classify, h, level, seen) ==
            Report(Plain(h, seen), Notices(classify, PostOrder(h, level, seen)), Levels(h, level, seen))
    decreases h, 0
  {
    match h {
      case Done(_) =>
      case Invoke(c, choose, next) =>
        PostOrderSplits(h, level, seen);
        ExecutionsPass(c, level);
        CommandMeaning(classify, c, level);
        var seen' := seen + [Plain(c.handler, [])];
        if choose(seen') < |next| {
          HandlerMeaning(classify, next[choose(seen')], level, seen');
        }
        NoticesConcat(classify, Executions(c, level), RestOrder(h, level, seen));
    }
  }

  // When everything run inside a command passes: a nested command yields exactly
  // its handler's own value or error, whatever the error class, if and only if that
  // passes too; the notifications are those of the classified executions, in
  // post-order, each with the status and error of its own run; and every handler
  // starts at its nesting level.
  lemma {:induction false} CommandMeaning(classify: Classifier, c: Command, level: nat)
    requires AllPass(PostOrder(c.handler, level + 1, []))
    ensures var r := Exec(classify, c, level);
      && (level == 0 ==> r.outcome == Returned(Undefined))
      && (level > 0 ==> (r.outcome == Plain(c.handler, []) <==> Passes(Plain(c.handler, []))))
      && (level > 0 && Plain(c.handler, []).Threw? ==>
            match Plain(c.handler, []).error
            case FalsyValue(_) => r.outcome == Returned(Undefined)
            case Nullish(text) =>
              r.outcome == Threw(ErrorObject(OtherError, "Cannot read properties of " + text + " (reading 'message')"))
            case error => r.outcome == Threw(error))
      && r.sent == Notices(classify, Executions(c, level))
      && r.visits == [Visit(c.name, level + 1)] + Levels(c.handler, level + 1, [])
    decreases c, 1
  {
    var nested := PostOrder(c.handler, level + 1, []);
    HandlerMeaning(classify, c.handler, level + 1, []);
    NoticesConcat(classify, nested, [Execution(c, level, Plain(c.handler, []))]);
    NoticesOfOne(classify, Execution(c, level, Plain(c.handler, [])));
  }

  // ---- What is sent ----

  // The executions that stand for an event, in order.
  function Accepted(classify: Classifier, es: seq<Execution>): seq<Execution> {
    if es == [] then []
    else (if classify(es[0].command, es[0].level == 0).Some? then [es[0]] else []) + Accepted(classify, es[1..])
  }

  // Name, event, status and error of one execution: succeeded without an error
  // exactly when it returned, failed with the error's text exactly when it threw.
  ghost predicate Announces(classify: Classifier, n: Notification, e: Execution) {
    && n.commandName == e.command.name && Some(n.event) == classify(e.command, e.level == 0)
    && (n.status == Succeeded && n.error == None <==> e.outcome.Returned?)
    && (n.status == Failed && n.error.Some? <==> e.outcome.Threw?)
    && (e.outcome.Threw? ==>
          n.error == Some(if e.outcome.error.ErrorObject? then e.outcome.error.message else e.outcome.error.text))
  }

  ghost predicate AnnouncesAll(classify: Classifier, ns: seq<Notification>, es: seq<Execution>) {
    |ns| == |es| && forall k :: 0 <= k < |ns| ==> Announces(classify, ns[k], es[k])
  }

  lemma {:induction false} NoticesAnnounce(classify: Classifier, es: seq<Execution>)
    ensures AnnouncesAll(classify, Notices(classify, es), Accepted(classify, es))
  {
    if es == [] {
    } else {
      NoticesAnnounce(classify, es[1..]);
    }
  }

  // When everything run inside a command passes, it sends exactly one notification
  // for each execution that stands for an event, in post-order, each announcing its
  // own; the command itself comes last.
  lemma SentExactly(classify: Classifier, c: Command, level: nat)
    requires AllPass(PostOrder(c.handler, level + 1, []))
    ensures AnnouncesAll(classify, Exec(classify, c, level).sent, Accepted(classify, Executions(c, level)))
    ensures var es := Executions(c, level); es[|es| - 1] == Execution(c, level, Plain(c.handler, []))
  {
    CommandMeaning(classify, c, level);
    NoticesAnnounce(classify, Executions(c, level));
  }

  // ---- How deep handlers start ----

  // Depths of handlers in the order they start: the first at this depth, none above
  // it, and each at most one below the one before.
  ghost predicate StepsDown(visits: seq<Visit>, depth: int) {
    && (visits != [] ==> visits[0].depth == depth)
    && (forall i :: 0 <= i < |visits| ==> depth <= visits[i].depth)
    && (forall i :: 0 < i < |visits| ==> visits[i].depth <= visits[i - 1].depth + 1)
  }

  lemma StepsDownConcat(a: seq<Visit>, b: seq<Visit>, depth: int)
    requires StepsDown(a, depth) && StepsDown(b, depth)
    ensures StepsDown(a + b, depth)
  {
    var all := a + b;
    forall i | 0 < i < |all| ensures all[i].depth <= all[i - 1].depth + 1 {
      if i < |a| {
        assert all[i] == a[i] && all[i - 1] == a[i - 1];
      } else if i > |a| {
        assert all[i] == b[i - |a|] && all[i - 1] == b[i - |a| - 1];
      }
    }
  }

  lemma StepsDownUnder(first: Visit, rest: seq<Visit>)
    requires StepsDown(rest, first.depth + 1)
    ensures StepsDown([first] + rest, first.depth)
  {
  }

  lemma {:induction false} HandlerDepths(classify: Classifier, h: Handler, level: nat, seen: seq<Outcome>)
    ensures StepsDown(ExecHandler(classify, h, level, seen).visits, level + 1)
    decreases h, 0
  {
    match h {
      case Done(_) =>
      case Invoke(c, choose, next) =>
        CommandDepths(classify, c, level);
        var r := Exec(classify, c, level);
        var seen' := seen + [r.outcome];
        if choose(seen') < |next| {
          HandlerDepths(classify, next[choose(seen')], level, seen');
          StepsDownConcat(r.visits, ExecHandler(classify, next[choose(seen')], level, seen').visits, level + 1);
        }
    }
  }

  // Whatever happens, a command's handler starts one deeper than the command was
  // called, and so on down.
  lemma {:induction false} CommandDepths(classify: Classifier, c: Command, level: nat)
    ensures var visits := Exec(classify, c, level).visits;
      visits != [] && visits[0] == Visit(c.name, level + 1) && StepsDown(visits, level + 1)
    decreases c, 1
  {
    HandlerDepths(classify, c.handler, level + 1, []);
    StepsDownUnder(Visit(c.name, level + 1), ExecHandler(classify, c.handler, level + 1, []).visits);
  }

  // ---- What handlers observe ----

  // What a handler sees of its nested commands, in order, and they of theirs.
  datatype Observation = Nothing | Saw(inner: Observation, outcome: Outcome, rest: Observation)

  function PlainObservation(h: Handler, seen: seq<Outcome>): Observation
    decreases h
  {
    match h
    case Done(_) => Nothing
    case Invoke(c, choose, next) =>
      var o := Plain(c.handler, []);
      var seen' := seen + [o];
      Saw(PlainObservation(c.handler, []), o,
          if choose(seen') < |next| then PlainObservation(next[choose(seen')], seen') else Nothing)
  }

  function WrappedObservation(classify: Classifier, h: Handler, level: nat, seen: seq<Outcome>): Observation
    decreases h
  {
    match h
    case Done(_) => Nothing
    case Invoke(c, choose, next) =>
      var o := Exec(classify, c, level).outcome;
      var seen' := seen + [o];
      Saw(WrappedObservation(classify, c.handler, level + 1, []), o,
          if choose(seen') < |next| then WrappedObservation(classify, next[choose(seen')], level, seen') else Nothing)
  }

  // The wrapper is invisible to every handler of a tree if and only if every nested
  // execution ends in a return or a truthy throw.
  lemma {:induction false} InvisibleExactly(classify: Classifier, h: Handler, level: nat, seen: seq<Outcome>)
    requires level > 0
    ensures WrappedObservation(classify, h, level, seen) == PlainObservation(h, seen) <==>
            AllPass(PostOrder(h, level, seen))
    decreases h
  {
    match h {
      case Done(_) =>
      case Invoke(c, choose, next) =>
        PostOrderSplits(h, level, seen);
        ExecutionsPass(c, level);
        InvisibleExactly(classify, c.handler, level + 1, []);
        if AllPass(PostOrder(c.handler, level + 1, [])) {
          CommandMeaning(classify, c, level);
          var seen' := seen + [Plain(c.handler, [])];
          if Passes(Plain(c.handler, [])) && choose(seen') < |next| {
            InvisibleExactly(classify, next[choose(seen')], level, seen');
          }
        }
    }
  }

  // Handlers that only throw truthy values, Error objects in particular.
  ghost predicate ThrowsTruthy(h: Handler)
    decreases h
  {
    match h
    case Done(result) => forall seen :: Passes(result(seen))
    case Invoke(c, _, next) => ThrowsTruthy(c.handler) && forall k :: 0 <= k < |next| ==> ThrowsTruthy(next[k])
  }

  lemma {:induction false} PlainIsTruthy(h: Handler, seen: seq<Outcome>)
    requires ThrowsTruthy(h)
    ensures Passes(Plain(h, seen))
    decreases h
  {
    match h {
      case Done(_) =>
      case Invoke(c, choose, next) =>
        var seen' := seen + [Plain(c.handler, [])];
        if choose(seen') < |next| { PlainIsTruthy(next[choose(seen')], seen'); }
    }
  }

  // In such trees everything passes, so all of the above holds of them.
  lemma {:induction false} TruthyTreesPass(h: Handler, level: nat, seen: seq<Outcome>)
    requires ThrowsTruthy(h)
    ensures AllPass(PostOrder(h, level, seen))
    decreases h
  {
    match h {
      case Done(_) =>
      case Invoke(c, choose, next) =>
        PostOrderSplits(h, level, seen);
        ExecutionsPass(c, level);
        TruthyTreesPass(c.handler, level + 1, []);
        PlainIsTruthy(c.handler, []);
        var seen' := seen + [Plain(c.handler, [])];
        if choose(seen') < |next| { TruthyTreesPass(next[choose(seen')], level, seen'); }
    }
  }
}
