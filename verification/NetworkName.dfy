// The devnet name: which one a command runs under, and how long it sticks.
module NetworkName {
  import opened EnvFile
  import opened Strings
  import opened Wrappers

  // ---- Which name a command runs under ----

  predicate HasNetworkFlag(argv: seq<string>) {
    exists i :: 0 <= i < |argv| && (argv[i] == "--network" || "--network=" <= argv[i])
  }

  predicate IsRootDeploy(commandName: string) {
    "stands " <= commandName || commandName in ["up", "up-full", "chain up", "stand run", "stand:run"]
  }

  // DEFAULT_NETWORK_NAME, computed when the commands are loaded.
  function DefaultNetworkName(envName: Option<string>): string {
    Normalize(envName).GetOr("my-devnet")
  }

  // One resolution: the command, its arguments, the value of the network option,
  // and the name the generator would come up with.
  datatype Request = Request(commandName: string, argv: seq<string>, network: Option<string>, candidate: string)

  datatype Resolved = Resolved(name: string, generated: bool, persisted: bool)

  // process.env.DEVNET_NAME and the .env file.
  datatype World = World(envName: Option<string>, file: Option<string>)

  predicate Explicit(r: Request) {
    HasNetworkFlag(r.argv) && Normalize(r.network).Some?
  }

  function Keep(w: World, name: string): World {
    World(Some(name), Some(Persisted(KEY, w.file, name)))
  }

  // One resolution, given whether the command is a root deploy and whether the
  // name is set explicitly.
  function ResolveAs(w: World, requested: Option<string>, candidate: string, rootDeploy: bool,
                     explicit: bool): (World, Resolved)
    requires explicit ==> requested.Some?
  {
    var current := Normalize(w.envName);
    if explicit then
      if rootDeploy && current.None? then (Keep(w, requested.value), Resolved(requested.value, false, true))
      else (w, Resolved(requested.value, false, false))
    else if current.Some? then (w, Resolved(current.value, false, false))
    else if !rootDeploy then (w, Resolved(requested.GetOr(DefaultNetworkName(w.envName)), false, false))
    else (Keep(w, candidate), Resolved(candidate, true, true))
  }

  function Resolve(w: World, r: Request): (World, Resolved) {
    ResolveAs(w, Normalize(r.network), r.candidate, IsRootDeploy(r.commandName), Explicit(r))
  }

  // ---- What a resolution yields ----

  lemma FlagForms(argv: seq<string>)
    ensures HasNetworkFlag(argv) <==>
            exists i :: 0 <= i < |argv| && (argv[i] == "--network" || exists v :: argv[i] == "--network=" + v)
  {
    forall i | 0 <= i < |argv| ensures "--network=" <= argv[i] <==> exists v :: argv[i] == "--network=" + v {
      PrefixExactly("--network=", argv[i]);
    }
  }

  lemma PrefixExactly(p: string, s: string)
    ensures p <= s <==> exists v :: s == p + v
  {
    if p <= s { assert s == p + s[|p|..]; }
  }

  lemma DeployNames(name: string)
    ensures IsRootDeploy(name) <==>
            name in ["up", "up-full", "chain up", "stand run", "stand:run"] || exists rest :: name == "stands " + rest
  {
    PrefixExactly("stands ", name);
  }

  ghost predicate IsBlank(value: Option<string>) {
    value.None? || Trim(value.value) == ""
  }

  // The flag with a non-blank value wins over a name in force, and that over
  // everything else; without either, a root deploy runs under the candidate and any
  // other command under the value it was given, or the default. A name is persisted
  // exactly by a root deploy that finds none in force, and generated exactly when,
  // besides, the flag gives none; the world changes only then.
  lemma ResolveMeaning(w: World, r: Request)
    ensures var (w', res) := Resolve(w, r);
      var flagged, named := HasNetworkFlag(r.argv) && !IsBlank(r.network), !IsBlank(w.envName);
      var deploy := IsRootDeploy(r.commandName);
      && (flagged ==> res.name == Trim(r.network.value))
      && (!flagged && named ==> res.name == Trim(w.envName.value))
      && (!flagged && !named && deploy ==> res.name == r.candidate)
      && (!flagged && !named && !deploy ==>
            res.name == if IsBlank(r.network) then "my-devnet" else Trim(r.network.value))
      && (res.persisted <==> deploy && !named)
      && (res.generated <==> deploy && !named && !flagged)
      && w' == if deploy && !named then World(Some(res.name), Some(Persisted(KEY, w.file, res.name))) else w
  {
  }

  // The file a root deploy makes where there is none.
  lemma FreshEnvFile(name: string)
    ensures Persisted(KEY, None, name) == "DEVNET_NAME=" + name + "\n"
  {
    NewLineOnTop(KEY, "", name);
  }

  // ---- Processes ----

  // Every command line is a process of its own: the value of DEVNET_NAME in the
  // shell that starts it, and the one resolution it makes.
  datatype Start = Start(shell: Option<string>, request: Request)

  // Start-up loads the file; a variable that is set, even blank, is kept.
  function Boot(shell: Option<string>, file: Option<string>): World {
    World(if shell.Some? then shell else LoadedName(file), file)
  }

  // What a process leaves in the file, and the name it runs under.
  function RunProcess(file: Option<string>, p: Start): (Option<string>, Resolved) {
    var (w, r) := Resolve(Boot(p.shell, file), p.request);
    (w.file, r)
  }

  function RunProcesses(file: Option<string>, ps: seq<Start>): Option<string>
    decreases |ps|
  {
    if ps == [] then file else RunProcesses(RunProcess(file, ps[0]).0, ps[1..])
  }

  class Process {
    var devnetName: Option<string>
    var envFile: Option<string>

    constructor (shell: Option<string>, file: Option<string>)
      ensures View() == Boot(shell, file)
    {
      envFile := file;
      devnetName := if shell.Some? then shell else LoadedName(file);
    }

    ghost function View(): World
      reads this
    {
      World(devnetName, envFile)
    }

    method PersistDevnetName(name: string)
      modifies this`envFile
      ensures envFile == Some(Persisted(KEY, old(envFile), name))
    {
      var nextLine := KEY + name;
      match envFile {
        case None =>
          envFile := Some(nextLine + "\n");
        case Some(content) =>
          match Find(KEY, content) {
            case Some(h) =>
              var updated := h.With(Expand(nextLine, h)).Text();
              if updated != content {
                envFile := Some(updated);
              }
            case None =>
              var separator := if |content| > 0 then "\n" else "";
              envFile := Some(nextLine + separator + content);
          }
      }
    }

    method ResolveCliNetworkName(r: Request) returns (result: Resolved)
      modifies this
      ensures (View(), result) == Resolve(old(View()), r)
    {
      var requested := Normalize(r.network);
      var current := Normalize(devnetName);
      var rootDeploy := IsRootDeploy(r.commandName);
      if HasNetworkFlag(r.argv) && requested.Some? {
        var shouldPersist := rootDeploy && current.None?;
        if shouldPersist {
          PersistDevnetName(requested.value);
          devnetName := requested;
        }
        return Resolved(requested.value, false, shouldPersist);
      }
      if current.Some? {
        return Resolved(current.value, false, false);
      }
      if !rootDeploy {
        return Resolved(requested.GetOr(DefaultNetworkName(devnetName)), false, false);
      }
      PersistDevnetName(r.candidate);
      devnetName := Some(r.candidate);
      result := Resolved(r.candidate, true, true);
    }
  }

  // ---- Main results ----

  // The next process that loads the file, with nothing in its shell, finds this name.
  predicate Carries(file: Option<string>, name: string) {
    Normalize(LoadedName(file)) == Some(name)
  }

  // A call that takes its name from where the deploy left it: no variable in the
  // shell, no explicit flag.
  predicate Follows(later: Start) {
    later.shell.None? && !Explicit(later.request)
  }

  lemma FollowerTakes(file: Option<string>, later: Start)
    requires Follows(later)
    ensures Normalize(LoadedName(file)).Some? ==>
      RunProcess(file, later).1 == Resolved(Normalize(LoadedName(file)).value, false, false)
  {
  }

  // A follower that would show that the file does not carry a name.
  function Probe(name: string): Start {
    Start(None, Request("up", [], None, name + "x"))
  }

  lemma ProbeFollows(name: string)
    ensures Follows(Probe(name)) && IsRootDeploy(Probe(name).request.commandName)
  {
  }

  lemma ProbeGenerates(file: Option<string>, name: string)
    requires Normalize(LoadedName(file)).None?
    ensures RunProcess(file, Probe(name)).1.name == name + "x"
  {
    ProbeFollows(name);
  }

  ghost predicate AllFollow(file: Option<string>, name: string) {
    forall later :: Follows(later) ==> RunProcess(file, later).1.name == name
  }

  // Every follower runs under a name if and only if the file carries it.
  lemma FollowersAgree(file: Option<string>, name: string)
    ensures Carries(file, name) <==> AllFollow(file, name)
  {
    if Carries(file, name) {
      forall later | Follows(later) ensures RunProcess(file, later).1.name == name {
        FollowerTakes(file, later);
      }
    } else {
      ProbeFollows(name);
      if Normalize(LoadedName(file)).None? {
        ProbeGenerates(file, name);
      } else {
        FollowerTakes(file, Probe(name));
      }
      assert RunProcess(file, Probe(name)).1.name != name;
    }
  }

  // The name in force when a process resolves: the shell's variable if it is set, else
  // what the file loads.
  lemma BootMeaning(shell: Option<string>, file: Option<string>)
    ensures Boot(shell, file).file == file
    ensures shell.Some? ==> Boot(shell, file).envName == shell
    ensures shell.None? && file.Some? ==> Boot(shell, file).envName == Loaded(DOTENV_LINE, file.value)
    ensures shell.None? && file.None? ==> Boot(shell, file).envName == None
  {
  }

  // ---- What one process does to the name ----

  // A process writes the file: a root deploy that finds no name in force.
  predicate Writes(file: Option<string>, p: Start) {
    IsRootDeploy(p.request.commandName) && Normalize(Boot(p.shell, file).envName).None?
  }

  function RunsUnder(file: Option<string>, p: Start): string {
    RunProcess(file, p).1.name
  }

  lemma WritesItsName(file: Option<string>, p: Start)
    ensures RunProcess(file, p).0 ==
            if Writes(file, p) then Some(Persisted(KEY, file, RunsUnder(file, p))) else file
  {
  }

  // Exactly when the file carries a name after a process, whatever it runs under.
  lemma ProcessCarries(file: Option<string>, p: Start, name: string)
    requires name != ""
    ensures Carries(RunProcess(file, p).0, name) <==>
            if Writes(file, p) then Arrives(file, RunsUnder(file, p), name) else Carries(file, name)
  {
    WritesItsName(file, p);
    PersistedLoads(file, RunsUnder(file, p), name);
  }

  // In particular, when it writes a one-line name that is no pattern replacement.
  lemma OneLineWriterCarries(file: Option<string>, p: Start, name: string)
    requires name != "" && Writes(file, p)
    requires OneLine(RunsUnder(file, p)) && !ReplacesByPattern(KEY, file, RunsUnder(file, p))
    ensures Carries(RunProcess(file, p).0, name) <==>
      match Loaded(DOTENV_LINE, Slot(KEY, file).after)
      case Some(v) => Trim(v) == name
      case None => Trim(DotenvValue(RunsUnder(file, p))) == name
  {
    ProcessCarries(file, p, name);
    OneLineArrives(file, RunsUnder(file, p), name);
  }

  // A call that cannot overwrite a name the file has: any but a root deploy whose
  // shell sets the variable to blank text.
  predicate Quiet(p: Start) {
    p.shell.None? || Normalize(p.shell).Some? || !IsRootDeploy(p.request.commandName)
  }

  lemma NoisyWrites(file: Option<string>, p: Start)
    requires Normalize(LoadedName(file)).Some?
    ensures Writes(file, p) <==> !Quiet(p)
  {
  }

  // ---- What a sequence of processes does ----

  // The last process of a sequence that writes the file.
  function LastWriter(file: Option<string>, ps: seq<Start>): (r: Option<nat>)
    ensures r.Some? ==> r.value < |ps|
    decreases |ps|
  {
    if ps == [] then None
    else
      match LastWriter(RunProcess(file, ps[0]).0, ps[1..])
      case Some(j) => Some(j + 1)
      case None => if Writes(file, ps[0]) then Some(0) else None
  }

  // The last writer decides; without one the file does.
  predicate Survives(file: Option<string>, ps: seq<Start>, name: string) {
    match LastWriter(file, ps)
    case None => Carries(file, name)
    case Some(j) =>
      var before := RunProcesses(file, ps[..j]);
      Arrives(before, RunsUnder(before, ps[j]), name)
  }

  lemma RunFirst(file: Option<string>, ps: seq<Start>, j: nat)
    requires ps != [] && j < |ps|
    ensures RunProcesses(file, ps[..j + 1]) == RunProcesses(RunProcess(file, ps[0]).0, ps[1..][..j])
  {
    assert ps[..j + 1][1..] == ps[1..][..j];
  }

  lemma SurvivesFirst(file: Option<string>, ps: seq<Start>, name: string)
    requires ps != [] && name != ""
    ensures Survives(file, ps, name) <==> Survives(RunProcess(file, ps[0]).0, ps[1..], name)
  {
    var file1 := RunProcess(file, ps[0]).0;
    match LastWriter(file1, ps[1..]) {
      case Some(j) =>
        RunFirst(file, ps, j);
        assert ps[1..][j] == ps[j + 1];
      case None =>
        ProcessCarries(file, ps[0], name);
        assert ps[..0] == [];
    }
  }

  // Exactly when a name is carried after any sequence of processes.
  lemma {:induction false} SequenceCarries(file: Option<string>, ps: seq<Start>, name: string)
    requires name != ""
    ensures Carries(RunProcesses(file, ps), name) <==> Survives(file, ps, name)
    decreases |ps|
  {
    if ps == [] {
    } else {
      SequenceCarries(RunProcess(file, ps[0]).0, ps[1..], name);
      SurvivesFirst(file, ps, name);
    }
  }

  // Once the file names a devnet, no quiet process writes it.
  lemma {:induction false} NamedFileIsFixed(file: Option<string>, ps: seq<Start>)
    requires forall p :: p in ps ==> Quiet(p)
    ensures Normalize(LoadedName(file)).Some? ==> LastWriter(file, ps) == None && RunProcesses(file, ps) == file
    decreases |ps|
  {
    if ps == [] {
    } else if Normalize(LoadedName(file)).Some? {
      NoisyWrites(file, ps[0]);
      WritesItsName(file, ps[0]);
      NamedFileIsFixed(file, ps[1..]);
    }
  }

  // ---- Main results ----

  // When the name of a root deploy is kept. A deploy that finds a name in force
  // writes nothing: the file must already carry what it runs under. Otherwise the
  // name it writes must arrive.
  predicate IsKept(file: Option<string>, deploy: Start) {
    var name := RunsUnder(file, deploy);
    if Normalize(Boot(deploy.shell, file).envName).Some? then Carries(file, name) else Arrives(file, name, name)
  }

  lemma NormalizedIsTrimmed(value: Option<string>)
    ensures Normalize(value).Some? ==> IsTrimmed(Normalize(value).value) && Normalize(value).value != ""
  {
  }

  // Generated names are non-empty and carry no outer white space.
  predicate FreshIsTrimmed(r: Request) {
    r.candidate != "" && IsTrimmed(r.candidate)
  }

  lemma DeployName(file: Option<string>, deploy: Start)
    requires FreshIsTrimmed(deploy.request) && IsRootDeploy(deploy.request.commandName)
    ensures RunsUnder(file, deploy) != "" && IsTrimmed(RunsUnder(file, deploy))
  {
    NormalizedIsTrimmed(deploy.request.network);
    NormalizedIsTrimmed(Boot(deploy.shell, file).envName);
  }

  // Stickiness over processes, whatever the names and whatever runs in between.
  // Right after a root deploy, every call that neither sets the variable nor passes
  // the flag runs under the deploy's name if and only if the name is kept. After any
  // further processes they still do if and only if it survives those; quiet ones
  // never harm it.
  lemma StickyName(file: Option<string>, deploy: Start, between: seq<Start>)
    requires IsRootDeploy(deploy.request.commandName) && FreshIsTrimmed(deploy.request)
    ensures var (kept, first) := RunProcess(file, deploy);
      && (AllFollow(kept, first.name) <==> IsKept(file, deploy))
      && (AllFollow(RunProcesses(kept, between), first.name) <==> Survives(kept, between, first.name))
      && (IsKept(file, deploy) && (forall p :: p in between ==> Quiet(p)) ==> Survives(kept, between, first.name))
  {
    var (kept, first) := RunProcess(file, deploy);
    DeployName(file, deploy);
    ProcessCarries(file, deploy, first.name);
    FollowersAgree(kept, first.name);
    FollowersAgree(RunProcesses(kept, between), first.name);
    SequenceCarries(kept, between, first.name);
    if forall p :: p in between ==> Quiet(p) { NamedFileIsFixed(kept, between); }
  }

  // The same, read off the inputs, for a deploy that is no pattern replacement: its
  // name is kept if and only if the file already carried it, or nothing assigns
  // another name after the line it writes and the name is one loadable line.
  lemma PlainDeployIsKept(file: Option<string>, deploy: Start)
    requires IsRootDeploy(deploy.request.commandName) && FreshIsTrimmed(deploy.request)
    requires !ReplacesByPattern(KEY, file, RunsUnder(file, deploy))
    ensures IsKept(file, deploy) <==>
            if Writes(file, deploy) then SlotCarries(Slot(KEY, file).after, RunsUnder(file, deploy))
            else Carries(file, RunsUnder(file, deploy))
  {
    DeployName(file, deploy);
    PlainArrives(file, RunsUnder(file, deploy));
  }

  // A root deploy started with the variable blank.
  function BlankShellDeploy(name: string): Start {
    Start(Some(""), Request("up", [], None, name))
  }

  lemma BlankShellWrites(file: Option<string>, name: string)
    ensures !Quiet(BlankShellDeploy(name)) && Writes(file, BlankShellDeploy(name))
    ensures RunsUnder(file, BlankShellDeploy(name)) == name
  {
  }

  // It puts its own name over the one the file carries.
  lemma BlankShellReplaces(a: string, b: string)
    requires a != "" && IsTrimmed(a) && OneLine(a) && IsLoadable(a)
    requires b != "" && IsTrimmed(b) && OneLine(b) && IsLoadable(b) && !HasPattern(b)
    ensures Carries(Some(KEY + a), a) && Carries(RunProcess(Some(KEY + a), BlankShellDeploy(b)).0, b)
  {
    KeyIsKey();
    DotenvReads();
    KeyedLoads(a);
    FindHere(KEY, KEY + a, "");
    assert KEY + a + "" == KEY + a;
    LoadedOneLine(DOTENV_LINE, "");
    PlainArrives(Some(KEY + a), b);
    BlankShellWrites(Some(KEY + a), b);
    ProcessCarries(Some(KEY + a), BlankShellDeploy(b), b);
  }

  lemma LineAfterBreak(read: LineReader, line: string)
    requires SkipsEmpty(read) && OneLine(line)
    ensures Loaded(read, "\n" + line) == read(line)
  {
    assert "" + ['\n'] + line == "\n" + line;
    LoadedFirst(read, "", '\n', line);
    LoadedOneLine(read, line);
  }

  // A second DEVNET_NAME line, even a blank one, wins over the one rewritten.
  lemma LaterLineWins(name: string)
    requires name != ""
    ensures !Carries(Some(Persisted(KEY, Some(KEY + ("\n" + KEY)), name)), name)
  {
    KeyIsKey();
    DotenvReads();
    FindHere(KEY, KEY, "\n" + KEY);
    LineAfterBreak(DOTENV_LINE, KEY);
    DotenvKeyLine("");
    assert KEY + "" == KEY;
    ValueShrinks();
    TrimExact(DotenvValue(""));
    PersistedLoads(Some(KEY + ("\n" + KEY)), name, name);
  }
}
