/** Export of specifications to a manifest, and conversion of a manifest back to specifications. */
module Manifest {
  import opened Text
  import opened Tokenizer
  import opened Collections

  const DEFAULT_NAMESPACE := "default"
  const MAX_ARG_COUNT := 256

  // ----- what the daemon stores

  datatype Kind = Command | Entry | Other
  datatype Exec = Exec(kind: Kind, command: Option<string>, args: Option<seq<string>>,
                       entry: Option<string>, runtime: Option<string>, shell: bool)

  datatype Logs = Logs(mode: string, dir: Option<string>, stdout: Option<string>, stderr: Option<string>,
                       format: Option<string>, timestamp: Option<string>)

  datatype Restart = Restart(policy: string, maxRetries: Option<int>, backoffMs: Option<int>,
                             backoffType: Option<string>, stopOnExit: Option<seq<int>>)

  /** A specification; `extras` are the settings that a manifest has no place for, by name: environment file, schedule,
      user, stop settings, resources, watching and whether it is disabled, where they are set. */
  datatype Spec = Spec(name: string, namespace: Option<string>, exec: Exec, cwd: Option<string>,
                       env: Option<map<string, string>>, logs: Option<Logs>, restart: Option<Restart>,
                       extras: map<string, string>)

  // ----- what a manifest says; an absent field reads as empty or zero

  datatype LogsConfig = LogsConfig(dir: string, stdout: string, stderr: string, format: string, timestamp: string)
  datatype RestartConfig = RestartConfig(policy: string, maxRestarts: int, delayMs: int, backoff: string, stopOnExit: seq<int>)
  datatype App = App(name: string, namespace: string, command: string, entry: string, runtime: string, cwd: string,
                     env: map<string, string>, instances: int, restart: RestartConfig, logs: LogsConfig)

  datatype File = File(namespace: string, apps: seq<App>)
  const NO_LOGS := LogsConfig("", "", "", "", "")
  const NO_RESTART := RestartConfig("", 0, 0, "", [])

  function Or<T>(o: Option<T>, default: T): T {
    if o.Some? then o.value else default
  }

  function NonEmpty(s: string): Option<string> {
    if s == "" then None else Some(s)
  }

  function NonZero(n: int): Option<int> {
    if n == 0 then None else Some(n)
  }

  function Namespace(s: Spec): string {
    if Or(s.namespace, "") == "" then DEFAULT_NAMESPACE else s.namespace.value
  }

  // ----- export

  function CommandLine(e: Exec): string {
    var cmd, args := Or(e.command, ""), Or(e.args, []);
    if args != [] then cmd + " " + Join(args, " ") else cmd
  }

  function ExportLogs(l: Option<Logs>): LogsConfig {
    match l
    case None => NO_LOGS
    case Some(l) => LogsConfig(Or(l.dir, ""), Or(l.stdout, ""), Or(l.stderr, ""), Or(l.format, ""), Or(l.timestamp, ""))
  }

  function ExportRestart(r: Option<Restart>): RestartConfig {
    match r
    case None => NO_RESTART
    case Some(r) => RestartConfig(r.policy, Or(r.maxRetries, 0), Or(r.backoffMs, 0), Or(r.backoffType, ""), Or(r.stopOnExit, []))
  }

  function ExportApp(s: Spec): App {
    App(s.name, "", if s.exec.kind.Command? then CommandLine(s.exec) else "",
        if s.exec.kind.Entry? then Or(s.exec.entry, "") else "",
        if s.exec.kind.Entry? then Or(s.exec.runtime, "") else "",
        Or(s.cwd, ""), Or(s.env, map[]), 0, ExportRestart(s.restart), ExportLogs(s.logs))
  }

  function InNamespace(specs: seq<Spec>, ns: string): seq<Spec> {
    if specs == [] then []
    else InNamespace(specs[..|specs| - 1], ns)
         + if Namespace(specs[|specs| - 1]) == ns then [specs[|specs| - 1]] else []
  }

  function Apps(specs: seq<Spec>): (apps: seq<App>)
    ensures |apps| == |specs| && forall i | 0 <= i < |specs| :: apps[i] == ExportApp(specs[i])
  {
    seq(|specs|, i requires 0 <= i < |specs| => ExportApp(specs[i]))
  }

  /** The export loop: the applications of one namespace; without any there is nothing to write. */
  method Export(specs: seq<Spec>, ns: string) returns (file: Option<File>)
    ensures var mine := InNamespace(specs, ns);
            file == if ns == "" || mine == [] then None else Some(File(ns, Apps(mine)))
  {
    hide ExportApp;
    if ns == "" {
      return None;
    }
    var apps := [];
    for i := 0 to |specs|
      invariant apps == Apps(InNamespace(specs[..i], ns))
    {
      assert specs[..i + 1][..i] == specs[..i];
      if Namespace(specs[i]) != ns {
        continue;
      }
      assert Apps(InNamespace(specs[..i], ns) + [specs[i]]) == apps + [ExportApp(specs[i])];
      apps := apps + [ExportApp(specs[i])];
    }
    assert specs[..|specs|] == specs;
    return if apps == [] then None else Some(File(ns, apps));
  }

  // ----- conversion

  datatype Converted = Specs(specs: seq<Spec>) | InvalidCommand(name: string)

  function BuildLogs(l: LogsConfig): Option<Logs> {
    if l == NO_LOGS then None
    else Some(Logs("", NonEmpty(l.dir), NonEmpty(l.stdout), NonEmpty(l.stderr), NonEmpty(l.format), NonEmpty(l.timestamp)))
  }

  function BuildRestart(r: RestartConfig): Option<Restart> {
    if r.policy == "" then None
    else Some(Restart(r.policy, NonZero(r.maxRestarts), NonZero(r.delayMs), NonEmpty(r.backoff),
                      if r.stopOnExit == [] then None else Some(r.stopOnExit)))
  }

  function BuildExec(app: App): Option<Exec> {
    if app.command == "" then Some(Exec(Entry, None, None, Some(app.entry), NonEmpty(app.runtime), false))
    else
      match TokenizeCommand(app.command)
      case Err(_) => None
      case Ok(parts) => if parts == [] then None else Some(Exec(Command, Some(parts[0]), Some(parts[1..]), None, None, false))
  }

  function ToAppSpec(app: App, defaultNs: string): Option<Spec> {
    var ns := if app.namespace != "" then app.namespace else if defaultNs != "" then defaultNs else DEFAULT_NAMESPACE;
    match BuildExec(app)
    case None => None
    case Some(exec) =>
      Some(Spec(app.name, Some(ns), exec, NonEmpty(app.cwd), if app.env == map[] then None else Some(app.env),
                BuildLogs(app.logs), BuildRestart(app.restart), map[]))
  }

  /** Every application in order, as many times as it has instances; the first bad command is reported. */
  function Expanded(apps: seq<App>, ns: string): Converted {
    if apps == [] then Specs([])
    else
      var app := apps[|apps| - 1];
      match Expanded(apps[..|apps| - 1], ns)
      case InvalidCommand(name) => InvalidCommand(name)
      case Specs(specs) =>
        match ToAppSpec(app, ns)
        case None => InvalidCommand(app.name)
        case Some(s) => Specs(specs + Repeat(s, if app.instances < 1 then 1 else app.instances))
  }

  lemma {:induction false} FirstErrorWins(apps: seq<App>, k: nat, ns: string)
    requires k <= |apps| && Expanded(apps[..k], ns).InvalidCommand?
    ensures Expanded(apps, ns) == Expanded(apps[..k], ns)
  {
    hide ToAppSpec;
    if k < |apps| {
      var front := apps[..|apps| - 1];
      assert front[..k] == apps[..k];
      FirstErrorWins(front, k, ns);
    } else {
      assert apps[..k] == apps;
    }
  }

  /** The nested conversion loop. */
  method ToAppSpecs(file: File) returns (r: Converted)
    ensures r == Expanded(file.apps, file.namespace)
  {
    hide ToAppSpec;
    var specs := [];
    for i := 0 to |file.apps|
      invariant Expanded(file.apps[..i], file.namespace) == Specs(specs)
    {
      var app := file.apps[i];
      assert file.apps[..i + 1][..i] == file.apps[..i];
      var base := ToAppSpec(app, file.namespace);
      if base.None? {
        FirstErrorWins(file.apps, i + 1, file.namespace);
        return InvalidCommand(app.name);
      }
      var instances := if app.instances < 1 then 1 else app.instances;
      ghost var before := specs;
      for k := 0 to instances
        invariant specs == before + Repeat(base.value, k)
      {
        assert Repeat(base.value, k + 1) == Repeat(base.value, k) + [base.value];
        specs := specs + [base.value];
      }
    }
    assert file.apps[..|file.apps|] == file.apps;
    return Specs(specs);
  }

  // ----- the round trip

  function NormalText(o: Option<string>): Option<string> {
    if o == Some("") then None else o
  }

  function NormalLogs(l: Option<Logs>): Option<Logs> {
    match l
    case None => None
    case Some(l) =>
      Some(Logs(l.mode, NormalText(l.dir), NormalText(l.stdout), NormalText(l.stderr), NormalText(l.format), NormalText(l.timestamp)))
  }

  /** The other fields stay as they are: the daemon takes an absent one for a default of its own, not for zero. */
  function NormalRestart(r: Option<Restart>): Option<Restart> {
    match r
    case None => None
    case Some(r) => Some(r.(stopOnExit := if r.stopOnExit == Some([]) then None else r.stopOnExit))
  }

  /** The words of a command. */
  function Words(e: Exec): seq<string> {
    [Or(e.command, "")] + Or(e.args, [])
  }

  /** What is executed, empty fields absent. */
  function NormalExec(e: Exec): Exec {
    Exec(e.kind, NormalText(e.command), if e.args == Some([]) then None else e.args, NormalText(e.entry),
         NormalText(e.runtime), e.shell)
  }

  /** The specification with its namespace spelled out and empty fields absent. */
  function Normal(s: Spec): Spec {
    Spec(s.name, Some(Namespace(s)), NormalExec(s.exec), NormalText(s.cwd),
         if s.env == Some(map[]) then None else s.env, NormalLogs(s.logs), NormalRestart(s.restart), s.extras)
  }

  /** Two specifications that differ at most in writing an empty field out or leaving it away. */
  predicate Same(s: Spec, t: Spec) {
    Normal(s) == Normal(t)
  }

  /** A log section that sets anything besides its mode. */
  predicate SetsPaths(l: Logs) {
    || Or(l.dir, "") != "" || Or(l.stdout, "") != "" || Or(l.stderr, "") != ""
    || Or(l.format, "") != "" || Or(l.timestamp, "") != ""
  }

  /** What export can write: a command whose words need no quoting or are nothing but empty quotes, or an entry
      point without arguments; without a shell, and without fields of the other kind. */
  ghost predicate ExecExportable(e: Exec) {
    && !e.shell
    && match e.kind
       case Command =>
         && Or(e.entry, "") == "" && Or(e.runtime, "") == ""
         && ((forall i | 0 <= i < |Words(e)| :: Plain(Words(e)[i]))
             || (Hollow(Join(Words(e), " ")) && forall i | 0 <= i < |Words(e)| :: Unbroken(Words(e)[i])))
       case Entry => Or(e.command, "") == "" && Or(e.args, []) == []
       case Other => false
  }

  /** A log section that survives: it leaves its mode empty and sets something else. */
  predicate LogsExportable(l: Option<Logs>) {
    l.Some? ==> l.value.mode == "" && SetsPaths(l.value)
  }

  /** A restart section that survives: it names its policy, and no number or text in it is zero or empty. */
  predicate RestartExportable(r: Option<Restart>) {
    r.Some? ==> r.value.policy != "" && r.value.maxRetries != Some(0) && r.value.backoffMs != Some(0)
                && r.value.backoffType != Some("")
  }

  /** A specification that survives: also without settings that a manifest has no place for. */
  ghost predicate Exportable(s: Spec) {
    ExecExportable(s.exec) && LogsExportable(s.logs) && RestartExportable(s.restart) && s.extras == map[]
  }

  lemma CommandLineJoins(e: Exec)
    ensures CommandLine(e) == Join(Words(e), " ")
  {
    var args := Or(e.args, []);
    assert Words(e)[1..] == args;
  }

  lemma EmptyCommand(words: seq<string>)
    requires words != [] && Join(words, " ") == ""
    ensures words[0] == "" && !Plain(words[0]) && !Unbroken(words[0])
  {
    assert |words| > 1 ==> |Join(words, " ")| >= 1;
  }

  lemma CommandRoundTrip(s: Spec)
    requires s.exec.kind.Command?
    ensures var words, r := Words(s.exec), BuildExec(ExportApp(s));
            && (r.Some? && r.value.kind.Command? ==> r.value.entry == None && r.value.runtime == None && !r.value.shell)
            && (r.Some? && r.value.kind.Command? && Words(r.value) == words
                <==> (forall i | 0 <= i < |words| :: Plain(words[i]))
                     || (Hollow(Join(words, " ")) && forall i | 0 <= i < |words| :: Unbroken(words[i])))
  {
    hide TokenizeCommand, Hollow, Join;
    var words, text := Words(s.exec), CommandLine(s.exec);
    CommandLineJoins(s.exec);
    CommandSafeExactly(words);
    if text == "" {
      EmptyCommand(words);
    } else {
      match TokenizeCommand(text) {
        case Err(_) =>
        case Ok(parts) =>
          if parts != [] {
            assert parts == [parts[0]] + parts[1..];
          }
      }
    }
  }

  lemma SameWords(a: Exec, b: Exec)
    ensures Words(a) == Words(b)
       <==> NormalText(a.command) == NormalText(b.command) && NormalExec(a).args == NormalExec(b).args
  {
    if Words(a) == Words(b) {
      assert Words(a)[0] == Words(b)[0] && Words(a)[1..] == Words(b)[1..];
    }
  }

  lemma ExecRoundTrip(s: Spec)
    ensures var r := BuildExec(ExportApp(s));
            r.Some? && NormalExec(r.value) == NormalExec(s.exec) <==> ExecExportable(s.exec)
  {
    hide Hollow, Join, Words, TokenizeCommand;
    if s.exec.kind.Command? {
      var r := BuildExec(ExportApp(s));
      CommandRoundTrip(s);
      hide BuildExec, ExportApp;
      if r.Some? {
        SameWords(r.value, s.exec);
      }
    }
  }

  /** The program and arguments that the daemon runs, at most 256 of them. */
  function ResolveCommand(e: Exec): Option<(string, seq<string>)> {
    match e.kind
    case Command =>
      var args := Or(e.args, []);
      if Or(e.command, "") == "" || |args| > MAX_ARG_COUNT then None else Some((e.command.value, args))
    case Entry =>
      var parts := SplitWhitespace(Or(e.runtime, ""), "");
      if Or(e.entry, "") == "" || parts == [] then None else
      var args := parts[1..] + [e.entry.value] + Or(e.args, []);
      if |args| > MAX_ARG_COUNT then None else Some((parts[0], args))
    case Other => None
  }

  /** Specifications that are the same run the same program. */
  lemma SameRuns(s: Spec, t: Spec)
    requires Same(s, t)
    ensures ResolveCommand(s.exec) == ResolveCommand(t.exec) && s.exec.shell == t.exec.shell
  {
    hide SplitWhitespace, NormalLogs, NormalRestart;
    assert NormalExec(s.exec) == NormalExec(t.exec);
  }

  /** The arguments of an entry point do not come back, and so it runs without them. */
  lemma EntryArgumentsLost(s: Spec, t: Spec)
    requires s.exec.kind.Entry? && Or(s.exec.args, []) != [] && ToAppSpec(ExportApp(s), Namespace(s)) == Some(t)
    ensures t.exec.args == None && !Same(s, t)
    ensures ResolveCommand(s.exec).Some? ==> ResolveCommand(t.exec) != ResolveCommand(s.exec)
  {
    hide SplitWhitespace, BuildLogs, ExportLogs, BuildRestart, ExportRestart, NormalLogs, NormalRestart;
    assert NormalExec(s.exec).args != NormalExec(t.exec).args;
    if ResolveCommand(s.exec).Some? && ResolveCommand(t.exec).Some? {
      assert |ResolveCommand(s.exec).value.1| == |ResolveCommand(t.exec).value.1| + |s.exec.args.value|;
    }
  }

  /** What the supervisor makes of a restart section. */
  function RestartPolicy(r: Option<Restart>): (string, int, int, string, seq<int>) {
    match r
    case None => ("on-failure", 10, 2000, "expo", [])
    case Some(r) => (r.policy, Or(r.maxRetries, 10), Or(r.backoffMs, 2000), Or(r.backoffType, "expo"), Or(r.stopOnExit, []))
  }

  /** The supervisor's policy comes back exactly when the section does; written as zero, the number of retries or the
      delay comes back as the default. */
  lemma RestartRoundTrip(r: Option<Restart>)
    ensures NormalRestart(BuildRestart(ExportRestart(r))) == NormalRestart(r) <==> RestartExportable(r)
    ensures RestartPolicy(BuildRestart(ExportRestart(r))) == RestartPolicy(r) <==> RestartExportable(r)
  {
  }

  lemma LogsRoundTrip(l: Option<Logs>)
    ensures NormalLogs(BuildLogs(ExportLogs(l))) == NormalLogs(l) <==> LogsExportable(l)
  {
  }

  /** Where the output of a process goes by the rule of the log setup (a rule that is written and that nothing calls
      yet): to log files, or with the daemon's own when there is no log section or its mode says so. */
  predicate LogsToFiles(l: Option<Logs>) {
    l.Some? && l.value.mode != "inherit"
  }

  /** What is lost of a log section: paths, format and timestamp setting come back; the mode is blank, and
      a section without anything else is gone. So the output goes where it went before exactly when paths are set
      for files and none is set otherwise. */
  lemma LogsLost(l: Option<Logs>)
    ensures BuildLogs(ExportLogs(l))
         == if l.Some? && SetsPaths(l.value) then Some(NormalLogs(l).value.(mode := "")) else None
    ensures LogsToFiles(BuildLogs(ExportLogs(l))) == LogsToFiles(l)
       <==> (l.Some? ==> (SetsPaths(l.value) <==> l.value.mode != "inherit"))
  {
  }

  /** The log section of the start command, which always sets a mode, comes back without it; output sent along with the
      daemon's own then goes to files. */
  lemma StartLogsChange(s: Spec, t: Spec, mode: string)
    requires mode != "" && s.logs == Some(Logs(mode, None, None, None, Some("plain"), Some("rfc3339")))
    requires ToAppSpec(ExportApp(s), Namespace(s)) == Some(t)
    ensures t.logs == Some(s.logs.value.(mode := "")) && !Same(s, t)
    ensures LogsToFiles(t.logs) && (LogsToFiles(s.logs) <==> mode != "inherit")
  {
    hide BuildExec, BuildRestart, ExportRestart, NormalRestart, NormalExec;
    LogsLost(s.logs);
    assert NormalLogs(s.logs).value.mode != NormalLogs(t.logs).value.mode;
  }

  /** What always comes back of a specification whose manifest can be converted, exportable or not: names, directory,
      environment, all log settings but the mode, and a restart section that names its policy, up to zeros. */
  lemma ExportKeeps(s: Spec, t: Spec)
    requires ToAppSpec(ExportApp(s), Namespace(s)) == Some(t)
    ensures t.name == s.name && Namespace(t) == Namespace(s) && Or(t.cwd, "") == Or(s.cwd, "")
    ensures Or(t.env, map[]) == Or(s.env, map[]) && ExportLogs(t.logs) == ExportLogs(s.logs)
    ensures if s.restart.Some? && s.restart.value.policy != "" then ExportRestart(t.restart) == ExportRestart(s.restart)
            else t.restart == None
    ensures s.exec.kind.Entry? ==> t.exec.kind.Entry? && t.exec.entry == Some(Or(s.exec.entry, ""))
                                   && NormalText(t.exec.runtime) == NormalText(s.exec.runtime)
  {
    hide TokenizeCommand, CommandLine;
  }

  /** Exporting a specification and converting the manifest back gives the same specification, exactly when it is
      exportable. */
  lemma ExportRoundTrip(s: Spec)
    ensures var t := ToAppSpec(ExportApp(s), Namespace(s)); t.Some? && Same(s, t.value) <==> Exportable(s)
  {
    hide BuildExec, BuildLogs, ExportLogs, BuildRestart, ExportRestart, NormalRestart, NormalLogs, NormalExec, ExecExportable;
    ExecRoundTrip(s);
    RestartRoundTrip(s.restart);
    LogsRoundTrip(s.logs);
  }

  function Normals(specs: seq<Spec>): (r: seq<Spec>)
    ensures |r| == |specs| && forall i | 0 <= i < |specs| :: r[i] == Normal(specs[i])
  {
    seq(|specs|, i requires 0 <= i < |specs| => Normal(specs[i]))
  }

  lemma {:induction false} InNamespaceHave(specs: seq<Spec>, ns: string)
    ensures forall s :: s in InNamespace(specs, ns) <==> s in specs && Namespace(s) == ns
  {
    hide Namespace;
    if specs == [] {
    } else {
      var front, last := specs[..|specs| - 1], specs[|specs| - 1];
      InNamespaceHave(front, ns);
      assert specs == front + [last];
    }
  }

  function Picked(s: Spec, ns: string): seq<Spec> {
    if Namespace(s) == ns then [s] else []
  }

  lemma InNamespaceLast(specs: seq<Spec>, s: Spec, ns: string)
    ensures InNamespace(specs + [s], ns) == InNamespace(specs, ns) + Picked(s, ns)
  {
    hide Namespace;
    assert (specs + [s])[..|specs|] == specs;
  }

  lemma InNamespaceNone(ns: string)
    ensures InNamespace([], ns) == []
  {
  }

  /** They are picked in order, each as often as it occurs. */
  lemma {:induction false} InNamespaceInOrder(a: seq<Spec>, b: seq<Spec>, ns: string)
    ensures InNamespace(a + b, ns) == InNamespace(a, ns) + InNamespace(b, ns)
    decreases |b|
  {
    hide InNamespace, Picked, Namespace;
    var mine := InNamespace(a, ns);
    if b == [] {
      InNamespaceNone(ns);
      assert a + b == a && mine + [] == mine;
    } else {
      var front, last := b[..|b| - 1], b[|b| - 1];
      var x, y := InNamespace(front, ns), Picked(last, ns);
      InNamespaceInOrder(a, front, ns);
      InNamespaceLast(a + front, last, ns);
      InNamespaceLast(front, last, ns);
      assert b == front + [last];
      assert a + b == a + front + [last];
      assert mine + x + y == mine + (x + y);
    }
  }

  lemma OneInstance(s: Spec)
    ensures ExportApp(s).instances < 1
  {
  }

  lemma OneMoreApp(mine: seq<Spec>, ns: string)
    requires mine != []
    ensures var front, s := mine[..|mine| - 1], mine[|mine| - 1];
            var before, app := Expanded(Apps(front), ns), ToAppSpec(ExportApp(s), ns);
            && Normals(mine) == Normals(front) + [Normal(s)]
            && Expanded(Apps(mine), ns)
               == if before.InvalidCommand? then before
                  else if app.None? then InvalidCommand(ExportApp(s).name)
                  else Specs(before.specs + [app.value])
  {
    hide ToAppSpec, ExportApp, Normal;
    var front, s := mine[..|mine| - 1], mine[|mine| - 1];
    assert Apps(mine)[..|mine| - 1] == Apps(front);
    OneInstance(s);
    var app := ToAppSpec(ExportApp(s), ns);
    assert app.Some? ==> Repeat(app.value, 1) == [app.value];
  }

  lemma NormalsLast(specs: seq<Spec>, s: Spec)
    ensures Normals(specs + [s]) == Normals(specs) + [Normal(s)]
  {
    hide Normal;
  }

  lemma SameParts(a: seq<Spec>, x: Spec, b: seq<Spec>, y: Spec)
    requires |a| == |b|
    ensures a + [x] == b + [y] <==> a == b && x == y
  {
    if a + [x] == b + [y] {
      assert a == (a + [x])[..|a|] && b == (b + [y])[..|b|];
      assert x == (a + [x])[|a|] && y == (b + [y])[|b|];
    }
  }

  /** The conversion succeeds and gives the same specifications, in order. */
  predicate GivesBack(r: Converted, mine: seq<Spec>) {
    r.Specs? && Normals(r.specs) == Normals(mine)
  }

  lemma AllButLast(front: seq<Spec>, last: Spec)
    ensures (forall i | 0 <= i < |front + [last]| :: Exportable((front + [last])[i]))
       <==> (forall i | 0 <= i < |front| :: Exportable(front[i])) && Exportable(last)
  {
    hide Exportable;
    var all := front + [last];
    if forall i | 0 <= i < |all| :: Exportable(all[i]) {
      assert all[|front|] == last;
      forall i | 0 <= i < |front|
        ensures Exportable(front[i])
      {
        assert all[i] == front[i];
      }
    }
  }

  lemma {:induction false} AppsRoundTrip(mine: seq<Spec>, ns: string)
    requires forall i | 0 <= i < |mine| :: Namespace(mine[i]) == ns
    ensures GivesBack(Expanded(Apps(mine), ns), mine) <==> forall i | 0 <= i < |mine| :: Exportable(mine[i])
    ensures Expanded(Apps(mine), ns).Specs? ==> |Expanded(Apps(mine), ns).specs| == |mine|
  {
    hide ToAppSpec, ExportApp, Normal, Exportable, Namespace;
    if mine == [] {
      assert Apps(mine) == [] && Normals(mine) == [];
    } else {
      hide Expanded, Apps, Normals;
      var front, s := mine[..|mine| - 1], mine[|mine| - 1];
      AppsRoundTrip(front, ns);
      OneMoreApp(mine, ns);
      ExportRoundTrip(s);
      AllButLast(front, s);
      assert front + [s] == mine;
      var before, app := Expanded(Apps(front), ns), ToAppSpec(ExportApp(s), ns);
      if before.Specs? && app.Some? {
        NormalsLast(before.specs, app.value);
        SameParts(Normals(before.specs), Normal(app.value), Normals(front), Normal(s));
      }
    }
  }

  /** Exporting a namespace and applying the manifest recreates its specifications, in order, exactly when
      all of them are exportable. */
  lemma NamespaceRoundTrip(specs: seq<Spec>, ns: string)
    ensures var mine := InNamespace(specs, ns);
            GivesBack(Expanded(Apps(mine), ns), mine) <==> forall s | s in specs && Namespace(s) == ns :: Exportable(s)
  {
    hide ExportApp, Normal, Exportable, Namespace, Expanded, GivesBack;
    var mine := InNamespace(specs, ns);
    InNamespaceHave(specs, ns);
    forall i | 0 <= i < |mine|
      ensures Namespace(mine[i]) == ns
    {
      assert mine[i] in mine;
    }
    AppsRoundTrip(mine, ns);
    assert (forall i | 0 <= i < |mine| :: Exportable(mine[i])) <==> forall s | s in mine :: Exportable(s);
  }

  // ----- instances

  function InstancesOf(app: App): nat {
    if app.instances < 1 then 1 else app.instances
  }

  /** Number of specifications made of these applications. */
  function InstancesBefore(apps: seq<App>): nat {
    if apps == [] then 0 else InstancesBefore(apps[..|apps| - 1]) + InstancesOf(apps[|apps| - 1])
  }

  /** The specifications of application `i`, one for each of its instances, stand behind those of the applications before
      it. */
  ghost predicate InPlace(specs: seq<Spec>, apps: seq<App>, ns: string, i: int)
    requires 0 <= i < |apps|
  {
    var at, n, t := InstancesBefore(apps[..i]), InstancesOf(apps[i]), ToAppSpec(apps[i], ns);
    t.Some? && at + n <= |specs| && specs[at..at + n] == Repeat(t.value, n)
  }

  /** Application `k` is the first whose command cannot be converted. */
  ghost predicate FirstInvalid(apps: seq<App>, ns: string, k: int) {
    && 0 <= k < |apps| && ToAppSpec(apps[k], ns).None?
    && forall i | 0 <= i < k :: ToAppSpec(apps[i], ns).Some?
  }

  lemma InPlaceMore(specs: seq<Spec>, more: seq<Spec>, apps: seq<App>, app: App, ns: string, i: int)
    requires 0 <= i < |apps| && InPlace(specs, apps, ns, i)
    ensures InPlace(specs + more, apps + [app], ns, i)
  {
    hide ToAppSpec;
    assert (apps + [app])[..i] == apps[..i] && (apps + [app])[i] == apps[i];
    var at, n := InstancesBefore(apps[..i]), InstancesOf(apps[i]);
    assert (specs + more)[at..at + n] == specs[at..at + n];
  }

  lemma InPlaceLast(specs: seq<Spec>, apps: seq<App>, app: App, ns: string)
    requires ToAppSpec(app, ns).Some? && |specs| == InstancesBefore(apps)
    ensures InPlace(specs + Repeat(ToAppSpec(app, ns).value, InstancesOf(app)), apps + [app], ns, |apps|)
  {
    hide ToAppSpec, InstancesBefore;
    var all, copies := apps + [app], Repeat(ToAppSpec(app, ns).value, InstancesOf(app));
    assert all[..|apps|] == apps && all[|apps|] == app;
    assert (specs + copies)[|specs|..|specs| + |copies|] == copies;
  }

  lemma AllConverted(specs: seq<Spec>, apps: seq<App>, ns: string)
    requires forall i | 0 <= i < |apps| :: InPlace(specs, apps, ns, i)
    ensures forall i | 0 <= i < |apps| :: ToAppSpec(apps[i], ns).Some?
  {
    hide ToAppSpec, InstancesBefore;
    forall i | 0 <= i < |apps|
      ensures ToAppSpec(apps[i], ns).Some?
    {
      assert InPlace(specs, apps, ns, i);
    }
  }

  /** The conversion succeeds exactly when every command can be converted, and then every application has its instances in
      its place and there is nothing else; otherwise the first application whose command cannot be converted is named. */
  lemma {:induction false} InstancesInOrder(apps: seq<App>, ns: string)
    ensures var r := Expanded(apps, ns);
            if r.Specs? then |r.specs| == InstancesBefore(apps) && forall i | 0 <= i < |apps| :: InPlace(r.specs, apps, ns, i)
            else exists k :: FirstInvalid(apps, ns, k) && apps[k].name == r.name
  {
    hide ToAppSpec, InPlace;
    if apps == [] {
    } else {
      var n := |apps| - 1;
      var front, app := apps[..n], apps[n];
      assert apps == front + [app];
      InstancesInOrder(front, ns);
      match Expanded(front, ns)
      case InvalidCommand(name) =>
        var k :| FirstInvalid(front, ns, k) && front[k].name == name;
        assert FirstInvalid(apps, ns, k) && apps[k].name == name;
      case Specs(specs) =>
        AllConverted(specs, front, ns);
        if ToAppSpec(app, ns).None? {
          assert FirstInvalid(apps, ns, n) && apps[n].name == app.name;
        } else {
          InPlaceLast(specs, front, app, ns);
          forall i | 0 <= i < n
            ensures InPlace(Expanded(apps, ns).specs, apps, ns, i)
          {
            InPlaceMore(specs, Repeat(ToAppSpec(app, ns).value, InstancesOf(app)), front, app, ns, i);
          }
        }
    }
  }

  /** An application's own namespace comes first, then the file's, then the default; the other fields are its own, empty
      and zero ones absent. */
  lemma ConvertedFields(app: App, ns: string, t: Spec)
    requires ToAppSpec(app, ns) == Some(t)
    ensures t.name == app.name && Namespace(t) == if app.namespace != "" then app.namespace else if ns != "" then ns else "default"
    ensures Or(t.cwd, "") == app.cwd && Or(t.env, map[]) == app.env && ExportLogs(t.logs) == app.logs && t.extras == map[]
    ensures if app.restart.policy == "" then t.restart == None else ExportRestart(t.restart) == app.restart
    ensures app.command == "" ==> t.exec.kind.Entry? && t.exec.entry == Some(app.entry) && Or(t.exec.runtime, "") == app.runtime
    ensures app.command != "" ==> t.exec.kind.Command? && TokenizeCommand(app.command) == Ok(Words(t.exec))
  {
    hide TokenizeCommand;
    if app.command != "" {
      var parts := TokenizeCommand(app.command).args;
      assert parts == [parts[0]] + parts[1..];
    }
  }
}
