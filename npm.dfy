/**
  Installing and uninstalling npm packages, skipping those the project
  manifest already records (or, for uninstall, does not record).

  The manifest reader, `console.log` and the process executor are effects at
  the boundary of this module: the manifest comes in as a value, and the log
  line and the executor call come out as a value (`Outcome`).
 */
module Npm {
  import opened Wrappers

  // ---------------------------------------------------------------------
  // JavaScript values, as far as this module inspects them
  // ---------------------------------------------------------------------

  /** A JavaScript value an option may hold. Numbers are integers (NaN is not modelled). */
  datatype Value = Undefined | Null | Bool(b: bool) | Num(n: int) | Str(s: string) | Object

  /** JavaScript truthiness. */
  predicate Truthy(v: Value)
  {
    match v
    case Undefined => false
    case Null => false
    case Bool(b) => b
    case Num(n) => n != 0
    case Str(s) => s != ""
    case Object => true
  }

  // ---------------------------------------------------------------------
  // Data model
  // ---------------------------------------------------------------------

  /** A dependency section of package.json: package name to version specifier. */
  type Section = map<string, string>

  /** The two sections of package.json this module reads; either may be absent. */
  datatype Manifest = Manifest(dependencies: Option<Section>, devDependencies: Option<Section>)

  /** The defaults handed to the manifest reader: both sections empty. */
  const Defaults: Manifest := Manifest(Some(map[]), Some(map[]))

  /** The `deps` argument: one package name or a list of them. */
  datatype Deps = One(name: string) | Many(names: seq<string>)

  /** The recognised fields of an options object; an absent field is `Undefined`. */
  datatype Options = Options(dev: Value, remove: Value, stdio: Value, cwd: Value)

  /** The empty options object `{}`. */
  const NoOptions: Options := Options(Undefined, Undefined, Undefined, Undefined)

  /** The function that runs the command: the default `spawnSync`, or one the caller injects. */
  datatype Executor = SpawnSync | Injected(id: nat)

  /** What the executor is called with: program, argument list and spawn options. */
  datatype Command = Command(program: string, args: seq<string>, stdio: Value, cwd: Value)

  /** One call of an executor. */
  datatype Invocation = Invocation(executor: Executor, command: Command)

  /** The informational line logged before npm runs, with the names it lists. */
  datatype Message = Installing(names: seq<string>) | Uninstalling(names: seq<string>)

  /** A log line followed by an npm invocation. */
  datatype Run = Run(message: Message, invocation: Invocation)

  /** What `install` / `uninstall` do: the value they return and the run they perform, if any. */
  datatype Outcome = Outcome(returned: Value, run: Option<Run>)

  // ---------------------------------------------------------------------
  // Helpers for the argument handling of install and uninstall
  // ---------------------------------------------------------------------

  /** `castArray`: a single name becomes a one-element list. */
  function Normalize(deps: Deps): seq<string>
  {
    match deps
    case One(n) => [n]
    case Many(ns) => ns
  }

  /** `options.dev !== false`: only an explicit `false` selects `dependencies`. */
  predicate IsDev(options: Option<Options>)
  {
    options.GetOr(NoOptions).dev != Bool(false)
  }

  /** `pkg.get(dev ? 'devDependencies' : 'dependencies') || {}`. */
  function Target(pkg: Manifest, dev: bool): Section
  {
    if dev then pkg.devDependencies.GetOr(map[]) else pkg.dependencies.GetOr(map[])
  }

  /** The section the call consults: the manifest file, or the defaults when there is none. */
  function TargetOf(options: Option<Options>, file: Option<Manifest>): Section
  {
    Target(file.GetOr(Defaults), IsDev(options))
  }

  /** Truthiness of `installed[dep]`: an entry whose version is "" does not count. */
  predicate IsInstalled(section: Section, dep: string)
  {
    dep in section && section[dep] != ""
  }

  // ---------------------------------------------------------------------
  // The filter shared by install and uninstall
  // ---------------------------------------------------------------------

  /** `deps.filter(...)`: the names whose installed state is `wanted`, in input order. */
  function Filter(deps: seq<string>, section: Section, wanted: bool): (r: seq<string>)
    ensures |r| <= |deps|
    ensures forall i :: 0 <= i < |r| ==> IsInstalled(section, r[i]) == wanted
  {
    if deps == [] then []
    else if IsInstalled(section, deps[0]) == wanted then [deps[0]] + Filter(deps[1..], section, wanted)
    else Filter(deps[1..], section, wanted)
  }

  /** `xs` can be obtained from `ys` by deleting elements, so the order of `ys` is kept. */
  predicate IsSubsequence(xs: seq<string>, ys: seq<string>)
    decreases |ys|
  {
    if xs == [] then true
    else if ys == [] then false
    else if xs[0] == ys[0] then IsSubsequence(xs[1..], ys[1..])
    else IsSubsequence(xs, ys[1..])
  }

  /** The filtered list keeps the request's order. */
  lemma {:induction false} FilterSubsequence(deps: seq<string>, section: Section, wanted: bool)
    ensures IsSubsequence(Filter(deps, section, wanted), deps)
  {
    if deps != [] {
      FilterSubsequence(deps[1..], section, wanted);
      var rest := Filter(deps[1..], section, wanted);
      if IsInstalled(section, deps[0]) == wanted {
        assert ([deps[0]] + rest)[1..] == rest;
      } else if rest != [] && rest[0] == deps[0] {
        // rest[0] would have the wanted state, as deps[0] does not
        assert false;
      }
    }
  }

  /** The filtered list holds every name of the wanted state as often as the request does, and nothing else. */
  lemma {:induction false} FilterCounts(deps: seq<string>, section: Section, wanted: bool)
    ensures forall x :: multiset(Filter(deps, section, wanted))[x]
                        == if IsInstalled(section, x) == wanted then multiset(deps)[x] else 0
  {
    if deps != [] {
      FilterCounts(deps[1..], section, wanted);
      assert deps == [deps[0]] + deps[1..];
    }
  }

  /** A subsequence has no more copies of any name than the sequence it is taken from. */
  lemma {:induction false} SubsequenceCounts(xs: seq<string>, ys: seq<string>)
    requires IsSubsequence(xs, ys)
    ensures multiset(xs) <= multiset(ys)
    decreases |ys|
  {
    if xs != [] {
      assert ys == [ys[0]] + ys[1..];
      if xs[0] == ys[0] {
        SubsequenceCounts(xs[1..], ys[1..]);
        assert xs == [xs[0]] + xs[1..];
      } else {
        SubsequenceCounts(xs, ys[1..]);
      }
    }
  }

  /**
    The filter is the ONLY subsequence of the request that holds exactly the
    names of the wanted state, with their multiplicities: together with
    FilterSubsequence and FilterCounts this pins the result down completely.
   */
  lemma {:induction false} FilterUnique(s: seq<string>, deps: seq<string>, section: Section, wanted: bool)
    requires IsSubsequence(s, deps)
    requires forall x :: multiset(s)[x] == if IsInstalled(section, x) == wanted then multiset(deps)[x] else 0
    ensures s == Filter(deps, section, wanted)
  {
    if deps == [] {
    } else {
      var d, rest := deps[0], deps[1..];
      assert deps == [d] + rest;
      if IsInstalled(section, d) == wanted {
        assert multiset(s)[d] == multiset(deps)[d] > 0;
        assert s != [];
        if s[0] == d {
          assert s == [d] + s[1..];
          forall x
            ensures multiset(s[1..])[x] == if IsInstalled(section, x) == wanted then multiset(rest)[x] else 0
          {
          }
          FilterUnique(s[1..], rest, section, wanted);
        } else {
          SubsequenceCounts(s, rest);
          assert false;
        }
      } else {
        assert d !in multiset(s);
        assert IsSubsequence(s, rest);
        forall x
          ensures multiset(s)[x] == if IsInstalled(section, x) == wanted then multiset(rest)[x] else 0
        {
        }
        FilterUnique(s, rest, section, wanted);
      }
    }
  }

  /** Every requested name lands in exactly one of the two filtered lists. */
  lemma {:induction false} FilterPartition(deps: seq<string>, section: Section)
    ensures |Filter(deps, section, false)| + |Filter(deps, section, true)| == |deps|
    ensures multiset(Filter(deps, section, false)) + multiset(Filter(deps, section, true)) == multiset(deps)
  {
    if deps != [] {
      FilterPartition(deps[1..], section);
      assert deps == [deps[0]] + deps[1..];
    }
  }

  /** The filtered list is empty iff no requested name has the wanted state. */
  lemma {:induction false} FilterEmpty(deps: seq<string>, section: Section, wanted: bool)
    ensures Filter(deps, section, wanted) == []
            <==> forall i :: 0 <= i < |deps| ==> IsInstalled(section, deps[i]) != wanted
  {
    if deps != [] {
      FilterEmpty(deps[1..], section, wanted);
      assert forall i :: 1 <= i < |deps| ==> deps[i] == deps[1..][i - 1];
    }
  }

  /** When every requested name has the wanted state, the whole request is kept. */
  lemma {:induction false} FilterKeepsAll(deps: seq<string>, section: Section, wanted: bool)
    requires forall i :: 0 <= i < |deps| ==> IsInstalled(section, deps[i]) == wanted
    ensures Filter(deps, section, wanted) == deps
  {
    if deps != [] {
      assert forall i :: 1 <= i < |deps| ==> deps[i] == deps[1..][i - 1];
      FilterKeepsAll(deps[1..], section, wanted);
    }
  }

  // ---------------------------------------------------------------------
  // runNpm
  // ---------------------------------------------------------------------

  /** `runNpm`: build `[install|uninstall, --save|--save-dev, ...deps]` and call the executor with it. */
  function RunNpm(deps: seq<string>, options: Option<Options>, exec: Option<Executor>): (inv: Invocation)
    ensures inv.executor == exec.GetOr(SpawnSync)
    ensures inv.command.program == "npm"
    ensures |inv.command.args| == 2 + |deps| && inv.command.args[2..] == deps
    ensures inv.command.args[0] == if Truthy(options.GetOr(NoOptions).remove) then "uninstall" else "install"
    ensures inv.command.args[1] == if Truthy(options.GetOr(NoOptions).dev) then "--save-dev" else "--save"
    ensures inv.command.stdio == if options.GetOr(NoOptions).stdio == Undefined then Str("inherit")
                                 else options.GetOr(NoOptions).stdio
    ensures inv.command.cwd == options.GetOr(NoOptions).cwd
  {
    var opts := options.GetOr(NoOptions);
    var args := [if Truthy(opts.remove) then "uninstall" else "install",
                 if Truthy(opts.dev) then "--save-dev" else "--save"] + deps;
    Invocation(exec.GetOr(SpawnSync),
               Command("npm", args, if opts.stdio == Undefined then Str("inherit") else opts.stdio, opts.cwd))
  }

  /** What an npm argument list asks for. */
  datatype NpmRequest = NpmRequest(remove: bool, dev: bool, names: seq<string>)

  /** Reads an npm argument list back: the sub-command, the save flag and the package names. */
  function ReadArgs(args: seq<string>): (r: Option<NpmRequest>)
    ensures r.Some? ==> |args| == 2 + |r.value.names|
  {
    if |args| < 2 then None
    else if args[0] != "install" && args[0] != "uninstall" then None
    else if args[1] != "--save" && args[1] != "--save-dev" then None
    else Some(NpmRequest(args[0] == "uninstall", args[1] == "--save-dev", args[2..]))
  }

  /** The argument list `runNpm` builds says exactly which operation, which section and which names. */
  lemma RunNpmArgsRoundTrip(deps: seq<string>, options: Option<Options>, exec: Option<Executor>)
    ensures ReadArgs(RunNpm(deps, options, exec).command.args)
            == Some(NpmRequest(Truthy(options.GetOr(NoOptions).remove), Truthy(options.GetOr(NoOptions).dev), deps))
  {
  }

  // ---------------------------------------------------------------------
  // install and uninstall
  // ---------------------------------------------------------------------

  /** The names an outcome hands to npm (none when nothing runs). */
  function Passed(o: Outcome): seq<string>
  {
    match o.run
    case None => []
    case Some(r) => r.message.names
  }

  /**
    `install`: keep the requested names that are not installed in the target
    section; if none remain do nothing, otherwise log them and run
    `npm install --save-dev|--save` on them. Always returns `undefined`.
   */
  function Install(deps: Deps, options: Option<Options>, exec: Option<Executor>, file: Option<Manifest>): (o: Outcome)
    ensures o.returned == Undefined
    ensures o.run.Some? ==>
              var c := o.run.value.invocation.command;
              && o.run.value.message.Installing?
              && o.run.value.invocation.executor == exec.GetOr(SpawnSync)
              && c.program == "npm" && c.stdio == Str("inherit") && c.cwd == Undefined
              && |c.args| > 2
              && c.args[0] == "install"
              && c.args[1] == (if IsDev(options) then "--save-dev" else "--save")
              && c.args[2..] == o.run.value.message.names
  {
    var dev := IsDev(options);
    var newDeps := Filter(Normalize(deps), TargetOf(options, file), false);
    if newDeps == [] then Outcome(Undefined, None)
    else
      Outcome(Undefined, Some(Run(Installing(newDeps),
                                  RunNpm(newDeps, Some(Options(Bool(dev), Undefined, Undefined, Undefined)), exec))))
  }

  /**
    `uninstall`: keep the requested names that are installed in the target
    section; if none remain do nothing, otherwise log them and run
    `npm uninstall --save-dev|--save` on them. Always returns `undefined`.
   */
  function Uninstall(deps: Deps, options: Option<Options>, exec: Option<Executor>, file: Option<Manifest>): (o: Outcome)
    ensures o.returned == Undefined
    ensures o.run.Some? ==>
              var c := o.run.value.invocation.command;
              && o.run.value.message.Uninstalling?
              && o.run.value.invocation.executor == exec.GetOr(SpawnSync)
              && c.program == "npm" && c.stdio == Str("inherit") && c.cwd == Undefined
              && |c.args| > 2
              && c.args[0] == "uninstall"
              && c.args[1] == (if IsDev(options) then "--save-dev" else "--save")
              && c.args[2..] == o.run.value.message.names
  {
    var dev := IsDev(options);
    var newDeps := Filter(Normalize(deps), TargetOf(options, file), true);
    if newDeps == [] then Outcome(Undefined, None)
    else
      Outcome(Undefined, Some(Run(Uninstalling(newDeps),
                                  RunNpm(newDeps, Some(Options(Bool(dev), Bool(true), Undefined, Undefined)), exec))))
  }

  /** install runs npm on exactly the requested names not installed in the target section, in request order. */
  lemma InstallSelectsMissing(deps: Deps, options: Option<Options>, exec: Option<Executor>, file: Option<Manifest>)
    ensures IsSubsequence(Passed(Install(deps, options, exec, file)), Normalize(deps))
    ensures forall x :: multiset(Passed(Install(deps, options, exec, file)))[x]
                        == if IsInstalled(TargetOf(options, file), x) then 0 else multiset(Normalize(deps))[x]
  {
    FilterSubsequence(Normalize(deps), TargetOf(options, file), false);
    FilterCounts(Normalize(deps), TargetOf(options, file), false);
  }

  /** uninstall runs npm on exactly the requested names installed in the target section, in request order. */
  lemma UninstallSelectsPresent(deps: Deps, options: Option<Options>, exec: Option<Executor>, file: Option<Manifest>)
    ensures IsSubsequence(Passed(Uninstall(deps, options, exec, file)), Normalize(deps))
    ensures forall x :: multiset(Passed(Uninstall(deps, options, exec, file)))[x]
                        == if IsInstalled(TargetOf(options, file), x) then multiset(Normalize(deps))[x] else 0
  {
    FilterSubsequence(Normalize(deps), TargetOf(options, file), true);
    FilterCounts(Normalize(deps), TargetOf(options, file), true);
  }

  /** For one request, every name goes to exactly one of install's and uninstall's lists. */
  lemma InstallUninstallPartition(deps: Deps, options: Option<Options>, exec: Option<Executor>, file: Option<Manifest>)
    ensures |Passed(Install(deps, options, exec, file))| + |Passed(Uninstall(deps, options, exec, file))|
            == |Normalize(deps)|
    ensures multiset(Passed(Install(deps, options, exec, file))) + multiset(Passed(Uninstall(deps, options, exec, file)))
            == multiset(Normalize(deps))
  {
    FilterPartition(Normalize(deps), TargetOf(options, file));
  }

  /** install neither logs nor runs npm iff every requested name is already installed. */
  lemma InstallNothingToDo(deps: Deps, options: Option<Options>, exec: Option<Executor>, file: Option<Manifest>)
    ensures Install(deps, options, exec, file).run.None?
            <==> forall i :: 0 <= i < |Normalize(deps)| ==> IsInstalled(TargetOf(options, file), Normalize(deps)[i])
  {
    FilterEmpty(Normalize(deps), TargetOf(options, file), false);
  }

  /** uninstall neither logs nor runs npm iff no requested name is installed. */
  lemma UninstallNothingToDo(deps: Deps, options: Option<Options>, exec: Option<Executor>, file: Option<Manifest>)
    ensures Uninstall(deps, options, exec, file).run.None?
            <==> forall i :: 0 <= i < |Normalize(deps)| ==> !IsInstalled(TargetOf(options, file), Normalize(deps)[i])
  {
    FilterEmpty(Normalize(deps), TargetOf(options, file), true);
  }

  /**
    Without a package.json, install runs npm on the whole request (when it is
    not empty), to devDependencies unless `dev` is exactly `false`.
   */
  lemma InstallWithoutManifest(deps: Deps, options: Option<Options>, exec: Option<Executor>)
    ensures Install(deps, options, exec, None).run.Some? <==> Normalize(deps) != []
    ensures Normalize(deps) != [] ==>
              Install(deps, options, exec, None).run.value.invocation.command.args
              == ["install", if IsDev(options) then "--save-dev" else "--save"] + Normalize(deps)
  {
    FilterKeepsAll(Normalize(deps), TargetOf(options, None), false);
  }

  /** Only `dev: false` selects `dependencies` and `--save`; a missing options object or any other `dev` selects `devDependencies`. */
  lemma DevFlagOnlyExactFalse(deps: Deps, options: Option<Options>, exec: Option<Executor>, file: Option<Manifest>)
    ensures TargetOf(options, file)
            == if options.Some? && options.value.dev == Bool(false)
               then file.GetOr(Defaults).dependencies.GetOr(map[])
               else file.GetOr(Defaults).devDependencies.GetOr(map[])
    ensures Install(deps, options, exec, file).run.Some? ==>
              (Install(deps, options, exec, file).run.value.invocation.command.args[1] == "--save"
               <==> options.Some? && options.value.dev == Bool(false))
  {
  }

  /** The section that `dev` does not select has no influence on install or uninstall. */
  lemma OtherSectionIgnored(deps: Deps, options: Option<Options>, exec: Option<Executor>, a: Manifest, b: Manifest)
    requires IsDev(options) ==> a.devDependencies == b.devDependencies
    requires !IsDev(options) ==> a.dependencies == b.dependencies
    ensures Install(deps, options, exec, Some(a)) == Install(deps, options, exec, Some(b))
    ensures Uninstall(deps, options, exec, Some(a)) == Uninstall(deps, options, exec, Some(b))
  {
  }

  /** A single name behaves exactly like a one-element list. */
  lemma SingleNameIsList(name: string, options: Option<Options>, exec: Option<Executor>, file: Option<Manifest>)
    ensures Install(One(name), options, exec, file) == Install(Many([name]), options, exec, file)
    ensures Uninstall(One(name), options, exec, file) == Uninstall(Many([name]), options, exec, file)
  {
  }

  /** With `eslint` in devDependencies, installing `[eslint, babel-core]` installs only `babel-core`. */
  lemma InstallSkipsInstalledExample()
    ensures var o := Install(Many(["eslint", "babel-core"]), None, None,
                             Some(Manifest(Some(map[]), Some(map["eslint" := "*"]))));
            && o.run.Some?
            && o.run.value.message == Installing(["babel-core"])
            && o.run.value.invocation.command.args == ["install", "--save-dev", "babel-core"]
  {
  }

  /** An entry whose version string is empty is falsy, so install treats that package as missing. */
  lemma EmptyVersionIsNotInstalledExample()
    ensures var o := Install(One("eslint"), None, None, Some(Manifest(None, Some(map["eslint" := ""]))));
            && o.run.Some?
            && o.run.value.invocation.command.args == ["install", "--save-dev", "eslint"]
  {
  }
}
