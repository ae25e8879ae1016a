/**
  Which running processes `kill_running_app_processes` terminates before a
  build, so that no running copy of the host application holds a plugin
  library open. Only the choice of processes is modelled; enumerating and
  killing them is the operating system's business.
 */
module ProcessGuard {
  import opened Wrappers
  import opened Text

  const DefaultAppName: string := "webarcade"

  /** The host application's `app/Cargo.toml`. */
  datatype AppCargo =
    | NoAppCargo
    | AppCargoUnreadable
    | AppCargoParsed(packageName: Option<string>) // None: not TOML, or no string `package.name`

  /** The application name: `package.name`, else `webarcade`; an unreadable file is an error. */
  function AppName(cargo: AppCargo): (r: Result<string>)
    ensures r.Err? <==> cargo == AppCargoUnreadable
    ensures r.Ok? && r.value != DefaultAppName ==> cargo.AppCargoParsed? && cargo.packageName == Some(r.value)
    ensures cargo.AppCargoParsed? && cargo.packageName.Some? ==> r == Ok(cargo.packageName.value)
    ensures cargo == NoAppCargo || cargo == AppCargoParsed(None) ==> r == Ok(DefaultAppName)
  {
    match cargo
    case NoAppCargo => Ok(DefaultAppName)
    case AppCargoUnreadable => Err("cannot read app/Cargo.toml")
    case AppCargoParsed(None) => Ok(DefaultAppName)
    case AppCargoParsed(Some(n)) => Ok(n)
  }

  /** An executable path, as its text and as its components. */
  datatype ExePath = ExePath(text: string, components: seq<string>)

  datatype Process = Process(name: string, exe: Option<ExePath>)

  /** `Path::starts_with`: a whole-component prefix. */
  predicate StartsWithPath(p: seq<string>, dir: seq<string>)
  {
    |dir| <= |p| && p[..|dir|] == dir
  }

  /** The executable name in either spelling, compared in lower case. */
  predicate IsAppExecutableName(app: string, lowerName: string)
  {
    lowerName == ToLower(app) + ".exe" || lowerName == ToLower(app)
  }

  /** Launched from `app/target/release` or `app/target/debug`. */
  predicate InBuildOutput(p: ExePath, appDir: seq<string>)
  {
    StartsWithPath(p.components, appDir + ["target", "release"])
    || StartsWithPath(p.components, appDir + ["target", "debug"])
  }

  /**
    The kill test stated as one condition: the process is named like the
    application, or its executable path mentions the application and it
    either runs from the build output or its file is named like the application.
   */
  predicate IsCandidate(app: string, appDir: seq<string>, p: Process)
  {
    IsAppExecutableName(app, ToLower(p.name))
    || (p.exe.Some?
        && Contains(ToLower(p.exe.value.text), ToLower(app))
        && (InBuildOutput(p.exe.value, appDir)
            || (FileName(p.exe.value.components).Some? && IsAppExecutableName(app, ToLower(FileName(p.exe.value.components).value)))))
  }

  /** The test as the loop body makes it, raising a flag check by check. */
  method ShouldKill(app: string, appDir: seq<string>, p: Process) returns (shouldKill: bool)
    ensures shouldKill == IsCandidate(app, appDir, p)
  {
    var name := ToLower(p.name);
    var exeName := ToLower(app) + ".exe";
    var exeNameNoExt := ToLower(app);
    shouldKill := false;
    if name == exeName || name == exeNameNoExt {
      shouldKill := true;
    }
    if p.exe.Some? {
      var path := p.exe.value;
      var pathText := ToLower(path.text);
      if Contains(pathText, ToLower(app)) {
        if StartsWithPath(path.components, appDir + ["target", "release"])
           || StartsWithPath(path.components, appDir + ["target", "debug"]) {
          shouldKill := true;
        }
        var fileName := FileName(path.components);
        if fileName.Some? {
          var fileNameText := ToLower(fileName.value);
          if fileNameText == exeName || fileNameText == exeNameNoExt {
            shouldKill := true;
          }
        }
      }
    }
  }

  lemma {:induction false} ToLowerIdempotent(s: string)
    ensures ToLower(ToLower(s)) == ToLower(s)
  {
    var t := ToLower(s);
    assert forall k :: 0 <= k < |s| ==> ToLower(t)[k] == ToLowerChar(ToLowerChar(s[k])) == t[k];
  }

  /** A process that is killed has the application's name in its name or its path. */
  lemma CandidateMentionsApp(app: string, appDir: seq<string>, p: Process)
    requires IsCandidate(app, appDir, p)
    ensures Contains(ToLower(p.name), ToLower(app))
      || (p.exe.Some? && Contains(ToLower(p.exe.value.text), ToLower(app)))
  {
    if ToLower(p.name) == ToLower(app) + ".exe" {
      ContainsPrefix(ToLower(app), ".exe");
    } else if ToLower(p.name) == ToLower(app) {
      ContainsSelf(ToLower(app));
    }
  }

  /** The test does not care how the process name or the application name is cased. */
  lemma CandidateIgnoresCase(app: string, appDir: seq<string>, p: Process)
    ensures IsCandidate(ToLower(app), appDir, p.(name := ToLower(p.name))) == IsCandidate(app, appDir, p)
  {
    ToLowerIdempotent(app);
    ToLowerIdempotent(p.name);
  }

  /** A process named like the application is killed wherever it runs from. */
  lemma NamedLikeAppIsCandidate(app: string, appDir: seq<string>, p: Process)
    requires ToLower(p.name) == ToLower(app) + ".exe" || ToLower(p.name) == ToLower(app)
    ensures IsCandidate(app, appDir, p)
  {
  }

  /**
    A process whose name and path both avoid the application name is never
    killed, even from inside the build output.
   */
  lemma UnrelatedProcessSpared(app: string, appDir: seq<string>, p: Process)
    requires !Contains(ToLower(p.name), ToLower(app))
    requires p.exe.None? || !Contains(ToLower(p.exe.value.text), ToLower(app))
    ensures !IsCandidate(app, appDir, p)
  {
    if IsCandidate(app, appDir, p) {
      CandidateMentionsApp(app, appDir, p);
    }
  }

  /** The processes the first pass selects, in enumeration order. */
  function Candidates(app: string, appDir: seq<string>, ps: seq<Process>): (r: seq<Process>)
    ensures |r| <= |ps|
  {
    if ps == [] then []
    else
      var rest := Candidates(app, appDir, ps[..|ps| - 1]);
      if IsCandidate(app, appDir, ps[|ps| - 1]) then rest + [ps[|ps| - 1]] else rest
  }

  lemma {:induction false} CandidatesMembership(app: string, appDir: seq<string>, ps: seq<Process>, p: Process)
    ensures p in Candidates(app, appDir, ps) <==> p in ps && IsCandidate(app, appDir, p)
  {
    if ps != [] {
      var init := ps[..|ps| - 1];
      CandidatesMembership(app, appDir, init, p);
      assert ps == init + [ps[|ps| - 1]];
    }
  }

  /** The first pass over the process table. */
  method SelectVictims(app: string, appDir: seq<string>, ps: seq<Process>) returns (victims: seq<Process>)
    ensures victims == Candidates(app, appDir, ps)
  {
    victims := [];
    for i := 0 to |ps|
      invariant victims == Candidates(app, appDir, ps[..i])
    {
      assert ps[..i + 1][..i] == ps[..i];
      var kill := ShouldKill(app, appDir, ps[i]);
      if kill {
        victims := victims + [ps[i]];
      }
    }
    assert ps[..|ps|] == ps;
  }

  /** The second pass re-kills survivors by name only. */
  predicate StillRunning(app: string, p: Process)
  {
    IsAppExecutableName(app, ToLower(p.name))
  }

  /** The second pass never reaches a process the first pass would have spared. */
  lemma SecondPassWithinFirst(app: string, appDir: seq<string>, ps: seq<Process>, p: Process)
    requires p in ps && StillRunning(app, p)
    ensures p in Candidates(app, appDir, ps)
  {
    CandidatesMembership(app, appDir, ps, p);
  }
}
