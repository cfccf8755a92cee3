/**
 * The action's main flow (src/index.js): one `collect` call, an optional `assert`
 * call and an optional `upload` call of the Lighthouse CI command line, each with
 * an argument list built from the input record.
 *
 * The command runner is a parameter: it maps a verb and its arguments to the
 * exit status of the child process. A run's result is the trace of the calls
 * made and the failure messages reported, in order; the run succeeded when no
 * failure was reported.
 */
module Pipeline {
  import opened Wrappers
  import opened Strings

  datatype Verb = Collect | Assert | Upload

  datatype Invocation = Invocation(verb: Verb, args: seq<string>)

  /**
   * The input record `main` reads. A text property that may be missing is an
   * Option; `rcCollect`, `rcAssert` and `canUpload` are read only for truth.
   */
  datatype ActionInput = ActionInput(
    staticDistDir: Option<string>,
    urls: Option<seq<string>>,
    rcCollect: bool,
    rcAssert: bool,
    rcFile: Option<string>,
    numberOfRuns: Option<int>,
    budgetPath: Option<string>,
    lhciServer: Option<string>,
    apiToken: Option<string>,
    canUpload: bool)

  type Runner = (Verb, seq<string>) -> int

  datatype RunResult = RunResult(trace: seq<Invocation>, failures: seq<string>)

  const CollectProblem := "LHCI 'collect' has encountered a problem."
  const AssertionsFailed := "Assertions have failed."
  const UploadProblem := "LHCI 'upload' has encountered a problem."

  /** A text property is truthy when it is present and not empty. */
  predicate Truthy(s: Option<string>) {
    s.Some? && s.value != ""
  }

  /** A number is truthy when it is present (not undefined, not NaN) and not zero. */
  predicate NumberTruthy(n: Option<int>) {
    n.Some? && n.value != 0
  }

  /** A property inside a template literal: a missing one renders as "undefined". */
  function Show(s: Option<string>): string {
    if s.Some? then s.value else "undefined"
  }

  // ---------------------------------------------------------------- argument lists

  function UrlArg(url: string): string {
    "--url=" + url
  }

  function UrlArgs(urls: seq<string>): (args: seq<string>)
    ensures |args| == |urls|
  {
    seq(|urls|, i requires 0 <= i < |urls| => UrlArg(urls[i]))
  }

  /** What is audited: a static directory if one is given, else the URLs. */
  function TargetArgs(input: ActionInput): seq<string> {
    if Truthy(input.staticDistDir) then ["--static-dist-dir=" + Show(input.staticDistDir)]
    else if input.urls.Some? then UrlArgs(input.urls.value)
    else []
  }

  /** How often: the rc-file's collect section if it has one, else the number of runs. */
  function RunsArgs(input: ActionInput): seq<string> {
    if input.rcCollect then ["--rc-file=" + Show(input.rcFile)]
    else if NumberTruthy(input.numberOfRuns) then ["--numberOfRuns=" + IntToString(input.numberOfRuns.value)]
    else []
  }

  function CollectArgs(input: ActionInput): seq<string> {
    TargetArgs(input) + RunsArgs(input)
  }

  predicate AssertWanted(input: ActionInput) {
    Truthy(input.budgetPath) || input.rcAssert
  }

  function AssertArgs(input: ActionInput): seq<string> {
    if Truthy(input.budgetPath) then ["--budgetsFile=" + Show(input.budgetPath)]
    else ["--rc-file=" + Show(input.rcFile)]
  }

  predicate UploadWanted(input: ActionInput) {
    (Truthy(input.lhciServer) && Truthy(input.apiToken)) || input.canUpload
  }

  function UploadArgs(input: ActionInput): seq<string> {
    if Truthy(input.lhciServer) then
      ["--target=lhci", "--serverBaseUrl=" + Show(input.lhciServer), "--token=" + Show(input.apiToken)]
    else ["--target=temporary-public-storage"]
  }

  // ---------------------------------------------------------------- the run

  /**
   * The calls made and the failures reported. A failing collect throws, so nothing
   * follows it; a failing assert is reported and the run goes on to upload; a
   * failing upload throws.
   */
  function Expected(input: ActionInput, runner: Runner): RunResult {
    var collect := Invocation(Collect, CollectArgs(input));
    if runner(Collect, CollectArgs(input)) != 0 then RunResult([collect], [CollectProblem])
    else
      var asserting := if AssertWanted(input) then [Invocation(Assert, AssertArgs(input))] else [];
      var assertFailures :=
        if AssertWanted(input) && runner(Assert, AssertArgs(input)) != 0 then [AssertionsFailed] else [];
      var uploading := if UploadWanted(input) then [Invocation(Upload, UploadArgs(input))] else [];
      var uploadFailures :=
        if UploadWanted(input) && runner(Upload, UploadArgs(input)) != 0 then [UploadProblem] else [];
      RunResult([collect] + asserting + uploading, assertFailures + uploadFailures)
  }

  /** The collecting part of main: the target arguments, then at most one run-count argument. */
  method BuildCollectArgs(input: ActionInput) returns (args: seq<string>)
    ensures args == CollectArgs(input)
  {
    args := [];
    if Truthy(input.staticDistDir) {
      args := args + ["--static-dist-dir=" + Show(input.staticDistDir)];
    } else if input.urls.Some? {
      var urls := input.urls.value;
      for i := 0 to |urls|
        invariant args == UrlArgs(urls[..i])
      {
        assert urls[..i + 1] == urls[..i] + [urls[i]];
        args := args + [UrlArg(urls[i])];
      }
      assert urls[..|urls|] == urls;
    }
    assert args == TargetArgs(input);
    if input.rcCollect {
      args := args + ["--rc-file=" + Show(input.rcFile)];
    } else if NumberTruthy(input.numberOfRuns) {
      args := args + ["--numberOfRuns=" + IntToString(input.numberOfRuns.value)];
    }
  }

  /** main: runs the stages in order, and stops at the first thrown error. */
  method Run(input: ActionInput, runner: Runner) returns (r: RunResult)
    ensures r == Expected(input, runner)
  {
    var trace: seq<Invocation> := [];
    var failures: seq<string> := [];

    // collecting
    var args := BuildCollectArgs(input);
    var status := runner(Collect, args);
    trace := trace + [Invocation(Collect, args)];
    if status != 0 {
      failures := failures + [CollectProblem];
      return RunResult(trace, failures);
    }

    // asserting
    if Truthy(input.budgetPath) || input.rcAssert {
      args := [];
      if Truthy(input.budgetPath) {
        args := args + ["--budgetsFile=" + Show(input.budgetPath)];
      } else {
        args := args + ["--rc-file=" + Show(input.rcFile)];
      }
      assert args == AssertArgs(input);
      status := runner(Assert, args);
      trace := trace + [Invocation(Assert, args)];
      if status != 0 {
        failures := failures + [AssertionsFailed];
      }
    }

    // uploading
    if (Truthy(input.lhciServer) && Truthy(input.apiToken)) || input.canUpload {
      args := [];
      if Truthy(input.lhciServer) {
        args := args + ["--target=lhci", "--serverBaseUrl=" + Show(input.lhciServer),
                        "--token=" + Show(input.apiToken)];
      } else {
        args := args + ["--target=temporary-public-storage"];
      }
      assert args == UploadArgs(input);
      status := runner(Upload, args);
      trace := trace + [Invocation(Upload, args)];
      if status != 0 {
        failures := failures + [UploadProblem];
        return RunResult(trace, failures);
      }
    }

    return RunResult(trace, failures);
  }

  /** The stub at the head of runChildCommand: collect succeeds, every other verb fails. */
  function StubRunner(verb: Verb, args: seq<string>): int {
    if verb == Collect then 0 else 1
  }

  /** A runner whose every command exits with 0. */
  function AllSucceed(verb: Verb, args: seq<string>): int {
    0
  }

  // ---------------------------------------------------------------- properties

  /** Number of arguments that start with `prefix`. */
  function CountPrefixed(args: seq<string>, prefix: string): nat {
    if |args| == 0 then 0
    else (if StartsWith(args[0], prefix) then 1 else 0) + CountPrefixed(args[1..], prefix)
  }

  lemma {:induction false} CountPrefixedAppend(a: seq<string>, b: seq<string>, prefix: string)
    ensures CountPrefixed(a + b, prefix) == CountPrefixed(a, prefix) + CountPrefixed(b, prefix)
    decreases |a|
  {
    if |a| > 0 {
      assert (a + b)[1..] == a[1..] + b;
      CountPrefixedAppend(a[1..], b, prefix);
    } else {
      assert a + b == b;
    }
  }

  /** Two prefixes that differ at some position exclude each other. */
  lemma DistinctPrefixes(s: string, p: string, q: string, k: nat)
    requires k < |p| && k < |q| && p[k] != q[k]
    ensures !(StartsWith(s, p) && StartsWith(s, q))
  {
    if StartsWith(s, p) && |q| <= |s| {
      assert s[k] == s[..|p|][k] == p[k];
      assert s[..|q|][k] != q[k];
    }
  }

  lemma StartsWithConcat(p: string, rest: string)
    ensures StartsWith(p + rest, p)
  {
    assert (p + rest)[..|p|] == p;
  }

  lemma {:induction false} UrlArgsCountPrefixed(urls: seq<string>, prefix: string)
    requires 2 < |prefix| && prefix[2] != 'u'
    ensures CountPrefixed(UrlArgs(urls), prefix) == 0
    decreases |urls|
  {
    if |urls| > 0 {
      var args := UrlArgs(urls);
      DistinctPrefixes(args[0], "--url=", prefix, 2);
      StartsWithConcat("--url=", urls[0]);
      assert args[1..] == UrlArgs(urls[1..]);
      UrlArgsCountPrefixed(urls[1..], prefix);
    }
  }

  lemma {:induction false} UrlArgsAllUrls(urls: seq<string>)
    ensures CountPrefixed(UrlArgs(urls), "--url=") == |urls|
    decreases |urls|
  {
    if |urls| > 0 {
      var args := UrlArgs(urls);
      StartsWithConcat("--url=", urls[0]);
      assert args[1..] == UrlArgs(urls[1..]);
      UrlArgsAllUrls(urls[1..]);
    }
  }

  lemma RunsArgsShape(input: ActionInput)
    ensures |RunsArgs(input)| <= 1
    ensures forall a :: a in RunsArgs(input) ==>
      StartsWith(a, "--rc-file=") || StartsWith(a, "--numberOfRuns=")
  {
    if input.rcCollect {
      StartsWithConcat("--rc-file=", Show(input.rcFile));
    } else if NumberTruthy(input.numberOfRuns) {
      StartsWithConcat("--numberOfRuns=", IntToString(input.numberOfRuns.value));
    }
  }

  /**
   * With a static directory, the collect arguments start with the one
   * `--static-dist-dir=` argument and hold no `--url=` argument.
   */
  lemma StaticDistDirExcludesUrls(input: ActionInput)
    requires Truthy(input.staticDistDir)
    ensures var args := CollectArgs(input);
      |args| >= 1 && args[0] == "--static-dist-dir=" + input.staticDistDir.value
      && CountPrefixed(args, "--static-dist-dir=") == 1
      && CountPrefixed(args, "--url=") == 0
  {
    var args := CollectArgs(input);
    var runs := RunsArgs(input);
    RunsArgsShape(input);
    StartsWithConcat("--static-dist-dir=", input.staticDistDir.value);
    CountPrefixedAppend(TargetArgs(input), runs, "--static-dist-dir=");
    CountPrefixedAppend(TargetArgs(input), runs, "--url=");
    DistinctPrefixes(args[0], "--static-dist-dir=", "--url=", 2);
    if |runs| == 1 {
      DistinctPrefixes(runs[0], "--rc-file=", "--static-dist-dir=", 2);
      DistinctPrefixes(runs[0], "--numberOfRuns=", "--static-dist-dir=", 2);
      DistinctPrefixes(runs[0], "--rc-file=", "--url=", 2);
      DistinctPrefixes(runs[0], "--numberOfRuns=", "--url=", 2);
      assert runs[1..] == [];
    }
  }

  /**
   * Without a static directory, the collect arguments start with one `--url=<u>`
   * per URL in input order, and no other argument is a `--url=` argument.
   */
  lemma UrlsInInputOrder(input: ActionInput)
    requires !Truthy(input.staticDistDir) && input.urls.Some?
    ensures var urls := input.urls.value; var args := CollectArgs(input);
      |args| >= |urls|
      && (forall i :: 0 <= i < |urls| ==> args[i] == "--url=" + urls[i])
      && CountPrefixed(args, "--url=") == |urls|
  {
    var runs := RunsArgs(input);
    RunsArgsShape(input);
    UrlArgsAllUrls(input.urls.value);
    CountPrefixedAppend(TargetArgs(input), runs, "--url=");
    if |runs| == 1 {
      DistinctPrefixes(runs[0], "--rc-file=", "--url=", 2);
      DistinctPrefixes(runs[0], "--numberOfRuns=", "--url=", 2);
      assert runs[1..] == [];
    }
  }

  /**
   * At most one of `--rc-file=` and `--numberOfRuns=` is passed to collect: the
   * rc-file when its collect section is flagged, else the number of runs when it
   * is a non-zero number, else neither.
   */
  lemma RcFileOverNumberOfRuns(input: ActionInput)
    ensures var args := CollectArgs(input);
      var n := CountPrefixed(args, "--rc-file=") + CountPrefixed(args, "--numberOfRuns=");
      (n == 1 <==> input.rcCollect || NumberTruthy(input.numberOfRuns))
      && (n == 0 <==> !input.rcCollect && !NumberTruthy(input.numberOfRuns))
      && (input.rcCollect ==> args[|args| - 1] == "--rc-file=" + Show(input.rcFile)
                              && CountPrefixed(args, "--numberOfRuns=") == 0)
      && (!input.rcCollect && NumberTruthy(input.numberOfRuns) ==>
            args[|args| - 1] == "--numberOfRuns=" + IntToString(input.numberOfRuns.value)
            && CountPrefixed(args, "--rc-file=") == 0)
  {
    var target := TargetArgs(input);
    var runs := RunsArgs(input);
    CountPrefixedAppend(target, runs, "--rc-file=");
    CountPrefixedAppend(target, runs, "--numberOfRuns=");
    if Truthy(input.staticDistDir) {
      DistinctPrefixes(target[0], "--static-dist-dir=", "--rc-file=", 2);
      DistinctPrefixes(target[0], "--static-dist-dir=", "--numberOfRuns=", 2);
      StartsWithConcat("--static-dist-dir=", input.staticDistDir.value);
      assert target[1..] == [];
    } else if input.urls.Some? {
      UrlArgsCountPrefixed(input.urls.value, "--rc-file=");
      UrlArgsCountPrefixed(input.urls.value, "--numberOfRuns=");
    }
    if input.rcCollect {
      StartsWithConcat("--rc-file=", Show(input.rcFile));
      DistinctPrefixes(runs[0], "--rc-file=", "--numberOfRuns=", 2);
      assert runs[1..] == [];
    } else if NumberTruthy(input.numberOfRuns) {
      StartsWithConcat("--numberOfRuns=", IntToString(input.numberOfRuns.value));
      DistinctPrefixes(runs[0], "--rc-file=", "--numberOfRuns=", 2);
      assert runs[1..] == [];
    }
  }

  function Verbs(trace: seq<Invocation>): (verbs: seq<Verb>)
    ensures |verbs| == |trace|
  {
    seq(|trace|, i requires 0 <= i < |trace| => trace[i].verb)
  }

  /**
   * Collect always runs first; the verbs called form an in-order subsequence of
   * collect, assert, upload, each at most once.
   */
  lemma StagesInOrder(input: ActionInput, runner: Runner)
    ensures var r := Expected(input, runner);
      var collected := runner(Collect, CollectArgs(input)) == 0;
      |r.trace| >= 1 && r.trace[0] == Invocation(Collect, CollectArgs(input))
      && Verbs(r.trace) == [Collect]
                           + (if collected && AssertWanted(input) then [Assert] else [])
                           + (if collected && UploadWanted(input) then [Upload] else [])
  {
    var r := Expected(input, runner);
    var collected := runner(Collect, CollectArgs(input)) == 0;
    var verbs := [Collect] + (if collected && AssertWanted(input) then [Assert] else [])
                 + (if collected && UploadWanted(input) then [Upload] else []);
    assert |r.trace| == |verbs|;
    forall i | 0 <= i < |verbs| ensures Verbs(r.trace)[i] == verbs[i] {
      if i == 1 && collected && AssertWanted(input) {
        assert r.trace[1] == Invocation(Assert, AssertArgs(input));
      }
    }
  }

  /** A failing collect ends the run: assert and upload are never called. */
  lemma CollectFailureAborts(input: ActionInput, runner: Runner)
    requires runner(Collect, CollectArgs(input)) != 0
    ensures Expected(input, runner) == RunResult([Invocation(Collect, CollectArgs(input))], [CollectProblem])
  {
  }

  /**
   * Assert is called exactly when collect succeeded and a budget path or an
   * rc-file assert section is given; its one argument is the budget file when
   * there is one, else the rc-file.
   */
  lemma AssertCalledIff(input: ActionInput, runner: Runner)
    ensures var r := Expected(input, runner);
      (Assert in Verbs(r.trace) <==> runner(Collect, CollectArgs(input)) == 0 && AssertWanted(input))
      && (Assert in Verbs(r.trace) ==> r.trace[1] == Invocation(Assert, AssertArgs(input)))
      && |AssertArgs(input)| == 1
      && (Truthy(input.budgetPath) ==> AssertArgs(input)[0] == "--budgetsFile=" + input.budgetPath.value)
      && (!Truthy(input.budgetPath) ==> AssertArgs(input)[0] == "--rc-file=" + Show(input.rcFile))
  {
    StagesInOrder(input, runner);
  }

  /**
   * Upload is called exactly when collect succeeded and either both the server and
   * the token are given or uploading is allowed; a failing assert does not stop it.
   */
  lemma UploadCalledIff(input: ActionInput, runner: Runner)
    ensures var r := Expected(input, runner);
      (Upload in Verbs(r.trace) <==> runner(Collect, CollectArgs(input)) == 0 && UploadWanted(input))
      && (Upload in Verbs(r.trace) ==> r.trace[|r.trace| - 1] == Invocation(Upload, UploadArgs(input)))
  {
    StagesInOrder(input, runner);
  }

  /** The upload arguments: the three lhci arguments with a server, else temporary public storage. */
  lemma UploadTarget(input: ActionInput)
    ensures Truthy(input.lhciServer) ==>
      UploadArgs(input) == ["--target=lhci", "--serverBaseUrl=" + input.lhciServer.value,
                            "--token=" + Show(input.apiToken)]
    ensures !Truthy(input.lhciServer) ==> UploadArgs(input) == ["--target=temporary-public-storage"]
  {
  }

  /**
   * A failing assert is reported and the run goes on; it then fails whatever the
   * upload does.
   */
  lemma AssertFailureContinues(input: ActionInput, runner: Runner)
    requires runner(Collect, CollectArgs(input)) == 0
    requires AssertWanted(input) && runner(Assert, AssertArgs(input)) != 0
    ensures var r := Expected(input, runner);
      |r.failures| >= 1 && r.failures[0] == AssertionsFailed
      && (Upload in Verbs(r.trace) <==> UploadWanted(input))
  {
    UploadCalledIff(input, runner);
  }

  /** A failing upload fails the run, and is the last failure reported. */
  lemma UploadFailureFails(input: ActionInput, runner: Runner)
    requires runner(Collect, CollectArgs(input)) == 0
    requires UploadWanted(input) && runner(Upload, UploadArgs(input)) != 0
    ensures var r := Expected(input, runner);
      |r.failures| >= 1 && r.failures[|r.failures| - 1] == UploadProblem
  {
  }

  /** The run reports no failure exactly when every stage it called exited with 0. */
  lemma SucceedsIffEveryCallSucceeds(input: ActionInput, runner: Runner)
    ensures var r := Expected(input, runner);
      r.failures == [] <==> forall i :: 0 <= i < |r.trace| ==> runner(r.trace[i].verb, r.trace[i].args) == 0
  {
    var r := Expected(input, runner);
    if runner(Collect, CollectArgs(input)) == 0 {
      var collect := Invocation(Collect, CollectArgs(input));
      if AssertWanted(input) {
        assert r.trace[1] == Invocation(Assert, AssertArgs(input));
      }
      if UploadWanted(input) {
        assert r.trace[|r.trace| - 1] == Invocation(Upload, UploadArgs(input));
      }
    } else {
      assert r.trace[0] == Invocation(Collect, CollectArgs(input));
    }
  }

  /**
   * With the stub runner, collect succeeds, so the run fails exactly when assert
   * or upload is called.
   */
  lemma StubRunOutcome(input: ActionInput)
    ensures var r := Expected(input, StubRunner);
      r.failures == (if AssertWanted(input) then [AssertionsFailed] else [])
                    + (if UploadWanted(input) then [UploadProblem] else [])
      && (r.failures == [] <==> !AssertWanted(input) && !UploadWanted(input))
  {
  }

  /**
   * A server address with no token still selects the lhci target when uploading
   * is allowed, and the token argument then reads "undefined".
   */
  lemma ServerWithoutTokenExample(server: string)
    requires server != ""
    ensures var input := ActionInput(None, Some(["https://a.test"]), false, false, None, None, None,
                                     Some(server), None, true);
      UploadWanted(input)
      && UploadArgs(input) == ["--target=lhci", "--serverBaseUrl=" + server, "--token=undefined"]
  {
    var input := ActionInput(None, Some(["https://a.test"]), false, false, None, None, None,
                             Some(server), None, true);
    assert Show(input.apiToken) == "undefined";
    assert "--token=" + "undefined" == "--token=undefined";
  }

  /**
   * Two URLs, no budget, no rc-file, uploading allowed and every call succeeding:
   * collect gets both URLs, assert is skipped, upload goes to temporary public storage.
   */
  lemma TwoUrlsExample(a: string, b: string)
    ensures var input := ActionInput(None, Some([a, b]), false, false, None, None, None, None, None, true);
      Expected(input, AllSucceed) == RunResult(
        [Invocation(Collect, ["--url=" + a, "--url=" + b]),
         Invocation(Upload, ["--target=temporary-public-storage"])],
        [])
  {
    var input := ActionInput(None, Some([a, b]), false, false, None, None, None, None, None, true);
    assert CollectArgs(input) == UrlArgs([a, b]) + [];
    assert UrlArgs([a, b]) == ["--url=" + a, "--url=" + b];
    assert CollectArgs(input) == ["--url=" + a, "--url=" + b];
    assert !AssertWanted(input) && UploadWanted(input);
    assert UploadArgs(input) == ["--target=temporary-public-storage"];
    var r := Expected(input, AllSucceed);
    assert AllSucceed(Collect, CollectArgs(input)) == 0;
    assert r.trace == [Invocation(Collect, CollectArgs(input))] + [] + [Invocation(Upload, UploadArgs(input))];
    assert r.failures == [] + [];
  }
}
