/**
 * Resolution of the action's inputs into its argument record (src/input_parser.js).
 *
 * The CI platform's inputs are a map from input name to the text it holds; an
 * input that was not given reads as "". The rc-file system is a map from path to
 * the JSON value the file parses to; a path missing from it is a file that
 * cannot be read or does not parse.
 */
module InputParser {
  import opened Wrappers
  import opened Strings

  type Inputs = map<string, string>

  /** A parsed JSON value. */
  datatype Json =
    | JNull
    | JBool(b: bool)
    | JNum(n: real)
    | JStr(s: string)
    | JArr(items: seq<Json>)
    | JObj(fields: map<string, Json>)

  /** What the action records about an rc-file. */
  datatype RcFile = RcFile(path: string, hasCollect: bool, hasAssert: bool)

  /** The argument record getArgs returns; an absent optional property is None. */
  datatype Args = Args(
    urls: seq<string>,
    canUpload: bool,
    budgetPath: Option<string>,
    numberOfRuns: Option<int>,
    lhciServer: Option<string>,
    apiToken: Option<string>,
    rcFile: Option<RcFile>)

  /** Why the run stops before anything is collected. */
  datatype ArgsError =
    | IncompleteCredentials      // "Need both an LHCI address and API token", then exit(1)
    | RcFileMissingCi            // "rc-file missing top level 'ci' property", then exit(1)
    | RcFileUnreadable(path: string)  // readFileSync or JSON.parse throws
    | RcFileNotAnObject          // the `in` operator throws on a value that is not an object

  // ---------------------------------------------------------------- JSON `in`

  /** The `in` operator accepts only objects (arrays included) on its right. */
  predicate IsObjectLike(v: Json) {
    v.JObj? || v.JArr?
  }

  /** A canonical array index below `n`: "0", or decimal digits with no leading zero. */
  predicate IsIndexKey(key: string, n: nat) {
    |key| > 0 && (forall i :: 0 <= i < |key| ==> IsAsciiDigit(key[i]))
    && (|key| == 1 || key[0] != '0') && DigitsValue(key, 10) < n
  }

  /**
   * `key in v` for a key that names no member of Object.prototype or
   * Array.prototype (the action asks only for "ci", "collect" and "assert").
   */
  predicate HasKey(v: Json, key: string)
    requires IsObjectLike(v)
  {
    match v
    case JObj(fields) => key in fields
    case JArr(items) => key == "length" || IsIndexKey(key, |items|)
  }

  /** `v[key]` for a key that `v` has. */
  function Property(v: Json, key: string): Json
    requires IsObjectLike(v) && HasKey(v, key)
  {
    match v
    case JObj(fields) => fields[key]
    case JArr(items) =>
      if key == "length" then JNum(|items| as real) else items[DigitsValue(key, 10)]
  }

  /** The rc-file at `path` can be read, is an object, and has an object-valued `ci`. */
  predicate RcFileUsable(rcFiles: map<string, Json>, path: string) {
    path in rcFiles && IsObjectLike(rcFiles[path]) && HasKey(rcFiles[path], "ci")
    && IsObjectLike(Property(rcFiles[path], "ci"))
  }

  /** The `ci` section of a usable rc-file. */
  function CiSection(rcFiles: map<string, Json>, path: string): Json
    requires RcFileUsable(rcFiles, path)
  {
    Property(rcFiles[path], "ci")
  }

  // ---------------------------------------------------------------- getters

  /** core.getInput: the text of an input, or "" when it was not given. */
  function GetInput(inputs: Inputs, name: string): string {
    if name in inputs then inputs[name] else ""
  }

  /** getUrls: the `urls` input split at newlines, each piece trimmed. */
  function GetUrls(raw: string): (urls: seq<string>)
    ensures |urls| == CountChar(raw, '\n') + 1
    ensures forall i :: 0 <= i < |urls| ==> IsTrimmed(urls[i])
  {
    var parts := Split(raw, '\n');
    SplitCount(raw, '\n');
    forall i | 0 <= i < |parts| ensures IsTrimmed(Trim(parts[i])) {
      TrimIsTrimmed(parts[i]);
    }
    seq(|parts|, i requires 0 <= i < |parts| => Trim(parts[i]))
  }

  function GetBudgetPath(inputs: Inputs): string {
    GetInput(inputs, "budget_path")
  }

  /** getRcFile: the `rc_file_path` input, or null when it is empty. */
  function GetRcFile(inputs: Inputs): (path: Option<string>)
    ensures path.None? <==> GetInput(inputs, "rc_file_path") == ""
    ensures path.Some? ==> path.value == GetInput(inputs, "rc_file_path")
  {
    var p := GetInput(inputs, "rc_file_path");
    if p != "" then Some(p) else None
  }

  /** getNumberOfRuns: parseInt of the `runs` input; None is NaN. */
  function GetNumberOfRuns(inputs: Inputs): Option<int> {
    ParseInt(GetInput(inputs, "runs"))
  }

  function GetLhciServer(inputs: Inputs): string {
    GetInput(inputs, "lhci_server")
  }

  function GetApiToken(inputs: Inputs): string {
    GetInput(inputs, "api_token")
  }

  /** canUpload: uploading is allowed unless `no_upload` holds any text at all. */
  function CanUpload(inputs: Inputs): (allowed: bool)
    ensures !allowed <==> |GetInput(inputs, "no_upload")| > 0
  {
    var noUpload := GetInput(inputs, "no_upload");
    if noUpload != "" then false else true
  }

  /** Exactly one of the server address and the token is given. */
  predicate CredentialMismatch(inputs: Inputs) {
    (GetLhciServer(inputs) != "") != (GetApiToken(inputs) != "")
  }

  // ---------------------------------------------------------------- getArgs

  /** What every argument record getArgs returns satisfies. */
  predicate ValidArgs(a: Args) {
    |a.urls| >= 1
    && (forall i :: 0 <= i < |a.urls| ==> IsTrimmed(a.urls[i]))
    && (a.budgetPath.Some? ==> a.budgetPath.value != "")
    && (a.numberOfRuns.Some? ==> a.numberOfRuns.value != 0)
    && (a.lhciServer.Some? <==> a.apiToken.Some?)
    && (a.lhciServer.Some? ==> a.lhciServer.value != "" && a.apiToken.value != "")
    && (a.rcFile.Some? ==> a.rcFile.value.path != "")
  }

  /**
   * The rc-file step of getArgs: read and parse the file, then require an
   * object with a `ci` property that is itself an object, and note whether
   * `ci` has `collect` and `assert`.
   */
  method ReadRcFile(rcFiles: map<string, Json>, path: string) returns (r: Result<RcFile, ArgsError>)
    ensures r.Success? <==> RcFileUsable(rcFiles, path)
    ensures path !in rcFiles ==> r == Failure(RcFileUnreadable(path))
    ensures path in rcFiles && !IsObjectLike(rcFiles[path]) ==> r == Failure(RcFileNotAnObject)
    ensures (path in rcFiles && IsObjectLike(rcFiles[path]) && !HasKey(rcFiles[path], "ci")) ==>
      r == Failure(RcFileMissingCi)
    ensures (path in rcFiles && IsObjectLike(rcFiles[path]) && HasKey(rcFiles[path], "ci")
             && !IsObjectLike(Property(rcFiles[path], "ci"))) ==> r == Failure(RcFileNotAnObject)
    ensures r.Success? ==>
      r.value == RcFile(path, HasKey(CiSection(rcFiles, path), "collect"), HasKey(CiSection(rcFiles, path), "assert"))
  {
    if path !in rcFiles {
      return Failure(RcFileUnreadable(path));
    }
    var rc := rcFiles[path];
    if !IsObjectLike(rc) {
      return Failure(RcFileNotAnObject);
    }
    if !HasKey(rc, "ci") {
      return Failure(RcFileMissingCi);
    }
    var ci := Property(rc, "ci");
    if !IsObjectLike(ci) {
      return Failure(RcFileNotAnObject);
    }
    return Success(RcFile(path, HasKey(ci, "collect"), HasKey(ci, "assert")));
  }

  /**
   * getArgs: builds the argument record one optional property at a time, stopping
   * the run when exactly one credential is given or the rc-file is unusable.
   */
  method GetArgs(inputs: Inputs, rcFiles: map<string, Json>) returns (r: Result<Args, ArgsError>)
    // the credential check comes first
    ensures CredentialMismatch(inputs) ==> r == Failure(IncompleteCredentials)
    // the only other ways to fail are through the rc-file
    ensures r.Failure? <==>
      CredentialMismatch(inputs)
      || (GetRcFile(inputs).Some? && !RcFileUsable(rcFiles, GetRcFile(inputs).value))
    ensures !CredentialMismatch(inputs) && GetRcFile(inputs).Some? ==>
      var path := GetRcFile(inputs).value;
      (path !in rcFiles ==> r == Failure(RcFileUnreadable(path)))
      && (path in rcFiles && IsObjectLike(rcFiles[path]) && !HasKey(rcFiles[path], "ci") ==>
            r == Failure(RcFileMissingCi))
      && (path in rcFiles && !IsObjectLike(rcFiles[path]) ==> r == Failure(RcFileNotAnObject))
      && ((path in rcFiles && IsObjectLike(rcFiles[path]) && HasKey(rcFiles[path], "ci")
           && !IsObjectLike(Property(rcFiles[path], "ci"))) ==> r == Failure(RcFileNotAnObject))
    ensures r.Success? ==> ValidArgs(r.value)
    ensures r.Success? ==>
      var a := r.value;
      a.urls == GetUrls(GetInput(inputs, "urls"))
      && a.canUpload == (GetInput(inputs, "no_upload") == "")
      && (a.budgetPath.Some? <==> GetBudgetPath(inputs) != "")
      && (a.budgetPath.Some? ==> a.budgetPath.value == GetBudgetPath(inputs))
      && (a.numberOfRuns.Some? <==> GetNumberOfRuns(inputs).Some? && GetNumberOfRuns(inputs).value != 0)
      && (a.numberOfRuns.Some? ==> a.numberOfRuns == GetNumberOfRuns(inputs))
      && (a.lhciServer.Some? <==> GetLhciServer(inputs) != "")
      && (a.lhciServer.Some? ==> a.lhciServer.value == GetLhciServer(inputs))
      && (a.apiToken.Some? <==> GetApiToken(inputs) != "")
      && (a.apiToken.Some? ==> a.apiToken.value == GetApiToken(inputs))
      && (a.rcFile.None? <==> GetInput(inputs, "rc_file_path") == "")
      && (a.rcFile.Some? ==>
            var path := GetInput(inputs, "rc_file_path");
            RcFileUsable(rcFiles, path)
            && a.rcFile.value == RcFile(path, HasKey(CiSection(rcFiles, path), "collect"),
                                        HasKey(CiSection(rcFiles, path), "assert")))
  {
    var args := Args(GetUrls(GetInput(inputs, "urls")), CanUpload(inputs), None, None, None, None, None);

    if GetBudgetPath(inputs) != "" {
      args := args.(budgetPath := Some(GetBudgetPath(inputs)));
    }

    var runs := GetNumberOfRuns(inputs);
    if runs.Some? && runs.value != 0 {
      args := args.(numberOfRuns := runs);
    }

    if (GetLhciServer(inputs) != "") != (GetApiToken(inputs) != "") {
      return Failure(IncompleteCredentials);
    }

    if GetLhciServer(inputs) != "" {
      args := args.(lhciServer := Some(GetLhciServer(inputs)));
    }

    if GetApiToken(inputs) != "" {
      args := args.(apiToken := Some(GetApiToken(inputs)));
    }

    var rcPath := GetRcFile(inputs);
    if rcPath.Some? {
      var rc := ReadRcFile(rcFiles, rcPath.value);
      if rc.Failure? {
        return Failure(rc.error);
      }
      args := args.(rcFile := Some(rc.value));
    }

    return Success(args);
  }

  // ---------------------------------------------------------------- lemmas

  /**
   * The URL list keeps the order of the input: the pieces between newlines join
   * back to the raw input, none contains a newline, and URL i is piece i trimmed.
   */
  lemma GetUrlsKeepsOrder(raw: string)
    ensures var parts := Split(raw, '\n');
      |GetUrls(raw)| == |parts|
      && (forall i :: 0 <= i < |parts| ==> GetUrls(raw)[i] == Trim(parts[i]) && '\n' !in parts[i])
      && Join(parts, '\n') == raw
  {
    JoinSplit(raw, '\n');
    SplitPiecesLackSeparator(raw, '\n');
  }

  /** Two lines give two URLs, each trimmed on its own. */
  lemma GetUrlsOfTwoLines(first: string, second: string)
    requires '\n' !in first && '\n' !in second
    ensures GetUrls(first + "\n" + second) == [Trim(first), Trim(second)]
  {
    assert first + "\n" + second == first + ['\n'] + second;
    SplitAtSeparator(first, second, '\n');
  }

  /** A Windows line ending leaves a carriage return before the newline; trim removes it. */
  lemma TrimCarriageReturnExample()
    ensures Trim(" https://a.test\r") == "https://a.test"
  {
    var line := " https://a.test\r";
    assert line[1..15] == "https://a.test" && line[..1] == " " && line[15..] == "\r";
    TrimExample(line, 1, 1, "https://a.test");
  }

  /** Trimming a string that is `lead` whitespace, a trimmed middle, then `trail` whitespace. */
  lemma TrimExample(s: string, lead: nat, trail: nat, middle: string)
    requires lead + |middle| + trail == |s| && s[lead..lead + |middle|] == middle
    requires AllWhitespace(s[..lead]) && AllWhitespace(s[lead + |middle|..])
    requires |middle| > 0 && !IsJsWhitespace(middle[0]) && !IsJsWhitespace(middle[|middle| - 1])
    ensures Trim(s) == middle
  {
    TrimStartDrops(s, lead);
    var a := s[lead..];
    assert a[..|middle|] == middle && a[|middle|..] == s[lead + |middle|..];
    TrimEndDrops(a, trail);
  }

  lemma {:induction false} TrimStartDrops(s: string, lead: nat)
    requires lead < |s| && AllWhitespace(s[..lead]) && !IsJsWhitespace(s[lead])
    ensures TrimStart(s) == s[lead..]
    decreases lead
  {
    if lead > 0 {
      assert IsJsWhitespace(s[..lead][0]);
      assert s[1..][..lead - 1] == s[1..lead];
      TrimStartDrops(s[1..], lead - 1);
      assert s[1..][lead - 1..] == s[lead..];
    }
  }

  lemma {:induction false} TrimEndDrops(s: string, trail: nat)
    requires trail < |s| && AllWhitespace(s[|s| - trail..]) && !IsJsWhitespace(s[|s| - trail - 1])
    ensures TrimEnd(s) == s[..|s| - trail]
    decreases trail
  {
    if trail > 0 {
      assert IsJsWhitespace(s[|s| - trail..][trail - 1]);
      var t := s[..|s| - 1];
      assert t[|t| - (trail - 1)..] == s[|s| - trail..|s| - 1];
      TrimEndDrops(t, trail - 1);
      assert t[..|t| - (trail - 1)] == s[..|s| - trail];
    }
  }

  /** Splitting `a + [sep] + b` where neither side holds `sep` gives exactly `a` and `b`. */
  lemma {:induction false} SplitAtSeparator(a: string, b: string, sep: char)
    requires sep !in a && sep !in b
    ensures Split(a + [sep] + b, sep) == [a, b]
    decreases |a|
  {
    if |a| == 0 {
      assert a + [sep] + b == [sep] + b;
      assert ([sep] + b)[1..] == b;
      SplitWithoutSeparator(b, sep);
    } else {
      assert (a + [sep] + b)[1..] == a[1..] + [sep] + b;
      SplitAtSeparator(a[1..], b, sep);
      assert [a[0]] + a[1..] == a;
    }
  }

  /** A string without the separator is its own single piece. */
  lemma {:induction false} SplitWithoutSeparator(s: string, sep: char)
    requires sep !in s
    ensures Split(s, sep) == [s]
    decreases |s|
  {
    if |s| > 0 {
      SplitWithoutSeparator(s[1..], sep);
      assert [s[0]] + s[1..] == s;
    }
  }

  /** The workflow's default `runs` of "3" is kept; a `runs` of "0" leaves the engine's default. */
  lemma RunsZeroIsUnset()
    ensures ParseInt("3") == Some(3) && ParseInt("0") == Some(0)
    ensures forall inputs: Inputs :: GetInput(inputs, "runs") == "0" ==>
      !(GetNumberOfRuns(inputs).Some? && GetNumberOfRuns(inputs).value != 0)
  {
    ParseIntDecimalExamples();
  }
}
