/** The Herder app's pull-request monitor. On every tick it walks the tracked sessions,
    and for each session on a feature branch of a GitHub repository it either looks up
    the open pull request for the branch or, when the branch was already looked up and a
    pull request is attached, refreshes the CI check counts. The HTTP requests are not
    performed here: a poll returns the requests it would issue, as `Call` values, and the
    two response handlers take the decoded response body. */
module PRMonitors {

  import opened Wrappers
  import opened Text
  import opened Json
  import opened PullRequests
  import opened AgentSessions
  import opened SessionTable
  import HerderStore

  // ---------------------------------------------------------------- check runs

  /** How one check run counts. */
  datatype RunOutcome = Pass | Fail | Pend

  /** A check run counts as passed when completed with conclusion success, skipped or
      neutral, as failed when completed with any other conclusion (a missing one reads
      as ""), and as pending when its status is anything but "completed". */
  function Classify(check: map<string, Value>): RunOutcome {
    var status := StringField(check, "status").GetOr("");
    var conclusion := StringField(check, "conclusion").GetOr("");
    if status == "completed" then
      if conclusion == "success" || conclusion == "skipped" || conclusion == "neutral" then Pass else Fail
    else Pend
  }

  /** The three outcomes in terms of the run's fields. A completed run without a
      conclusion string counts as failed. */
  lemma ClassifySpec(check: map<string, Value>)
    ensures Classify(check) == Pend <==> !("status" in check && check["status"] == Str("completed"))
    ensures Classify(check) == Pass <==>
      "status" in check && check["status"] == Str("completed") && "conclusion" in check
      && check["conclusion"] in {Str("success"), Str("skipped"), Str("neutral")}
    ensures "status" in check && check["status"] == Str("completed") && "conclusion" !in check ==>
      Classify(check) == Fail
  {
  }

  /** Number of runs with the given outcome. */
  function CountOf(runs: seq<map<string, Value>>, o: RunOutcome): nat {
    if runs == [] then 0
    else CountOf(runs[..|runs| - 1], o) + (if Classify(runs[|runs| - 1]) == o then 1 else 0)
  }

  /** There is a run with outcome `o` exactly when the count of `o` is positive. */
  lemma {:induction false} CountOfPositive(runs: seq<map<string, Value>>, o: RunOutcome)
    ensures CountOf(runs, o) > 0 <==> exists i :: 0 <= i < |runs| && Classify(runs[i]) == o
  {
    if runs != [] {
      var init := runs[..|runs| - 1];
      CountOfPositive(init, o);
      if exists i :: 0 <= i < |runs| && Classify(runs[i]) == o {
        var i :| 0 <= i < |runs| && Classify(runs[i]) == o;
        if i < |init| {
          assert Classify(init[i]) == o;
        }
      }
      if exists i :: 0 <= i < |init| && Classify(init[i]) == o {
        var i :| 0 <= i < |init| && Classify(init[i]) == o;
        assert Classify(runs[i]) == o;
      }
    }
  }

  /** The counting loop of `fetchChecks`: every run is counted exactly once. */
  method CountChecks(checkRuns: seq<map<string, Value>>)
    returns (total: int, passed: int, failed: int, pending: int)
    ensures total == |checkRuns|
    ensures passed == CountOf(checkRuns, Pass)
    ensures failed == CountOf(checkRuns, Fail)
    ensures pending == CountOf(checkRuns, Pend)
    ensures passed + failed + pending == total
  {
    total := |checkRuns|;
    passed, failed, pending := 0, 0, 0;
    for i := 0 to |checkRuns|
      invariant passed == CountOf(checkRuns[..i], Pass)
      invariant failed == CountOf(checkRuns[..i], Fail)
      invariant pending == CountOf(checkRuns[..i], Pend)
      invariant passed + failed + pending == i
    {
      var check := checkRuns[i];
      assert checkRuns[..i + 1][..i] == checkRuns[..i];
      var status := StringField(check, "status").GetOr("");
      var conclusion := StringField(check, "conclusion").GetOr("");
      if status == "completed" {
        if conclusion == "success" || conclusion == "skipped" || conclusion == "neutral" {
          passed := passed + 1;
        } else {
          failed := failed + 1;
        }
      } else {
        pending := pending + 1;
      }
    }
    assert checkRuns[..|checkRuns|] == checkRuns;
  }

  /** `updated`: the pull request with the counts of the given runs. */
  function Counted(pr: PRInfo, runs: seq<map<string, Value>>): PRInfo {
    pr.(checksTotal := |runs|, checksPassed := CountOf(runs, Pass),
        checksFailed := CountOf(runs, Fail), checksPending := CountOf(runs, Pend))
  }

  /** What the refreshed pull request shows: no checks for no runs, running while any run
      is pending, failed once all have completed and one failed, passed when all passed.
      Number, URL and head commit are kept. */
  lemma CountedStatus(pr: PRInfo, runs: seq<map<string, Value>>)
    ensures var c := Counted(pr, runs);
      c.number == pr.number && c.url == pr.url && c.headSha == pr.headSha
    ensures StatusOf(Counted(pr, runs)) == NoChecks <==> runs == []
    ensures StatusOf(Counted(pr, runs)) == Running <==>
      exists i :: 0 <= i < |runs| && Classify(runs[i]) == Pend
    ensures StatusOf(Counted(pr, runs)) == Failed <==>
      (forall i :: 0 <= i < |runs| ==> Classify(runs[i]) != Pend)
      && exists i :: 0 <= i < |runs| && Classify(runs[i]) == Fail
    ensures StatusOf(Counted(pr, runs)) == Passed <==>
      runs != [] && forall i :: 0 <= i < |runs| ==> Classify(runs[i]) == Pass
  {
    CountOfPositive(runs, Pend);
    CountOfPositive(runs, Fail);
    if runs != [] && forall i :: 0 <= i < |runs| ==> Classify(runs[i]) != Pend && Classify(runs[i]) != Fail {
      assert forall i :: 0 <= i < |runs| ==> Classify(runs[i]) == Pass;
    }
  }

  /** The check runs of a response: the body must be an object whose "check_runs" field is
      an array of objects; anything else gives none. */
  function CheckRuns(body: Option<Value>): (r: Option<seq<map<string, Value>>>)
    ensures r.Some? <==>
      body.Some? && body.value.Object? && "check_runs" in body.value.fields
      && AsObjectArray(body.value.fields["check_runs"]).Some?
  {
    if body.Some? && body.value.Object? && "check_runs" in body.value.fields then
      AsObjectArray(body.value.fields["check_runs"])
    else None
  }

  // ---------------------------------------------------------------- pull request lookup

  /** What `fetchPR` does with a response: clear the session's pull request, ignore the
      response, or attach the pull request found. */
  datatype LookupResult = ClearPR | Ignore | Found(pr: PRInfo)

  /** The response of the pull request lookup. No body, a body that is not an array of
      objects, or an empty array clear the pull request; a first element without an
      integer "number", a string "html_url" or a "head" object holding a string "sha" is
      ignored; otherwise that element is the pull request, with no checks counted yet. */
  function Lookup(body: Option<Value>): LookupResult {
    if body.None? then ClearPR
    else match AsObjectArray(body.value)
      case None => ClearPR
      case Some(prs) =>
        if prs == [] then ClearPR
        else
          var pr := prs[0];
          var number, htmlUrl, head := IntField(pr, "number"), StringField(pr, "html_url"), ObjectField(pr, "head");
          if number.None? || htmlUrl.None? || head.None? then Ignore
          else match StringField(head.value, "sha")
            case Some(sha) => Found(PRInfo(number.value, htmlUrl.value, sha, 0, 0, 0, 0))
            case None => Ignore
  }

  /** The pull request is cleared exactly when the body is not a non-empty array of
      objects; a pull request found carries the first element's fields and no checks. */
  lemma LookupSpec(body: Option<Value>)
    ensures Lookup(body) == ClearPR <==>
      body.None? || AsObjectArray(body.value).None? || AsObjectArray(body.value).value == []
    ensures Lookup(body).Found? ==>
      var pr := Lookup(body).pr;
      var first := body.value.items[0];
      && first.Object? && "number" in first.fields && "html_url" in first.fields && "head" in first.fields
      && first.fields["number"] == Number(pr.number)
      && first.fields["html_url"] == Str(pr.url)
      && first.fields["head"].Object? && "sha" in first.fields["head"].fields
      && first.fields["head"].fields["sha"] == Str(pr.headSha)
      && pr.checksTotal == 0 && StatusOf(pr) == NoChecks && ChecksSummary(pr) == "No checks"
    ensures body.Some? && AsObjectArray(body.value).Some? && AsObjectArray(body.value).value != [] ==>
      var first := AsObjectArray(body.value).value[0];
      var number, htmlUrl, head := IntField(first, "number"), StringField(first, "html_url"), ObjectField(first, "head");
      (number.Some? && htmlUrl.Some? && head.Some? && StringField(head.value, "sha").Some?
       <==> Lookup(body).Found?)
      && (Lookup(body).Found? ==>
            Lookup(body).pr == PRInfo(number.value, htmlUrl.value, StringField(head.value, "sha").value, 0, 0, 0, 0))
  {
  }

  // ---------------------------------------------------------------- token

  const OAuthKey: string := "oauth_token:"

  /** The token a line of `hosts.yml` holds: the line trimmed of spaces must start with
      "oauth_token:"; every occurrence of that key is deleted and the rest trimmed again.
      An empty rest gives no token. */
  function TokenOnLine(line: string): (r: Option<string>)
    ensures r.Some? ==> r.value != [] && StartsWith(Trim(line, Whitespaces), OAuthKey)
  {
    var trimmed := Trim(line, Whitespaces);
    if StartsWith(trimmed, OAuthKey) then
      var token := Trim(RemoveAll(trimmed, OAuthKey), Whitespaces);
      if token != [] then Some(token) else None
    else None
  }

  /** The token of each line. */
  function LineTokens(lines: seq<string>): (r: seq<Option<string>>)
    ensures |r| == |lines| && forall i :: 0 <= i < |lines| ==> r[i] == TokenOnLine(lines[i])
  {
    seq(|lines|, i requires 0 <= i < |lines| => TokenOnLine(lines[i]))
  }

  /** The first value present in `xs` (FirstSomeSpec). */
  function FirstSome<T>(xs: seq<Option<T>>): Option<T> {
    if xs == [] then None
    else if xs[0].Some? then xs[0]
    else FirstSome(xs[1..])
  }

  /** There is a value exactly when some entry holds one, and it is the first such entry. */
  lemma {:induction false} FirstSomeSpec<T>(xs: seq<Option<T>>)
    ensures FirstSome(xs).Some? <==> exists i :: 0 <= i < |xs| && xs[i].Some?
    ensures FirstSome(xs).Some? ==>
      exists i :: (0 <= i < |xs| && xs[i] == FirstSome(xs) && forall j :: 0 <= j < i ==> xs[j].None?)
  {
    if xs != [] && xs[0].None? {
      FirstSomeSpec(xs[1..]);
      assert forall i :: 1 <= i < |xs| ==> xs[i] == xs[1..][i - 1];
      if FirstSome(xs).Some? {
        var i :| 0 <= i < |xs[1..]| && xs[1..][i] == FirstSome(xs)
          && forall j :: 0 <= j < i ==> xs[1..][j].None?;
        assert xs[i + 1] == FirstSome(xs);
      }
    }
  }

  lemma {:induction false} FirstSomeAt<T>(xs: seq<Option<T>>, i: nat)
    requires i < |xs| && xs[i].Some?
    requires forall j :: 0 <= j < i ==> xs[j].None?
    ensures FirstSome(xs) == xs[i]
  {
    if i > 0 {
      FirstSomeAt(xs[1..], i - 1);
    }
  }

  lemma {:induction false} FirstSomeNone<T>(xs: seq<Option<T>>)
    requires forall j :: 0 <= j < |xs| ==> xs[j].None?
    ensures FirstSome(xs) == None
  {
    if xs != [] {
      FirstSomeNone(xs[1..]);
    }
  }

  /** The scan of `hosts.yml` in `loadGitHubToken`: line by line, the first token found. */
  method HostsToken(content: string) returns (token: Option<string>)
    ensures token == FirstSome(LineTokens(Lines(content)))
  {
    var lines := Lines(content);
    ghost var tokens := LineTokens(lines);
    var i := 0;
    while i < |lines|
      invariant 0 <= i <= |lines|
      invariant forall j :: 0 <= j < i ==> tokens[j].None?
    {
      assert tokens[i] == TokenOnLine(lines[i]);
      var trimmed := Trim(lines[i], Whitespaces);
      if StartsWith(trimmed, OAuthKey) {
        var t := Trim(RemoveAll(trimmed, OAuthKey), Whitespaces);
        if t != [] {
          assert tokens[i] == Some(t);
          FirstSomeAt(tokens, i);
          return Some(t);
        }
      }
      assert tokens[i].None?;
      i := i + 1;
    }
    FirstSomeNone(tokens);
    return None;
  }

  /** Trimming an indented line "oauth_token: T" leaves "oauth_token: T". */
  lemma OAuthLineTrimmed(indent: string, t: string)
    requires forall i :: 0 <= i < |indent| ==> IsSpace(indent[i])
    requires t != [] && !IsSpace(t[|t| - 1])
    ensures Trim(indent + OAuthKey + " " + t, Whitespaces) == OAuthKey + " " + t
  {
    var m := OAuthKey + " " + t;
    assert m[0] == 'o' && m[|m| - 1] == t[|t| - 1];
    TrimPadded(indent, m, [], Whitespaces);
    assert indent + m + [] == indent + OAuthKey + " " + t;
  }

  /** Deleting the key from "oauth_token: T" leaves " T" when T does not hold the key. */
  lemma OAuthKeyRemoved(t: string)
    requires !Contains(t, OAuthKey)
    ensures RemoveAll(OAuthKey + " " + t, OAuthKey) == " " + t
  {
    var m := OAuthKey + " " + t;
    var rest := " " + t;
    assert m[..|OAuthKey|] == OAuthKey;
    assert m[|OAuthKey|..] == rest;
    assert !Contains(rest, OAuthKey) by {
      assert !OccursAt(rest, OAuthKey, 0) by { assert rest[0] == ' ' && OAuthKey[0] == 'o'; }
      forall i | 0 < i <= |rest| - |OAuthKey| ensures !OccursAt(rest, OAuthKey, i) {
        assert rest[i..i + |OAuthKey|] == t[i - 1..i - 1 + |OAuthKey|];
        assert !OccursAt(t, OAuthKey, i - 1);
      }
    }
    RemoveAllAbsent(rest, OAuthKey);
  }

  /** A line "oauth_token: T", indented by spaces, yields T for any token T without the
      key in it and without surrounding blanks. */
  lemma HostsLineToken(indent: string, t: string)
    requires forall i :: 0 <= i < |indent| ==> IsSpace(indent[i])
    requires t != [] && !IsSpace(t[0]) && !IsSpace(t[|t| - 1])
    requires !Contains(t, OAuthKey)
    ensures TokenOnLine(indent + OAuthKey + " " + t) == Some(t)
  {
    var m := OAuthKey + " " + t;
    OAuthLineTrimmed(indent, t);
    assert StartsWith(m, OAuthKey) by { assert m[..|OAuthKey|] == OAuthKey; }
    OAuthKeyRemoved(t);
    TrimPadded(" ", t, [], Whitespaces);
    assert " " + t + [] == " " + t;
  }

  /** `loadGitHubToken` as a function of its inputs: the GITHUB_TOKEN variable when set
      and non-empty; else the output of `gh auth token` (the /usr/local/bin binary, or
      the Homebrew one when the first gives nothing), trimmed, when non-empty; else the
      first token of `hosts.yml`. */
  function TokenFrom(env: map<string, string>, ghLocal: Option<string>, ghHomebrew: Option<string>,
                     hostsFile: Option<string>): Option<string>
  {
    if "GITHUB_TOKEN" in env && env["GITHUB_TOKEN"] != [] then Some(env["GITHUB_TOKEN"])
    else
      var gh := if ghLocal.Some? then ghLocal else ghHomebrew;
      if gh.Some? && Trim(gh.value, WhitespacesAndNewlines) != [] then
        Some(Trim(gh.value, WhitespacesAndNewlines))
      else if hostsFile.Some? then FirstSome(LineTokens(Lines(hostsFile.value)))
      else None
  }

  /** The token sources in priority order. Output of the first `gh` that is only blank
      does not fall back to the second binary. */
  lemma TokenFromPriority(env: map<string, string>, ghLocal: Option<string>, ghHomebrew: Option<string>,
                          hostsFile: Option<string>)
    ensures "GITHUB_TOKEN" in env && env["GITHUB_TOKEN"] != [] ==>
      TokenFrom(env, ghLocal, ghHomebrew, hostsFile) == Some(env["GITHUB_TOKEN"])
    ensures (("GITHUB_TOKEN" !in env || env["GITHUB_TOKEN"] == []) && ghLocal.Some?
             && Trim(ghLocal.value, WhitespacesAndNewlines) != []) ==>
      TokenFrom(env, ghLocal, ghHomebrew, hostsFile) == Some(Trim(ghLocal.value, WhitespacesAndNewlines))
    ensures ghLocal.Some? && Trim(ghLocal.value, WhitespacesAndNewlines) == [] ==>
      TokenFrom(env, ghLocal, ghHomebrew, hostsFile) == TokenFrom(env, ghLocal, None, hostsFile)
    ensures (("GITHUB_TOKEN" !in env || env["GITHUB_TOKEN"] == []) && ghLocal.None? && ghHomebrew.Some?
             && Trim(ghHomebrew.value, WhitespacesAndNewlines) != []) ==>
      TokenFrom(env, ghLocal, ghHomebrew, hostsFile) == Some(Trim(ghHomebrew.value, WhitespacesAndNewlines))
    ensures (("GITHUB_TOKEN" !in env || env["GITHUB_TOKEN"] == [])
             && (var gh := if ghLocal.Some? then ghLocal else ghHomebrew;
                 gh.None? || Trim(gh.value, WhitespacesAndNewlines) == [])) ==>
      TokenFrom(env, ghLocal, ghHomebrew, hostsFile) ==
        (if hostsFile.Some? then FirstSome(LineTokens(Lines(hostsFile.value))) else None)
  {
  }

  /** A token is never empty, and there is none only when every source came up empty,
      down to every line of `hosts.yml`. */
  lemma TokenFromSpec(env: map<string, string>, ghLocal: Option<string>, ghHomebrew: Option<string>,
                      hostsFile: Option<string>)
    ensures var r := TokenFrom(env, ghLocal, ghHomebrew, hostsFile);
      r.Some? ==> r.value != []
    ensures TokenFrom(env, ghLocal, ghHomebrew, hostsFile).None? ==>
      && ("GITHUB_TOKEN" !in env || env["GITHUB_TOKEN"] == [])
      && (var gh := if ghLocal.Some? then ghLocal else ghHomebrew;
          gh.None? || Trim(gh.value, WhitespacesAndNewlines) == [])
      && (hostsFile.None? || forall i :: 0 <= i < |Lines(hostsFile.value)| ==> TokenOnLine(Lines(hostsFile.value)[i]).None?)
  {
    if "GITHUB_TOKEN" !in env || env["GITHUB_TOKEN"] == [] {
      var gh := if ghLocal.Some? then ghLocal else ghHomebrew;
      if (gh.None? || Trim(gh.value, WhitespacesAndNewlines) == []) && hostsFile.Some? {
        LinesToken(Lines(hostsFile.value));
      }
    }
  }

  /** The token of a list of lines is never empty, and is missing only when no line has one. */
  lemma LinesToken(lines: seq<string>)
    ensures FirstSome(LineTokens(lines)).Some? ==> FirstSome(LineTokens(lines)).value != []
    ensures FirstSome(LineTokens(lines)).None? ==> forall i :: 0 <= i < |lines| ==> TokenOnLine(lines[i]).None?
  {
    var tokens := LineTokens(lines);
    FirstSomeSpec(tokens);
    if FirstSome(tokens).Some? {
      var i :| 0 <= i < |tokens| && tokens[i] == FirstSome(tokens);
      assert TokenOnLine(lines[i]) == FirstSome(tokens);
    } else {
      forall i | 0 <= i < |lines| ensures TokenOnLine(lines[i]).None? {
        assert tokens[i].None?;
      }
    }
  }

  /** `loadGitHubToken`. The environment, the outputs of the two `gh` binaries (None when
      missing or failing) and the contents of `hosts.yml` (None when unreadable) are
      inputs. */
  method LoadGitHubToken(env: map<string, string>, ghLocal: Option<string>, ghHomebrew: Option<string>,
                         hostsFile: Option<string>) returns (token: Option<string>)
    ensures token == TokenFrom(env, ghLocal, ghHomebrew, hostsFile)
  {
    if "GITHUB_TOKEN" in env && env["GITHUB_TOKEN"] != [] {
      return Some(env["GITHUB_TOKEN"]);
    }
    var gh := if ghLocal.Some? then ghLocal else ghHomebrew;
    if gh.Some? && Trim(gh.value, WhitespacesAndNewlines) != [] {
      return Some(Trim(gh.value, WhitespacesAndNewlines));
    }
    if hostsFile.None? {
      return None;
    }
    token := HostsToken(hostsFile.value);
  }

  // ---------------------------------------------------------------- polling

  /** A request the monitor issues. */
  datatype Call =
    | LookupPR(sessionId: string, owner: string, repo: string, branch: string)
    | FetchChecks(sessionId: string, owner: string, repo: string, prInfo: PRInfo)

  /** The branch and repository a session is polled for. */
  datatype Target = Target(branch: string, owner: string, repo: string)

  /** The guard of `poll`: a session is polled when its branch and GitHub repository can
      be read and the branch is neither "main" nor "master". */
  function TargetOf(s: AgentSession, fs: FileSystem): (r: Option<Target>)
    ensures r.Some? ==>
      && GitBranch(s.cwd, fs) == Some(r.value.branch)
      && r.value.branch != "main" && r.value.branch != "master"
      && GitRepo(s.cwd, fs) == Some((r.value.owner, r.value.repo))
    ensures r.None? ==>
      || GitBranch(s.cwd, fs).None? || GitBranch(s.cwd, fs).value in {"main", "master"}
      || GitRepo(s.cwd, fs).None?
  {
    match GitBranch(s.cwd, fs)
    case None => None
    case Some(branch) =>
      if branch == "main" || branch == "master" then None
      else match GitRepo(s.cwd, fs)
        case None => None
        case Some((owner, repo)) => Some(Target(branch, owner, repo))
  }

  /** The targets of the sessions, in order. */
  function Targets(ss: seq<AgentSession>, fs: FileSystem): (r: seq<Option<Target>>)
    ensures |r| == |ss| && forall i :: 0 <= i < |ss| ==> r[i] == TargetOf(ss[i], fs)
  {
    seq(|ss|, i requires 0 <= i < |ss| => TargetOf(ss[i], fs))
  }

  /** One session of a poll, with its target: the new branch map and the request issued. */
  function Step(last: map<string, string>, s: AgentSession, t: Option<Target>): (map<string, string>, seq<Call>) {
    match t
    case None => (last, [])
    case Some(Target(branch, owner, repo)) =>
      if s.id in last && last[s.id] == branch && s.prInfo.Some? then
        (last, [FetchChecks(s.id, owner, repo, s.prInfo.value)])
      else
        (last[s.id := branch], [LookupPR(s.id, owner, repo, branch)])
  }

  /** A session gets a check refresh when its branch was already looked up and it has a
      pull request; otherwise it gets a lookup and its branch is recorded. Sessions not
      polled get nothing and leave the map alone. */
  lemma StepSpec(last: map<string, string>, s: AgentSession, t: Option<Target>)
    ensures t.None? ==> Step(last, s, t) == (last, [])
    ensures t.Some? ==>
      var (last', calls) := Step(last, s, t);
      && |calls| == 1 && calls[0].sessionId == s.id
      && calls[0].owner == t.value.owner && calls[0].repo == t.value.repo
      && last' == last[s.id := t.value.branch]
      && (calls[0].FetchChecks? <==> s.id in last && last[s.id] == t.value.branch && s.prInfo.Some?)
      && (calls[0].LookupPR? ==> calls[0].branch == t.value.branch)
      && (calls[0].FetchChecks? ==> Some(calls[0].prInfo) == s.prInfo)
  {
  }

  /** `poll` over the sessions in order, given their targets: the final branch map and
      every request issued. */
  function PollSpec(last: map<string, string>, ss: seq<AgentSession>, ts: seq<Option<Target>>): (map<string, string>, seq<Call>)
    requires |ts| == |ss|
  {
    if ss == [] then (last, [])
    else
      var (l, c) := PollSpec(last, ss[..|ss| - 1], ts[..|ts| - 1]);
      var (l', c') := Step(l, ss[|ss| - 1], ts[|ts| - 1]);
      (l', c + c')
  }

  /** A poll over one more session is the poll so far followed by that session's step. */
  lemma PollSpecStep(last: map<string, string>, ss: seq<AgentSession>, ts: seq<Option<Target>>, i: nat)
    requires |ts| == |ss| && i < |ss|
    ensures var (l, c) := PollSpec(last, ss[..i], ts[..i]);
      var (l', c') := Step(l, ss[i], ts[i]);
      PollSpec(last, ss[..i + 1], ts[..i + 1]) == (l', c + c')
  {
    assert ss[..i + 1][..i] == ss[..i] && ts[..i + 1][..i] == ts[..i];
  }

  /** Number of sessions that have a target. */
  function PolledCount(ts: seq<Option<Target>>): nat {
    if ts == [] then 0
    else PolledCount(ts[..|ts| - 1]) + (if ts[|ts| - 1].Some? then 1 else 0)
  }

  /** A poll issues exactly one request per polled session: as many requests as polled
      sessions, each for a polled session and its own repository (a lookup also for its
      branch), and every polled session gets one. With unique ids this is one request for
      each polled session and none other. */
  lemma PollCalls(last: map<string, string>, ss: seq<AgentSession>, ts: seq<Option<Target>>)
    requires |ts| == |ss|
    ensures |PollSpec(last, ss, ts).1| == PolledCount(ts)
    ensures forall c :: c in PollSpec(last, ss, ts).1 ==>
      exists i :: (0 <= i < |ss| && ss[i].id == c.sessionId && ts[i].Some?
                   && c.owner == ts[i].value.owner && c.repo == ts[i].value.repo
                   && (c.LookupPR? ==> c.branch == ts[i].value.branch))
    ensures forall i :: 0 <= i < |ss| && ts[i].Some? ==>
      exists c :: (c in PollSpec(last, ss, ts).1 && c.sessionId == ss[i].id
                   && c.owner == ts[i].value.owner && c.repo == ts[i].value.repo)
  {
    PollCallCount(last, ss, ts);
    PollCallsPolled(last, ss, ts);
    PollCallsCover(last, ss, ts);
  }

  lemma {:induction false} PollCallCount(last: map<string, string>, ss: seq<AgentSession>, ts: seq<Option<Target>>)
    requires |ts| == |ss|
    ensures |PollSpec(last, ss, ts).1| == PolledCount(ts)
  {
    if ss != [] {
      PollCallCount(last, ss[..|ss| - 1], ts[..|ts| - 1]);
      StepSpec(PollSpec(last, ss[..|ss| - 1], ts[..|ts| - 1]).0, ss[|ss| - 1], ts[|ts| - 1]);
    }
  }

  lemma {:induction false} PollCallsPolled(last: map<string, string>, ss: seq<AgentSession>, ts: seq<Option<Target>>)
    requires |ts| == |ss|
    ensures forall c :: c in PollSpec(last, ss, ts).1 ==>
      exists i :: (0 <= i < |ss| && ss[i].id == c.sessionId && ts[i].Some?
                   && c.owner == ts[i].value.owner && c.repo == ts[i].value.repo
                   && (c.LookupPR? ==> c.branch == ts[i].value.branch))
  {
    if ss != [] {
      var init, tinit := ss[..|ss| - 1], ts[..|ts| - 1];
      PollCallsPolled(last, init, tinit);
      var (l, c) := PollSpec(last, init, tinit);
      StepSpec(l, ss[|ss| - 1], ts[|ts| - 1]);
      forall x | x in PollSpec(last, ss, ts).1
        ensures exists i :: (0 <= i < |ss| && ss[i].id == x.sessionId && ts[i].Some?
                             && x.owner == ts[i].value.owner && x.repo == ts[i].value.repo
                             && (x.LookupPR? ==> x.branch == ts[i].value.branch))
      {
        if x in c {
          var i :| 0 <= i < |init| && init[i].id == x.sessionId && tinit[i].Some?
                   && x.owner == tinit[i].value.owner && x.repo == tinit[i].value.repo
                   && (x.LookupPR? ==> x.branch == tinit[i].value.branch);
          assert ss[i] == init[i] && ts[i] == tinit[i];
        } else {
          assert ss[|ss| - 1].id == x.sessionId;
        }
      }
    }
  }

  lemma {:induction false} PollCallsCover(last: map<string, string>, ss: seq<AgentSession>, ts: seq<Option<Target>>)
    requires |ts| == |ss|
    ensures forall i :: 0 <= i < |ss| && ts[i].Some? ==>
      exists c :: (c in PollSpec(last, ss, ts).1 && c.sessionId == ss[i].id
                   && c.owner == ts[i].value.owner && c.repo == ts[i].value.repo)
  {
    if ss != [] {
      var init, tinit := ss[..|ss| - 1], ts[..|ts| - 1];
      PollCallsCover(last, init, tinit);
      var (l, c) := PollSpec(last, init, tinit);
      var step := Step(l, ss[|ss| - 1], ts[|ts| - 1]).1;
      StepSpec(l, ss[|ss| - 1], ts[|ts| - 1]);
      var calls := PollSpec(last, ss, ts).1;
      assert calls == c + step;
      forall i | 0 <= i < |ss| && ts[i].Some?
        ensures exists x :: (x in calls && x.sessionId == ss[i].id
                             && x.owner == ts[i].value.owner && x.repo == ts[i].value.repo)
      {
        if i < |init| {
          assert ss[i] == init[i] && ts[i] == tinit[i];
          var x :| x in c && x.sessionId == init[i].id
                   && x.owner == tinit[i].value.owner && x.repo == tinit[i].value.repo;
          assert x in calls;
        } else {
          assert step[0] in calls;
        }
      }
    }
  }

  /** A poll never looks up a pull request for "main" or "master", nor for a session
      whose branch or GitHub repository cannot be read. */
  lemma PollSkipsMainAndMaster(last: map<string, string>, ss: seq<AgentSession>, fs: FileSystem)
    ensures forall c :: c in PollSpec(last, ss, Targets(ss, fs)).1 && c.LookupPR? ==>
      c.branch != "main" && c.branch != "master"
    ensures forall c :: c in PollSpec(last, ss, Targets(ss, fs)).1 ==>
      exists i :: (0 <= i < |ss| && ss[i].id == c.sessionId
                   && GitBranch(ss[i].cwd, fs).Some? && GitRepo(ss[i].cwd, fs).Some?)
  {
    var ts := Targets(ss, fs);
    PollCallsPolled(last, ss, ts);
    forall c | c in PollSpec(last, ss, ts).1
      ensures c.LookupPR? ==> c.branch != "main" && c.branch != "master"
      ensures exists i :: (0 <= i < |ss| && ss[i].id == c.sessionId
                           && GitBranch(ss[i].cwd, fs).Some? && GitRepo(ss[i].cwd, fs).Some?)
    {
      var i :| 0 <= i < |ss| && ss[i].id == c.sessionId && ts[i].Some?
               && c.owner == ts[i].value.owner && c.repo == ts[i].value.repo
               && (c.LookupPR? ==> c.branch == ts[i].value.branch);
      assert ts[i] == TargetOf(ss[i], fs);
    }
  }

  /** After a poll over a table with unique ids, the map records the branch of every
      polled session. */
  lemma {:induction false} PollRecordsBranches(last: map<string, string>, ss: seq<AgentSession>, ts: seq<Option<Target>>)
    requires |ts| == |ss| && UniqueIds(ss)
    ensures forall i :: 0 <= i < |ss| && ts[i].Some? ==>
      ss[i].id in PollSpec(last, ss, ts).0 && PollSpec(last, ss, ts).0[ss[i].id] == ts[i].value.branch
  {
    if ss != [] {
      var init, tinit := ss[..|ss| - 1], ts[..|ts| - 1];
      assert UniqueIds(init);
      PollRecordsBranches(last, init, tinit);
      var (l, c) := PollSpec(last, init, tinit);
      var s := ss[|ss| - 1];
      StepSpec(l, s, ts[|ts| - 1]);
      forall i | 0 <= i < |ss| && ts[i].Some?
        ensures ss[i].id in PollSpec(last, ss, ts).0
        ensures PollSpec(last, ss, ts).0[ss[i].id] == ts[i].value.branch
      {
        if i < |init| {
          assert ss[i] == init[i] && ts[i] == tinit[i];
          assert ss[i].id != s.id;
        }
      }
    }
  }

  /** When every polled session already has its branch recorded and a pull request, a
      poll only refreshes checks and leaves the map unchanged. */
  lemma {:induction false} SettledPollOnlyRefreshes(last: map<string, string>, ss: seq<AgentSession>, ts: seq<Option<Target>>)
    requires |ts| == |ss|
    requires forall i :: 0 <= i < |ss| && ts[i].Some? ==>
      ss[i].id in last && last[ss[i].id] == ts[i].value.branch && ss[i].prInfo.Some?
    ensures PollSpec(last, ss, ts).0 == last
    ensures forall c :: c in PollSpec(last, ss, ts).1 ==> c.FetchChecks?
  {
    if ss != [] {
      var init, tinit := ss[..|ss| - 1], ts[..|ts| - 1];
      assert forall i :: 0 <= i < |init| ==> init[i] == ss[i] && tinit[i] == ts[i];
      SettledPollOnlyRefreshes(last, init, tinit);
      StepSpec(last, ss[|ss| - 1], ts[|ts| - 1]);
    }
  }

  /** Differential polling: once a poll has recorded the branches, a second poll over the
      same sessions and targets, all sessions now carrying a pull request, issues no new
      lookup and records nothing new. */
  lemma SecondPollOnlyRefreshes(last: map<string, string>, ss: seq<AgentSession>, ts: seq<Option<Target>>)
    requires |ts| == |ss| && UniqueIds(ss)
    requires forall i :: 0 <= i < |ss| ==> ss[i].prInfo.Some?
    ensures var l1 := PollSpec(last, ss, ts).0;
      PollSpec(l1, ss, ts).0 == l1 && forall c :: c in PollSpec(l1, ss, ts).1 ==> c.FetchChecks?
  {
    PollRecordsBranches(last, ss, ts);
    SettledPollOnlyRefreshes(PollSpec(last, ss, ts).0, ss, ts);
  }

  /** A polled session without a pull request is looked up on every poll. */
  lemma NoPRAlwaysLooksUp(last: map<string, string>, s: AgentSession, t: Option<Target>)
    requires s.prInfo.None? && t.Some?
    ensures Step(last, s, t).1 == [LookupPR(s.id, t.value.owner, t.value.repo, t.value.branch)]
  {
  }

  class PRMonitor {
    const store: HerderStore.AgentStore
    var lastCheckedBranch: map<string, string>
    var githubToken: Option<string>

    /** `init(store:)`, loading the token from the given sources. */
    constructor (store: HerderStore.AgentStore, env: map<string, string>, ghLocal: Option<string>,
                 ghHomebrew: Option<string>, hostsFile: Option<string>)
      ensures this.store == store && lastCheckedBranch == map[]
      ensures githubToken == TokenFrom(env, ghLocal, ghHomebrew, hostsFile)
    {
      this.store := store;
      lastCheckedBranch := map[];
      new;
      githubToken := LoadGitHubToken(env, ghLocal, ghHomebrew, hostsFile);
    }

    /** `poll`: walks the store's sessions and returns the requests to issue, recording
        the branch of every session it looks up. */
    method Poll(fs: FileSystem) returns (calls: seq<Call>)
      modifies this
      ensures (lastCheckedBranch, calls) == PollSpec(old(lastCheckedBranch), store.sessions, Targets(store.sessions, fs))
      ensures githubToken == old(githubToken)
    {
      var sessions := store.sessions;
      ghost var ts := Targets(sessions, fs);
      calls := [];
      for i := 0 to |sessions|
        invariant (lastCheckedBranch, calls) == PollSpec(old(lastCheckedBranch), sessions[..i], ts[..i])
        invariant githubToken == old(githubToken)
      {
        var session := sessions[i];
        PollSpecStep(old(lastCheckedBranch), sessions, ts, i);
        ghost var step := Step(lastCheckedBranch, session, ts[i]);
        ghost var before := calls;
        var target := TargetOf(session, fs);
        assert target == ts[i];
        match target {
          case None =>
          case Some(Target(branch, owner, repo)) =>
            if session.id in lastCheckedBranch && lastCheckedBranch[session.id] == branch
               && session.prInfo.Some? {
              calls := calls + [FetchChecks(session.id, owner, repo, session.prInfo.value)];
            } else {
              lastCheckedBranch := lastCheckedBranch[session.id := branch];
              calls := calls + [LookupPR(session.id, owner, repo, branch)];
            }
        }
        assert lastCheckedBranch == step.0 && calls == before + step.1;
      }
      assert sessions[..|sessions|] == sessions && ts[..|ts|] == ts;
    }

    /** The completion of `fetchPR`: clears or attaches the session's pull request and,
        when one was found, returns the check refresh to issue next. */
    method HandlePRResponse(sessionId: string, owner: string, repo: string, body: Option<Value>)
      returns (next: Option<Call>)
      requires store.Valid()
      modifies store
      ensures store.Valid()
      ensures Lookup(body) == ClearPR ==>
        store.sessions == Edited(old(store.sessions), sessionId, SetPR(None)) && next == None
      ensures Lookup(body) == Ignore ==> store.sessions == old(store.sessions) && next == None
      ensures Lookup(body).Found? ==>
        store.sessions == Edited(old(store.sessions), sessionId, SetPR(Some(Lookup(body).pr)))
        && next == Some(FetchChecks(sessionId, owner, repo, Lookup(body).pr))
    {
      match Lookup(body) {
        case ClearPR =>
          store.SetPRInfo(sessionId, None);
          next := None;
        case Ignore =>
          next := None;
        case Found(pr) =>
          store.SetPRInfo(sessionId, Some(pr));
          next := Some(FetchChecks(sessionId, owner, repo, pr));
      }
    }

    /** The completion of `fetchChecks`: when the body holds the check runs, the session's
        pull request is replaced by the given one with the counts of those runs. */
    method HandleChecksResponse(sessionId: string, prInfo: PRInfo, body: Option<Value>)
      requires store.Valid()
      modifies store
      ensures store.Valid()
      ensures CheckRuns(body).None? ==> store.sessions == old(store.sessions)
      ensures CheckRuns(body).Some? ==>
        store.sessions == Edited(old(store.sessions), sessionId, SetPR(Some(Counted(prInfo, CheckRuns(body).value))))
    {
      var checkRuns := CheckRuns(body);
      if checkRuns.None? {
        return;
      }
      var total, passed, failed, pending := CountChecks(checkRuns.value);
      var updated := prInfo.(checksTotal := total, checksPassed := passed,
                             checksFailed := failed, checksPending := pending);
      store.SetPRInfo(sessionId, Some(updated));
    }
  }
}
