/** One tracked agent session and the values derived from it: the display path, the git
    branch read from `.git/HEAD`, the GitHub repository read from `.git/config`, and the
    elapsed-time label. Clocks are integer seconds passed in by the caller, and the files a
    session reads are looked up in a `FileSystem` map from path to contents. */
module AgentSessions {

  import opened Wrappers
  import opened Text
  import opened PullRequests
  import GitRemote

  /** `AgentSession.Status`. */
  datatype Status = Working | Idle

  datatype AgentSession = AgentSession(
    id: string,
    cwd: string,
    status: Status,
    lastMessage: Option<string>,
    startTime: int,
    lastActivity: int,
    tty: Option<string>,
    terminalPid: Option<string>,
    terminalApp: Option<string>,
    transcriptPath: Option<string>,
    prInfo: Option<PRInfo>)

  /** Readable files: path to contents. A path that is absent cannot be read. */
  type FileSystem = map<string, string>

  /** `AgentSession.init`, with `now` standing for the clock reading. */
  function NewSession(id: string, cwd: string, status: Status, tty: Option<string>,
                      terminalPid: Option<string>, terminalApp: Option<string>, now: int): (s: AgentSession)
    ensures s.id == id && s.cwd == cwd && s.status == status
    ensures s.startTime == now && s.lastActivity == now
    ensures s.lastMessage == None && s.transcriptPath == None && s.prInfo == None
    ensures s.tty == tty && s.terminalPid == terminalPid && s.terminalApp == terminalApp
  {
    AgentSession(id, cwd, status, None, now, now, tty, terminalPid, terminalApp, None, None)
  }

  /** `shortCwd`: the home directory prefix is shown as "~". */
  function ShortCwd(cwd: string, home: string): string {
    if StartsWith(cwd, home) then "~" + cwd[|home|..] else cwd
  }

  /** Expands a leading "~" back into the home directory. */
  function ExpandHome(path: string, home: string): string {
    if path != [] && path[0] == '~' then home + path[1..] else path
  }

  /** The short form loses nothing: expanding "~" gives the working directory back, for
      any directory that does not itself begin with "~" (absolute paths never do). It
      is never longer than the directory once the home directory is non-empty, and it
      begins with "~" exactly when the directory lies under the home directory. */
  lemma ShortCwdRoundTrip(cwd: string, home: string)
    requires cwd == [] || cwd[0] != '~'
    ensures ExpandHome(ShortCwd(cwd, home), home) == cwd
    ensures home != [] ==> |ShortCwd(cwd, home)| <= |cwd|
    ensures StartsWith(cwd, home) <==> (ShortCwd(cwd, home) != [] && ShortCwd(cwd, home)[0] == '~')
  {
    if StartsWith(cwd, home) {
      assert cwd == home + cwd[|home|..];
    }
  }

  const HeadRefPrefix: string := "ref: refs/heads/"

  /** `gitBranch` on the contents of `.git/HEAD`: the branch of a symbolic ref, or the
      first eight characters of a detached commit id. */
  function BranchFromHead(content: string): string {
    var t := Trim(content, WhitespacesAndNewlines);
    if StartsWith(t, HeadRefPrefix) then t[|HeadRefPrefix|..]
    else t[..if |t| < 8 then |t| else 8]
  }

  /** The two readings of `.git/HEAD`: the text after "ref: refs/heads/", or a prefix of
      at most eight characters of the trimmed text. */
  lemma BranchFromHeadSpec(content: string)
    ensures var t := Trim(content, WhitespacesAndNewlines);
      StartsWith(t, HeadRefPrefix) ==> t == HeadRefPrefix + BranchFromHead(content)
    ensures var t := Trim(content, WhitespacesAndNewlines);
      !StartsWith(t, HeadRefPrefix) ==>
        var r := BranchFromHead(content);
        |r| == (if |t| < 8 then |t| else 8) && r == t[..|r|]
  {
    var t := Trim(content, WhitespacesAndNewlines);
    if StartsWith(t, HeadRefPrefix) {
      assert t == t[..|HeadRefPrefix|] + t[|HeadRefPrefix|..];
    }
  }

  /** What git writes for a checked-out branch reads back as that branch, whatever
      whitespace and newlines follow it. */
  lemma {:induction false} HeadRoundTrip(branch: string, trailer: string)
    requires branch == [] || !InSet(branch[|branch| - 1], WhitespacesAndNewlines)
    requires forall i :: 0 <= i < |trailer| ==> InSet(trailer[i], WhitespacesAndNewlines)
    ensures BranchFromHead(HeadRefPrefix + branch + trailer) == branch
  {
    var m := HeadRefPrefix + branch;
    assert m[0] == 'r';
    assert m[|m| - 1] == if branch == [] then '/' else branch[|branch| - 1];
    TrimPadded([], m, trailer, WhitespacesAndNewlines);
    assert [] + m + trailer == HeadRefPrefix + branch + trailer;
    assert StartsWith(m, HeadRefPrefix);
    assert m[|HeadRefPrefix|..] == branch;
  }

  /** A detached HEAD holding a commit id shows the first eight characters of it. */
  lemma {:induction false} DetachedHeadRoundTrip(sha: string, trailer: string)
    requires |sha| >= 8 && sha[0] != 'r'
    requires !InSet(sha[0], WhitespacesAndNewlines) && !InSet(sha[|sha| - 1], WhitespacesAndNewlines)
    requires forall i :: 0 <= i < |trailer| ==> InSet(trailer[i], WhitespacesAndNewlines)
    ensures BranchFromHead(sha + trailer) == sha[..8]
  {
    TrimPadded([], sha, trailer, WhitespacesAndNewlines);
    assert [] + sha + trailer == sha + trailer;
    assert !StartsWith(sha, HeadRefPrefix) by { assert sha[0] != HeadRefPrefix[0]; }
  }

  /** `gitBranch`: nil when `.git/HEAD` under the working directory cannot be read. */
  function GitBranch(cwd: string, fs: FileSystem): (r: Option<string>)
    ensures r.Some? <==> cwd + "/.git/HEAD" in fs
  {
    var path := cwd + "/.git/HEAD";
    if path in fs then Some(BranchFromHead(fs[path])) else None
  }

  /** `gitRepo`: nil when `.git/config` cannot be read or holds no GitHub remote URL;
      otherwise the owner and repository of the first match, neither empty nor holding '/'. */
  function GitRepo(cwd: string, fs: FileSystem): (r: Option<(string, string)>)
    ensures r.None? <==> cwd + "/.git/config" !in fs || GitRemote.NoMatch(fs[cwd + "/.git/config"])
    ensures r.Some? ==> r == GitRemote.RepoFromConfig(fs[cwd + "/.git/config"])
    ensures r.Some? ==> r.value.0 != [] && '/' !in r.value.0 && r.value.1 != [] && '/' !in r.value.1
  {
    var path := cwd + "/.git/config";
    if path in fs then
      GitRemote.RepoFromConfigSpec(fs[path]);
      var r := GitRemote.RepoFromConfig(fs[path]);
      if r.Some? then
        assert forall i :: 0 <= i < |r.value.1| ==> GitRemote.RepoChar(r.value.1[i]);
        r
      else r
    else None
  }

  /** `elapsedString` at clock reading `now`: whole minutes since the start, shown as
      "Hh Mm" from one hour on and as "Mm" below. Swift's `/` truncates toward zero. */
  function ElapsedString(s: AgentSession, now: int): string {
    MinutesLabel(Quot(now - s.startTime, 60))
  }

  /** The label for a number of whole minutes. */
  function MinutesLabel(minutes: int): string {
    var hours := Quot(minutes, 60);
    if hours > 0 then IntToString(hours) + "h " + IntToString(minutes % 60) + "m"
    else IntToString(minutes) + "m"
  }

  /** Reads a label of the form "Hh Mm" or "Mm" back into whole minutes. */
  function ParseElapsed(shown: string): Option<int> {
    if shown == [] || shown[|shown| - 1] != 'm' then None
    else
      var body := shown[..|shown| - 1];
      var h := IndexOfChar(body, 'h');
      if h == |body| then ParseNat(body) else ParseHoursPart(body[..h], body[h..])
  }

  /** The "H" and "h Mm"-less-"m" halves of an hours label. */
  function ParseHoursPart(hs: string, rest: string): Option<int> {
    if 2 <= |rest| && rest[..2] == "h " then
      match (ParseNat(hs), ParseNat(rest[2..]))
      case (Some(hours), Some(mins)) => if mins < 60 then Some(hours * 60 + mins) else None
      case _ => None
    else None
  }

  /** The first 'h' after a run of digits is the one that ends the run. */
  lemma IndexOfHAfterDigits(hs: string, rest: string)
    requires forall i :: 0 <= i < |hs| ==> IsDigit(hs[i])
    requires rest != [] && rest[0] == 'h'
    ensures IndexOfChar(hs + rest, 'h') == |hs|
  {
    assert (hs + rest)[|hs|] == 'h';
  }

  lemma ParseHoursPartOf(hours: nat, mins: nat)
    requires mins < 60
    ensures ParseHoursPart(NatToString(hours), "h " + NatToString(mins)) == Some(hours * 60 + mins)
  {
    var rest := "h " + NatToString(mins);
    assert rest[..2] == "h " && rest[2..] == NatToString(mins);
    NatToStringRoundTrip(hours);
    NatToStringRoundTrip(mins);
  }

  /** A label is read by looking for 'h' in the text before the final "m". */
  lemma ParseElapsedBody(body: string)
    ensures var h := IndexOfChar(body, 'h');
      ParseElapsed(body + "m") == if h == |body| then ParseNat(body) else ParseHoursPart(body[..h], body[h..])
  {
    assert (body + "m")[..|body|] == body;
  }

  /** "Hh Mm" reads back as H hours and M minutes. */
  lemma ParseHoursMinutes(hours: nat, mins: nat)
    requires mins < 60
    ensures ParseElapsed(NatToString(hours) + "h " + NatToString(mins) + "m") == Some(hours * 60 + mins)
  {
    var hs, ms := NatToString(hours), NatToString(mins);
    var rest := "h " + ms;
    var body := hs + rest;
    assert hs + "h " + ms + "m" == body + "m";
    ParseElapsedBody(body);
    IndexOfHAfterDigits(hs, rest);
    assert body[..|hs|] == hs && body[|hs|..] == rest;
    ParseHoursPartOf(hours, mins);
  }

  /** "Mm" reads back as M minutes. */
  lemma ParseMinutes(mins: nat)
    ensures ParseElapsed(NatToString(mins) + "m") == Some(mins)
  {
    var ms := NatToString(mins);
    ParseElapsedBody(ms);
    NatToStringRoundTrip(mins);
    assert forall i :: 0 <= i < |ms| ==> ms[i] != 'h';
  }

  /** From one hour on, the label is "Hh Mm" and reads back as the minutes. */
  lemma HoursLabelRoundTrip(s: AgentSession, now: int)
    requires now - s.startTime >= 3600
    ensures ParseElapsed(ElapsedString(s, now)) == Some((now - s.startTime) / 60)
    ensures 'h' in ElapsedString(s, now)
  {
    var minutes := (now - s.startTime) / 60;
    var hours := minutes / 60;
    assert Quot(now - s.startTime, 60) == minutes;
    assert Quot(minutes, 60) == hours;
    var shown := NatToString(hours) + "h " + NatToString(minutes % 60) + "m";
    assert ElapsedString(s, now) == shown;
    ParseHoursMinutes(hours, minutes % 60);
    assert shown[|NatToString(hours)|] == 'h';
  }

  /** Below one hour, the label is "Mm" and reads back as the minutes. */
  lemma MinutesLabelRoundTrip(s: AgentSession, now: int)
    requires 0 <= now - s.startTime < 3600
    ensures ParseElapsed(ElapsedString(s, now)) == Some((now - s.startTime) / 60)
    ensures 'h' !in ElapsedString(s, now)
  {
    var minutes := (now - s.startTime) / 60;
    assert Quot(now - s.startTime, 60) == minutes;
    assert Quot(minutes, 60) == 0;
    var ms := NatToString(minutes);
    assert ElapsedString(s, now) == ms + "m";
    ParseMinutes(minutes);
    assert forall i :: 0 <= i < |ms| ==> (ms + "m")[i] == ms[i];
  }

  /** The label shows exactly the whole minutes elapsed (minutes below 60 once hours
      are shown), and shows an hour part exactly from one hour on. */
  lemma ElapsedStringRoundTrip(s: AgentSession, now: int)
    requires now >= s.startTime
    ensures ParseElapsed(ElapsedString(s, now)) == Some((now - s.startTime) / 60)
    ensures (now - s.startTime) / 60 < 60 <==> 'h' !in ElapsedString(s, now)
  {
    if now - s.startTime >= 3600 {
      HoursLabelRoundTrip(s, now);
    } else {
      MinutesLabelRoundTrip(s, now);
    }
  }
}
