/** The pull-request record attached to a session and the check status derived from
    its four counters. */
module PullRequests {

  import opened Text

  /** `PRInfo.ChecksStatus`; `NoChecks` is the source's `.none`. */
  datatype ChecksStatus = NoChecks | Running | Failed | Passed

  /** The open pull request found for a session's branch and its check-run counters. */
  datatype PRInfo = PRInfo(
    number: int,
    url: string,
    headSha: string,
    checksTotal: int,
    checksPassed: int,
    checksFailed: int,
    checksPending: int)

  /** `checksStatus`: no checks first, then pending beats failed, failed beats passed. */
  function StatusOf(pr: PRInfo): (r: ChecksStatus)
    ensures r == NoChecks <==> pr.checksTotal == 0
    ensures r == Running <==> pr.checksTotal != 0 && pr.checksPending > 0
    ensures r == Failed <==> pr.checksTotal != 0 && pr.checksPending <= 0 && pr.checksFailed > 0
    ensures r == Passed <==> pr.checksTotal != 0 && pr.checksPending <= 0 && pr.checksFailed <= 0
  {
    if pr.checksTotal == 0 then NoChecks
    else if pr.checksPending > 0 then Running
    else if pr.checksFailed > 0 then Failed
    else Passed
  }

  /** `checksSummary`: the one-line description shown under a session. */
  function ChecksSummary(pr: PRInfo): (r: string)
    ensures r == "No checks" <==> StatusOf(pr) == NoChecks
    ensures StatusOf(pr) == Running ==>
      r == "Checks running... (" + IntToString(pr.checksPassed) + "/" + IntToString(pr.checksTotal) + ")"
    ensures StatusOf(pr) == Failed ==>
      r == IntToString(pr.checksFailed) + " failed (" + IntToString(pr.checksPassed) + "/"
        + IntToString(pr.checksTotal) + " passed)"
    ensures StatusOf(pr) == Passed ==>
      r == "All checks passed (" + IntToString(pr.checksTotal) + "/" + IntToString(pr.checksTotal) + ")"
  {
    match StatusOf(pr)
    case NoChecks => "No checks"
    case Running => "Checks running... (" + IntToString(pr.checksPassed) + "/" + IntToString(pr.checksTotal) + ")"
    case Failed =>
      var r := IntToString(pr.checksFailed) + " failed (" + IntToString(pr.checksPassed) + "/"
        + IntToString(pr.checksTotal) + " passed)";
      assert r[0] == IntToString(pr.checksFailed)[0];
      r
    case Passed => "All checks passed (" + IntToString(pr.checksTotal) + "/" + IntToString(pr.checksTotal) + ")"
  }

  /** The badge for each status: white circle, arrows, cross, check mark. */
  function IconOf(st: ChecksStatus): string {
    match st
    case NoChecks => "\U{26AA}"
    case Running => "\U{1F504}"
    case Failed => "\U{274C}"
    case Passed => "\U{2705}"
  }

  /** `checksIcon`. */
  function ChecksIcon(pr: PRInfo): string {
    IconOf(StatusOf(pr))
  }

  /** The icon is a bijection from the four statuses onto the four badges. */
  lemma IconBijective()
    ensures forall a: ChecksStatus, b: ChecksStatus :: IconOf(a) == IconOf(b) <==> a == b
    ensures {IconOf(NoChecks), IconOf(Running), IconOf(Failed), IconOf(Passed)}
      == {"\U{26AA}", "\U{1F504}", "\U{274C}", "\U{2705}"}
    ensures forall pr: PRInfo :: |ChecksIcon(pr)| == 1
  {
  }
}
