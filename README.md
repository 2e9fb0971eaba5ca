# herd / Herder session tracking, modelled in Dafny

Herd and Herder are macOS menu-bar apps. They track the coding-agent sessions running on a
developer's machine. Hook scripts report session lifecycle events to the app. The app keeps
an in-memory table of sessions. Herder also enriches each session with its git branch,
its GitHub repository, and the open pull request for that branch with its CI check-run
status.

This project models the core of both apps:

- **The session stores.** Herder's `AgentStore` (`herder_store.dfy`) and Herd's
  `AgentStore` (`herd_store.dfy`) are classes whose `sessions` field the methods
  reassign. Each method is proved against a pure function of the session table in
  `session_table.dfy`: add, remove, status update, transcript path, pull request, and the
  two stale-session sweeps. Every method keeps session ids unique.
- **The session record and its derived values** (`agent_session.dfy`): the display path
  (`shortCwd`), the branch read from `.git/HEAD`, the GitHub owner and repository read
  from `.git/config`, and the elapsed-time label. The `gitRepo` regular expression is
  matched by a hand-written leftmost, greedy-then-lazy matcher (`git_remote.dfy`).
  It is proved to return exactly the captures of the first match.
- **The pull-request record** (`pr_info.dfy`): the derived check status, the summary line
  and the icon.
- **The PR monitor** (`pr_monitor.dfy`):
  - the differential poll, which looks up a pull request only when a branch is new or has
    no pull request yet, and otherwise only refreshes its checks;
  - how each response is parsed;
  - the check-run counting loop;
  - the search for a GitHub token.
- **The Herd socket server** (`socket_server.dfy`): one connection's bytes, decoded into
  a JSON object, and the store call that its "event" causes.

Conventions:

- Time is whole seconds, passed in as `now`.
- Files are a `FileSystem` map from path to contents.
- Decoded JSON is the `Json.Value` datatype.
- The outputs of the `gh` binaries and the environment are inputs.
- Network requests are returned as `Call` values instead of being issued.

## Model

| member | source | states |
|---|---|---|
| PullRequests.StatusOf | app/Sources/Herder/PRInfo.swift:12-17 | the status is NoChecks exactly when there are no checks; otherwise Running exactly when a check is pending, then Failed exactly when one failed, else Passed |
| PullRequests.ChecksSummary | app/Sources/Herder/PRInfo.swift:19-26 | the summary is "No checks" exactly for status NoChecks; the running, failed and passed lines are given in full: "Checks running... (passed/total)", "F failed (passed/total passed)" and "All checks passed (total/total)" |
| PullRequests.IconBijective | app/Sources/Herder/PRInfo.swift:28-35 | the four statuses get four distinct one-character badges |
| AgentSessions.NewSession | app/Sources/Herder/AgentSession.swift:21-30 | a new session has the given id, directory, status and terminal details, starts and was last active at the clock reading, and has no message, transcript or pull request |
| AgentSessions.ShortCwdRoundTrip | app/Sources/Herder/AgentSession.swift:32-38 | for a working directory that does not begin with "~", expanding "~" in the short path gives it back; when the home directory is non-empty, the short path is never longer; the short path begins with "~" exactly when the directory starts with the home directory |
| AgentSessions.BranchFromHeadSpec | app/Sources/Herder/AgentSession.swift:60-70 | the trimmed HEAD text is "ref: refs/heads/" followed by the branch, or the branch is its first (at most) eight characters |
| AgentSessions.HeadRoundTrip | app/Sources/Herder/AgentSession.swift:62-66 | a HEAD file "ref: refs/heads/B" plus trailing whitespace reads back as branch B |
| AgentSessions.DetachedHeadRoundTrip | app/Sources/Herder/AgentSession.swift:62-69 | a detached HEAD holding a commit id reads back as its first eight characters |
| AgentSessions.GitBranch | app/Sources/Herder/AgentSession.swift:60-63 | there is a branch exactly when `.git/HEAD` under the working directory can be read |
| AgentSessions.GitRepo | app/Sources/Herder/AgentSession.swift:41-57 | nil exactly when `.git/config` is unreadable or the pattern matches nowhere; otherwise the first match's captures, owner and repository both non-empty and free of '/' |
| AgentSessions.ElapsedStringRoundTrip | app/Sources/Herder/AgentSession.swift:72-76 | the label reads back as the whole minutes elapsed, and has an hour part exactly from 60 minutes on |
| GitRemote.RepoFromConfigSpec | app/Sources/Herder/AgentSession.swift:44-53 | there is a result exactly when the regex matches somewhere, and it is then the captures of the leftmost match with the greedy `.*`; the owner has no '/', the repository only `[^/\s]` characters |
| GitRemote.CapturesSpec | app/Sources/Herder/AgentSession.swift:46 | the owner capture is the non-empty text up to the first '/', and the repository capture is the shortest run that lets `(?:\.git)?\s` follow |
| GitRemote.CapturesDropsGitSuffix | app/Sources/Herder/AgentSession.swift:44-46 | "owner/repo.git" followed by whitespace yields (owner, repo), without the ".git" |
| GitRemote.CapturesPlainRemote | app/Sources/Herder/AgentSession.swift:44-46 | "owner/repo" followed by whitespace yields (owner, repo) |
| Text.Trim | app/Sources/Herder/AgentSession.swift:63 | `trimmingCharacters(in:)` leaves a text no longer than the input and with neither end in the set |
| Text.TrimPadded | app/Sources/Herder/PRMonitor.swift:166 | trimming a text padded on both sides with characters of the set gives back its middle |
| Text.NatToStringRoundTrip | app/Sources/Herder/AgentSession.swift:75 | the decimal rendering of a number reads back as that number |
| Text.Quot | app/Sources/Herder/AgentSession.swift:73-74 | Swift's `/` agrees with floor division on a non-negative dividend; on a negative one the quotient is rounded up, toward zero (q * b - b < a <= q * b) |
| Text.LinesRoundTrip | app/Sources/Herder/PRMonitor.swift:165 | splitting on "\n" loses nothing: joining the pieces gives the text back |
| Text.RemoveAllAbsent | app/Sources/Herder/PRMonitor.swift:168 | removing every occurrence of a pattern leaves a text without it unchanged |
| Json.AsObjectArray | app/Sources/Herder/PRMonitor.swift:65 | the cast succeeds exactly for an array whose every element is an object, and keeps the elements in order |
| SessionTable.IndexOf | app/Sources/Herder/AgentStore.swift:32 | the result is the first index holding the id, and None exactly when no session has it |
| SessionTable.AddedSpec | app/Sources/Herder/AgentStore.swift:22-25 | adding keeps ids unique; a known id leaves the table unchanged; a new id is appended as a working session started now; adding twice is the same as adding once |
| SessionTable.RemovedSpec | app/Sources/Herder/AgentStore.swift:27-29 | after removal no session has the id, the others stay in order, and ids stay unique |
| SessionTable.RemovedOneOfUnique | app/Sources/Herder/AgentStore.swift:27-29 | removing a tracked id from a table with unique ids shortens it by exactly one |
| SessionTable.ApplyEditSpec | app/Sources/Herder/AgentStore.swift:31-43 | each edit changes only its own fields (status with last activity and an optional message, transcript path, pull request) and keeps the id |
| SessionTable.EditedSpec | app/Sources/Herder/AgentStore.swift:31-43 | an edit of an absent id is a no-op; otherwise only the session with the id changes, and ids stay unique |
| SessionTable.SweptSpec | app/Sources/Herder/AgentStore.swift:45-54 | a session survives the Herder sweep exactly when it was active within 1800 s if idle or 14400 s if working; order and unique ids are kept |
| SessionTable.CleanupRemovesTimedOut | app/Sources/Herd/AgentStore.swift:70-80 | removing the collected stale ids one by one leaves exactly the sessions active within the last 300 s, in order, with unique ids |
| SessionTable.CountsPartition | app/Sources/Herd/AgentStore.swift:27-37 | the idle and working counts add up to the total |
| SessionTable.ApplyAllKeepsUnique | app/Sources/Herder/AgentStore.swift:22-54 | session ids stay pairwise distinct after any sequence of store operations |
| HerderStore.AgentStore.constructor | app/Sources/Herder/AgentStore.swift:5 | the store starts empty |
| HerderStore.AgentStore.IdleCount | app/Sources/Herder/AgentStore.swift:19-20 | the idle count is at most the total, and the rest of the sessions are working |
| HerderStore.AgentStore.AddSession | app/Sources/Herder/AgentStore.swift:22-25 | the table becomes Added of the old table, keeps unique ids, and tracks the id |
| HerderStore.AgentStore.RemoveSession | app/Sources/Herder/AgentStore.swift:27-29 | the table becomes Removed of the old table, keeps unique ids, and no longer tracks the id |
| HerderStore.AgentStore.UpdateSessionStatus | app/Sources/Herder/AgentStore.swift:31-37 | the table becomes the old one with the status edit applied to the id, and keeps unique ids |
| HerderStore.AgentStore.SetTranscriptPath | app/Sources/Herder/AgentStore.swift:39-43 | the table becomes the old one with the transcript path set on the id, and keeps unique ids |
| HerderStore.AgentStore.SetPRInfo | app/Sources/Herder/PRMonitor.swift:69 | the table becomes the old one with the pull request set or cleared on the id, and keeps unique ids |
| HerderStore.AgentStore.CleanupStaleSessions | app/Sources/Herder/AgentStore.swift:45-54 | the table becomes the Herder sweep of the old one, and keeps unique ids |
| HerdStore.AgentStore.constructor | app/Sources/Herd/AgentStore.swift:7 | the store starts empty |
| HerdStore.AgentStore.WorkingCount | app/Sources/Herd/AgentStore.swift:35-37 | the working and idle counts add up to the total |
| HerdStore.AgentStore.AddSession | app/Sources/Herd/AgentStore.swift:41-50 | the table becomes Added of the old table (no terminal details), keeps unique ids, and tracks the id |
| HerdStore.AgentStore.RemoveSession | app/Sources/Herd/AgentStore.swift:52-55 | the table becomes Removed of the old table, keeps unique ids, and no longer tracks the id |
| HerdStore.AgentStore.UpdateSessionStatus | app/Sources/Herd/AgentStore.swift:57-66 | the table becomes the old one with the status edit applied to the id, and keeps unique ids |
| HerdStore.AgentStore.CleanupStaleSessions | app/Sources/Herd/AgentStore.swift:70-80 | the loop over the collected ids leaves exactly the sessions that have not timed out, in order, with unique ids |
| PRMonitors.ClassifySpec | app/Sources/Herder/PRMonitor.swift:120-132 | a run is pending exactly when not completed, passed exactly when completed with success, skipped or neutral, and failed otherwise, including when it has no conclusion |
| PRMonitors.CountOfPositive | app/Sources/Herder/PRMonitor.swift:115-133 | a count is positive exactly when some run has that outcome |
| PRMonitors.CountChecks | app/Sources/Herder/PRMonitor.swift:115-133 | the loop counts each outcome exactly, and passed + failed + pending == total == number of runs |
| PRMonitors.CountedStatus | app/Sources/Herder/PRMonitor.swift:135-139 | the refreshed pull request keeps number, url and sha, and shows no checks, running, failed or passed exactly as the runs are empty, some pending, none pending and some failed, or all passed |
| PRMonitors.CheckRuns | app/Sources/Herder/PRMonitor.swift:111-113 | the runs are read exactly when the body is an object whose "check_runs" is an array of objects |
| PRMonitors.LookupSpec | app/Sources/Herder/PRMonitor.swift:63-87 | the pull request is cleared exactly when the body is not a non-empty array of objects; otherwise the first element is found exactly when its number, html_url and head.sha have the right types, and the pull request found is those three fields with zero counters; a first element with a field of the wrong type is ignored |
| PRMonitors.TokenOnLine | app/Sources/Herder/PRMonitor.swift:166-169 | a token found on a line is non-empty, and the trimmed line starts with "oauth_token:" |
| PRMonitors.FirstSomeSpec | app/Sources/Herder/PRMonitor.swift:165-171 | the scan finds a value exactly when some line has one, and it is the first such line's |
| PRMonitors.HostsToken | app/Sources/Herder/PRMonitor.swift:164-172 | the loop over the lines of hosts.yml returns the first line's token |
| PRMonitors.HostsLineToken | app/Sources/Herder/PRMonitor.swift:166-169 | an indented line "oauth_token: T" yields T |
| PRMonitors.TokenFromPriority | app/Sources/Herder/PRMonitor.swift:149-175 | a non-empty GITHUB_TOKEN wins; else the trimmed output of /usr/local/bin/gh when it ran, or of the Homebrew gh when the first did not, if non-empty; missing or blank gh output falls through to the first hosts.yml token (none without the file), without trying the second gh after a blank first one |
| PRMonitors.TokenFromSpec | app/Sources/Herder/PRMonitor.swift:149-175 | a token is never empty, and there is none only when GITHUB_TOKEN is unset or empty, the gh output chosen is missing or blank, and hosts.yml is unreadable or has no token line |
| PRMonitors.LinesToken | app/Sources/Herder/PRMonitor.swift:164-172 | the hosts.yml token is never empty, and is missing only when no line holds one |
| PRMonitors.LoadGitHubToken | app/Sources/Herder/PRMonitor.swift:149-175 | the method returns the token of the sources in priority order |
| PRMonitors.TargetOf | app/Sources/Herder/PRMonitor.swift:36-38 | a session is polled exactly when its branch and repository can be read and the branch is neither "main" nor "master" |
| PRMonitors.StepSpec | app/Sources/Herder/PRMonitor.swift:35-49 | a polled session whose branch is already recorded and which has a pull request only gets a check refresh; any other polled session gets its branch recorded and a lookup |
| PRMonitors.PollCalls | app/Sources/Herder/PRMonitor.swift:32-50 | a poll issues as many requests as there are polled sessions; each request is for a polled session with that session's owner and repository (a lookup also for its branch), and every polled session gets a request, so with unique ids there is exactly one request per polled session |
| PRMonitors.PollSkipsMainAndMaster | app/Sources/Herder/PRMonitor.swift:36-38 | a poll never looks up "main" or "master", and never issues a request for a session without a readable branch and repository |
| PRMonitors.PollRecordsBranches | app/Sources/Herder/PRMonitor.swift:47 | after a poll, the map holds the current branch of every polled session |
| PRMonitors.SettledPollOnlyRefreshes | app/Sources/Herder/PRMonitor.swift:41-44 | when every polled branch is recorded and has a pull request, the poll leaves the map alone and only refreshes checks |
| PRMonitors.SecondPollOnlyRefreshes | app/Sources/Herder/PRMonitor.swift:32-50 | when all sessions have a pull request, a second poll over the same targets issues no lookups and does not change the map |
| PRMonitors.NoPRAlwaysLooksUp | app/Sources/Herder/PRMonitor.swift:41-48 | a polled session without a pull request gets a lookup on every poll |
| PRMonitors.PRMonitor.constructor | app/Sources/Herder/PRMonitor.swift:12-15 | the monitor holds the store, starts with no recorded branches, and loads the token |
| PRMonitors.PRMonitor.Poll | app/Sources/Herder/PRMonitor.swift:32-50 | the loop leaves the branch map and requests that PollSpec gives for the sessions and their targets |
| PRMonitors.PRMonitor.HandlePRResponse | app/Sources/Herder/PRMonitor.swift:63-96 | a lookup response clears the pull request, leaves the store alone, or sets the new pull request and asks for its checks, as LookupSpec classifies it |
| PRMonitors.PRMonitor.HandleChecksResponse | app/Sources/Herder/PRMonitor.swift:110-145 | a check-runs response the program cannot read changes nothing; otherwise the session's pull request becomes the counted one |
| SocketServer.IgnoredMessages | app/Sources/Herd/SocketServer.swift:97-130 | a message that is not an object with a string "event", or lacks a string "session_id", or names an unknown event, leaves the table unchanged |
| SocketServer.StartAndEndEvents | app/Sources/Herd/SocketServer.swift:114-120 | "session_start" with a cwd adds a working session for a new id and is a no-op for a known id; "session_end" removes the id |
| SocketServer.StatusEvents | app/Sources/Herd/SocketServer.swift:122-127 | "agent_idle" marks the session idle at now and takes "last_message" only when it is a string; "agent_active" marks it working and keeps its message; other sessions are untouched |
| SocketServer.StatusEventsUnknownId | app/Sources/Herd/AgentStore.swift:57-66 | "agent_idle" and "agent_active" for an id the table does not track leave the table unchanged |
| SocketServer.EventRoundTrip | app/Sources/Herd/SocketServer.swift:106-133 | start, idle and end messages for a new id create a working session, then mark it idle with the message, then restore the original table |
| SocketServer.SocketServer.constructor | app/Sources/Herd/SocketServer.swift:10-12 | the server holds the given store |
| SocketServer.SocketServer.ProcessEvent | app/Sources/Herd/SocketServer.swift:106-133 | the store ends as the event's effect applied to the old table, with unique ids |
| SocketServer.SocketServer.HandleClient | app/Sources/Herd/SocketServer.swift:87-104 | an empty or failed read changes nothing; otherwise the decoded first `bytesRead` bytes are dispatched exactly as their effect says |

## Left out

- Sockets: creating, binding and accepting on the Unix socket, and closing the descriptor, are not modelled. `HandleClient` starts from the bytes one read returned.
- JSON byte decoding is the `decode` parameter of `HandleClient`. Responses are passed in already decoded. Non-integral numbers and the bridging of booleans to `Int` are not modelled.
- URL construction, request headers (the bearer token, the Accept header), the 10-second timeout and a failed `URL(string:)` are not modelled. A lookup or refresh is the `Call` value `Poll` returns.
- Timers (the 20-second poll, the 60-second sweeps, the initial 2-second delay) and the `start`/`stop` of the monitor are left to the caller.
- The ordering of main-queue blocks is not modelled. In the source, `setPRInfo` for a new pull request is dispatched asynchronously while `fetchChecks` starts at once. `HandlePRResponse` applies the store update first, then reports the follow-up refresh.
- `runCommand` (process spawning and the file-existence check) is not modelled. The outputs of the two `gh` binaries are optional inputs of `LoadGitHubToken`. The environment is a map, and hosts.yml is an optional string.
- File reads are lookups in a map from path to contents. The home directory is a parameter. UTF-8 decoding failures count as unreadable files.
- Dates are integer seconds, not `TimeInterval` doubles. `AgentSession.init` reads the clock twice, but `NewSession` uses one reading for both `startTime` and `lastActivity`.
- Strings are sequences of Unicode scalars compared scalar by scalar. Swift's `String` compares by canonical equivalence and counts grapheme clusters, so the model differs from the source in two ways:
  - two canonically equivalent spellings with different scalars are different here and equal in Swift. This affects every id lookup (`contains`, `firstIndex`, `removeAll`), the keys of `lastCheckedBranch`, `hasPrefix`, and the comparisons with "main", "master", "completed", the conclusion names and the event names;
  - `prefix(8)`, `dropFirst` and `count` count scalars here and grapheme clusters in Swift. They differ whenever a cluster spans several scalars: combining marks, "\r\n", emoji sequences.
- Herd's own `AgentSession.swift` is not part of this model. The Herd store reuses the Herder session record with no terminal details.
- `setPRInfo` is not part of this model's source files. `SetPRInfo` follows its three call sites (PRMonitor.swift lines 69, 90 and 142): it replaces the pull request of the session with the id, or does nothing when the id is absent.
- `NSRegularExpression` is replaced by a hand-written matcher for the one pattern used. Its leftmost, greedy and lazy choices are proved in `GitRemote.RepoFromConfigSpec`.
- `GitRemote.IsRegexSpace` takes `\s` to be the Unicode White_Space property, the set ICU's matcher builds `\s` from. ICU's user guide lists the class as tab, line feed, form feed, carriage return and `\p{Z}`; that list leaves out U+000B and U+0085. The model counts both as whitespace, so on a remote containing either character it may capture differently from an engine that follows the guide's list.
- The menu-bar UI, the terminal launcher, transcript tailing, logging with `print` and app bootstrapping are not modelled.
- Monotonic `lastActivity` is not proved, because the clock reading is an unconstrained parameter.
- PullRequests.IconBijective: the badges are compared as Dafny strings of one scalar each. Their rendering is not modelled.
