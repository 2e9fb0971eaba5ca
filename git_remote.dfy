/** The owner/repository pair that `gitRepo` reads out of `.git/config`. The source runs
    the regular expression  url = .*github\.com[:/]([^/]+)/([^/\s]+?)(?:\.git)?\s
    and takes the first match; this module writes that search out by hand. A match is
    fixed by two positions: `p`, where "url = " starts, and `q`, where "github.com" starts.
    The regex engine picks the leftmost `p` and, for it, the rightmost `q` (the `.*` is
    greedy); the two captures are then determined by the text after "github.com:" or
    "github.com/". */
module GitRemote {

  import opened Wrappers
  import opened Text

  /** ICU's `\s`, which the regular-expression engine builds from the Unicode White_Space
      property: U+0009 to U+000D, space, U+0085, no-break space and the separators. */
  predicate IsRegexSpace(c: char) {
    ('\t' <= c <= '\r') || c == ' ' || c == '\U{0085}' || c == '\U{00A0}'
    || c == '\U{1680}' || ('\U{2000}' <= c <= '\U{200A}') || c == '\U{2028}' || c == '\U{2029}'
    || c == '\U{202F}' || c == '\U{205F}' || c == '\U{3000}'
  }

  /** A character of the repository capture `[^/\s]`. */
  predicate RepoChar(c: char) {
    c != '/' && !IsRegexSpace(c)
  }

  /** `(?:\.git)?\s` matches at index `k` of `u`. */
  predicate RepoEndsAt(u: string, k: int) {
    0 <= k
    && ((k < |u| && IsRegexSpace(u[k]))
        || (k + 4 < |u| && u[k..k + 4] == ".git" && IsRegexSpace(u[k + 4])))
  }

  /** A repository capture of length `k` at the start of `u` lets the rest of the pattern match. */
  predicate RepoMatch(u: string, k: int) {
    1 <= k <= |u| && (forall i :: 0 <= i < k ==> RepoChar(u[i])) && RepoEndsAt(u, k)
  }

  /** No capture length shorter than `n` lets the pattern match. */
  predicate NoShorterRepo(u: string, n: int) {
    forall k :: 1 <= k < n ==> !RepoMatch(u, k)
  }

  /** No capture length at all lets the pattern match. */
  ghost predicate NoRepo(u: string) {
    forall k :: !RepoMatch(u, k)
  }

  /** The lazy `([^/\s]+?)`: the shortest capture length from `k` on that matches
      (LazyRepoSpec). */
  function LazyRepo(u: string, k: nat): Option<nat>
    requires 1 <= k
    decreases |u| - k
  {
    if k > |u| || !RepoChar(u[k - 1]) then None
    else if RepoEndsAt(u, k) then Some(k)
    else LazyRepo(u, k + 1)
  }

  lemma {:induction false} LazyRepoSpec(u: string, k: nat)
    requires 1 <= k
    requires forall i :: 0 <= i < k - 1 && i < |u| ==> RepoChar(u[i])
    ensures LazyRepo(u, k).Some? ==> k <= LazyRepo(u, k).value && RepoMatch(u, LazyRepo(u, k).value)
    ensures LazyRepo(u, k).Some? ==> forall j :: k <= j < LazyRepo(u, k).value ==> !RepoMatch(u, j)
    ensures LazyRepo(u, k).None? ==> forall j :: k <= j ==> !RepoMatch(u, j)
    decreases |u| - k
  {
    if k <= |u| && RepoChar(u[k - 1]) && !RepoEndsAt(u, k) {
      LazyRepoSpec(u, k + 1);
    }
  }

  /** The two captures, read from the text `t` that follows "github.com:" or "github.com/":
      the greedy `([^/]+)` runs up to the first '/', and the repository is the shortest
      run after it that the rest of the pattern accepts (CapturesSpec). */
  function Captures(t: string): Option<(string, string)> {
    var j := IndexOfChar(t, '/');
    if j == 0 || j >= |t| then None
    else
      var u := t[j + 1..];
      match LazyRepo(u, 1)
      case None => None
      case Some(k) => if k <= |u| then Some((t[..j], u[..k])) else None
  }

  /** The owner is the non-empty text before the first '/', and the repository is the
      shortest run of `[^/\s]` after it that is followed by whitespace or by ".git" and
      whitespace; with no such run there is no capture. */
  lemma CapturesSpec(t: string)
    ensures Captures(t).Some? ==>
      var (owner, repo) := Captures(t).value;
      var j := |owner|;
      && j >= 1 && j < |t| && t[..j] == owner && t[j] == '/' && '/' !in owner
      && RepoMatch(t[j + 1..], |repo|) && repo == t[j + 1..][..|repo|]
      && NoShorterRepo(t[j + 1..], |repo|)
    ensures Captures(t).None? ==>
      var j := IndexOfChar(t, '/');
      j == 0 || j == |t| || NoRepo(t[j + 1..])
  {
    CapturesFound(t);
    CapturesMissing(t);
  }

  lemma CapturesFound(t: string)
    ensures Captures(t).Some? ==>
      var (owner, repo) := Captures(t).value;
      var j := |owner|;
      && j >= 1 && j < |t| && t[..j] == owner && t[j] == '/' && '/' !in owner
      && RepoMatch(t[j + 1..], |repo|) && repo == t[j + 1..][..|repo|]
      && NoShorterRepo(t[j + 1..], |repo|)
  {
    var j := IndexOfChar(t, '/');
    if 0 < j < |t| {
      LazyRepoSpec(t[j + 1..], 1);
    }
  }

  lemma CapturesMissing(t: string)
    ensures Captures(t).None? ==>
      var j := IndexOfChar(t, '/');
      j == 0 || j == |t| || NoRepo(t[j + 1..])
  {
    var j := IndexOfChar(t, '/');
    if 0 < j < |t| {
      var u := t[j + 1..];
      LazyRepoSpec(u, 1);
      if LazyRepo(u, 1).Some? {
        assert Captures(t) == Some((t[..j], u[..LazyRepo(u, 1).value]));
      } else {
        assert NoRepo(u);
      }
    }
  }

  /** The owner is non-empty and holds no '/'; the repository is non-empty and made of
      `[^/\s]` characters. */
  lemma CapturesShape(t: string)
    ensures Captures(t).Some? ==>
      var (owner, repo) := Captures(t).value;
      && owner != [] && '/' !in owner
      && repo != [] && forall i :: 0 <= i < |repo| ==> RepoChar(repo[i])
  {
    CapturesSpec(t);
    if Captures(t).Some? {
      var (owner, repo) := Captures(t).value;
      var u := t[|owner| + 1..];
      assert RepoMatch(u, |repo|);
      forall i | 0 <= i < |repo| ensures RepoChar(repo[i]) {
        assert repo[i] == u[i];
      }
    }
  }

  /** When the capture length `n` lets the pattern match and no shorter one does, the
      captures of "owner/" followed by `u` are the owner and the first `n` characters. */
  lemma CapturesOf(owner: string, u: string, n: nat)
    requires owner != [] && '/' !in owner
    requires RepoMatch(u, n) && NoShorterRepo(u, n)
    ensures Captures(owner + "/" + u) == Some((owner, u[..n]))
  {
    var t := owner + "/" + u;
    assert t[|owner|] == '/';
    assert forall i :: 0 <= i < |owner| ==> t[i] == owner[i];
    assert IndexOfChar(t, '/') == |owner|;
    assert t[|owner| + 1..] == u && t[..|owner|] == owner;
    LazyRepoSpec(u, 1);
  }

  /** The remote "owner/repo.git" followed by whitespace yields owner and repo: the
      ".git" suffix is never part of the repository name. */
  lemma CapturesDropsGitSuffix(owner: string, repo: string, ws: char, rest: string)
    requires owner != [] && '/' !in owner
    requires repo != [] && forall i :: 0 <= i < |repo| ==> RepoChar(repo[i])
    requires IsRegexSpace(ws)
    ensures Captures(owner + "/" + repo + ".git" + [ws] + rest) == Some((owner, repo))
  {
    var u := repo + ".git" + [ws] + rest;
    assert u[|repo|..|repo| + 4] == ".git" && u[|repo| + 4] == ws;
    assert forall i :: 0 <= i < |repo| ==> u[i] == repo[i];
    assert forall i :: 0 <= i < 4 ==> u[|repo| + i] == ".git"[i];
    forall k | 1 <= k < |repo| ensures !RepoMatch(u, k) {
      assert !IsRegexSpace(u[k]);
      assert !IsRegexSpace(u[k + 4]);
    }
    CapturesOf(owner, u, |repo|);
    assert u[..|repo|] == repo;
    assert owner + "/" + u == owner + "/" + repo + ".git" + [ws] + rest;
  }

  /** The remote "owner/repo" followed by whitespace yields owner and repo, for a name
      that does not itself end in ".git". */
  lemma CapturesPlainRemote(owner: string, repo: string, ws: char, rest: string)
    requires owner != [] && '/' !in owner
    requires repo != [] && forall i :: 0 <= i < |repo| ==> RepoChar(repo[i])
    requires !(|repo| >= 4 && repo[|repo| - 4..] == ".git")
    requires IsRegexSpace(ws)
    ensures Captures(owner + "/" + repo + [ws] + rest) == Some((owner, repo))
  {
    var u := repo + [ws] + rest;
    assert u[|repo|] == ws;
    assert forall i :: 0 <= i < |repo| ==> u[i] == repo[i];
    forall k | 1 <= k < |repo| ensures !RepoMatch(u, k) {
      assert !IsRegexSpace(u[k]);
      if k + 4 < |repo| {
        assert !IsRegexSpace(u[k + 4]);
      } else if k + 4 == |repo| {
        assert u[k..k + 4] == repo[|repo| - 4..];
      } else if k + 4 < |u| {
        assert u[k..k + 4][|repo| - k] == ws;
      }
    }
    CapturesOf(owner, u, |repo|);
    assert u[..|repo|] == repo;
    assert owner + "/" + u == owner + "/" + repo + [ws] + rest;
  }

  /** Index of the first line terminator in `s` (the characters `.` does not match,
      which are the same as Foundation's newlines), or |s| when there is none. */
  function LineLength(s: string): (k: nat)
    ensures k <= |s|
    ensures forall i :: 0 <= i < k ==> !IsNewline(s[i])
    ensures k < |s| ==> IsNewline(s[k])
  {
    if s == [] || IsNewline(s[0]) then 0 else 1 + LineLength(s[1..])
  }

  /** The pattern matches with "url = " at `p` and "github.com" at `q`; `.*` covers
      the text between them, so it stays on one line. */
  predicate MatchAt(c: string, p: int, q: int) {
    && 0 <= p && p + 6 <= q && q + 11 <= |c|
    && c[p..p + 6] == "url = "
    && q - (p + 6) <= LineLength(c[p + 6..])
    && c[q..q + 10] == "github.com"
    && (c[q + 10] == ':' || c[q + 10] == '/')
    && Captures(c[q + 11..]).Some?
  }

  /** The largest `q` with `lo <= q <= hi` and `m(q)` (LastWhereSpec). */
  function LastWhere(m: int -> bool, lo: int, hi: int): Option<int>
    decreases hi - lo
  {
    if hi < lo then None
    else if m(hi) then Some(hi)
    else LastWhere(m, lo, hi - 1)
  }

  lemma {:induction false} LastWhereSpec(m: int -> bool, lo: int, hi: int)
    ensures LastWhere(m, lo, hi).Some? ==>
      var q := LastWhere(m, lo, hi).value;
      lo <= q <= hi && m(q) && forall q' :: q < q' <= hi ==> !m(q')
    ensures LastWhere(m, lo, hi).None? ==> forall q :: lo <= q <= hi ==> !m(q)
    decreases hi - lo
  {
    if lo <= hi && !m(hi) {
      LastWhereSpec(m, lo, hi - 1);
    }
  }

  /** The greedy `.*`: the largest `q <= hi` that completes a match started at `p`
      (LastHostSpec). */
  function LastHost(c: string, p: int, hi: int): Option<int> {
    LastWhere(q => MatchAt(c, p, q), p + 6, hi)
  }

  lemma LastHostSpec(c: string, p: int, hi: int)
    ensures LastHost(c, p, hi).Some? ==>
      var q := LastHost(c, p, hi).value;
      p + 6 <= q <= hi && MatchAt(c, p, q) && forall q' :: q < q' <= hi ==> !MatchAt(c, p, q')
    ensures LastHost(c, p, hi).None? ==> forall q :: q <= hi ==> !MatchAt(c, p, q)
  {
    var m := q => MatchAt(c, p, q);
    LastWhereSpec(m, p + 6, hi);
    match LastHost(c, p, hi) {
      case Some(r) =>
        forall q' | r < q' <= hi ensures !MatchAt(c, p, q') {
          assert !m(q');
        }
      case None =>
        forall q | p + 6 <= q <= hi ensures !MatchAt(c, p, q) {
          assert !m(q);
        }
    }
  }

  /** The smallest `p` with `lo <= p <= hi` and `m(p)` (FirstWhereSpec). */
  function FirstWhere(m: int -> bool, lo: int, hi: int): Option<int>
    decreases hi - lo
  {
    if hi < lo then None
    else if m(lo) then Some(lo)
    else FirstWhere(m, lo + 1, hi)
  }

  lemma {:induction false} FirstWhereSpec(m: int -> bool, lo: int, hi: int)
    ensures FirstWhere(m, lo, hi).Some? ==>
      var p := FirstWhere(m, lo, hi).value;
      lo <= p <= hi && m(p) && forall p' :: lo <= p' < p ==> !m(p')
    ensures FirstWhere(m, lo, hi).None? ==> forall p :: lo <= p <= hi ==> !m(p)
    decreases hi - lo
  {
    if lo <= hi && !m(lo) {
      FirstWhereSpec(m, lo + 1, hi);
    }
  }

  /** The leftmost start of a match, with the rightmost "github.com" for it
      (FirstMatchSpec). */
  function FirstMatch(c: string): Option<(int, int)> {
    match FirstWhere(p => LastHost(c, p, |c|).Some?, 0, |c|)
    case None => None
    case Some(p) =>
      match LastHost(c, p, |c|)
      case None => None
      case Some(q) => Some((p, q))
  }

  lemma FirstMatchSpec(c: string)
    ensures FirstMatch(c).Some? ==>
      var (p, q) := FirstMatch(c).value;
      && 0 <= p && MatchAt(c, p, q)
      && (forall p', q' :: 0 <= p' < p ==> !MatchAt(c, p', q'))
      && (forall q' :: q < q' ==> !MatchAt(c, p, q'))
    ensures FirstMatch(c).None? ==> forall p, q :: 0 <= p ==> !MatchAt(c, p, q)
  {
    var m := p => LastHost(c, p, |c|).Some?;
    FirstWhereSpec(m, 0, |c|);
    match FirstWhere(m, 0, |c|) {
      case Some(p) =>
        assert m(p);
        LastHostSpec(c, p, |c|);
        forall p', q' | 0 <= p' < p ensures !MatchAt(c, p', q') {
          assert !m(p');
          LastHostSpec(c, p', |c|);
        }
      case None =>
        forall p, q | 0 <= p ensures !MatchAt(c, p, q) {
          if p <= |c| {
            assert !m(p);
            LastHostSpec(c, p, |c|);
          }
        }
    }
  }

  /** The match at (p, q) is the one the regex engine reports: no match starts further
      left, and none with the same start reaches further right. */
  ghost predicate IsFirstMatch(c: string, p: int, q: int) {
    && MatchAt(c, p, q)
    && (forall p', q' :: 0 <= p' < p ==> !MatchAt(c, p', q'))
    && (forall q' :: q < q' ==> !MatchAt(c, p, q'))
  }

  ghost predicate NoMatch(c: string) {
    forall p, q :: !MatchAt(c, p, q)
  }

  /** `gitRepo` on the text of `.git/config`: the captures of the first regex match
      (RepoFromConfigSpec). */
  function RepoFromConfig(c: string): Option<(string, string)> {
    FirstMatchSpec(c);
    match FirstMatch(c)
    case None => None
    case Some((p, q)) => Captures(c[q + 11..])
  }

  /** There is a result exactly when the pattern matches somewhere; it is then the
      captures of the match the regex engine reports, a non-empty owner without '/'
      and a non-empty repository of `[^/\s]` characters. */
  lemma RepoFromConfigSpec(c: string)
    ensures RepoFromConfig(c).None? <==> NoMatch(c)
    ensures RepoFromConfig(c).Some? ==>
      exists p, q :: IsFirstMatch(c, p, q) && RepoFromConfig(c) == Captures(c[q + 11..])
    ensures RepoFromConfig(c).Some? ==>
      var (owner, repo) := RepoFromConfig(c).value;
      && owner != [] && '/' !in owner
      && repo != [] && forall i :: 0 <= i < |repo| ==> RepoChar(repo[i])
  {
    RepoFromConfigNone(c);
    RepoFromConfigFirst(c);
    RepoFromConfigShape(c);
  }

  lemma RepoFromConfigNone(c: string)
    ensures RepoFromConfig(c).None? <==> NoMatch(c)
  {
    FirstMatchSpec(c);
    match FirstMatch(c)
    case None =>
    case Some((p, q)) =>
      assert !NoMatch(c) by { assert MatchAt(c, p, q); }
  }

  lemma RepoFromConfigFirst(c: string)
    ensures RepoFromConfig(c).Some? ==>
      exists p, q :: IsFirstMatch(c, p, q) && RepoFromConfig(c) == Captures(c[q + 11..])
  {
    FirstMatchSpec(c);
    match FirstMatch(c)
    case None =>
    case Some((p, q)) =>
      assert IsFirstMatch(c, p, q);
  }

  lemma RepoFromConfigShape(c: string)
    ensures RepoFromConfig(c).Some? ==>
      var (owner, repo) := RepoFromConfig(c).value;
      && owner != [] && '/' !in owner
      && repo != [] && forall i :: 0 <= i < |repo| ==> RepoChar(repo[i])
  {
    if RepoFromConfig(c).Some? {
      FirstMatchSpec(c);
      var (p, q) := FirstMatch(c).value;
      assert RepoFromConfig(c) == Captures(c[q + 11..]);
      CapturesShape(c[q + 11..]);
    }
  }
}
