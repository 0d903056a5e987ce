/** The pure rules of the GitHub client: reading owner and repository out of a
    repository URL's path, the request headers, and the decisions taken while
    fetching a repository tree (which error to raise, which branch to read,
    which tree entries to keep). The requests themselves are not modelled. */
module GitHub {
  import opened Wrappers
  import opened Seqs
  import opened JsStrings

  /** The owner and name of a repository, as parseRepoUrl returns them. */
  datatype RepoRef = RepoRef(owner: string, repo: string)

  /** One entry of a git tree listing (GitHubFile); `kind` is the entry's
      `type` field as the API sends it ("blob", "tree", "commit", ...). */
  datatype TreeEntry = TreeEntry(
    path: string, mode: string, kind: string, sha: string, size: Option<int>, url: string)

  // ---------------------------------------------------------------------
  // parseRepoUrl

  const GitSuffix: string := ".git"

  /** `pathname.replace(/\.git$/, '')`: one ".git" is removed, and only at the
      very end. */
  function StripGitSuffix(path: string): (r: string)
    ensures EndsWith(path, GitSuffix) ==> r + GitSuffix == path
    ensures !EndsWith(path, GitSuffix) ==> r == path
  {
    if EndsWith(path, GitSuffix) then path[..|path| - |GitSuffix|] else path
  }

  /** `path.split('/').filter(Boolean)`: the non-empty pieces between slashes. */
  function Segments(path: string): (r: seq<string>)
    ensures forall i :: 0 <= i < |r| ==> r[i] != "" && '/' !in r[i]
  {
    Filter(Split(path, '/'), NonEmpty)
  }

  function NonEmpty(w: string): bool { w != "" }

  /** parseRepoUrl, given the pathname of the parsed URL, or None when the URL
      does not parse (the URL constructor throws). */
  function ParseRepoUrl(pathname: Option<string>): (r: Option<RepoRef>)
    ensures pathname.None? ==> r.None?
    ensures pathname.Some? ==> (r.Some? <==> |Segments(StripGitSuffix(pathname.value))| >= 2)
    ensures r.Some? ==> r.value.owner != "" && '/' !in r.value.owner
    ensures r.Some? ==> r.value.repo != "" && '/' !in r.value.repo
  {
    match pathname
    case None => None
    case Some(p) =>
      var parts := Segments(StripGitSuffix(p));
      if |parts| >= 2 then Some(RepoRef(parts[0], parts[1])) else None
  }

  /** `n` slashes in a row. */
  function Slashes(n: nat): (r: string)
    ensures |r| == n && forall i :: 0 <= i < n ==> r[i] == '/'
  {
    seq(n, _ => '/')
  }

  /** Leading slashes contribute no segment. */
  lemma {:induction false} SegmentsSkipSlashes(n: nat, s: string)
    ensures Segments(Slashes(n) + s) == Segments(s)
    decreases n
  {
    if n > 0 {
      var t := Slashes(n) + s;
      assert t[0] == '/';
      assert t[1..] == Slashes(n - 1) + s;
      var parts := Split(t, '/');
      assert parts[0] == "" && parts[1..] == Split(t[1..], '/');
      assert !NonEmpty(parts[0]);
      assert Filter(parts, NonEmpty) == Filter(parts[1..], NonEmpty);
      SegmentsSkipSlashes(n - 1, s);
    } else {
      assert Slashes(n) + s == s;
    }
  }

  /** The segments on both sides of a slash. */
  lemma SegmentsConcat(a: string, b: string)
    ensures Segments(a + "/" + b) == Segments(a) + Segments(b)
  {
    SplitConcat(a, b, '/');
    FilterConcat(Split(a, '/'), Split(b, '/'), NonEmpty);
  }

  /** A non-empty word without a slash is one segment. */
  lemma SegmentsOfWord(w: string)
    requires w != "" && '/' !in w
    ensures Segments(w) == [w]
  {
    SplitNoSeparator(w, '/');
    assert Filter([w], NonEmpty) == [w] + Filter([], NonEmpty);
  }

  /** The pieces of `lead slashes + owner + gap slashes + repo`, whatever
      the number of slashes (at least one between the two names). */
  lemma SegmentsOfOwnerRepo(lead: nat, owner: string, gap: nat, repo: string)
    requires owner != "" && '/' !in owner && repo != "" && '/' !in repo
    requires gap >= 1
    ensures Segments(Slashes(lead) + owner + Slashes(gap) + repo) == [owner, repo]
  {
    var rest := Slashes(gap - 1) + repo;
    assert Slashes(gap) == "/" + Slashes(gap - 1);
    assert Slashes(lead) + owner + Slashes(gap) + repo == Slashes(lead) + (owner + "/" + rest);
    SegmentsSkipSlashes(lead, owner + "/" + rest);
    SegmentsConcat(owner, rest);
    SegmentsSkipSlashes(gap - 1, repo);
    SegmentsOfWord(owner);
    SegmentsOfWord(repo);
  }

  /** Whether `x + w` ends with a suffix no longer than `w` depends on `w` alone. */
  lemma EndsWithAppend(x: string, w: string, suffix: string)
    ensures |w| >= |suffix| ==> (EndsWith(x + w, suffix) <==> EndsWith(w, suffix))
  {
    if |w| >= |suffix| {
      assert (x + w)[|x + w| - |suffix|..] == w[|w| - |suffix|..];
    }
  }

  /** A slash among the last four characters rules ".git" out. */
  lemma SlashBeforeEnd(p: string, i: int)
    ensures 0 <= i < |p| && |p| - 4 <= i && p[i] == '/' ==> !EndsWith(p, GitSuffix)
  {
    if 0 <= i < |p| && |p| - 4 <= i && p[i] == '/' && |p| >= 4 {
      assert p[|p| - 4..][i - (|p| - 4)] == '/';
    }
  }

  /** ".git" holds no slash, so a path ending in a slash-led tail is stripped
      within that tail. */
  lemma StripGitSuffixInTail(prefix: string, tail: string)
    requires tail != "" && tail[0] == '/'
    ensures StripGitSuffix(prefix + tail) == prefix + StripGitSuffix(tail)
    ensures StripGitSuffix(tail) != "" && StripGitSuffix(tail)[0] == '/'
  {
    var p := prefix + tail;
    EndsWithAppend(prefix, tail, GitSuffix);
    assert p[|prefix|] == '/';
    SlashBeforeEnd(p, |prefix|);
    SlashBeforeEnd(tail, 0);
    if EndsWith(tail, GitSuffix) {
      assert p[..|p| - 4] == prefix + tail[..|tail| - 4];
    }
  }

  /** A URL path `/owner/repo` followed by anything that starts with a slash
      (`/tree/main`, `/`, `/pulls/3.git`) names that owner and repository;
      extra, doubled and leading slashes do not matter, and a ".git" further
      right is not stripped from the repository name. */
  lemma ParseRepoUrlWithTail(lead: nat, owner: string, gap: nat, repo: string, tail: string)
    requires owner != "" && '/' !in owner && repo != "" && '/' !in repo
    requires gap >= 1
    requires tail != "" && tail[0] == '/'
    ensures ParseRepoUrl(Some(Slashes(lead) + owner + Slashes(gap) + repo + tail))
         == Some(RepoRef(owner, repo))
  {
    var prefix := Slashes(lead) + owner + Slashes(gap) + repo;
    StripGitSuffixInTail(prefix, tail);
    var t := StripGitSuffix(tail);
    assert prefix + t == prefix + "/" + t[1..];
    SegmentsConcat(prefix, t[1..]);
    SegmentsOfOwnerRepo(lead, owner, gap, repo);
  }

  /** A URL path ending in the repository name, or in the name followed by
      ".git", names that repository; one ".git" is removed. */
  lemma ParseRepoUrlAtEnd(lead: nat, owner: string, gap: nat, repo: string, withGit: bool)
    requires owner != "" && '/' !in owner && repo != "" && '/' !in repo
    requires gap >= 1
    requires !withGit ==> !EndsWith(repo, GitSuffix)
    ensures ParseRepoUrl(Some(Slashes(lead) + owner + Slashes(gap) + repo + (if withGit then GitSuffix else "")))
         == Some(RepoRef(owner, repo))
  {
    var prefix := Slashes(lead) + owner + Slashes(gap) + repo;
    var p := prefix + (if withGit then GitSuffix else "");
    if withGit {
      assert p[|p| - 4..] == GitSuffix;
      assert StripGitSuffix(p) == prefix;
    } else {
      // The name, or the slash before it, keeps ".git" from the end.
      assert p == (Slashes(lead) + owner + Slashes(gap)) + repo;
      EndsWithAppend(Slashes(lead) + owner + Slashes(gap), repo, GitSuffix);
      assert p[|p| - |repo| - 1] == '/';
      SlashBeforeEnd(p, |p| - |repo| - 1);
    }
    SegmentsOfOwnerRepo(lead, owner, gap, repo);
  }

  /** A path with at most one name between its slashes names no repository. */
  lemma ParseRepoUrlSingleName(lead: nat, name: string, trail: nat)
    requires '/' !in name
    ensures ParseRepoUrl(Some(Slashes(lead) + name + Slashes(trail))).None?
  {
    var p := Slashes(lead) + name + Slashes(trail);
    var q := StripGitSuffix(p);
    var w := name;
    if trail > 0 {
      assert p[|p| - 1] == '/';
      assert !EndsWith(p, GitSuffix) by { assert GitSuffix[3] == 't'; }
    } else {
      assert p == Slashes(lead) + name;
      if EndsWith(p, GitSuffix) {
        // ".git" holds no slash, so it lies within `name`.
        assert p[|p| - 4..] == GitSuffix;
        assert p[|p| - 4] == '.';
        assert forall i :: 0 <= i < lead ==> p[i] == '/';
        assert |name| >= 4;
        assert p[|p| - 4..] == name[|name| - 4..];
        w := name[..|name| - 4];
        assert q == Slashes(lead) + w;
      }
    }
    assert '/' !in w by {
      assert forall c :: c in w ==> c in name;
    }
    assert q == Slashes(lead) + (w + Slashes(trail));
    SegmentsSkipSlashes(lead, w + Slashes(trail));
    SegmentsNoMoreThanWord(w, trail);
  }

  lemma SegmentsNoMoreThanWord(w: string, trail: nat)
    requires '/' !in w
    ensures |Segments(w + Slashes(trail))| <= 1
  {
    if trail == 0 {
      assert w + Slashes(trail) == w;
      SplitNoSeparator(w, '/');
      assert Filter([w], NonEmpty) == (if w != "" then [w] else []) + Filter([], NonEmpty);
    } else {
      assert w + Slashes(trail) == w + "/" + Slashes(trail - 1);
      SegmentsConcat(w, Slashes(trail - 1));
      SegmentsSkipSlashes(trail - 1, "");
      assert Slashes(trail - 1) + "" == Slashes(trail - 1);
      assert Segments("") == [];
      SplitNoSeparator(w, '/');
      assert Filter([w], NonEmpty) == (if w != "" then [w] else []) + Filter([], NonEmpty);
    }
  }

  // ---------------------------------------------------------------------
  // getHeaders

  const AcceptMediaType: string := "application/vnd.github.v3+json"

  /** getHeaders: always the v3 Accept header; an Authorization header with the
      trimmed token exactly when a token is given and is not blank. */
  method GetHeaders(token: Option<string>) returns (headers: map<string, string>)
    ensures "Accept" in headers && headers["Accept"] == AcceptMediaType
    ensures "Authorization" in headers <==> token.Some? && !IsBlank(token.value)
    ensures "Authorization" in headers ==> headers["Authorization"] == "Bearer " + Trim(token.value)
    ensures headers.Keys <= {"Accept", "Authorization"}
  {
    headers := map["Accept" := AcceptMediaType];
    if token.Some? && token.value != "" && |Trim(token.value)| > 0 {
      headers := headers["Authorization" := "Bearer " + Trim(token.value)];
    }
    TrimEmptyIffBlank(if token.Some? then token.value else "");
  }

  // ---------------------------------------------------------------------
  // fetchRepoTree: the decisions between the requests

  // Every error message is a title, a colon and a detail; the titles tell
  // the four rules apart.
  const BadCredentialsTitle: string := "Bad Credentials"
  const RateLimitTitle: string := "Rate Limit Exceeded"
  const NotFoundTitle: string := "Repository not found"
  const GenericTitle: string := "GitHub Error"

  const BadCredentialsMessage: string := BadCredentialsTitle + ": The GitHub token is invalid or expired."
  const RateLimitMessage: string := RateLimitTitle + ": Please add a valid GitHub Token in Settings."

  function NotFoundMessage(owner: string, repo: string): string {
    NotFoundTitle + ": " + owner + "/" + repo
  }

  function GenericMessage(detail: string): string {
    GenericTitle + ": " + detail
  }

  /** `errorData.message || repoRes.statusText`: the body's message unless it is
      missing or empty. */
  function ErrorDetail(bodyMessage: Option<string>, statusText: string): (msg: string)
    ensures bodyMessage.Some? && bodyMessage.value != "" ==> msg == bodyMessage.value
    ensures bodyMessage.None? || bodyMessage.value == "" ==> msg == statusText
  {
    if bodyMessage.Some? && bodyMessage.value != "" then bodyMessage.value else statusText
  }

  /** The error fetchRepoTree raises for the repository request, or None when
      the response is ok (status 200 to 299) and the fetch goes on. Each error
      message identifies its rule, so the rules can be told apart by the
      message alone. */
  function RepoResponseError(status: int, bodyMessage: Option<string>, statusText: string,
                             owner: string, repo: string): (e: Option<string>)
    ensures e.None? <==> 200 <= status <= 299
    ensures e == Some(BadCredentialsMessage) <==> status == 401
    ensures e == Some(RateLimitMessage)
        <==> status == 403 && Includes(ErrorDetail(bodyMessage, statusText), "rate limit")
    ensures e == Some(NotFoundMessage(owner, repo)) <==> status == 404
    ensures e == Some(GenericMessage(ErrorDetail(bodyMessage, statusText)))
        <==> !(200 <= status <= 299) && status != 401 && status != 404
             && !(status == 403 && Includes(ErrorDetail(bodyMessage, statusText), "rate limit"))
  {
    var msg := ErrorDetail(bodyMessage, statusText);
    var notFound := NotFoundMessage(owner, repo);
    var generic := GenericMessage(msg);
    assert BadCredentialsMessage[0] == 'B';
    assert RateLimitMessage[0] == 'R' && RateLimitMessage[1] == 'a';
    assert notFound[0] == 'R' && notFound[1] == 'e' && generic[0] == 'G';
    if 200 <= status <= 299 then None
    else if status == 401 then Some(BadCredentialsMessage)
    else if status == 403 && Includes(msg, "rate limit") then Some(RateLimitMessage)
    else if status == 404 then Some(notFound)
    else Some(generic)
  }

  /** `repoData.default_branch || 'main'`: never empty. */
  function DefaultBranch(defaultBranch: Option<string>): (b: string)
    ensures b != ""
    ensures defaultBranch.Some? && defaultBranch.value != "" ==> b == defaultBranch.value
    ensures defaultBranch.None? || defaultBranch.value == "" ==> b == "main"
  {
    if defaultBranch.Some? && defaultBranch.value != "" then defaultBranch.value else "main"
  }

  function IsBlob(e: TreeEntry): bool { e.kind == "blob" }

  /** `treeData.tree.filter(item => item.type === 'blob')`: exactly the blobs,
      each as often as it is listed, in the order of the listing. */
  function Blobs(tree: seq<TreeEntry>): (r: seq<TreeEntry>)
    ensures forall i :: 0 <= i < |r| ==> r[i].kind == "blob" && r[i] in tree
    ensures forall i :: 0 <= i < |tree| && tree[i].kind == "blob" ==> tree[i] in r
    ensures IsSubsequence(r, tree)
    ensures forall e :: multiset(r)[e] == (if e.kind == "blob" then multiset(tree)[e] else 0)
  {
    FilterIsSubsequence(tree, IsBlob);
    FilterCounts(tree, IsBlob);
    Filter(tree, IsBlob)
  }
}
