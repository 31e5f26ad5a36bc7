/**
 * The GitHub helpers of services/github.py: a profile scraper that reads a
 * user's public page, and a repository summary built from two REST API
 * calls. The HTTP requests and the HTML parsing are parameters: `fetch`
 * stands for requests.get plus BeautifulSoup's selectors on the profile page,
 * `get` for requests.get plus .json() on the API.
 */
module GitHub {
  import opened Wrappers
  import opened Strings
  import opened Values

  /** Empty or whitespace-only input, which both helpers answer with a record of defaults. */
  predicate Blank(s: string) {
    Strip(s) == ""
  }

  /** The marker that tells a profile link from a bare account name. */
  const Marker: string := "github.com/"

  /** All characters of the marker differ, so two of its occurrences never overlap. */
  lemma MarkerOverlapFree()
    ensures SelfOverlapFree(Marker)
  {
    forall d | 0 < d < |Marker| ensures Marker[d..] != Marker[..|Marker| - d] {
      assert Marker[d..][0] == Marker[d] != 'g' == Marker[..|Marker| - d][0];
    }
  }

  /** A character GitHub allows in an account name. */
  predicate IsLoginChar(c: char) {
    'a' <= c <= 'z' || 'A' <= c <= 'Z' || IsDigit(c) || c == '-'
  }

  predicate IsLogin(u: string) {
    u != [] && forall k :: 0 <= k < |u| ==> IsLoginChar(u[k])
  }

  /** The account a profile link or a bare name designates: with "github.com/" anywhere in the
      input, the last piece of the stripped input split at "github.com/", without surrounding
      slashes; otherwise the stripped input itself. Either way it holds no "github.com/", and
      the name taken from a link has no slash at either end. */
  function Username(input: string): (u: string)
    ensures !Contains(u, Marker)
    ensures Contains(input, Marker) ==> u == [] || (u[0] != '/' && u[|u| - 1] != '/')
  {
    if Contains(input, Marker) then
      var parts := SplitOn(Strip(input), Marker);
      SplitOnLastFree(Strip(input), Marker);
      TrimFree(parts[|parts| - 1], Marker, Only('/'));
      TrimEnds(parts[|parts| - 1], '/');
      Trim(parts[|parts| - 1], Only('/'))
    else
      TrimFree(input, Marker, Whitespace);
      Strip(input)
  }

  /** The last piece of the split is the text after the last "github.com/", because the marker
      cannot overlap itself. */
  lemma UsernameAfterLast(input: string)
    requires Contains(input, Marker)
    ensures Username(input) == Trim(AfterLast(Strip(input), Marker), Only('/'))
  {
    MarkerOverlapFree();
    SplitOnLast(Strip(input), Marker);
  }

  /** The profile page address of an account. */
  function ProfileUrl(username: string): string {
    "https://github.com/" + username
  }

  /** What the parsed profile page shows: the text of span.p-name, of div.p-note, and of the
      follower and repository counters; None where the selector finds no element. */
  datatype Page = Page(name: Option<string>, bio: Option<string>, followers: Option<string>, repoCount: Option<string>)

  /** A text field: the element's stripped text, or "" without an element. */
  function TextOrEmpty(element: Option<string>): Value {
    match element
    case None => Str("")
    case Some(t) => Str(Strip(t))
  }

  /** A counter element whose stripped text is all digits and longer than int() converts. */
  predicate Overlong(element: Option<string>) {
    element.Some? && var t := Strip(element.value); t != [] && AllDigits(t) && |t| > MaxStrDigits
  }

  /** A counter: its stripped text read as an integer when it is all digits, otherwise 0; the
      ValueError of int() on an overlong digit string is the error. */
  function CountOrZero(element: Option<string>): (r: Result<Value, string>)
    ensures r.Err? <==> Overlong(element)
    ensures r.Ok? ==> r.value.Int?
  {
    match element
    case None => Ok(Int(0))
    case Some(t) =>
      match DigitsOrZero(Strip(t))
      case Err(e) => Err(e)
      case Ok(n) => Ok(Int(n))
  }

  const ProfileKeys: set<string> := {"username", "name", "bio", "followers", "repo_count"}

  /** The profile of a blank input. */
  const EmptyProfile: Dict :=
    map["username" := Str(""), "name" := Str(""), "bio" := Str(""), "followers" := Int(0), "repo_count" := Int(0)]

  /** fetch_github_profile: the defaults for a blank input; otherwise the page of the designated
      account, or the error raised while requesting or parsing it. The result has either the five
      profile keys or only "error", the latter exactly when the request for the profile page
      failed or when int() refused a counter, and a profile names the account the input designates. */
  function FetchGitHubProfile(input: string, fetch: string -> Result<Page, string>): (d: Dict)
    ensures Blank(input) ==> d == EmptyProfile
    ensures d.Keys == ProfileKeys || d.Keys == {"error"}
    ensures "error" in d <==>
      (!Blank(input) &&
       var r := fetch(ProfileUrl(Username(input)));
       r.Err? || Overlong(r.value.followers) || Overlong(r.value.repoCount))
    ensures !Blank(input) && "error" !in d ==> d["username"] == Str(Username(input))
  {
    if Blank(input) then EmptyProfile
    else
      var username := Username(input);
      match fetch(ProfileUrl(username))
      case Err(e) => ErrorDict(e)
      case Ok(page) => ProfileOf(username, page)
  }

  /** The dict built from a fetched page, or the error int() raised on one of its counters,
      followers first as the dict literal evaluates them. */
  function ProfileOf(username: string, page: Page): (d: Dict)
    ensures d.Keys == ProfileKeys || d.Keys == {"error"}
    ensures "error" in d <==> Overlong(page.followers) || Overlong(page.repoCount)
    ensures "error" !in d ==> d["username"] == Str(username)
  {
    match CountOrZero(page.followers)
    case Err(e) => ErrorDict(e)
    case Ok(followers) =>
      match CountOrZero(page.repoCount)
      case Err(e) => ErrorDict(e)
      case Ok(repoCount) =>
        map["username" := Str(username), "name" := TextOrEmpty(page.name), "bio" := TextOrEmpty(page.bio),
            "followers" := followers, "repo_count" := repoCount]
  }

  /** Only the profile page of the designated account is requested. */
  lemma ProfileFetchedOnce(input: string, f: string -> Result<Page, string>, g: string -> Result<Page, string>)
    requires f(ProfileUrl(Username(input))) == g(ProfileUrl(Username(input)))
    ensures FetchGitHubProfile(input, f) == FetchGitHubProfile(input, g)
  {
  }

  /** The counters are read as int() reads them: a number written in decimal, with any surrounding
      whitespace, gives that number when it has at most 4300 digits and the ValueError of int()
      (followers first, as the dict literal evaluates them) when it has more, and a missing element
      gives 0. */
  lemma ProfileCounts(input: string, fetch: string -> Result<Page, string>, page: Page, pre: string, n: nat, post: string)
    requires !Blank(input) && fetch(ProfileUrl(Username(input))) == Ok(page)
    requires forall k :: 0 <= k < |pre| ==> IsSpace(pre[k])
    requires forall k :: 0 <= k < |post| ==> IsSpace(post[k])
    ensures var d := FetchGitHubProfile(input, fetch);
      var counter := Some(pre + NatToString(n) + post);
      && (page.followers == counter || page.repoCount == counter ==>
            (Overlong(counter) <==> |NatToString(n)| > MaxStrDigits))
      && (page.followers == counter && |NatToString(n)| > MaxStrDigits ==>
            d == ErrorDict(IntLimitMessage(|NatToString(n)|)))
      && (!Overlong(page.followers) && !Overlong(page.repoCount) ==>
            && d["username"] == Str(Username(input))
            && (page.followers == counter ==> d["followers"] == Int(n))
            && (page.repoCount == counter ==> d["repo_count"] == Int(n))
            && (page.followers.None? ==> d["followers"] == Int(0))
            && (page.repoCount.None? ==> d["repo_count"] == Int(0)))
  {
    assert FetchGitHubProfile(input, fetch) == ProfileOf(Username(input), page);
    PageCounts(Username(input), page, pre, n, post);
  }

  /** The counters of one fetched page, as ProfileCounts states them. */
  lemma PageCounts(username: string, page: Page, pre: string, n: nat, post: string)
    requires forall k :: 0 <= k < |pre| ==> IsSpace(pre[k])
    requires forall k :: 0 <= k < |post| ==> IsSpace(post[k])
    ensures var d := ProfileOf(username, page);
      var counter := Some(pre + NatToString(n) + post);
      && (page.followers == counter || page.repoCount == counter ==>
            (Overlong(counter) <==> |NatToString(n)| > MaxStrDigits))
      && (page.followers == counter && |NatToString(n)| > MaxStrDigits ==>
            d == ErrorDict(IntLimitMessage(|NatToString(n)|)))
      && (!Overlong(page.followers) && !Overlong(page.repoCount) ==>
            && d["username"] == Str(username)
            && (page.followers == counter ==> d["followers"] == Int(n))
            && (page.repoCount == counter ==> d["repo_count"] == Int(n))
            && (page.followers.None? ==> d["followers"] == Int(0))
            && (page.repoCount.None? ==> d["repo_count"] == Int(0)))
  {
    CounterRead(pre, n, post);
  }

  /** int() on a counter written as a decimal number between whitespace. */
  lemma CounterRead(pre: string, n: nat, post: string)
    requires forall k :: 0 <= k < |pre| ==> IsSpace(pre[k])
    requires forall k :: 0 <= k < |post| ==> IsSpace(post[k])
    ensures var digits := NatToString(n);
      var counter := Some(pre + digits + post);
      && (Overlong(counter) <==> |digits| > MaxStrDigits)
      && (|digits| <= MaxStrDigits ==> CountOrZero(counter) == Ok(Int(n)))
      && (|digits| > MaxStrDigits ==> CountOrZero(counter) == Err(IntLimitMessage(|digits|)))
  {
    var digits := NatToString(n);
    assert !IsSpace(digits[0]) && !IsSpace(digits[|digits| - 1]);
    TrimFramed(pre, digits, post, Whitespace);
    assert Strip(pre + digits + post) == digits;
    DigitsOrZeroReads(n, digits);
  }

  /** The characters that can follow the '.' of a marker at i: none of them is another '.'. */
  lemma NoDotAfterMarker(p: string, u: string, tail: string, k: nat)
    requires IsLogin(u) && (tail == "" || tail == "/")
    requires |p| + 6 < k < |p + Marker + u + tail|
    ensures (p + Marker + u + tail)[k] != '.'
  {
    var s := p + Marker + u + tail;
    if k < |p| + |Marker| {
      assert s[k] == Marker[k - |p|];
    } else if k < |p| + |Marker| + |u| {
      assert s[k] == u[k - |p| - |Marker|];
    } else {
      assert s[k] == tail[k - |p| - |Marker| - |u|];
    }
  }

  /** No marker starts after the one before the account name: it would need a '.' inside the name. */
  lemma NoMarkerAfter(p: string, u: string, tail: string, j: nat)
    requires IsLogin(u) && (tail == "" || tail == "/")
    ensures |p| < j ==> !OccursAt(p + Marker + u + tail, Marker, j)
  {
    var s := p + Marker + u + tail;
    if |p| < j && j + |Marker| <= |s| {
      NoDotAfterMarker(p, u, tail, j + 6);
      assert s[j..j + |Marker|][6] == s[j + 6] != Marker[6];
    }
  }

  /** In a profile link the last marker is the one before the account name, since the name
      holds no '.' and the marker does. */
  lemma LastMarker(p: string, u: string, tail: string)
    requires IsLogin(u) && (tail == "" || tail == "/")
    ensures LastFrom(p + Marker + u + tail, Marker, |p + Marker + u + tail|) == Some(|p|)
  {
    var s := p + Marker + u + tail;
    assert s == p + Marker + (u + tail);
    OccursInside(p, Marker, u + tail);
    LastFromAtLeast(s, Marker, |s|, |p|);
    NoMarkerAfter(p, u, tail, LastFrom(s, Marker, |s|).value);
  }

  /** A profile link of this form is left as it is by str.strip(). */
  lemma ProfileUrlStripped(p: string, u: string, tail: string)
    requires IsLogin(u) && (tail == "" || tail == "/")
    requires p == [] || !IsSpace(p[0])
    ensures Strip(p + Marker + u + tail) == p + Marker + u + tail
  {
    var s := p + Marker + u + tail;
    assert s[0] == (if p == [] then 'g' else p[0]);
    assert s[|s| - 1] == (if tail == "" then u[|u| - 1] else '/');
    assert IsLoginChar(u[|u| - 1]);
    TrimFramed([], s, [], Whitespace);
    assert [] + s + [] == s;
  }

  /** In a profile link, the stripped text after the last marker is the name and its tail. */
  lemma ProfileLinkTail(p: string, u: string, tail: string)
    requires IsLogin(u) && (tail == "" || tail == "/")
    requires p == [] || !IsSpace(p[0])
    ensures AfterLast(Strip(p + Marker + u + tail), Marker) == u + tail
  {
    ProfileUrlStripped(p, u, tail);
    LastMarker(p, u, tail);
  }

  /** Stripping slashes from a name with or without a trailing slash gives the name. */
  lemma LoginTrimmed(u: string, tail: string)
    requires IsLogin(u) && (tail == "" || tail == "/")
    ensures Trim(u + tail, Only('/')) == u
  {
    assert u[0] != '/' && u[|u| - 1] != '/' by {
      assert IsLoginChar(u[0]) && IsLoginChar(u[|u| - 1]);
    }
    TrimFramed([], u, tail, Only('/'));
    assert [] + u + tail == u + tail;
  }

  /** The account name is read back from its profile link, with or without a trailing slash,
      after any scheme or prefix. */
  lemma UsernameOfProfileUrl(p: string, u: string, tail: string)
    requires IsLogin(u) && (tail == "" || tail == "/")
    requires p == [] || !IsSpace(p[0])
    ensures Username(p + Marker + u + tail) == u
  {
    var s := p + Marker + u + tail;
    assert Contains(s, Marker) by {
      assert s == p + Marker + (u + tail);
      OccursInside(p, Marker, u + tail);
      ContainsMeans(s, Marker);
    }
    UsernameAfterLast(s);
    ProfileLinkTail(p, u, tail);
    LoginTrimmed(u, tail);
  }

  /** The repository a repo link names. */
  datatype RepoId = RepoId(owner: string, name: string)

  /** The last two '/'-separated pieces of the link once its leading and trailing slashes are
      removed; None when there are fewer than two, that is exactly when no '/' remains inside.
      Neither piece holds a '/'. */
  function RepoPath(url: string): (r: Option<RepoId>)
    ensures r.Some? <==> '/' in Trim(url, Only('/'))
    ensures r.Some? ==> '/' !in r.value.owner && '/' !in r.value.name
  {
    var parts := Split(Trim(url, Only('/')), '/');
    SplitSeveral(Trim(url, Only('/')), '/');
    SplitPiecesFree(Trim(url, Only('/')), '/');
    if |parts| < 2 then None else Some(RepoId(parts[|parts| - 2], parts[|parts| - 1]))
  }

  function RepoApiUrl(id: RepoId): string {
    "https://api.github.com/repos/" + id.owner + "/" + id.name
  }

  /** The first page of up to 100 commits of a repository. */
  function CommitsApiUrl(id: RepoId): string {
    RepoApiUrl(id) + "/commits?per_page=100"
  }

  const RepoKeys: set<string> :=
    {"repo_name", "stars", "forks", "watchers", "language", "commit_count", "last_commit_date"}

  /** The summary of a blank input. */
  const EmptyRepo: Dict :=
    map["repo_name" := Str(""), "stars" := Int(0), "forks" := Int(0), "watchers" := Int(0),
        "language" := Str(""), "commit_count" := Int(0), "last_commit_date" := Null]

  /** The committer date of the newest listed commit, None without commits; looking it up may
      fail (an element without that field). */
  function LastCommitDate(commits: seq<Result<Value, string>>): Result<Value, string> {
    if commits == [] then Ok(Null) else commits[0]
  }

  /** The summary built from the repository object, the number of listed commits and the date. */
  function RepoSummary(repo: Dict, commitCount: nat, date: Value): Dict {
    map["repo_name" := Get(repo, "name", Null),
        "stars" := Get(repo, "stargazers_count", Int(0)),
        "forks" := Get(repo, "forks_count", Int(0)),
        "watchers" := Get(repo, "watchers_count", Int(0)),
        "language" := Get(repo, "language", Str("")),
        "commit_count" := Int(commitCount),
        "last_commit_date" := date]
  }

  /** fetch_repo_info: both requests are made before either status code is examined; a failed
      request comes before a bad status, and the repository's status before the commits'. The
      result has either the seven summary keys or only "error"; a link that names no repository
      gives the invalid-URL error without any request. */
  function FetchRepoInfo(url: string, get: string -> Result<Response, string>): (d: Dict)
    ensures Blank(url) ==> d == EmptyRepo
    ensures d.Keys == RepoKeys || d.Keys == {"error"}
    ensures !Blank(url) && RepoPath(url).None? ==> d == ErrorDict("Invalid GitHub repo URL")
    ensures !Blank(url) && RepoPath(url).Some? ==>
      var repo := get(RepoApiUrl(RepoPath(url).value));
      var commits := get(CommitsApiUrl(RepoPath(url).value));
      && (repo.Err? ==> d == ErrorDict(repo.error))
      && (repo.Ok? && commits.Err? ==> d == ErrorDict(commits.error))
  {
    if Blank(url) then EmptyRepo
    else match RepoPath(url)
      case None => ErrorDict("Invalid GitHub repo URL")
      case Some(id) =>
        match get(RepoApiUrl(id))
        case Err(e) => ErrorDict(e)
        case Ok(repoResp) =>
          match get(CommitsApiUrl(id))
          case Err(e) => ErrorDict(e)
          case Ok(commitsResp) =>
            if repoResp.status != 200 then
              ErrorDict("Repo API returned status " + IntToString(repoResp.status))
            else if commitsResp.status != 200 then
              ErrorDict("Commits API returned status " + IntToString(commitsResp.status))
            else match LastCommitDate(commitsResp.items)
              case Err(e) => ErrorDict(e)
              case Ok(date) => RepoSummary(repoResp.body, |commitsResp.items|, date)
  }

  /** Only the repository and its commit list are requested. */
  lemma RepoRequestsOnly(url: string, f: string -> Result<Response, string>, g: string -> Result<Response, string>)
    requires forall id :: RepoPath(url) == Some(id) ==> f(RepoApiUrl(id)) == g(RepoApiUrl(id)) && f(CommitsApiUrl(id)) == g(CommitsApiUrl(id))
    ensures FetchRepoInfo(url, f) == FetchRepoInfo(url, g)
  {
  }

  /** Once both requests succeed: a bad repository status is reported whatever the commits'
      status, a bad commits status next; with both 200 the summary counts the listed commits and
      dates the newest, no date without commits. */
  lemma RepoStatusesAndCommits(url: string, get: string -> Result<Response, string>, id: RepoId, repo: Response, commits: Response)
    requires !Blank(url) && RepoPath(url) == Some(id)
    requires get(RepoApiUrl(id)) == Ok(repo) && get(CommitsApiUrl(id)) == Ok(commits)
    ensures var d := FetchRepoInfo(url, get);
      && (repo.status != 200 ==> d == ErrorDict("Repo API returned status " + IntToString(repo.status)))
      && (repo.status == 200 && commits.status != 200 ==>
            d == ErrorDict("Commits API returned status " + IntToString(commits.status)))
      && (repo.status == 200 && commits.status == 200 ==>
            && ("error" !in d <==> commits.items == [] || commits.items[0].Ok?)
            && ("error" !in d ==> d["commit_count"] == Int(|commits.items|))
            && (commits.items == [] ==> d["last_commit_date"] == Null)
            && (commits.items != [] && commits.items[0].Ok? ==> d["last_commit_date"] == commits.items[0].value))
  {
  }

  /** Slashes around a join whose first and last pieces neither start nor end with '/' come off. */
  lemma {:induction false} JoinTrimmed(parts: seq<string>, tail: string)
    requires |parts| >= 1 && parts[0] != [] && parts[|parts| - 1] != []
    requires '/' !in parts[0] && '/' !in parts[|parts| - 1]
    requires tail == "" || tail == "/"
    ensures Trim(Join(parts, "/") + tail, Only('/')) == Join(parts, "/")
  {
    var s := Join(parts, "/");
    var first, last := parts[0], parts[|parts| - 1];
    JoinEnds(parts, "/");
    assert s[0] == s[..|first|][0] == first[0] && first[0] in first;
    assert s[|s| - 1] == s[|s| - |last|..][|last| - 1] == last[|last| - 1] && last[|last| - 1] in last;
    TrimFramed([], s, tail, Only('/'));
    assert [] + s + tail == s + tail;
  }

  /** The pieces of a repo link written as pieces joined by '/', the owner and name last, with or
      without a trailing slash. */
  lemma RepoPathOfJoin(pre: seq<string>, id: RepoId, tail: string)
    requires pre != [] && pre[0] != [] && id.name != []
    requires forall k :: 0 <= k < |pre| ==> '/' !in pre[k]
    requires '/' !in id.owner && '/' !in id.name
    requires tail == "" || tail == "/"
    ensures RepoPath(Join(pre + [id.owner, id.name], "/") + tail) == Some(id)
  {
    var parts := pre + [id.owner, id.name];
    JoinTrimmed(parts, tail);
    SplitJoin(parts, '/');
  }

  /** Five pieces joined by '/'. */
  lemma JoinFive(a: string, b: string, c: string, d: string, e: string)
    ensures Join([a, b, c, d, e], "/") == a + "/" + b + "/" + c + "/" + d + "/" + e
  {
    var parts := [a, b, c, d, e];
    assert Join(parts[3..], "/") == d + "/" + e by {
      assert parts[3..][1..] == [e];
    }
    assert Join(parts[2..], "/") == c + "/" + Join(parts[3..], "/") by {
      assert parts[2..][1..] == parts[3..];
    }
    assert Join(parts[1..], "/") == b + "/" + Join(parts[2..], "/") by {
      assert parts[1..][1..] == parts[2..];
    }
  }

  /** The pieces of the usual repo link, joined by '/'. */
  lemma LinkJoin(owner: string, name: string)
    ensures Join(["https:", "", "github.com", owner, name], "/") == "https://github.com/" + owner + "/" + name
  {
    JoinFive("https:", "", "github.com", owner, name);
    assert "https:" + "/" + "" + "/" + "github.com" + "/" == "https://github.com/";
  }

  /** The usual repo link names its owner and repository. */
  lemma RepoPathOfLink(id: RepoId, tail: string)
    requires IsLogin(id.owner) && id.name != [] && '/' !in id.name
    requires tail == "" || tail == "/"
    ensures RepoPath("https://github.com/" + id.owner + "/" + id.name + tail) == Some(id)
  {
    var pre := ["https:", "", "github.com"];
    forall k | 0 <= k < |id.owner|
      ensures id.owner[k] != '/'
    {
      assert IsLoginChar(id.owner[k]);
    }
    RepoPathOfJoin(pre, id, tail);
    assert pre + [id.owner, id.name] == ["https:", "", "github.com", id.owner, id.name];
    LinkJoin(id.owner, id.name);
  }
}
