/**
 * The repository helpers of services/github_repo.py: a summary of a public
 * repository from one REST API call, optionally with its README, and a
 * README-only variant. The link is normalised and taken apart as urlparse
 * does for http and https links. `get` stands for requests.get plus .json(),
 * `decode` for base64 decoding followed by UTF-8 decoding (None when either fails).
 */
module GitHubRepo {
  import opened Wrappers
  import opened Strings
  import opened Values
  import GitHub

  /** The link without surrounding whitespace and trailing slashes, with "https://" put in front
      unless it already starts with "http://" or "https://" (in lower case). */
  function Normalize(link: string): (url: string)
    ensures StartsWith(url, "http://") || StartsWith(url, "https://")
  {
    var url := TrimEnd(Strip(link), Only('/'));
    if StartsWith(url, "http://") || StartsWith(url, "https://") then url
    else
      assert ("https://" + url)[..8] == "https://";
      "https://" + url
  }

  /** What follows "scheme://" in an http or https link. */
  function AfterScheme(url: string): string
    requires StartsWith(url, "http://") || StartsWith(url, "https://")
  {
    if StartsWith(url, "http://") then url[7..] else url[8..]
  }

  /** The network location and the path urlparse finds in an http or https link. */
  datatype Parsed = Parsed(netloc: string, path: string)

  /** The location runs up to the first '/', '?' or '#'; the path from there up to the first
      '?' or '#' (query and fragment), less any ";parameters" of its last segment. */
  function Parse(url: string): Parsed
    requires StartsWith(url, "http://") || StartsWith(url, "https://")
  {
    var rest := AfterScheme(url);
    var e := SkipWhile(rest, 0, NoneOf("/?#"));
    var after := rest[e..];
    Parsed(rest[..e], CutParams(after[..SkipWhile(after, 0, NoneOf("?#"))]))
  }

  /** The path up to the first ';' at or after its last '/' (after the start when there is no '/'). */
  function CutParams(path: string): string {
    var lastSlash := match LastFrom(path, "/", |path|) case None => 0 case Some(i) => i;
    path[..SkipWhile(path, lastSlash, NoneOf(";"))]
  }

  /** The repository name without one ".git" suffix. */
  function StripGit(name: string): string {
    if EndsWith(name, ".git") then name[..|name| - 4] else name
  }

  /** The owner and name a link designates: the first two '/'-separated pieces of the path once
      its outer slashes are removed, on host github.com exactly; None otherwise, that is when the
      host differs or no '/' remains inside the path. Neither piece holds a '/'. */
  function Locate(link: string): (r: Option<GitHub.RepoId>)
    ensures var parsed := Parse(Normalize(link));
      r.Some? <==> parsed.netloc == "github.com" && '/' in Trim(parsed.path, Only('/'))
    ensures r.Some? ==> '/' !in r.value.owner && '/' !in r.value.name
  {
    var parsed := Parse(Normalize(link));
    var parts := Split(Trim(parsed.path, Only('/')), '/');
    SplitSeveral(Trim(parsed.path, Only('/')), '/');
    SplitPiecesFree(Trim(parsed.path, Only('/')), '/');
    if |parts| < 2 || parsed.netloc != "github.com" then None
    else
      var name := StripGit(parts[1]);
      assert forall k :: 0 <= k < |name| ==> name[k] == parts[1][k];
      Some(GitHub.RepoId(parts[0], name))
  }

  function ReadmeUrl(id: GitHub.RepoId): string {
    GitHub.RepoApiUrl(id) + "/readme"
  }

  const ReadmeKeys: set<string> := {"readme_content", "readme_filename"}

  const NoReadme: Dict := map["readme_content" := Null, "readme_filename" := Null]

  /** fetch_readme: the decoded README and its file name when the README endpoint answers 200 with
      a non-empty content that decodes; no README on any other answer or failure. The answer has
      exactly the two README keys, and without a README the file name is None as well; a README
      without a "name" field is called "README". */
  function FetchReadme(id: GitHub.RepoId, get: string -> Result<Response, string>, decode: Value -> Option<string>): (d: Dict)
    ensures d.Keys == ReadmeKeys
    ensures d["readme_content"].Str? <==>
      && get(ReadmeUrl(id)).Ok?
      && get(ReadmeUrl(id)).value.status == 200
      && Truthy(Get(get(ReadmeUrl(id)).value.body, "content", Null))
      && decode(get(ReadmeUrl(id)).value.body["content"]).Some?
    ensures d["readme_content"].Null? ==> d["readme_filename"].Null?
    ensures d["readme_content"].Str? ==>
      var body := get(ReadmeUrl(id)).value.body;
      && d["readme_content"] == Str(decode(body["content"]).value)
      && d["readme_filename"] == Get(body, "name", Str("README"))
    ensures d["readme_content"].Str? && "name" !in get(ReadmeUrl(id)).value.body ==> d["readme_filename"] == Str("README")
  {
    match get(ReadmeUrl(id))
    case Err(_) => NoReadme
    case Ok(resp) =>
      if resp.status != 200 || !Truthy(Get(resp.body, "content", Null)) then NoReadme
      else match decode(resp.body["content"])
        case None => NoReadme
        case Some(text) => map["readme_content" := Str(text), "readme_filename" := Get(resp.body, "name", Str("README"))]
  }

  const RepoKeys: set<string> :=
    {"repo_name", "stars", "forks", "watchers", "language", "last_commit_date", "readme_content", "readme_filename"}

  /** The summary of a blank link. */
  const EmptyRepo: Dict :=
    map["repo_name" := Str(""), "stars" := Int(0), "forks" := Int(0), "watchers" := Int(0), "language" := Str(""),
        "last_commit_date" := Null, "readme_content" := Null, "readme_filename" := Null]

  /** The summary built from the repository object, before any README is merged in. */
  function BaseSummary(repo: Dict): Dict {
    map["repo_name" := Get(repo, "name", Null),
        "stars" := Get(repo, "stargazers_count", Int(0)),
        "forks" := Get(repo, "forks_count", Int(0)),
        "watchers" := Get(repo, "watchers_count", Int(0)),
        "language" := Get(repo, "language", Str("")),
        "last_commit_date" := Get(repo, "pushed_at", Null),
        "readme_content" := Null,
        "readme_filename" := Null]
  }

  /** The summary of a located repository: an error for a failed request and for a status other
      than 200; otherwise the summary, updated with the README when it is asked for. It has either
      the eight summary keys or only "error". */
  function Summarize(id: GitHub.RepoId, includeReadme: bool, get: string -> Result<Response, string>,
                     decode: Value -> Option<string>): (d: Dict)
    ensures d.Keys == RepoKeys || d.Keys == {"error"}
    ensures var r := get(GitHub.RepoApiUrl(id));
      && ("error" in d <==> r.Err? || r.value.status != 200)
      && (r.Err? ==> d == ErrorDict(r.error))
      && (r.Ok? && r.value.status != 200 ==> d == ErrorDict("Repo API returned status " + IntToString(r.value.status)))
  {
    match get(GitHub.RepoApiUrl(id))
    case Err(e) => ErrorDict(e)
    case Ok(resp) =>
      SummaryKeys(resp.body, FetchReadme(id, get, decode));
      if resp.status != 200 then ErrorDict("Repo API returned status " + IntToString(resp.status))
      else if includeReadme then BaseSummary(resp.body) + FetchReadme(id, get, decode)
      else BaseSummary(resp.body)
  }

  /** fetch_repo_info: the defaults for a blank link, an error for a link that does not designate a
      repository on github.com, and the summary of the repository it designates otherwise. The
      result has either the eight summary keys or only "error". */
  function FetchRepoInfo(link: string, includeReadme: bool, get: string -> Result<Response, string>,
                         decode: Value -> Option<string>): (d: Dict)
    ensures GitHub.Blank(link) ==> d == EmptyRepo
    ensures d.Keys == RepoKeys || d.Keys == {"error"}
    ensures !GitHub.Blank(link) && Locate(link).None? ==> d == ErrorDict("Invalid GitHub repo URL")
    ensures !GitHub.Blank(link) && Locate(link).Some? ==>
      var r := get(GitHub.RepoApiUrl(Locate(link).value));
      && ("error" in d <==> r.Err? || r.value.status != 200)
      && (r.Err? ==> d == ErrorDict(r.error))
      && (r.Ok? && r.value.status != 200 ==> d == ErrorDict("Repo API returned status " + IntToString(r.value.status)))
  {
    if GitHub.Blank(link) then EmptyRepo
    else match Locate(link)
      case None => ErrorDict("Invalid GitHub repo URL")
      case Some(id) => Summarize(id, includeReadme, get, decode)
  }

  /** The README fields of a summary, or the summary itself when it is an error. */
  function ReadmeFields(result: Dict): Dict {
    if "error" in result then result
    else map["readme_content" := Get(result, "readme_content", Null),
             "readme_filename" := Get(result, "readme_filename", Null)]
  }

  /** fetch_readme_only: the error of the full summary, or just its two README fields. */
  function FetchReadmeOnly(link: string, get: string -> Result<Response, string>, decode: Value -> Option<string>): (d: Dict)
    ensures d.Keys == ReadmeKeys || d.Keys == {"error"}
  {
    var full := FetchRepoInfo(link, true, get, decode);
    ReadmeFieldsShape(full);
    ReadmeFields(full)
  }

  lemma KeysApart()
    ensures "readme_content" in RepoKeys && "readme_filename" in RepoKeys && "error" !in RepoKeys
    ensures ReadmeKeys <= RepoKeys
  {
  }

  /** The summary has the eight summary keys, with or without a README merged in. */
  lemma SummaryKeys(repo: Dict, readme: Dict)
    requires readme.Keys == ReadmeKeys
    ensures BaseSummary(repo).Keys == RepoKeys
    ensures (BaseSummary(repo) + readme).Keys == RepoKeys
  {
    KeysApart();
  }

  /** With the README asked for, a located repository's summary carries the README answer and the
      repository's own fields; without it, the README fields stay empty. */
  lemma ReadmeMerged(id: GitHub.RepoId, get: string -> Result<Response, string>, decode: Value -> Option<string>, resp: Response)
    requires get(GitHub.RepoApiUrl(id)) == Ok(resp) && resp.status == 200
    ensures var d := Summarize(id, true, get, decode);
      && d["readme_content"] == FetchReadme(id, get, decode)["readme_content"]
      && d["readme_filename"] == FetchReadme(id, get, decode)["readme_filename"]
      && (forall k :: k in RepoKeys - ReadmeKeys ==> d[k] == BaseSummary(resp.body)[k])
    ensures var d := Summarize(id, false, get, decode);
      d["readme_content"] == Null && d["readme_filename"] == Null
  {
    SummaryKeys(resp.body, FetchReadme(id, get, decode));
  }

  /** A located repository's summary requests only the repository and, when asked for, its README. */
  lemma SummarizeRequests(id: GitHub.RepoId, includeReadme: bool, f: string -> Result<Response, string>,
                          g: string -> Result<Response, string>, decode: Value -> Option<string>)
    requires f(GitHub.RepoApiUrl(id)) == g(GitHub.RepoApiUrl(id))
    requires includeReadme ==> f(ReadmeUrl(id)) == g(ReadmeUrl(id))
    ensures Summarize(id, includeReadme, f, decode) == Summarize(id, includeReadme, g, decode)
  {
    if includeReadme {
      assert FetchReadme(id, f, decode) == FetchReadme(id, g, decode);
    }
  }

  /** Only the repository and its README are requested, and the README only when asked for. */
  lemma RequestsOnly(link: string, includeReadme: bool, f: string -> Result<Response, string>,
                     g: string -> Result<Response, string>, decode: Value -> Option<string>)
    requires forall id :: Locate(link) == Some(id) ==>
      f(GitHub.RepoApiUrl(id)) == g(GitHub.RepoApiUrl(id)) && (includeReadme ==> f(ReadmeUrl(id)) == g(ReadmeUrl(id)))
    ensures FetchRepoInfo(link, includeReadme, f, decode) == FetchRepoInfo(link, includeReadme, g, decode)
  {
    if !GitHub.Blank(link) {
      match Locate(link)
      case None =>
      case Some(id) =>
        SummarizeRequests(id, includeReadme, f, g, decode);
    }
  }

  /** The README fields of a summary with the eight summary keys, or the error itself. */
  lemma ReadmeFieldsShape(result: Dict)
    requires result.Keys == RepoKeys || result.Keys == {"error"}
    ensures "error" in result ==> ReadmeFields(result) == result
    ensures "error" !in result ==>
      && ReadmeFields(result).Keys == ReadmeKeys
      && ReadmeFields(result)["readme_content"] == result["readme_content"]
      && ReadmeFields(result)["readme_filename"] == result["readme_filename"]
  {
    KeysApart();
  }

  /** The README-only answer passes an error through unchanged and is otherwise exactly the two
      README fields of the full summary. */
  lemma ReadmeOnlyShape(link: string, get: string -> Result<Response, string>, decode: Value -> Option<string>)
    ensures var full := FetchRepoInfo(link, true, get, decode);
      var d := FetchReadmeOnly(link, get, decode);
      && ("error" in full ==> d == full)
      && ("error" !in full ==>
            d.Keys == ReadmeKeys && d["readme_content"] == Get(full, "readme_content", Null) && d["readme_filename"] == Get(full, "readme_filename", Null))
  {
    ReadmeFieldsShape(FetchRepoInfo(link, true, get, decode));
  }

  /** The README fields of a located repository's summary are the README answer. */
  lemma SummaryReadme(id: GitHub.RepoId, get: string -> Result<Response, string>, decode: Value -> Option<string>, resp: Response)
    requires get(GitHub.RepoApiUrl(id)) == Ok(resp) && resp.status == 200
    ensures ReadmeFields(Summarize(id, true, get, decode)) == FetchReadme(id, get, decode)
  {
    var d := Summarize(id, true, get, decode);
    var readme := FetchReadme(id, get, decode);
    ReadmeMerged(id, get, decode, resp);
    SummaryKeys(resp.body, readme);
    KeysApart();
    assert "error" !in d;
  }

  /** The README-only answer is nothing for a blank link, and the README answer once the
      repository itself was found. */
  lemma ReadmeOnlyFound(link: string, get: string -> Result<Response, string>, decode: Value -> Option<string>, id: GitHub.RepoId, resp: Response)
    ensures GitHub.Blank(link) ==> FetchReadmeOnly(link, get, decode) == NoReadme
    ensures !GitHub.Blank(link) && Locate(link) == Some(id) && get(GitHub.RepoApiUrl(id)) == Ok(resp) && resp.status == 200 ==>
      FetchReadmeOnly(link, get, decode) == FetchReadme(id, get, decode)
  {
    if !GitHub.Blank(link) && Locate(link) == Some(id) && get(GitHub.RepoApiUrl(id)) == Ok(resp) && resp.status == 200 {
      SummaryReadme(id, get, decode, resp);
    }
  }

  /** One ".git" suffix is removed, and a name without it is kept. */
  lemma StripGitOnce(name: string)
    ensures StripGit(name + ".git") == name
    ensures StripGit(name + ".git.git") == name + ".git"
    ensures !EndsWith(name, ".git") ==> StripGit(name) == name
  {
    assert (name + ".git")[..|name|] == name;
    assert (name + ".git.git")[|name + ".git.git"| - 4..] == ".git";
    assert (name + ".git.git")[..|name| + 4] == name + ".git";
  }

  /** A character of a host, account or repository name. */
  predicate IsNameChar(c: char) {
    'a' <= c <= 'z' || 'A' <= c <= 'Z' || IsDigit(c) || c == '-' || c == '_' || c == '.'
  }

  predicate IsName(s: string) {
    s != [] && forall k :: 0 <= k < |s| ==> IsNameChar(s[k])
  }

  /** Text without a ':' has no scheme. */
  lemma NoColonNoScheme(s: string)
    requires ':' !in s
    ensures !StartsWith(s, "http://") && !StartsWith(s, "https://")
  {
    if |s| >= 7 {
      assert s[..7][4] == s[4] && s[4] in s;
    }
    if |s| >= 8 {
      assert s[..8][5] == s[5] && s[5] in s;
    }
  }

  /** Stripping a link made of names removes only its trailing slash. */
  lemma LinkTrimmed(p: string, core: string, tail: string)
    requires p == "" || p == "http://" || p == "https://"
    requires core != [] && IsNameChar(core[0]) && IsNameChar(core[|core| - 1])
    requires tail == "" || tail == "/"
    ensures TrimEnd(Strip(p + core + tail), Only('/')) == p + core
  {
    var link := p + core + tail;
    assert link[0] == (if p == "" then core[0] else 'h');
    assert link[|link| - 1] == (if tail == "" then core[|core| - 1] else '/');
    TrimFramed([], link, [], Whitespace);
    assert [] + link + [] == link;
    TrimEndSuffix(p + core, tail, Only('/'));
  }

  /** Normalising a link made of names: only a missing scheme changes, and the trailing slash goes. */
  lemma NormalizeLink(p: string, core: string, tail: string)
    requires p == "" || p == "http://" || p == "https://"
    requires core != [] && IsNameChar(core[0]) && IsNameChar(core[|core| - 1]) && ':' !in core
    requires tail == "" || tail == "/"
    ensures Normalize(p + core + tail) == (if p == "" then "https://" else p) + core
  {
    LinkTrimmed(p, core, tail);
    if p == "" {
      NoColonNoScheme(core);
      assert p + core == core;
    } else {
      assert (p + core)[..|p|] == p;
    }
  }

  /** urlparse takes apart a link whose host holds no delimiter and whose path no query,
      fragment or parameters. */
  lemma ParseLink(q: string, host: string, path: string)
    requires q == "http://" || q == "https://"
    requires forall k :: 0 <= k < |host| ==> host[k] !in "/?#"
    requires path != [] && path[0] == '/' && forall k :: 0 <= k < |path| ==> path[k] !in "?#;"
    ensures StartsWith(q + host + path, "http://") || StartsWith(q + host + path, "https://")
    ensures Parse(q + host + path) == Parsed(host, path)
  {
    var url := q + host + path;
    assert url[..|q|] == q;
    if q == "https://" {
      assert !StartsWith(url, "http://") by {
        assert url[4] == 's';
      }
    }
    var rest := AfterScheme(url);
    assert rest == host + path;
    SkipWhileOverRun(rest, 0, |host|, NoneOf("/?#"));
    assert rest[|host|..] == path;
    SkipWhileOverRun(path, 0, |path|, NoneOf("?#"));
    assert path[..|path|] == path;
    var lastSlash := match LastFrom(path, "/", |path|) case None => 0 case Some(i) => i;
    SkipWhileOverRun(path, lastSlash, |path|, NoneOf(";"));
  }

  /** The owner and repository are read from a path "/owner/name". */
  lemma RepoIdOfPath(owner: string, name: string)
    requires IsName(owner) && IsName(name)
    ensures var parts := Split(Trim("/" + owner + "/" + name, Only('/')), '/');
      |parts| >= 2 && parts[0] == owner && parts[1] == name
  {
    assert IsNameChar(owner[0]) && IsNameChar(name[|name| - 1]);
    var inner := owner + "/" + name;
    assert inner[0] == owner[0] && inner[|inner| - 1] == name[|name| - 1];
    TrimFramed("/", inner, [], Only('/'));
    assert "/" + inner + [] == "/" + owner + "/" + name;
    assert '/' !in owner && '/' !in name by {
      forall k | 0 <= k < |owner| ensures owner[k] != '/' { assert IsNameChar(owner[k]); }
      forall k | 0 <= k < |name| ensures name[k] != '/' { assert IsNameChar(name[k]); }
    }
    assert Join([owner, name], "/") == inner by {
      assert [owner, name][1..] == [name];
    }
    SplitJoin([owner, name], '/');
  }

  /** Normalising a link made of names keeps or adds the scheme and drops the trailing slash. */
  lemma NormalizeOfLink(p: string, host: string, owner: string, name: string, tail: string)
    requires p == "" || p == "http://" || p == "https://"
    requires IsName(host) && IsName(owner) && IsName(name)
    requires tail == "" || tail == "/"
    ensures Normalize(p + host + "/" + owner + "/" + name + tail)
      == (if p == "" then "https://" else p) + (host + ("/" + owner + "/" + name))
  {
    var path := "/" + owner + "/" + name;
    var core := host + path;
    assert p + host + "/" + owner + "/" + name + tail == p + core + tail;
    assert core[0] == host[0] && IsNameChar(host[0]);
    assert core[|core| - 1] == path[|path| - 1];
    NormalizeLink(p, core, tail);
  }

  /** urlparse finds the host and the path "/owner/name" in a normalised link made of names. */
  lemma ParseOfLink(q: string, host: string, owner: string, name: string)
    requires q == "http://" || q == "https://"
    requires IsName(host) && IsName(owner) && IsName(name)
    ensures StartsWith(q + (host + ("/" + owner + "/" + name)), "http://") || StartsWith(q + (host + ("/" + owner + "/" + name)), "https://")
    ensures Parse(q + (host + ("/" + owner + "/" + name))) == Parsed(host, "/" + owner + "/" + name)
  {
    var path := "/" + owner + "/" + name;
    assert q + (host + path) == q + host + path;
    ParseLink(q, host, path);
  }

  /** The usual repository links, with or without a scheme, a ".git" suffix or a trailing slash,
      designate their owner and repository; on any other host they designate none. */
  lemma LocateLink(p: string, host: string, owner: string, name: string, tail: string)
    requires p == "" || p == "http://" || p == "https://"
    requires IsName(host) && IsName(owner) && IsName(name)
    requires tail == "" || tail == "/"
    ensures Locate(p + host + "/" + owner + "/" + name + tail)
      == if host == "github.com" then Some(GitHub.RepoId(owner, StripGit(name))) else None
  {
    NormalizeOfLink(p, host, owner, name, tail);
    ParseOfLink(if p == "" then "https://" else p, host, owner, name);
    RepoIdOfPath(owner, name);
  }
}
