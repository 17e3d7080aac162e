/**
 * The GitHub API client: the error mapping of `api_request`, the synthetic
 * release `get_latest_release` builds from the default branch, the choice
 * of a download URL in `get_download_url`, the ZIP check of `is_valid_zip`
 * and the header, redirect and acceptance decisions of `download_file`.
 *
 * HTTP answers, decoded JSON records and the state of the downloaded file
 * are inputs; no request is made here.
 */
module GithubApi {
  import opened Results
  import opened Text

  const ApiUrl := "https://api.github.com"

  // ---------------------------------------------------------------------
  // api_request
  // ---------------------------------------------------------------------

  /**
   * What `wp_remote_get` answers: a transport error, or a status code, its
   * reason phrase, the `message` member of the JSON body if it has one, and
   * the decoded body (`None` when `json_decode` gives null).
   */
  datatype HttpResult<D> =
    | TransportFailed(error: WpError)
    | Answered(code: int, reason: string, bodyMessage: Option<string>, json: Option<D>)

  /** The headers `api_request` sends: JSON media type, user agent, and a bearer token when one is set. */
  function ApiHeaders(token: string, userAgent: string): (h: map<string, string>)
    ensures h.Keys == {"Accept", "User-Agent"} + (if PhpEmpty(token) then {} else {"Authorization"})
    ensures h["Accept"] == "application/vnd.github.v3+json" && h["User-Agent"] == userAgent
    ensures "Authorization" in h ==> h["Authorization"] == "Bearer " + token
  {
    var base := map["Accept" := "application/vnd.github.v3+json", "User-Agent" := userAgent];
    if PhpEmpty(token) then base else base["Authorization" := "Bearer " + token]
  }

  /** `api_request`: the decoded body of a 200 answer, and an error otherwise. */
  function ApiRequest<D>(resp: HttpResult<D>): (r: Result<D, WpError>)
    ensures r.Ok? <==> resp.Answered? && resp.code == 200 && resp.json.Some?
    ensures r.Ok? ==> r.value == resp.json.value
    ensures resp.TransportFailed? ==> r == Err(resp.error)
    ensures resp.Answered? && resp.code != 200 ==>
      r == Err(WpError("github_api_error",
                       "GitHub API error (HTTP " + IntToString(resp.code) + "): " + resp.bodyMessage.GetOr(resp.reason),
                       Some(resp.code)))
    ensures resp.Answered? && resp.code == 200 && resp.json.None? ==>
      r == Err(WpError("github_api_error", "Invalid JSON response from GitHub API", None))
    // Every error the API itself reports is a `github_api_error`; transport errors keep their own code
    ensures r.Err? && resp.Answered? ==> r.error.code == "github_api_error"
  {
    match resp
    case TransportFailed(e) => Err(e)
    case Answered(code, reason, message, json) =>
      if code != 200 then
        Err(WpError("github_api_error",
                    "GitHub API error (HTTP " + IntToString(code) + "): " + message.GetOr(reason),
                    Some(code)))
      else if json.None? then
        Err(WpError("github_api_error", "Invalid JSON response from GitHub API", None))
      else
        Ok(json.value)
  }

  // ---------------------------------------------------------------------
  // Release records and get_latest_release
  // ---------------------------------------------------------------------

  datatype Asset = Asset(name: string, browserDownloadUrl: Option<string>, contentType: Option<string>)

  /** The members of a release record the download logic reads; a missing `assets` is the empty list. */
  datatype Release = Release(
    tagName: Option<string>,
    name: Option<string>,
    zipballUrl: Option<string>,
    tarballUrl: Option<string>,
    assets: seq<Asset>)

  /** The member of a repository record the download logic reads. */
  datatype RepoInfo = RepoInfo(defaultBranch: Option<string>)

  /** `https://github.com/{owner}/{repo}/archive/refs/heads/{branch}.zip` */
  function HeadsUrl(owner: string, repo: string, branch: string): string {
    "https://github.com/" + owner + "/" + repo + "/archive/refs/heads/" + branch + ".zip"
  }

  /** `https://github.com/{owner}/{repo}/archive/refs/tags/{tag}.zip` */
  function TagsUrl(owner: string, repo: string, tag: string): string {
    "https://github.com/" + owner + "/" + repo + "/archive/refs/tags/" + tag + ".zip"
  }

  /** The API's zipball endpoint for a ref: `{api}/repos/{owner}/{repo}/zipball/{ref}`. */
  function ApiZipballUrl(owner: string, repo: string, ref: string): string {
    ApiUrl + "/repos/" + owner + "/" + repo + "/zipball/" + ref
  }

  function ApiTarballUrl(owner: string, repo: string, ref: string): string {
    ApiUrl + "/repos/" + owner + "/" + repo + "/tarball/" + ref
  }

  /**
   * Whether `get_latest_release` replaces the answer to `releases/latest` by
   * a release made from the default branch: the request failed with a
   * `github_api_error` and the repository record names a default branch.
   */
  predicate FallsBackToBranch(latest: Result<Release, WpError>, info: Result<RepoInfo, WpError>) {
    latest.Err? && latest.error.code == "github_api_error" && info.Ok? && info.value.defaultBranch.Some?
  }

  /** The release standing for the default branch, with the given zipball URL. */
  function BranchRelease(owner: string, repo: string, branch: string, zipball: string): Release {
    Release(Some("main"), Some("Latest from " + branch), Some(zipball),
            Some(ApiTarballUrl(owner, repo, branch)), [])
  }

  /**
   * `get_latest_release` as written: the synthetic release points at the
   * API's zipball endpoint for the branch, which `get_download_url` later
   * rewrites into a tag archive URL.
   */
  function LatestReleaseAsWritten(owner: string, repo: string,
                                  latest: Result<Release, WpError>, info: Result<RepoInfo, WpError>): (r: Result<Release, WpError>)
    ensures !FallsBackToBranch(latest, info) ==> r == latest
    ensures FallsBackToBranch(latest, info) ==>
      r.Ok? && r.value.tagName == Some("main") && r.value.assets == [] &&
      r.value.zipballUrl == Some(ApiZipballUrl(owner, repo, info.value.defaultBranch.value))
  {
    if FallsBackToBranch(latest, info) then
      var branch := info.value.defaultBranch.value;
      Ok(BranchRelease(owner, repo, branch, ApiZipballUrl(owner, repo, branch)))
    else latest
  }

  /**
   * `get_latest_release` with the synthetic release pointing at the branch
   * archive, the URL `get_download_url` builds itself when no release at
   * all can be had.
   */
  function LatestRelease(owner: string, repo: string,
                         latest: Result<Release, WpError>, info: Result<RepoInfo, WpError>): (r: Result<Release, WpError>)
    ensures !FallsBackToBranch(latest, info) ==> r == latest
    ensures FallsBackToBranch(latest, info) ==>
      r.Ok? && r.value.tagName == Some("main") && r.value.assets == [] &&
      r.value.zipballUrl == Some(HeadsUrl(owner, repo, info.value.defaultBranch.value))
  {
    if FallsBackToBranch(latest, info) then
      var branch := info.value.defaultBranch.value;
      Ok(BranchRelease(owner, repo, branch, HeadsUrl(owner, repo, branch)))
    else latest
  }

  // ---------------------------------------------------------------------
  // get_download_url
  // ---------------------------------------------------------------------

  /** An asset that has a download URL and is a ZIP by its name or its content type. */
  predicate IsZipAsset(a: Asset) {
    a.browserDownloadUrl.Some? && (Contains(a.name, ".zip") || a.contentType == Some("application/zip"))
  }

  /** The asset loop: the download URL of the first ZIP asset, if any. */
  function FirstZipAsset(assets: seq<Asset>): (r: Option<string>)
    ensures r.Some? <==> exists i :: 0 <= i < |assets| && IsZipAsset(assets[i])
    ensures r.Some? ==>
      exists i :: 0 <= i < |assets| && IsZipAsset(assets[i]) && r.value == assets[i].browserDownloadUrl.value &&
        forall j :: 0 <= j < i ==> !IsZipAsset(assets[j])
  {
    if assets == [] then None
    else if IsZipAsset(assets[0]) then Some(assets[0].browserDownloadUrl.value)
    else
      var rest := FirstZipAsset(assets[1..]);
      assert forall i :: 1 <= i < |assets| ==> assets[i] == assets[1..][i - 1];
      rest
  }

  /**
   * The zipball rewrite: an API URL without `.zip` is turned into a
   * `github.com` URL, and its `/zipball/` into `/archive/refs/tags/` with
   * `.zip` appended.
   */
  function RewriteZipball(u: string): (r: string)
    ensures !(Contains(u, "api.github.com") && !Contains(u, ".zip")) ==> r == u
  {
    if Contains(u, "api.github.com") && !Contains(u, ".zip") then
      var v := ReplaceAll(u, "api.github.com/repos/", "github.com/");
      if Contains(v, "/zipball/") then ReplaceAll(v, "/zipball/", "/archive/refs/tags/") + ".zip" else v
    else u
  }

  /**
   * `get_download_url` once the release lookup has answered: an explicit
   * version names a tag or a branch; otherwise a ZIP asset, the zipball
   * URL, the tag archive, in that order; without a release, the default
   * branch archive.
   */
  function DownloadUrlFrom(owner: string, repo: string, version: Option<string>,
                           release: Result<Release, WpError>, info: Result<RepoInfo, WpError>): (r: Result<string, WpError>)
    // It fails only without a version: when neither a release nor the
    // repository can be had, or when the release offers nothing to download
    ensures r.Err? <==> (version.None? &&
      ((release.Err? && info.Err?) ||
       (release.Ok? && FirstZipAsset(release.value.assets).None? &&
        !(release.value.zipballUrl.Some? && !PhpEmpty(release.value.zipballUrl.value)) &&
        !(release.value.tagName.Some? && !PhpEmpty(release.value.tagName.value)))))
    // Without a release the repository lookup's error is passed on
    ensures r.Err? && release.Err? ==> r == Err(info.error)
  {
    match version
    case Some(v) =>
      if IsVersionNumber(v) then Ok(TagsUrl(owner, repo, v)) else Ok(HeadsUrl(owner, repo, v))
    case None =>
      match release
      case Err(_) =>
        (match info
         case Err(e) => Err(e)
         case Ok(ri) => Ok(HeadsUrl(owner, repo, ri.defaultBranch.GetOr("main"))))
      case Ok(rel) =>
        match FirstZipAsset(rel.assets)
        case Some(u) => Ok(u)
        case None =>
          if rel.zipballUrl.Some? && !PhpEmpty(rel.zipballUrl.value) then
            Ok(RewriteZipball(rel.zipballUrl.value))
          else if rel.tagName.Some? && !PhpEmpty(rel.tagName.value) then
            Ok(TagsUrl(owner, repo, rel.tagName.value))
          else
            Err(WpError("github_api_error", "No download URL found in release information", None))
  }

  /**
   * `get_download_url` as written, over the synthetic release of
   * `LatestReleaseAsWritten`. The synthetic release decides which URL is
   * returned, never whether one is, and only when no version is asked for
   * and the release lookup fell back to the branch.
   */
  function DownloadUrlAsWritten(owner: string, repo: string, version: Option<string>,
                                latest: Result<Release, WpError>, info: Result<RepoInfo, WpError>): (r: Result<string, WpError>)
    ensures r.Err? <==> DownloadUrlFrom(owner, repo, version, latest, info).Err?
    ensures version.Some? || !FallsBackToBranch(latest, info) ==> r == DownloadUrlFrom(owner, repo, version, latest, info)
  {
    if FallsBackToBranch(latest, info) then
      assert |ApiZipballUrl(owner, repo, info.value.defaultBranch.value)| > 1 by { UrlPieces(); }
      DownloadUrlFrom(owner, repo, version, LatestReleaseAsWritten(owner, repo, latest, info), info)
    else DownloadUrlFrom(owner, repo, version, LatestReleaseAsWritten(owner, repo, latest, info), info)
  }

  /**
   * `get_download_url` over the corrected synthetic release, which
   * downloads exactly what `get_download_url` builds for itself when no
   * release can be had: the branch archive.
   */
  function DownloadUrl(owner: string, repo: string, version: Option<string>,
                       latest: Result<Release, WpError>, info: Result<RepoInfo, WpError>): (r: Result<string, WpError>)
    ensures r == DownloadUrlFrom(owner, repo, version, latest, info)
  {
    if FallsBackToBranch(latest, info) then
      ZipUrlNotRewritten(HeadsUrl(owner, repo, info.value.defaultBranch.value));
      DownloadUrlFrom(owner, repo, version, LatestRelease(owner, repo, latest, info), info)
    else DownloadUrlFrom(owner, repo, version, LatestRelease(owner, repo, latest, info), info)
  }

  /**
   * An explicit version gives the tag archive when it looks like a version
   * number and the branch archive otherwise, whatever the API would answer.
   */
  lemma ExplicitVersionUrl(owner: string, repo: string, v: string,
                           latest: Result<Release, WpError>, info: Result<RepoInfo, WpError>)
    ensures DownloadUrl(owner, repo, Some(v), latest, info) ==
      (if IsVersionNumber(v) then Ok(TagsUrl(owner, repo, v)) else Ok(HeadsUrl(owner, repo, v)))
    ensures DownloadUrlAsWritten(owner, repo, Some(v), latest, info) == DownloadUrl(owner, repo, Some(v), latest, info)
  {
  }

  /** A release version such as `1.4.0` gives the tag archive. */
  lemma DottedVersionIsTag(owner: string, repo: string, major: string, minor: string, patch: string,
                           latest: Result<Release, WpError>, info: Result<RepoInfo, WpError>)
    requires IsDigits(major) && IsDigits(minor) && IsDigits(patch)
    ensures DownloadUrl(owner, repo, Some(major + "." + minor + "." + patch), latest, info) ==
      Ok(TagsUrl(owner, repo, major + "." + minor + "." + patch))
  {
    ThreePartVersion(major, minor, patch);
  }

  /** A ZIP asset wins over the zipball URL and the tag. */
  lemma AssetWins(owner: string, repo: string, rel: Release, info: Result<RepoInfo, WpError>, i: int)
    requires 0 <= i < |rel.assets| && IsZipAsset(rel.assets[i])
    requires forall j :: 0 <= j < i ==> !IsZipAsset(rel.assets[j])
    ensures DownloadUrlFrom(owner, repo, None, Ok(rel), info) == Ok(rel.assets[i].browserDownloadUrl.value)
  {
    var r := FirstZipAsset(rel.assets);
    var k :| 0 <= k < |rel.assets| && IsZipAsset(rel.assets[k]) && r.value == rel.assets[k].browserDownloadUrl.value &&
      forall j :: 0 <= j < k ==> !IsZipAsset(rel.assets[j]);
  }

  /**
   * Without a ZIP asset the order is zipball, then tag; a release that has
   * neither gives the `github_api_error` "No download URL found".
   */
  lemma ReleaseFallbackOrder(owner: string, repo: string, rel: Release, info: Result<RepoInfo, WpError>)
    requires forall i :: 0 <= i < |rel.assets| ==> !IsZipAsset(rel.assets[i])
    ensures rel.zipballUrl.Some? && !PhpEmpty(rel.zipballUrl.value) ==>
      DownloadUrlFrom(owner, repo, None, Ok(rel), info) == Ok(RewriteZipball(rel.zipballUrl.value))
    ensures !(rel.zipballUrl.Some? && !PhpEmpty(rel.zipballUrl.value)) && rel.tagName.Some? && !PhpEmpty(rel.tagName.value) ==>
      DownloadUrlFrom(owner, repo, None, Ok(rel), info) == Ok(TagsUrl(owner, repo, rel.tagName.value))
    ensures DownloadUrlFrom(owner, repo, None, Ok(rel), info).Err? <==>
      !(rel.zipballUrl.Some? && !PhpEmpty(rel.zipballUrl.value)) && !(rel.tagName.Some? && !PhpEmpty(rel.tagName.value))
    ensures DownloadUrlFrom(owner, repo, None, Ok(rel), info).Err? ==>
      DownloadUrlFrom(owner, repo, None, Ok(rel), info).error ==
        WpError("github_api_error", "No download URL found in release information", None)
  {
    assert FirstZipAsset(rel.assets).None?;
  }

  /**
   * When no release can be had at all, the repository lookup decides: its
   * error is returned, or the archive of its default branch (`main` when it
   * names none).
   */
  lemma NoReleaseUsesDefaultBranch(owner: string, repo: string, latest: Result<Release, WpError>, info: Result<RepoInfo, WpError>)
    requires LatestRelease(owner, repo, latest, info).Err?
    ensures info.Err? ==> DownloadUrl(owner, repo, None, latest, info) == Err(info.error)
    ensures info.Ok? ==>
      DownloadUrl(owner, repo, None, latest, info) == Ok(HeadsUrl(owner, repo, info.value.defaultBranch.GetOr("main")))
    ensures info.Ok? ==> info.value.defaultBranch.None? || latest.error.code != "github_api_error"
  {
  }

  /** A URL ending in `.zip` is never rewritten. */
  lemma ZipUrlNotRewritten(u: string)
    requires EndsWith(u, ".zip")
    ensures RewriteZipball(u) == u
  {
    assert OccursAt(u, ".zip", |u| - 4);
    ContainsAt(u, ".zip");
  }

  /**
   * With the corrected synthetic release, a repository without releases
   * downloads the archive of its default branch.
   */
  lemma BranchReleaseDownloadsBranch(owner: string, repo: string, latest: Result<Release, WpError>, info: Result<RepoInfo, WpError>)
    requires FallsBackToBranch(latest, info)
    ensures DownloadUrl(owner, repo, None, latest, info) == Ok(HeadsUrl(owner, repo, info.value.defaultBranch.value))
  {
    var u := HeadsUrl(owner, repo, info.value.defaultBranch.value);
    assert EndsWith(u, ".zip");
    ZipUrlNotRewritten(u);
  }

  /**
   * As written, the same repository downloads the archive of a TAG named
   * like its default branch: the zipball of the synthetic release goes
   * through the tag rewrite. Stated for the names `RewritableRef` admits
   * (`acme`, `widgets`, `main`, say).
   */
  lemma BranchReleaseDownloadsTagAsWritten(owner: string, repo: string, latest: Result<Release, WpError>, info: Result<RepoInfo, WpError>)
    requires FallsBackToBranch(latest, info)
    requires RewritableRef(owner, repo, info.value.defaultBranch.value)
    ensures DownloadUrlAsWritten(owner, repo, None, latest, info) == Ok(TagsUrl(owner, repo, info.value.defaultBranch.value))
    ensures DownloadUrlAsWritten(owner, repo, None, latest, info) != DownloadUrl(owner, repo, None, latest, info)
  {
    var branch := info.value.defaultBranch.value;
    ZipballRewrittenToTag(owner, repo, branch);
    var t := TagsUrl(owner, repo, branch);
    var h := HeadsUrl(owner, repo, branch);
    var k := |"https://github.com/" + owner + "/" + repo + "/archive/refs/"|;
    assert t[k] == 't' && h[k] == 'h';
    BranchReleaseDownloadsBranch(owner, repo, latest, info);
  }

  /**
   * The names for which the zipball rewrite gives the tag archive: none of
   * them holds a slash, the owner holds no dot (GitHub allows none), neither
   * the owner nor the repository is called `zipball`, and the API URL holds
   * no `.zip`. Dotted refs such as `v1.2.3` qualify.
   */
  predicate RewritableRef(owner: string, repo: string, ref: string) {
    '/' !in owner && '/' !in repo && '/' !in ref && '.' !in owner &&
    owner != "zipball" && repo != "zipball" &&
    !Contains(ApiZipballUrl(owner, repo, ref), ".zip")
  }

  /** The tag rewrite applied to the API's zipball URL of a ref. */
  lemma ZipballRewrittenToTag(owner: string, repo: string, ref: string)
    requires RewritableRef(owner, repo, ref)
    ensures RewriteZipball(ApiZipballUrl(owner, repo, ref)) == TagsUrl(owner, repo, ref)
  {
    UrlLiterals();
    var rest := owner + "/" + repo + "/zipball/" + ref;
    Reassociate(ApiUrl + "/repos/", owner, "/", repo, "/zipball/", ref);
    ApiUrlHasHost(rest);
    NoHostInPath(owner, repo, ref);
    HostReplaced(rest);
    Reassociate("https://github.com/", owner, "/", repo, "/zipball/", ref);
    var a := "https://github.com/" + owner + "/" + repo;
    NoZipballBefore(owner, repo, ref);
    ZipballReplaced(a, ref);
  }

  /** The literal pieces the URLs above are made of. */
  lemma UrlLiterals()
    ensures ApiUrl + "/repos/" == "https://" + "api.github.com/repos/"
    ensures "https://" + "api.github.com/repos/" == "https://" + ("api.github.com" + "/repos/")
    ensures "https://" + "github.com/" == "https://github.com/"
    ensures 'a' !in "https://"
    ensures "api.github.com/repos/"[0] == 'a'
  {
    UrlPieces();
  }

  lemma UrlPieces()
    ensures ApiUrl + "/repos/" == "https://" + "api.github.com/repos/"
    ensures "https://" + "api.github.com/repos/" == "https://" + ("api.github.com" + "/repos/")
    ensures "https://" + "github.com/" == "https://github.com/"
  {
  }

  /** Where the characters of `api.github.com/repos/` sit. */
  lemma HostCharacters()
    ensures var h := "api.github.com/repos/";
      |h| == 21 && h[3] == '.' && h[14] == '/' && h[15] == 'r' &&
      forall d :: 1 <= d < 14 ==> h[d] != '/'
  {
  }

  /** Where the characters of `/zipball/` sit. */
  lemma ZipballCharacters()
    ensures var z := "/zipball/";
      z[0] == '/' && z[1] == 'z' && z[1..] == "zipball" + "/" && '/' !in "zipball" && '.' !in z
    ensures 'z' !in "https://github.com/" && 'z' !in "/" && 'a' !in "/"
  {
  }

  /** Regrouping a URL made of six pieces. */
  lemma Reassociate(p: string, a: string, b: string, c: string, d: string, e: string)
    ensures p + a + b + c + d + e == p + (a + b + c + d + e)
  {
  }

  /** The API's URL of any path names the API host. */
  lemma ApiUrlHasHost(rest: string)
    ensures Contains(ApiUrl + "/repos/" + rest, "api.github.com")
  {
    UrlLiterals();
    var x, n, r := "https://", "api.github.com", "/repos/";
    AppendAssoc(x, n, r);
    AppendAssoc(x + n, r, rest);
    ContainsMiddle(x, n, r + rest);
  }

  /** `api.github.com/repos/` does not occur in `/zipball/` followed by a ref without a slash. */
  lemma NoHostAfterZipball(ref: string)
    requires '/' !in ref
    ensures !Contains("/zipball/" + ref, "api.github.com/repos/")
  {
    var h, z := "api.github.com/repos/", "/zipball/";
    HostCharacters();
    ZipballCharacters();
    forall d | 1 <= d <= 3 ensures !StartsWith(ref, h[d..]) {
      assert h[d..][14 - d] == '/';
      NoStartWithout(ref, h[d..], 14 - d);
    }
    NoStartInsideUpTo(z, ref, h, 3);
    NotContainsChar(ref, h, 14);
    NotContainsConcat(z, ref, h);
  }

  /** Nor in a repository name without a slash followed by that. */
  lemma NoHostFromRepo(repo: string, ref: string)
    requires '/' !in repo && '/' !in ref
    ensures !Contains(repo + ("/zipball/" + ref), "api.github.com/repos/")
  {
    var h, zr := "api.github.com/repos/", "/zipball/" + ref;
    HostCharacters();
    ZipballCharacters();
    assert zr[0] == '/' && zr[1] == 'z';
    forall d | 1 <= d <= 14 ensures !StartsWith(zr, h[d..]) {
      if d < 14 {
        assert h[d..][0] == h[d];
      } else {
        assert h[d..][1] == 'r';
      }
    }
    NoStartInsideUpTo(repo, zr, h, 14);
    NoHostAfterZipball(ref);
    NotContainsConcat(repo, zr, h);
  }

  /**
   * `api.github.com/repos/` does not occur in the path of a zipball URL:
   * it would need a dot in the owner, or `repos` where `zipball` is, or a
   * slash inside a name.
   */
  lemma NoHostInPath(owner: string, repo: string, ref: string)
    requires '/' !in owner && '/' !in repo && '/' !in ref && '.' !in owner
    ensures !Contains(owner + "/" + repo + "/zipball/" + ref, "api.github.com/repos/")
  {
    var h, b := "api.github.com/repos/", "/" + (repo + ("/zipball/" + ref));
    NoHostAfterSlash(repo, ref);
    HostCharacters();
    assert b[0] == '/';
    forall d | 1 <= d <= 3 ensures !StartsWith(b, h[d..]) {
      assert h[d..][0] == h[d];
    }
    NoStartInsideUpTo(owner, b, h, 3);
    NotContainsConcat(owner, b, h);
    PathRegroup(owner, repo, ref);
  }

  /** Nor in the slash before the repository followed by the rest. */
  lemma NoHostAfterSlash(repo: string, ref: string)
    requires '/' !in repo && '/' !in ref
    ensures !Contains("/" + (repo + ("/zipball/" + ref)), "api.github.com/repos/")
  {
    var h, rz := "api.github.com/repos/", repo + ("/zipball/" + ref);
    NoHostFromRepo(repo, ref);
    assert h[0] == 'a';
    NoStartInside("/", rz, h);
    NotContainsConcat("/", rz, h);
  }

  /** The path of a zipball URL, grouped from the right. */
  lemma PathRegroup(owner: string, repo: string, ref: string)
    ensures owner + "/" + repo + "/zipball/" + ref == owner + ("/" + (repo + ("/zipball/" + ref)))
  {
    AppendAssoc(repo, "/zipball/", ref);
    AppendAssoc("/", repo, "/zipball/" + ref);
    AppendAssoc(owner + "/", repo, "/zipball/" + ref);
    AppendAssoc(owner, "/", repo + ("/zipball/" + ref));
  }

  /**
   * `/zipball/` starts nowhere before its own place in the rewritten URL:
   * it would need an owner or a repository called `zipball`.
   */
  lemma NoZipballBefore(owner: string, repo: string, ref: string)
    requires '/' !in owner && '/' !in repo && owner != "zipball" && repo != "zipball"
    ensures var a := "https://github.com/" + owner + "/" + repo;
      forall i :: 0 <= i < |a| ==> !StartsWith((a + ("/zipball/" + ref))[i..], "/zipball/")
  {
    var g, z := "https://github.com/", "/zipball/";
    ZipballCharacters();
    var b := z + ref;
    NoStartInside(repo, b, z);
    assert repo + b == repo + ['/'] + ("zipball/" + ref);
    SegmentStart(repo, '/', "zipball/" + ref, "zipball");
    NoStartInsideUpTo("/", repo + b, z, 1);
    NoStartInsideConcat("/", repo, b, z);
    var sr := "/" + repo;
    NoStartInside(owner, sr + b, z);
    NoStartInsideConcat(owner, sr, b, z);
    var path := owner + sr;
    assert path == owner + "/" + repo;
    assert path + b == owner + ['/'] + (repo + b);
    SegmentStart(owner, '/', repo + b, "zipball");
    NoStartInsideUpTo(g, path + b, z, 1);
    NoStartInsideConcat(g, path, b, z);
    assert g + (owner + "/" + repo) == g + owner + "/" + repo;
  }

  /** `api.github.com/repos/` occurs once in such a URL, right after the scheme. */
  lemma HostReplaced(rest: string)
    requires !Contains(rest, "api.github.com/repos/")
    ensures ReplaceAll(ApiUrl + "/repos/" + rest, "api.github.com/repos/", "github.com/") == "https://github.com/" + rest
  {
    UrlLiterals();
    var scheme, host := "https://", "api.github.com/repos/";
    AppendAssoc(scheme, host, rest);
    NoStartInside(scheme, host + rest, host);
    assert (host + rest)[..|host|] == host;
    ReplaceAllAt(scheme, host + rest, host, "github.com/");
    assert (host + rest)[|host|..] == rest;
    ReplaceAllAbsent(rest, host, "github.com/");
  }

  /** `/zipball/` occurs once, after a prefix where it starts nowhere and before a branch without a slash. */
  lemma ZipballReplaced(a: string, branch: string)
    requires forall i :: 0 <= i < |a| ==> !StartsWith((a + ("/zipball/" + branch))[i..], "/zipball/")
    requires '/' !in branch
    ensures Contains(a + "/zipball/" + branch, "/zipball/")
    ensures ReplaceAll(a + "/zipball/" + branch, "/zipball/", "/archive/refs/tags/") == a + "/archive/refs/tags/" + branch
  {
    var z := "/zipball/";
    assert z[0] == '/';
    NotContainsChar(branch, z, 0);
    ReplaceAllOnce(a, z, branch, "/archive/refs/tags/");
  }

  // ---------------------------------------------------------------------
  // is_valid_zip
  // ---------------------------------------------------------------------

  /** The local file header signature `PK\x03\x04` (section 4.3.7 of PKWARE's APPNOTE.TXT). */
  const ZipSignature: string := ['P', 'K', 3 as char, 4 as char]

  /** The downloaded file as the checks see it; each byte is a character. */
  datatype LocalFile = LocalFile(present: bool, readable: bool, openable: bool, contents: string)

  /** Whether ZipArchive is available, and what its CHECKCONS open says of the file. */
  datatype ZipSupport = ZipSupport(zipArchiveClass: bool, checkconsOk: bool)

  /** `fread($handle, 4)`: at most the first four bytes. */
  function ReadSignature(contents: string): (s: string)
    ensures |s| == if |contents| < 4 then |contents| else 4
    ensures s == contents[..|s|]
  {
    if |contents| < 4 then contents else contents[..4]
  }

  /** `is_valid_zip`. */
  function IsValidZip(f: LocalFile, zip: ZipSupport): (ok: bool)
    ensures ok ==> f.present && f.readable
    ensures f.present && f.readable && zip.zipArchiveClass ==> (ok <==> zip.checkconsOk)
    // Without ZipArchive: exactly the files that start with the signature
    ensures !zip.zipArchiveClass ==> (ok <==> f.present && f.readable && f.openable && StartsWith(f.contents, ZipSignature))
  {
    if !f.present || !f.readable then false
    else if zip.zipArchiveClass then zip.checkconsOk
    else f.openable && ReadSignature(f.contents) == ZipSignature
  }

  // ---------------------------------------------------------------------
  // download_file
  // ---------------------------------------------------------------------

  /** What `wp_remote_head` answers: an error, or a status and its `location` header ("" when absent). */
  datatype HeadResponse = HeadFailed(error: WpError) | HeadAnswered(code: int, location: string)

  /** What the streamed `wp_remote_get` answers. */
  datatype GetResponse = GetFailed(error: WpError) | GetAnswered(code: int)

  predicate IsRedirect(code: int) {
    300 <= code < 400
  }

  /** Whether the HEAD step, when it runs, lets the download go on. */
  predicate HeadLetsThrough(url: string, head: HeadResponse) {
    !Contains(url, "api.github.com") ||
    (head.HeadAnswered? && (IsRedirect(head.code) || head.code == 200))
  }

  /** Whether the GET step (with its `file_get_contents` retry) leaves a file to check. */
  predicate Fetched(get: GetResponse, retry: Option<string>, saveOk: bool) {
    match get
    case GetFailed(_) => retry.Some? && saveOk
    case GetAnswered(code) => code == 200
  }

  /** The temporary file the checks look at: the retried content once saved, else what the stream left. */
  function CheckedFile(get: GetResponse, retry: Option<string>, streamed: LocalFile): LocalFile {
    if get.GetFailed? && retry.Some? then LocalFile(true, true, true, retry.value) else streamed
  }

  /** The headers `download_file` starts from: a bearer token only towards GitHub, the binary Accept only towards the API. */
  function DownloadHeaders(url: string, token: string, userAgent: string): (h: map<string, string>)
    ensures h.Keys <= {"User-Agent", "Authorization", "Accept"}
    ensures "User-Agent" in h && h["User-Agent"] == userAgent
    ensures "Authorization" in h <==> !PhpEmpty(token) && Contains(url, "github.com")
    ensures "Authorization" in h ==> h["Authorization"] == "Bearer " + token
    ensures "Accept" in h <==> !PhpEmpty(token) && Contains(url, "api.github.com")
    ensures "Accept" in h ==> h["Accept"] == "application/octet-stream"
  {
    var isGithubApi := Contains(url, "api.github.com");
    var isGithubUrl := Contains(url, "github.com");
    var base := map["User-Agent" := userAgent];
    if !PhpEmpty(token) && (isGithubApi || isGithubUrl) then
      var withToken := base["Authorization" := "Bearer " + token];
      if isGithubApi then
        ApiUrlIsGithubUrl(url);
        withToken["Accept" := "application/octet-stream"]
      else withToken
    else base
  }

  lemma ApiUrlIsGithubUrl(url: string)
    requires Contains(url, "api.github.com")
    ensures Contains(url, "github.com")
  {
    assert "api.github.com" == "api." + "github.com";
    ContainsRightPart(url, "api.", "github.com");
  }

  /**
   * The HEAD step of `download_file` for an API URL: follows a redirect that
   * names a location, dropping the binary Accept when it leaves the API, and
   * fails on any other status than 200.
   */
  method ResolveRedirect(url: string, headers0: map<string, string>, head: HeadResponse)
    returns (error: Option<WpError>, finalUrl: string, headers: map<string, string>)
    requires Contains(url, "api.github.com")
    ensures head.HeadFailed? ==> error == Some(head.error)
    ensures head.HeadAnswered? && !IsRedirect(head.code) && head.code != 200 ==>
      error == Some(WpError("github_api_error", "GitHub API returned status code: " + IntToString(head.code), None))
    ensures error.None? <==> head.HeadAnswered? && (IsRedirect(head.code) || head.code == 200)
    ensures finalUrl == (if head.HeadAnswered? && IsRedirect(head.code) && !PhpEmpty(head.location) then head.location else url)
    ensures headers == if Contains(finalUrl, "api.github.com") then headers0 else headers0 - {"Accept"}
  {
    finalUrl := url;
    headers := headers0;
    error := None;
    match head {
      case HeadFailed(e) =>
        error := Some(e);
      case HeadAnswered(code, location) =>
        if IsRedirect(code) {
          if !PhpEmpty(location) {
            finalUrl := location;
            if !Contains(finalUrl, "api.github.com") {
              headers := headers - {"Accept"};
            }
          }
        } else if code != 200 {
          error := Some(WpError("github_api_error", "GitHub API returned status code: " + IntToString(code), None));
        }
    }
  }

  /**
   * The GET step of `download_file` and the checks on the file it leaves:
   * a failed request is retried once through `file_get_contents`; the file
   * must then exist, hold at least 100 bytes and pass `is_valid_zip`.
   */
  method FetchAndCheck(tempFilename: string, get: GetResponse, retry: Option<string>, saveOk: bool,
                       streamed: LocalFile, zip: ZipSupport)
    returns (r: Result<string, WpError>)
    ensures get.GetFailed? && retry.None? ==> r == Err(get.error)
    ensures get.GetFailed? && retry.Some? && !saveOk ==>
      r == Err(WpError("save_failed", "Failed to save downloaded content to file", None))
    ensures get.GetAnswered? && get.code != 200 ==>
      r == Err(WpError("download_failed", "Failed to download file, server returned code " + IntToString(get.code), None))
    ensures Fetched(get, retry, saveOk) && (!CheckedFile(get, retry, streamed).present || |CheckedFile(get, retry, streamed).contents| < 100) ==>
      r == Err(WpError("download_failed", "Downloaded file not found or is invalid", None))
    ensures Fetched(get, retry, saveOk) && CheckedFile(get, retry, streamed).present && |CheckedFile(get, retry, streamed).contents| >= 100
            && !IsValidZip(CheckedFile(get, retry, streamed), zip) ==>
      r == Err(WpError("invalid_zip", "Downloaded file is not a valid ZIP archive", None))
    ensures r.Ok? <==>
      Fetched(get, retry, saveOk) && CheckedFile(get, retry, streamed).present &&
      |CheckedFile(get, retry, streamed).contents| >= 100 && IsValidZip(CheckedFile(get, retry, streamed), zip)
    ensures r.Ok? ==> r.value == tempFilename
  {
    var file := streamed;
    match get {
      case GetFailed(e) =>
        if retry.None? {
          return Err(e);
        }
        if !saveOk {
          return Err(WpError("save_failed", "Failed to save downloaded content to file", None));
        }
        file := LocalFile(true, true, true, retry.value);
      case GetAnswered(code) =>
        if code != 200 {
          return Err(WpError("download_failed", "Failed to download file, server returned code " + IntToString(code), None));
        }
    }
    if !file.present || |file.contents| < 100 {
      return Err(WpError("download_failed", "Downloaded file not found or is invalid", None));
    }
    if !IsValidZip(file, zip) {
      return Err(WpError("invalid_zip", "Downloaded file is not a valid ZIP archive", None));
    }
    r := Ok(tempFilename);
  }

  /**
   * `download_file`. `head`, `get`, `retry` (what `file_get_contents`
   * returned, `None` for false), `saveOk` (`file_put_contents` succeeded),
   * `streamed` (the temporary file after the streamed GET) and `zip` are
   * the answers of the network, the disk and ZipArchive. Besides the result,
   * the method returns the URL and the headers of the GET, as `$url` and
   * `$headers` stand when it is sent.
   */
  method DownloadFile(url: string, token: string, userAgent: string, tempFilename: string,
                      head: HeadResponse, get: GetResponse, retry: Option<string>, saveOk: bool,
                      streamed: LocalFile, zip: ZipSupport)
    returns (r: Result<string, WpError>, finalUrl: string, headers: map<string, string>)
    // Headers: a bearer token only towards GitHub, the binary Accept only towards the API
    ensures headers.Keys <= {"User-Agent", "Authorization", "Accept"}
    ensures "User-Agent" in headers && headers["User-Agent"] == userAgent
    ensures "Authorization" in headers <==> !PhpEmpty(token) && Contains(url, "github.com")
    ensures "Authorization" in headers ==> headers["Authorization"] == "Bearer " + token
    ensures "Accept" in headers <==>
      !PhpEmpty(token) && Contains(url, "api.github.com") && Contains(finalUrl, "api.github.com")
    ensures "Accept" in headers ==> headers["Accept"] == "application/octet-stream"
    // Redirects: only an API URL is resolved, and only a 3xx with a location moves it
    ensures finalUrl == url || (Contains(url, "api.github.com") && head.HeadAnswered? && IsRedirect(head.code) && finalUrl == head.location)
    ensures Contains(url, "api.github.com") && head.HeadAnswered? && IsRedirect(head.code) && !PhpEmpty(head.location) ==>
      finalUrl == head.location
    // The HEAD step
    ensures Contains(url, "api.github.com") && head.HeadFailed? ==> r == Err(head.error)
    ensures Contains(url, "api.github.com") && head.HeadAnswered? && !IsRedirect(head.code) && head.code != 200 ==>
      r == Err(WpError("github_api_error", "GitHub API returned status code: " + IntToString(head.code), None))
    // The GET step and the checks
    ensures HeadLetsThrough(url, head) && get.GetFailed? && retry.None? ==> r == Err(get.error)
    ensures HeadLetsThrough(url, head) && get.GetAnswered? && get.code != 200 ==>
      r == Err(WpError("download_failed", "Failed to download file, server returned code " + IntToString(get.code), None))
    ensures r.Ok? <==>
      HeadLetsThrough(url, head) && Fetched(get, retry, saveOk) &&
      CheckedFile(get, retry, streamed).present && |CheckedFile(get, retry, streamed).contents| >= 100 &&
      IsValidZip(CheckedFile(get, retry, streamed), zip)
    ensures r.Ok? ==> r.value == tempFilename
  {
    finalUrl := url;
    headers := DownloadHeaders(url, token, userAgent);
    if Contains(url, "api.github.com") {
      var error;
      error, finalUrl, headers := ResolveRedirect(url, headers, head);
      if error.Some? {
        return Err(error.value), finalUrl, headers;
      }
    }
    r := FetchAndCheck(tempFilename, get, retry, saveOk, streamed, zip);
  }
}
