/**
 * The directory-name logic of `maybe_restructure_github_package`: which
 * directory names look like a GitHub download, and how a slug is derived
 * from such a name when the caller gives none (before `sanitize_file_name`).
 *
 * Every regular expression the source applies to a name is anchored at its
 * end and matches no dash after its leading one, so each is stated here as a
 * test of the last dash-separated segment.
 */
module Slug {
  import opened Text

  predicate IsLowerHex(c: char) {
    '0' <= c <= '9' || 'a' <= c <= 'f'
  }

  /** `[0-9a-f]{7,}` over the whole string: what a commit hash suffix looks like. */
  predicate IsCommitHash(s: string) {
    |s| >= 7 && forall i :: 0 <= i < |s| ==> IsLowerHex(s[i])
  }

  /** The text after the last dash (all of `s` when it has none). */
  function LastSegment(s: string): string {
    LastPiece(s, '-')
  }

  /** The text before the last dash. */
  function BeforeLastSegment(s: string): string {
    var parts := Split(s, '-');
    Join(parts[..|parts| - 1], '-')
  }

  /** A name with a dash is what comes before its last dash, the dash, and its last segment. */
  lemma SplitAtLastDash(s: string)
    requires '-' in s
    ensures s == BeforeLastSegment(s) + "-" + LastSegment(s)
    ensures '-' !in LastSegment(s)
  {
    var parts := Split(s, '-');
    EndsWithLastPiece(s, '-');
    JoinSplit(s, '-');
    JoinLast(parts, '-');
  }

  /** `preg_match('/-[0-9a-f]{7,}$/', $name)`. */
  predicate HasHashSuffix(s: string) {
    '-' in s && IsCommitHash(LastSegment(s))
  }

  /** `preg_replace('/-[0-9a-f]{7,}$/', '', $slug)`: drops a trailing commit hash. */
  function StripHash(s: string): string {
    if HasHashSuffix(s) then BeforeLastSegment(s) else s
  }

  /** `preg_replace('/-v?\d+(\.\d+)*$/', '', $slug)`: drops a trailing version number. */
  function StripVersion(s: string): string {
    if '-' in s && IsVersionNumber(LastSegment(s)) then BeforeLastSegment(s) else s
  }

  /** `preg_replace('/(-master|-main)$/', '', $slug)`: drops a trailing branch name. */
  function StripBranch(s: string): string {
    if '-' in s && LastSegment(s) in {"master", "main"} then BeforeLastSegment(s) else s
  }

  /** Each stripping step removes exactly the dash and the segment it matched, or nothing. */
  lemma StripStepsDropSuffix(s: string)
    ensures StripHash(s) == s || s == StripHash(s) + "-" + LastSegment(s)
    ensures StripVersion(s) == s || s == StripVersion(s) + "-" + LastSegment(s)
    ensures StripBranch(s) == s || s == StripBranch(s) + "-" + LastSegment(s)
  {
    if '-' in s {
      SplitAtLastDash(s);
    }
  }

  /** For an `owner.repo` name, the part after the last dot. */
  function DotStep(s: string): (r: string)
    ensures '.' !in r
  {
    if '.' in s then LastPiece(s, '.') else s
  }

  /**
   * For a name still holding a dash: its last segment, unless that is
   * `master`, `main` or a version number, in which case everything after the
   * first segment.
   */
  function DashStep(s: string): string {
    if '-' in s then
      var parts := Split(s, '-');
      if |parts| >= 2 then
        var potential := parts[|parts| - 1];
        if potential !in {"master", "main"} && !IsVersionNumber(potential) then potential
        else Join(parts[1..], '-')
      else s
    else s
  }

  /** `s` is a contiguous run of the characters of `name`. */
  ghost predicate IsPieceOf(s: string, name: string) {
    exists i, j :: 0 <= i <= j <= |name| && s == name[i..j]
  }

  /** A piece of a piece of `name` is a piece of `name`. */
  lemma PieceOfPiece(a: string, b: string, c: string)
    requires IsPieceOf(a, b) && IsPieceOf(b, c)
    ensures IsPieceOf(a, c)
  {
    var i, j :| 0 <= i <= j <= |b| && a == b[i..j];
    var k, l :| 0 <= k <= l <= |c| && b == c[k..l];
    assert |a| == j - i;
    forall n | 0 <= n < j - i ensures a[n] == c[k + i + n] {
      assert a[n] == b[i + n];
    }
    assert a == c[k + i..k + j];
  }

  /** Stripping a hash, a version or a branch keeps a prefix of the name. */
  lemma StripStepsArePieces(s: string)
    ensures IsPieceOf(StripHash(s), s)
    ensures IsPieceOf(StripVersion(s), s)
    ensures IsPieceOf(StripBranch(s), s)
  {
    StripStepsDropSuffix(s);
    assert StripHash(s) == s[0..|StripHash(s)|];
    assert StripVersion(s) == s[0..|StripVersion(s)|];
    assert StripBranch(s) == s[0..|StripBranch(s)|];
  }

  /** The dot step keeps the text after the last dot: a suffix of the name. */
  lemma DotStepIsPiece(s: string)
    ensures IsPieceOf(DotStep(s), s)
  {
    if '.' in s {
      EndsWithLastPiece(s, '.');
      assert DotStep(s) == s[|s| - |DotStep(s)|..|s|];
    } else {
      assert s == s[0..|s|];
    }
  }

  /** The dash step keeps the text after one of the dashes, or all of the name. */
  lemma DashStepIsPiece(s: string)
    ensures IsPieceOf(DashStep(s), s)
  {
    if '-' in s {
      if LastSegment(s) !in {"master", "main"} && !IsVersionNumber(LastSegment(s)) {
        DashStepTakesLastSegment(s);
      } else {
        DashStepDropsFirstSegment(s);
      }
      var i :| 0 <= i < |s| && s[i] == '-' && DashStep(s) == s[i + 1..];
      assert DashStep(s) == s[i + 1..|s|];
    } else {
      assert s == s[0..|s|];
    }
  }

  /** The dash step adds no dot to a name without one. */
  lemma DashStepKeepsNoDot(s: string)
    requires '.' !in s
    ensures '.' !in DashStep(s)
  {
    if '-' in s {
      var parts := Split(s, '-');
      SplitPiecesChars(s, '-', '.');
      JoinChars(parts[1..], '-', '.');
    }
  }

  /**
   * The slug `maybe_restructure_github_package` derives from a directory
   * name, before sanitising: a dot-free run of the name's own characters.
   */
  function DeriveSlug(name: string): (r: string)
    ensures '.' !in r
    ensures IsPieceOf(r, name)
  {
    var s0 := StripHash(name);
    var s1 := StripVersion(s0);
    var s2 := StripBranch(s1);
    var s3 := DotStep(s2);
    StripStepsArePieces(name);
    StripStepsArePieces(s0);
    StripStepsArePieces(s1);
    DotStepIsPiece(s2);
    DashStepIsPiece(s3);
    PieceOfPiece(s1, s0, name);
    PieceOfPiece(s2, s1, name);
    PieceOfPiece(s3, s2, name);
    PieceOfPiece(DashStep(s3), s3, name);
    DashStepKeepsNoDot(s3);
    DashStep(s3)
  }

  /**
   * When the last segment is a real name, the dash step yields the text after
   * the last dash, which holds no dash.
   */
  lemma DashStepTakesLastSegment(s: string)
    requires '-' in s
    requires LastSegment(s) !in {"master", "main"} && !IsVersionNumber(LastSegment(s))
    ensures exists i :: 0 <= i < |s| && s[i] == '-' && DashStep(s) == s[i + 1..]
    ensures '-' !in DashStep(s)
  {
    SplitAtLastDash(s);
    var b := BeforeLastSegment(s);
    assert s[|b|] == '-' && s[|b| + 1..] == LastSegment(s);
  }

  /**
   * When the last segment is a branch or a version, the dash step drops only
   * the first segment: it yields the text after the first dash.
   */
  lemma DashStepDropsFirstSegment(s: string)
    requires '-' in s
    requires LastSegment(s) in {"master", "main"} || IsVersionNumber(LastSegment(s))
    ensures exists i :: 0 <= i < |s| && s[i] == '-' && '-' !in s[..i] && DashStep(s) == s[i + 1..]
  {
    var parts := Split(s, '-');
    EndsWithLastPiece(s, '-');
    JoinSplit(s, '-');
    var i := |parts[0]|;
    assert s == parts[0] + "-" + Join(parts[1..], '-');
    assert s[..i] == parts[0];
    assert s[i] == '-' && s[i + 1..] == Join(parts[1..], '-');
  }

  /** A segment that names a repository rather than a branch or a version. */
  predicate IsRepoName(s: string) {
    '-' !in s && '.' !in s && s !in {"master", "main"} && !IsVersionNumber(s)
  }

  /** `owner-repo-hash` (a commit download) gives `repo`. */
  lemma DeriveFromHashSuffix(owner: string, repo: string, hash: string)
    requires '-' !in owner && '.' !in owner && IsRepoName(repo)
    requires IsCommitHash(hash)
    ensures DeriveSlug(owner + "-" + repo + "-" + hash) == repo
  {
    var s := owner + "-" + repo;
    assert '-' !in hash;
    LastPieceAfter(s, '-', hash);
    assert owner + "-" + repo + "-" + hash == s + ['-'] + hash;
    assert StripHash(s + ['-'] + hash) == s;
    LastPieceAfter(owner, '-', repo);
    assert s == owner + ['-'] + repo;
    assert StripVersion(s) == s && StripBranch(s) == s;
    assert '.' !in s;
    SplitWithoutSeparator(owner, '-');
    assert Split(s, '-') == [owner, repo];
  }

  /** `repo-version` (a release download) gives `repo`. */
  lemma DeriveFromVersionSuffix(repo: string, version: string)
    requires IsRepoName(repo)
    requires IsVersionNumber(version) && !IsCommitHash(version)
    ensures DeriveSlug(repo + "-" + version) == repo
  {
    VersionNumberHasNoDash(version);
    LastPieceAfter(repo, '-', version);
    SplitWithoutSeparator(repo, '-');
    JoinSplit(repo, '-');
    assert repo + "-" + version == repo + ['-'] + version;
  }

  /** `owner.repo` gives `repo`. */
  lemma DeriveFromOwnerDotRepo(owner: string, repo: string)
    requires '-' !in owner && IsRepoName(repo)
    ensures DeriveSlug(owner + "." + repo) == repo
  {
    var s := owner + "." + repo;
    assert s == owner + ['.'] + repo;
    LastPieceAfter(owner, '.', repo);
    assert '-' !in s;
  }

  predicate IsWordChar(c: char) {
    'a' <= c <= 'z' || 'A' <= c <= 'Z' || '0' <= c <= '9' || c == '_' || c == '-'
  }

  /** `[a-zA-Z0-9_-]+` over the whole string. */
  predicate AllWord(s: string) {
    |s| > 0 && forall i :: 0 <= i < |s| ==> IsWordChar(s[i])
  }

  /** `[a-zA-Z0-9_.-]+` over the whole string. */
  predicate AllWordOrDot(s: string) {
    |s| > 0 && forall i :: 0 <= i < |s| ==> IsWordChar(s[i]) || s[i] == '.'
  }

  /**
   * The owner ends before the dot at `i`, the repository runs from after it
   * to `j`, and what follows is nothing or a dash and a suffix that may hold dots.
   */
  predicate OwnerDotRepoAt(s: string, i: int, j: int) {
    0 < i < j <= |s| && s[i] == '.' && AllWord(s[..i]) && AllWord(s[i + 1..j]) &&
    (j == |s| || (s[j] == '-' && AllWordOrDot(s[j + 1..])))
  }

  /** `preg_match('/^[a-zA-Z0-9_-]+\.[a-zA-Z0-9_-]+(-[a-zA-Z0-9_.-]+)?$/', $name)`. */
  predicate IsOwnerDotRepo(s: string) {
    exists i, j | 0 < i < j <= |s| :: OwnerDotRepoAt(s, i, j)
  }

  /**
   * The directory-name test of `maybe_restructure_github_package`: only a
   * name with a dash or a dot (`widgets` never) is taken for a GitHub download.
   */
  function IsGithubDirName(name: string): (b: bool)
    ensures b ==> '-' in name || '.' in name
  {
    PlainNameMatchesNoPattern(name);
    HasHashSuffix(name) || Contains(name, "-master") || Contains(name, "-main") || Contains(name, "-v")
    || IsOwnerDotRepo(name)
  }

  /** A commit download name `owner-repo-hash` is recognised by its hash suffix. */
  lemma HashNameIsGithubDirName(owner: string, repo: string, hash: string)
    requires IsCommitHash(hash)
    ensures IsGithubDirName(owner + "-" + repo + "-" + hash)
  {
    var s := owner + "-" + repo;
    assert owner + "-" + repo + "-" + hash == s + ['-'] + hash;
    assert '-' !in hash;
    LastPieceAfter(s, '-', hash);
    assert (s + ['-'] + hash)[|s|] == '-';
  }

  /** A release download name `repo-vVERSION` is recognised by its `-v`. */
  lemma VersionNameIsGithubDirName(repo: string, version: string)
    ensures IsGithubDirName(repo + "-v" + version)
  {
    var s := repo + "-v" + version;
    assert s[|repo|..|repo| + 2] == "-v";
    assert OccursAt(s, "-v", |repo|);
    ContainsAt(s, "-v");
  }

  /** An `owner.repo` name made of word characters is recognised. */
  lemma OwnerDotRepoIsGithubDirName(owner: string, repo: string)
    requires AllWord(owner) && AllWord(repo)
    ensures IsGithubDirName(owner + "." + repo)
  {
    var s := owner + "." + repo;
    var i := |owner|;
    assert s[..i] == owner && s[i + 1..|s|] == repo;
    assert s[i] == '.';
    var j := |s|;
    assert OwnerDotRepoAt(s, i, j);
  }

  /** A name with neither a dash nor a dot matches none of the download patterns. */
  lemma PlainNameMatchesNoPattern(name: string)
    ensures '-' !in name && '.' !in name ==>
      !Contains(name, "-master") && !Contains(name, "-main") && !Contains(name, "-v") && !IsOwnerDotRepo(name)
  {
    if '-' in name || '.' in name {
      return;
    }
    NoDashNoDashNeedle(name, "master");
    NoDashNoDashNeedle(name, "main");
    NoDashNoDashNeedle(name, "v");
    assert "-" + "master" == "-master" && "-" + "main" == "-main" && "-" + "v" == "-v";
    forall i | 0 <= i < |name| ensures name[i] != '.' {
      assert name[i] in name;
    }
    assert forall i, j :: !OwnerDotRepoAt(name, i, j);
  }

  /** A string without a dash contains nothing that starts with one. */
  lemma NoDashNoDashNeedle(s: string, rest: string)
    requires '-' !in s
    ensures !Contains(s, "-" + rest)
  {
    var needle := "-" + rest;
    forall i | 0 <= i <= |s| - |needle| ensures !OccursAt(s, needle, i) {
      assert s[i] in s;
      assert s[i..i + |needle|][0] == s[i];
    }
    ContainsAt(s, needle);
  }
}
