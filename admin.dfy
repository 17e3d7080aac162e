/**
 * The settings and repository-list maintenance of the admin screen: the
 * token format check of `sanitize_settings`, the per-entry field whitelist
 * of `sanitize_repositories`, and the list updates behind
 * `ajax_add_repository` and `ajax_remove_repository`.
 *
 * `sanitize_text_field` is a parameter. Nonce and capability checks, the
 * JSON replies and the option storage are outside the model; the stored
 * repository list is the field of `RepositoryList`.
 */
module Admin {
  import opened Results
  import opened Text

  // ---------------------------------------------------------------------
  // sanitize_settings
  // ---------------------------------------------------------------------

  predicate IsHexDigitAnyCase(c: char) {
    '0' <= c <= '9' || 'a' <= c <= 'f' || 'A' <= c <= 'F'
  }

  predicate IsAlphanumeric(c: char) {
    '0' <= c <= '9' || 'a' <= c <= 'z' || 'A' <= c <= 'Z'
  }

  /** `/^[a-f0-9]{40}$/i`: a classic 40-character hexadecimal token. */
  predicate IsClassicToken(t: string) {
    |t| == 40 && forall i :: 0 <= i < |t| ==> IsHexDigitAnyCase(t[i])
  }

  /** `/^ghp_[a-zA-Z0-9]{36}$/`: a personal access token with its `ghp_` prefix. */
  predicate IsPersonalToken(t: string) {
    |t| == 40 && t[..4] == "ghp_" && forall i :: 4 <= i < |t| ==> IsAlphanumeric(t[i])
  }

  /** The format check: an empty token, or one of the two token shapes. */
  predicate TokenFormatOk(t: string) {
    PhpEmpty(t) || IsClassicToken(t) || IsPersonalToken(t)
  }

  /** What `sanitize_settings` returns: the stored settings, and whether it raised the invalid-token notice. */
  datatype SettingsOutcome = SettingsOutcome(stored: map<string, string>, invalidTokenNotice: bool)

  /**
   * `sanitize_settings`: only `github_token` is kept, sanitised; a token of
   * the wrong shape raises a notice but is stored all the same.
   */
  function SanitizeSettings(input: map<string, string>, sanitizeText: string -> string): (r: SettingsOutcome)
    ensures "github_token" !in input ==> r == SettingsOutcome(map[], false)
    ensures "github_token" in input ==> r.stored == map["github_token" := sanitizeText(input["github_token"])]
    ensures r.invalidTokenNotice <==> "github_token" in input && !TokenFormatOk(sanitizeText(input["github_token"]))
  {
    if "github_token" in input then
      var token := sanitizeText(input["github_token"]);
      SettingsOutcome(map["github_token" := token], !PhpEmpty(token) && !IsClassicToken(token) && !IsPersonalToken(token))
    else
      SettingsOutcome(map[], false)
  }

  /** `ghp_` and thirty-six letters or digits pass the check. */
  lemma PersonalTokenPasses(body: string)
    requires |body| == 36 && forall i :: 0 <= i < |body| ==> IsAlphanumeric(body[i])
    ensures TokenFormatOk("ghp_" + body)
  {
    var t := "ghp_" + body;
    assert t[..4] == "ghp_";
    forall i | 4 <= i < |t| ensures IsAlphanumeric(t[i]) {
      assert t[i] == body[i - 4];
    }
  }

  /** A non-empty token of any other length than forty fails, and a stored settings array gets the notice. */
  lemma WrongLengthTokenFails(input: map<string, string>, sanitizeText: string -> string)
    requires "github_token" in input
    requires !PhpEmpty(sanitizeText(input["github_token"])) && |sanitizeText(input["github_token"])| != 40
    ensures SanitizeSettings(input, sanitizeText).invalidTokenNotice
    ensures SanitizeSettings(input, sanitizeText).stored["github_token"] == sanitizeText(input["github_token"])
  {
  }

  // ---------------------------------------------------------------------
  // sanitize_repositories
  // ---------------------------------------------------------------------

  /** A PHP array key. */
  datatype Key = IntKey(i: int) | StringKey(s: string)

  /** A repository entry: field name to value (`type`, `owner`, `name`, `slug`, `file`). */
  type Entry = map<string, string>

  const RepoFields: set<string> := {"type", "owner", "name", "slug", "file"}

  /** One entry after `sanitize_repositories`: the whitelisted fields that were present, sanitised. */
  function WhitelistEntry(fields: Entry, sanitizeText: string -> string): (e: Entry)
    ensures e.Keys == fields.Keys * RepoFields
    ensures forall f :: f in e ==> e[f] == sanitizeText(fields[f])
  {
    map f | f in fields.Keys && f in RepoFields :: sanitizeText(fields[f])
  }

  /** Whitelisting again changes nothing when the sanitiser is idempotent. */
  lemma WhitelistIdempotent(fields: Entry, sanitizeText: string -> string)
    requires forall s :: sanitizeText(sanitizeText(s)) == sanitizeText(s)
    ensures WhitelistEntry(WhitelistEntry(fields, sanitizeText), sanitizeText) == WhitelistEntry(fields, sanitizeText)
  {
    var once := WhitelistEntry(fields, sanitizeText);
    var twice := WhitelistEntry(once, sanitizeText);
    assert twice.Keys == once.Keys;
    forall f | f in twice ensures twice[f] == once[f] {
      assert once[f] == sanitizeText(fields[f]);
    }
  }

  /** `entry` holds exactly the fields of `fields` named in `keep`, sanitised. */
  predicate WhitelistedUpTo(entry: Entry, fields: Entry, keep: set<string>, sanitizeText: string -> string) {
    entry.Keys == fields.Keys * keep && forall f :: f in entry ==> entry[f] == sanitizeText(fields[f])
  }

  /** One `if (isset($repo[f]))` step of `sanitize_repositories`: the field `f` is copied, sanitised, when present. */
  method CopyField(entry: Entry, repo: Entry, f: string, ghost keep: set<string>, sanitizeText: string -> string)
    returns (next: Entry)
    requires WhitelistedUpTo(entry, repo, keep, sanitizeText)
    ensures WhitelistedUpTo(next, repo, keep + {f}, sanitizeText)
  {
    next := entry;
    if f in repo {
      next := entry[f := sanitizeText(repo[f])];
    }
  }

  /** The body of `sanitize_repositories`' loop: each whitelisted field that is present, sanitised. */
  method SanitizeEntry(repo: Entry, sanitizeText: string -> string) returns (entry: Entry)
    ensures entry == WhitelistEntry(repo, sanitizeText)
  {
    entry := map[];
    entry := CopyField(entry, repo, "type", {}, sanitizeText);
    entry := CopyField(entry, repo, "owner", {"type"}, sanitizeText);
    entry := CopyField(entry, repo, "name", {"type", "owner"}, sanitizeText);
    entry := CopyField(entry, repo, "slug", {"type", "owner", "name"}, sanitizeText);
    entry := CopyField(entry, repo, "file", {"type", "owner", "name", "slug"}, sanitizeText);
    assert {"type", "owner", "name", "slug"} + {"file"} == RepoFields;
    var w := WhitelistEntry(repo, sanitizeText);
    assert entry.Keys == w.Keys;
  }

  /**
   * `sanitize_repositories`. `input` is `None` when the submitted value is
   * not an array; an entry that is not an array reaches here as an empty
   * field map. Every key is kept, in order, and each entry is whitelisted.
   */
  method SanitizeRepositories(input: Option<seq<(Key, Entry)>>, sanitizeText: string -> string)
    returns (sanitized: seq<(Key, Entry)>)
    ensures input.None? ==> sanitized == []
    ensures input.Some? ==> |sanitized| == |input.value|
    ensures input.Some? ==> forall i :: 0 <= i < |sanitized| ==>
      sanitized[i].0 == input.value[i].0 && sanitized[i].1 == WhitelistEntry(input.value[i].1, sanitizeText)
    // No field outside the whitelist survives
    ensures forall i :: 0 <= i < |sanitized| ==> sanitized[i].1.Keys <= RepoFields
  {
    sanitized := [];
    if input.Some? {
      var items := input.value;
      var k := 0;
      while k < |items|
        invariant 0 <= k <= |items|
        invariant |sanitized| == k
        invariant forall i :: 0 <= i < k ==>
          sanitized[i].0 == items[i].0 && sanitized[i].1 == WhitelistEntry(items[i].1, sanitizeText)
      {
        var entry := SanitizeEntry(items[k].1, sanitizeText);
        sanitized := sanitized + [(items[k].0, entry)];
        k := k + 1;
      }
    }
  }

  // ---------------------------------------------------------------------
  // ajax_add_repository and ajax_remove_repository
  // ---------------------------------------------------------------------

  /** The entry `ajax_add_repository` appends. */
  function NewEntry(typ: string, owner: string, name: string, slug: string, file: string): Entry {
    map["type" := typ, "owner" := owner, "name" := name, "slug" := slug, "file" := file]
  }

  /** The refusal `ajax_add_repository` answers with, if any. */
  function AddRefusal(typ: string, owner: string, name: string, slug: string, file: string): (r: Option<string>)
    ensures r.None? <==>
      !PhpEmpty(typ) && !PhpEmpty(owner) && !PhpEmpty(name) &&
      (typ == "theme" ==> !PhpEmpty(slug)) && (typ == "plugin" ==> !PhpEmpty(file))
    ensures PhpEmpty(typ) || PhpEmpty(owner) || PhpEmpty(name) ==> r == Some("Required fields are missing.")
    ensures !PhpEmpty(typ) && !PhpEmpty(owner) && !PhpEmpty(name) && typ == "theme" && PhpEmpty(slug) ==>
      r == Some("Theme slug is required.")
    ensures !PhpEmpty(typ) && !PhpEmpty(owner) && !PhpEmpty(name) && typ == "plugin" && PhpEmpty(file) ==>
      r == Some("Plugin file is required.")
  {
    if PhpEmpty(typ) || PhpEmpty(owner) || PhpEmpty(name) then Some("Required fields are missing.")
    else if typ == "theme" && PhpEmpty(slug) then Some("Theme slug is required.")
    else if typ == "plugin" && PhpEmpty(file) then Some("Plugin file is required.")
    else None
  }

  /** The list after `unset($repositories[$index])` and `array_values`. */
  function Removed(s: seq<Entry>, index: int): (r: seq<Entry>)
    requires 0 <= index < |s|
    ensures |r| == |s| - 1
    ensures forall j :: 0 <= j < |r| ==> r[j] == if j < index then s[j] else s[j + 1]
    ensures multiset(r) + multiset{s[index]} == multiset(s)
  {
    assert s == s[..index] + [s[index]] + s[index + 1..];
    s[..index] + s[index + 1..]
  }

  /** Removing the entry just appended restores the list. */
  lemma RemoveUndoesAdd(s: seq<Entry>, e: Entry)
    ensures Removed(s + [e], |s|) == s
  {
  }

  /** Removing keeps the other entries in their order: each one that was after the index moves down by one. */
  lemma RemovedKeepsOrder(s: seq<Entry>, index: int, j: int, k: int)
    requires 0 <= index < |s|
    requires 0 <= j < k < |s| && j != index && k != index
    ensures var r := Removed(s, index);
      var j' := if j < index then j else j - 1;
      var k' := if k < index then k else k - 1;
      j' < k' && r[j'] == s[j] && r[k'] == s[k]
  {
  }

  /**
   * Every entry is already what `sanitize_repositories` would make of it, so
   * the sanitize callback `update_option` runs leaves the list as it is.
   */
  ghost predicate IsClean(s: seq<Entry>, sanitizeText: string -> string) {
    forall i :: 0 <= i < |s| ==> WhitelistEntry(s[i], sanitizeText) == s[i]
  }

  /**
   * An entry whose fields the sanitiser leaves as they are (each field of
   * `ajax_add_repository` is sanitised already, or "" when missing),
   * appended to a clean list, leaves it clean.
   */
  lemma AddKeepsClean(s: seq<Entry>, typ: string, owner: string, name: string, slug: string, file: string,
                      sanitizeText: string -> string)
    requires sanitizeText(typ) == typ && sanitizeText(owner) == owner && sanitizeText(name) == name
    requires sanitizeText(slug) == slug && sanitizeText(file) == file
    requires IsClean(s, sanitizeText)
    ensures IsClean(s + [NewEntry(typ, owner, name, slug, file)], sanitizeText)
  {
    var e := NewEntry(typ, owner, name, slug, file);
    var w := WhitelistEntry(e, sanitizeText);
    assert e.Keys == RepoFields;
    forall f | f in w ensures w[f] == e[f] {
      assert e[f] in {typ, owner, name, slug, file};
    }
    assert w == e;
    var s' := s + [e];
    forall i | 0 <= i < |s'| ensures WhitelistEntry(s'[i], sanitizeText) == s'[i] {
      if i < |s| {
        assert s'[i] == s[i];
      }
    }
  }

  /** Removing an entry from a clean list leaves it clean. */
  lemma RemoveKeepsClean(s: seq<Entry>, index: int, sanitizeText: string -> string)
    requires 0 <= index < |s|
    requires IsClean(s, sanitizeText)
    ensures IsClean(Removed(s, index), sanitizeText)
  {
    var r := Removed(s, index);
    forall j | 0 <= j < |r| ensures WhitelistEntry(r[j], sanitizeText) == r[j] {
      assert r[j] == if j < index then s[j] else s[j + 1];
    }
  }

  /** The stored repository list (`dd_github_updates_repositories`), always a list indexed from 0. */
  class RepositoryList {
    var repositories: seq<Entry>

    constructor (initial: seq<Entry>)
      ensures repositories == initial
    {
      repositories := initial;
    }

    /**
     * `ajax_add_repository` once its inputs are sanitised (a missing field is
     * ""): refused with a message, or one entry appended at the end.
     */
    method Add(typ: string, owner: string, name: string, slug: string, file: string) returns (refusal: Option<string>)
      modifies this
      ensures refusal == AddRefusal(typ, owner, name, slug, file)
      ensures refusal.Some? ==> repositories == old(repositories)
      ensures refusal.None? ==> repositories == old(repositories) + [NewEntry(typ, owner, name, slug, file)]
    {
      if PhpEmpty(typ) || PhpEmpty(owner) || PhpEmpty(name) {
        return Some("Required fields are missing.");
      }
      if typ == "theme" && PhpEmpty(slug) {
        return Some("Theme slug is required.");
      }
      if typ == "plugin" && PhpEmpty(file) {
        return Some("Plugin file is required.");
      }
      repositories := repositories + [NewEntry(typ, owner, name, slug, file)];
      refusal := None;
    }

    /**
     * `ajax_remove_repository` once `intval` has read the index (a missing
     * index is -1): refused, or the entry removed and the rest reindexed.
     */
    method Remove(index: int) returns (refusal: Option<string>)
      modifies this
      ensures index < 0 ==> refusal == Some("Invalid repository index.")
      ensures index >= 0 && index >= |old(repositories)| ==> refusal == Some("Repository not found.")
      ensures refusal.Some? ==> repositories == old(repositories)
      ensures refusal.None? <==> 0 <= index < |old(repositories)|
      ensures refusal.None? ==> repositories == Removed(old(repositories), index)
    {
      if index < 0 {
        return Some("Invalid repository index.");
      }
      if index >= |repositories| {
        return Some("Repository not found.");
      }
      // `unset` then `array_values`: copy every entry but the removed one
      var kept: seq<Entry> := [];
      var j := 0;
      while j < |repositories|
        invariant 0 <= j <= |repositories|
        invariant kept == if j <= index then repositories[..j] else repositories[..index] + repositories[index + 1..j]
      {
        if j != index {
          kept := kept + [repositories[j]];
        }
        j := j + 1;
      }
      assert repositories[index + 1..|repositories|] == repositories[index + 1..];
      repositories := kept;
      refusal := None;
    }
  }
}
