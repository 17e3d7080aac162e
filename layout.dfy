/**
 * How `restructure_flat_repository` reads the top level of an extracted
 * package: whether the package marker sits at the root (a flat repository),
 * in a sub-directory named after the slug (already correct), or in the one
 * and only sub-directory under another name (misnamed); and which root
 * entries survive the flat restructure.
 */
module Layout {
  import opened Text
  import opened FileTree

  /** The package type as the installer compares it: `'theme'`, `'plugin'`, or anything else. */
  datatype Kind = Theme | Plugin | OtherKind

  function KindOf(typ: string): (k: Kind)
    ensures k == Theme <==> typ == "theme"
    ensures k == Plugin <==> typ == "plugin"
  {
    if typ == "theme" then Theme else if typ == "plugin" then Plugin else OtherKind
  }

  /** `pathinfo($name, PATHINFO_EXTENSION)`: the text after the last dot, or "" without one. */
  function Extension(name: string): string {
    if '.' in name then LastPiece(name, '.') else ""
  }

  /** A name with extension `php` ends with ".php". */
  lemma PhpExtensionEndsWith(name: string)
    requires Extension(name) == "php"
    ensures EndsWith(name, ".php")
  {
    EndsWithLastPiece(name, '.');
    assert ['.'] + "php" == ".php";
  }

  /** A plugin's main file as the installer recognises it: a `.php` file whose text holds `Plugin Name:`. */
  predicate IsPluginMainFile(name: string, n: Node) {
    n.File? && Extension(name) == "php" && Contains(n.contents, "Plugin Name:")
  }

  /**
   * The directory with entries `m` holds the package marker: an entry named
   * `style.css` (file or not, as `exists()` sees it) for a theme; a plugin
   * main file for a plugin; never for any other type.
   */
  predicate HoldsMarker(kind: Kind, m: map<string, Node>) {
    match kind
    case Theme => "style.css" in m
    case Plugin => exists x :: x in m && IsPluginMainFile(x, m[x])
    case OtherKind => false
  }

  /** The names of the sub-directories among the entries `m`. */
  function Dirs(m: map<string, Node>): set<string> {
    set x | x in m && m[x].Dir?
  }

  /** `$is_flat`: the marker is at the root. */
  predicate IsFlat(kind: Kind, m: map<string, Node>) {
    HoldsMarker(kind, m)
  }

  /** `$has_nested_structure`: not flat, and some sub-directory holds the marker. */
  predicate HasNested(kind: Kind, m: map<string, Node>) {
    !IsFlat(kind, m) && exists d :: d in m && m[d].Dir? && HoldsMarker(kind, m[d].entries)
  }

  /** `$has_correct_structure`: not flat, and the sub-directory named `slug` holds the marker. */
  predicate HasCorrect(kind: Kind, slug: string, m: map<string, Node>) {
    !IsFlat(kind, m) && slug in m && m[slug].Dir? && HoldsMarker(kind, m[slug].entries)
  }

  /** The three ways the restructure goes. */
  datatype Shape =
    | NestedCorrect               // returned as it is
    | NestedMisnamed(dir: string) // the only directory is moved under the slug
    | NeedsRestructure            // flat, or nothing recognised: the root entries are moved under the slug

  /** Which way the restructure goes for a package of type `kind` whose root holds `m`. */
  ghost function Classify(kind: Kind, slug: string, m: map<string, Node>): (s: Shape)
    ensures s.NestedMisnamed? ==>
      Dirs(m) == {s.dir} && s.dir != slug && !IsFlat(kind, m) && HoldsMarker(kind, m[s.dir].entries)
    ensures s == NestedCorrect <==> HasCorrect(kind, slug, m)
  {
    if HasCorrect(kind, slug, m) then NestedCorrect
    else if HasNested(kind, m) && |Dirs(m)| == 1 then
      var d :| d in Dirs(m);
      OnlyMember(Dirs(m), d);
      var e :| e in m && m[e].Dir? && HoldsMarker(kind, m[e].entries);
      assert e in Dirs(m);
      NestedMisnamed(d)
    else NeedsRestructure
  }

  /** The value of a string of decimal digits. */
  function DigitsValue(s: string): nat
    requires forall i :: 0 <= i < |s| ==> IsDigit(s[i])
  {
    if s == [] then 0
    else
      assert IsDigit(s[|s| - 1]);
      DigitsValue(s[..|s| - 1]) * 10 + (s[|s| - 1] as int - '0' as int)
  }

  /** One or more decimal digits, the first of them not zero. */
  predicate IsCanonicalNumber(s: string) {
    IsDigits(s) && s[0] != '0'
  }

  /**
   * A name PHP stores as an integer when it is an array key, as the names
   * `dirlist()` returns are: "0", or a decimal number without a leading
   * zero, possibly negative, within the 64-bit range.
   */
  predicate IsIntegerKey(s: string) {
    s == "0"
    || (IsCanonicalNumber(s) && DigitsValue(s) <= 0x7fff_ffff_ffff_ffff)
    || (|s| > 1 && s[0] == '-' && IsCanonicalNumber(s[1..]) && DigitsValue(s[1..]) <= 0x8000_0000_0000_0000)
  }

  /** An integer key starts with a digit or a minus sign. */
  lemma IntegerKeyStart(s: string)
    requires IsIntegerKey(s)
    ensures |s| > 0 && (IsDigit(s[0]) || s[0] == '-')
  {
  }

  /** `2048` is an integer key. */
  lemma NumberIsIntegerKey()
    ensures IsIntegerKey("2048")
  {
    var s := "2048";
    assert IsDigits(s) && s[0] != '0';
    assert s[..3] == "204" && "204"[..2] == "20" && "20"[..1] == "2" && "2"[..0] == "";
    assert DigitsValue("2") == 2;
    assert DigitsValue("20") == 20;
    assert DigitsValue("204") == 204;
    assert DigitsValue(s) == 2048;
  }

  /**
   * `$has_correct_structure` as written: `$dir === $slug` compares a
   * directory name read from `dirlist()`'s keys, an integer for a name such
   * as `2048`, with the slug string, so such a slug never matches.
   */
  predicate HasCorrectAsWritten(kind: Kind, slug: string, m: map<string, Node>) {
    HasCorrect(kind, slug, m) && !IsIntegerKey(slug)
  }

  /**
   * How the restructure reads a package as written. It reads it as
   * `Classify` does unless the slug is an integer key; then a package
   * already nested under the slug is taken for a misnamed one when the slug
   * directory is the only directory, and for an unrecognised one otherwise.
   */
  ghost function ClassifyAsWritten(kind: Kind, slug: string, m: map<string, Node>): (s: Shape)
    ensures s == NestedCorrect <==> HasCorrectAsWritten(kind, slug, m)
    ensures !IsIntegerKey(slug) ==> s == Classify(kind, slug, m)
  {
    if IsIntegerKey(slug) && HasCorrect(kind, slug, m) then
      if |Dirs(m)| == 1 then NestedMisnamed(slug) else NeedsRestructure
    else Classify(kind, slug, m)
  }

  /**
   * As written, a package already nested under a numeric slug such as
   * `2048` is not left alone. Beside another directory it goes through the
   * flat restructure, and what that leaves, the slug directory inside the
   * slug directory, is not recognised either: every run nests it one level
   * deeper.
   */
  lemma NumericSlugNestsAgainAsWritten(kind: Kind, slug: string, m: map<string, Node>)
    requires IsIntegerKey(slug) && HasCorrect(kind, slug, m)
    ensures Classify(kind, slug, m) == NestedCorrect
    ensures |Dirs(m)| >= 2 ==> ClassifyAsWritten(kind, slug, m) == NeedsRestructure
    ensures ClassifyAsWritten(kind, slug, map[slug := Dir(KeepEntries(m))]) == NeedsRestructure
  {
    var k := KeepEntries(m);
    var root := map[slug := Dir(k)];
    IntegerKeyStart(slug);
    assert !IsFlat(kind, root) by {
      if kind == Theme {
        assert "style.css"[0] == 's';
      } else if kind == Plugin {
        forall y | y in root ensures !IsPluginMainFile(y, root[y]) {
        }
      }
    }
    assert !HoldsMarker(kind, k) by {
      if kind == Plugin {
        forall y | y in k ensures !IsPluginMainFile(y, k[y]) {
          assert y in m && k[y] == m[y];
        }
      }
    }
    assert !HasNested(kind, root);
  }

  /** A set of one element is that element alone. */
  lemma OnlyMember<T>(s: set<T>, x: T)
    requires |s| == 1 && x in s
    ensures s == {x}
  {
    assert |s - {x}| == 0;
  }

  const VcsDirs: set<string> := {".git", ".github", ".gitlab", ".svn", ".hg", "node_modules", "vendor"}
  const GithubFiles: set<string> := {"README.md", "LICENSE", "CHANGELOG.md", "composer.json", "package.json"}
  const ImportantFiles: set<string> := {"style.css", "functions.php", "index.php", "screenshot.png", "readme.txt"}

  /**
   * The flat restructure copies a root entry unless it is hidden (its name
   * starts with a dot) or a VCS/dependency directory, and unless it is a
   * GitHub housekeeping file that is not also an important WordPress file.
   */
  predicate Kept(name: string) {
    !(StartsWith(name, ".") || name in VcsDirs) && (name !in GithubFiles || name in ImportantFiles)
  }

  /**
   * No important file is a GitHub housekeeping file and every VCS name but
   * two is hidden, so an entry is kept exactly when it is not hidden, not
   * `node_modules` or `vendor`, and not one of the five GitHub files.
   */
  lemma KeptExactly(name: string)
    ensures Kept(name) <==>
      !StartsWith(name, ".") && name != "node_modules" && name != "vendor" && name !in GithubFiles
  {
    assert GithubFiles * ImportantFiles == {};
    if name in VcsDirs && name != "node_modules" && name != "vendor" {
      assert name[..1] == ".";
    }
  }

  /** The root entries the flat restructure copies. */
  function KeepEntries(m: map<string, Node>): (k: map<string, Node>)
    ensures forall x :: x in k <==> x in m && Kept(x)
    ensures forall x :: x in k ==> k[x] == m[x]
  {
    map x | x in m && Kept(x) :: m[x]
  }

  /**
   * A flat theme that was restructured under `slug` reads as already
   * correct: `style.css` is kept, so it now sits in `slug/`. Unless the slug
   * is itself `style.css`, which would make the new root look flat again.
   */
  lemma FlatThemeBecomesCorrect(m: map<string, Node>, slug: string)
    requires IsFlat(Theme, m)
    requires slug != "style.css"
    ensures Classify(Theme, slug, map[slug := Dir(KeepEntries(m))]) == NestedCorrect
  {
    assert "style.css"[..1] == "s";
    assert Kept("style.css");
  }

  /**
   * A flat plugin restructured under `slug` reads as already correct, as
   * long as one of its main files is not hidden (a hidden one is dropped).
   */
  lemma FlatPluginBecomesCorrect(m: map<string, Node>, slug: string, x: string)
    requires x in m && IsPluginMainFile(x, m[x]) && !StartsWith(x, ".")
    ensures Classify(Plugin, slug, map[slug := Dir(KeepEntries(m))]) == NestedCorrect
  {
    PhpExtensionEndsWith(x);
    KeptExactly(x);
    assert x != "node_modules" && x != "vendor" && x !in GithubFiles by {
      assert EndsWith(x, ".php");
    }
    var k := KeepEntries(m);
    assert x in k && IsPluginMainFile(x, k[x]);
    var root := map[slug := Dir(k)];
    assert !IsFlat(Plugin, root) by {
      forall y | y in root ensures !IsPluginMainFile(y, root[y]) {
      }
    }
  }

  /**
   * A misnamed package moved under `slug` reads as already correct (again
   * unless a theme's slug is `style.css`).
   */
  lemma MisnamedBecomesCorrect(kind: Kind, m: map<string, Node>, slug: string, d: string)
    requires Classify(kind, slug, m) == NestedMisnamed(d)
    requires !(kind == Theme && slug == "style.css")
    ensures Classify(kind, slug, map[slug := m[d]]) == NestedCorrect
  {
    var root := map[slug := m[d]];
    assert m[d].Dir?;
    assert !IsFlat(kind, root) by {
      if kind == Plugin {
        forall y | y in root ensures !IsPluginMainFile(y, root[y]) {
        }
      }
    }
  }
}
