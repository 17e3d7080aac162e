/**
 * The installer's filesystem work: the helpers `copy_dir`, `recursive_copy`
 * and `recursive_rmdir`, the package-layout normaliser
 * `restructure_flat_repository`, and `maybe_restructure_github_package`,
 * which decides whether to run it and with which slug.
 */
module Installer {
  import opened Results
  import opened Text
  import opened FileTree
  import opened Filesystem
  import opened Layout
  import opened Slug

  /**
   * One step of `copy_dir` and of the flat restructure: the entry `x` of
   * `src` (a directory when the listing says so) is copied to `dst/x`, a
   * directory by `mkdir` and `copy_dir`, a file by WordPress's `copy`.
   */
  method CopyEntry(fs: FileSystem, src: Path, dst: Path, x: string, entry: Node)
    requires Disjoint(src, dst)
    requires Get(fs.root, src + [x]) == Some(entry)
    modifies fs
    ensures fs.root == CopiedInto(old(fs.root), Dir(map[x := entry]), dst, fs.denied, false)
    decreases entry, 2
  {
    ghost var t0 := fs.root;
    DisjointBelow(src, dst, [x], [x]);
    GetChild(t0, dst, x);
    assert Parent(dst + [x]) == dst;
    if entry.Dir? {
      var made := fs.Mkdir(dst + [x]);
      ghost var t1 := fs.root;
      GetPutDisjoint(t0, dst + [x], Dir(map[]), src + [x]);
      CopyDir(fs, src + [x], dst + [x], entry);
      CopyEntryDirCase(fs.denied, t0, t1, fs.root, dst, x, entry);
    } else {
      var _ := fs.Copy(src + [x], dst + [x], false);
      CopyEntryFileCase(fs.denied, t0, fs.root, dst, x, entry);
    }
  }

  /** The proof of `CopyEntry` for a directory entry. */
  lemma CopyEntryDirCase(denied: set<Path>, t0: Node, t1: Node, t2: Node, dst: Path, x: string, entry: Node)
    requires entry.Dir?
    requires t1 == (if Get(t0, dst + [x]) == None && Placeable(t0, dst + [x]) && dst + [x] !in denied
                    then Put(t0, dst + [x], Dir(map[])) else t0)
    requires t2 == CopiedInto(t1, entry, dst + [x], denied, false)
    ensures t2 == CopiedInto(t0, Dir(map[x := entry]), dst, denied, false)
  {
    var c := dst + [x];
    assert Parent(c) == dst;
    GetChild(t0, dst, x);
    if IsDir(Get(t0, dst)) {
      var dm := Get(t0, dst).value.entries;
      CopyIntoSingle(dm, x, entry, dst, denied, false);
      var merged := Merged(Lookup(dm, x), entry, c, denied, false);
      if x !in dm && c !in denied {
        CopyEntryDirFresh(denied, t0, dst, dm, x, entry);
      } else if x in dm && dm[x].Dir? {
        PutChild(t0, dst, dm, x, Dir(CopyInto(dm[x].entries, entry, c, denied, false)));
      } else {
        assert SetEntry(dm, x, merged) == dm;
        PutGet(t0, dst, Dir(dm));
      }
    } else {
      GetBelowNonDir(t0, dst, [x]);
    }
  }

  /** The directory case when nothing is at `dst/x` yet: `mkdir` then the copy into the empty directory. */
  lemma CopyEntryDirFresh(denied: set<Path>, t0: Node, dst: Path, dm: map<string, Node>, x: string, entry: Node)
    requires entry.Dir?
    requires Get(t0, dst) == Some(Dir(dm)) && x !in dm && dst + [x] !in denied
    ensures CopiedInto(Put(t0, dst + [x], Dir(map[])), entry, dst + [x], denied, false)
         == Put(t0, dst, Dir(SetEntry(dm, x, Merged(None, entry, dst + [x], denied, false))))
    ensures Get(t0, dst + [x]) == None && Placeable(t0, dst + [x])
  {
    var c := dst + [x];
    assert Parent(c) == dst;
    GetChild(t0, dst, x);
    PutChild(t0, dst, dm, x, Dir(map[]));
    assert Placeable(t0, c);
    GetPutSame(t0, c, Dir(map[]));
    var inner := Dir(CopyInto(map[], entry, c, denied, false));
    PutChild(t0, dst, dm, x, inner);
    PutPut(t0, c, Dir(map[]), inner);
  }

  /** The proof of `CopyEntry` for a file entry. */
  lemma CopyEntryFileCase(denied: set<Path>, t0: Node, t1: Node, dst: Path, x: string, entry: Node)
    requires entry.File?
    requires t1 == (if Placeable(t0, dst + [x]) && Get(t0, dst + [x]) == None then Put(t0, dst + [x], entry) else t0)
    ensures t1 == CopiedInto(t0, Dir(map[x := entry]), dst, denied, false)
  {
    var c := dst + [x];
    assert Parent(c) == dst;
    GetChild(t0, dst, x);
    if IsDir(Get(t0, dst)) {
      var dm := Get(t0, dst).value.entries;
      CopyIntoSingle(dm, x, entry, dst, denied, false);
      if x !in dm {
        PutChild(t0, dst, dm, x, entry);
      } else {
        assert SetEntry(dm, x, Some(dm[x])) == dm;
        PutGet(t0, dst, Dir(dm));
      }
    }
  }

  /**
   * `copy_dir`: copies every entry of the directory `src` into the
   * directory `dst`, recursively, without overwriting anything. A missing
   * source copies nothing; every call passes a directory.
   */
  method CopyDir(fs: FileSystem, src: Path, dst: Path, ghost sn: Node)
    requires Disjoint(src, dst)
    requires Get(fs.root, src) == None || (Get(fs.root, src) == Some(sn) && sn.Dir?)
    modifies fs
    ensures fs.root == CopyDirResult(old(fs.root), src, dst, fs.denied, false)
    decreases sn, 1
  {
    ghost var t0 := fs.root;
    var listing := fs.Dirlist(src);
    var names := listing.Keys;
    ghost var copied: map<string, Node> := map[];
    CopiedIntoNothing(t0, dst, fs.denied, false);
    while names != {}
      invariant names !! copied.Keys && names + copied.Keys == listing.Keys
      invariant forall y :: y in copied ==> y in listing && copied[y] == listing[y]
      invariant fs.root == CopiedInto(t0, Dir(copied), dst, fs.denied, false)
      decreases names
    {
      var x :| x in names;
      assert Get(fs.root, src + [x]) == Some(listing[x]) by {
        GetChild(t0, src, x);
        DisjointBelow(src, dst, [x], []);
        assert dst + [] == dst;
        if IsDir(Get(t0, dst)) {
          GetPutDisjoint(t0, dst, Dir(CopyInto(Get(t0, dst).value.entries, Dir(copied), dst, fs.denied, false)), src + [x]);
        }
      }
      assert listing[x] == sn.entries[x];
      CopyEntry(fs, src, dst, x, listing[x]);
      CopiedIntoUnion(t0, copied, map[x := listing[x]], dst, fs.denied, false);
      assert copied + map[x := listing[x]] == copied[x := listing[x]];
      copied := copied[x := listing[x]];
      names := names - {x};
    }
    assert copied == listing;
  }

  /**
   * `recursive_copy` as meant: creates `dst` with `wp_mkdir_p`, then copies
   * every entry of the directory `src` into it, subdirectories recursively
   * and files with PHP's overwriting `copy`. The source's `readdir` loop
   * visits fewer entries; see `ReaddirNamesAsWritten`.
   */
  method RecursiveCopy(fs: FileSystem, src: Path, dst: Path, ghost sn: Node)
    requires Disjoint(src, dst)
    requires Get(fs.root, src) == Some(sn) && sn.Dir?
    modifies fs
    ensures fs.root == CopiedInto(MakePath(old(fs.root), dst, fs.denied), sn, dst, fs.denied, true)
    decreases sn
  {
    var _ := fs.MkdirP(dst);
    ghost var t0 := fs.root;
    MakePathFrame(old(fs.root), dst, fs.denied, src);
    MakePathIdempotent(old(fs.root), dst, fs.denied);
    var listing := fs.Dirlist(src);
    var names := listing.Keys;
    ghost var copied: map<string, Node> := map[];
    CopiedIntoNothing(t0, dst, fs.denied, true);
    while names != {}
      invariant names !! copied.Keys && names + copied.Keys == listing.Keys
      invariant forall y :: y in copied ==> y in listing && copied[y] == listing[y]
      invariant fs.root == CopiedInto(t0, Dir(copied), dst, fs.denied, true)
      decreases names
    {
      var x :| x in names;
      ghost var before := fs.root;
      assert Get(fs.root, src + [x]) == Some(listing[x]) by {
        GetChild(t0, src, x);
        DisjointBelow(src, dst, [x], []);
        assert dst + [] == dst;
        if IsDir(Get(t0, dst)) {
          GetPutDisjoint(t0, dst, Dir(CopyInto(Get(t0, dst).value.entries, Dir(copied), dst, fs.denied, true)), src + [x]);
        }
      }
      DisjointBelow(src, dst, [x], [x]);
      var isDir := fs.IsDirectory(src + [x]);
      if isDir {
        RecursiveCopy(fs, src + [x], dst + [x], listing[x]);
        RecursiveCopyStep(fs.denied, t0, copied, before, fs.root, dst, x, listing[x]);
      } else {
        var _ := fs.Copy(src + [x], dst + [x], true);
        CopyFileStep(fs.denied, t0, copied, before, fs.root, dst, x, listing[x]);
      }
      CopiedIntoUnion(t0, copied, map[x := listing[x]], dst, fs.denied, true);
      assert copied + map[x := listing[x]] == copied[x := listing[x]];
      copied := copied[x := listing[x]];
      names := names - {x};
    }
    assert copied == listing;
  }

  /** The proof of one subdirectory step of `RecursiveCopy`. */
  lemma RecursiveCopyStep(denied: set<Path>, t0: Node, copied: map<string, Node>, before: Node, after: Node, dst: Path, x: string, e: Node)
    requires e.Dir?
    requires MakePath(t0, dst, denied) == t0
    requires before == CopiedInto(t0, Dir(copied), dst, denied, true)
    requires after == CopiedInto(MakePath(before, dst + [x], denied), e, dst + [x], denied, true)
    requires x !in copied
    ensures after == CopiedInto(before, Dir(map[x := e]), dst, denied, true)
  {
    var c := dst + [x];
    assert Parent(c) == dst;
    if IsDir(Get(t0, dst)) {
      var dm := CopyInto(Get(t0, dst).value.entries, Dir(copied), dst, denied, true);
      ExistingIsPlaceable(t0, dst);
      GetPutSame(t0, dst, Dir(dm));
      assert Get(before, dst) == Some(Dir(dm));
      MakePathChild(before, dst, denied, x);
      GetChild(before, dst, x);
      CopyIntoSingle(dm, x, e, dst, denied, true);
      var mid := MakePath(before, c, denied);
      if x !in dm && c !in denied {
        PutChild(before, dst, dm, x, Dir(map[]));
        assert Placeable(before, c);
        GetPutSame(before, c, Dir(map[]));
        var inner := Dir(CopyInto(map[], e, c, denied, true));
        PutChild(before, dst, dm, x, inner);
        PutPut(before, c, Dir(map[]), inner);
      } else if x in dm && dm[x].Dir? {
        PutChild(before, dst, dm, x, Dir(CopyInto(dm[x].entries, e, c, denied, true)));
      } else {
        assert SetEntry(dm, x, Merged(Lookup(dm, x), e, c, denied, true)) == dm;
        PutGet(before, dst, Dir(dm));
      }
    } else {
      assert before == t0;
      MakePathChildFailed(t0, dst, denied, x);
      GetBelowNonDir(t0, dst, [x]);
    }
  }

  /** The proof of one file step of `RecursiveCopy`. */
  lemma CopyFileStep(denied: set<Path>, t0: Node, copied: map<string, Node>, before: Node, after: Node, dst: Path, x: string, e: Node)
    requires e.File?
    requires before == CopiedInto(t0, Dir(copied), dst, denied, true)
    requires after == (if Placeable(before, dst + [x]) && (Get(before, dst + [x]) == None || Get(before, dst + [x]).value.File?)
                       then Put(before, dst + [x], e) else before)
    ensures after == CopiedInto(before, Dir(map[x := e]), dst, denied, true)
  {
    var c := dst + [x];
    assert Parent(c) == dst;
    GetChild(before, dst, x);
    if IsDir(Get(before, dst)) {
      var dm := Get(before, dst).value.entries;
      CopyIntoSingle(dm, x, e, dst, denied, true);
      if x !in dm || dm[x].File? {
        PutChild(before, dst, dm, x, e);
      } else {
        assert SetEntry(dm, x, Some(dm[x])) == dm;
        PutGet(before, dst, Dir(dm));
      }
    }
  }

  /**
   * `recursive_rmdir`: removes a directory and everything below it; a path
   * that is no directory is left alone. The fs.root directory is emptied but
   * cannot itself be removed.
   */
  method RecursiveRmdir(fs: FileSystem, dir: Path, ghost dn: Node)
    requires Get(fs.root, dir) == None || Get(fs.root, dir) == Some(dn)
    modifies fs
    ensures IsDir(Get(old(fs.root), dir)) && dir != [] ==> fs.root == Delete(old(fs.root), dir)
    ensures IsDir(Get(old(fs.root), dir)) && dir == [] ==> fs.root == Dir(map[])
    ensures !IsDir(Get(old(fs.root), dir)) ==> fs.root == old(fs.root)
    decreases dn
  {
    var isDir := fs.IsDirectory(dir);
    if !isDir {
      return;
    }
    ghost var t0 := fs.root;
    ghost var dm := dn.entries;
    var objects := fs.Dirlist(dir);
    var names := objects.Keys;
    ExistingIsPlaceable(t0, dir);
    PutGet(t0, dir, dn);
    assert (map y | y in names :: objects[y]) == objects;
    while names != {}
      invariant names <= objects.Keys
      invariant fs.root == Put(t0, dir, Dir(map y | y in names :: objects[y]))
      decreases names
    {
      var x :| x in names;
      var rest := map y | y in names :: objects[y];
      GetPutSame(t0, dir, Dir(rest));
      GetChild(fs.root, dir, x);
      var childIsDir := fs.IsDirectory(dir + [x]);
      if childIsDir {
        RecursiveRmdir(fs, dir + [x], objects[x]);
      } else {
        var _ := fs.Unlink(dir + [x]);
      }
      DeleteChild(Put(t0, dir, Dir(rest)), dir, rest, x);
      PutPut(t0, dir, Dir(rest), Dir(rest - {x}));
      assert rest - {x} == map y | y in names - {x} :: objects[y];
      names := names - {x};
    }
    assert (map y | y in names :: objects[y]) == map[];
    GetPutSame(t0, dir, Dir(map[]));
    var _ := fs.Rmdir(dir);
    if dir != [] {
      DeleteAfterPut(t0, dir, Dir(map[]));
    }
  }

  /**
   * The names `recursive_copy`'s loop `while ($file = readdir($h))` hands to
   * its body, given the order `readdir` returns them in: the loop ends at the
   * first name PHP counts as false, and an entry named "0" is such a name.
   * "." and ".." are skipped by the body.
   */
  function ReaddirNamesAsWritten(listing: seq<string>): (names: seq<string>)
    ensures forall i :: 0 <= i < |names| ==> names[i] != "0" && names[i] != "." && names[i] != ".."
  {
    if listing == [] || listing[0] == "0" then []
    else if listing[0] == "." || listing[0] == ".." then ReaddirNamesAsWritten(listing[1..])
    else [listing[0]] + ReaddirNamesAsWritten(listing[1..])
  }

  /** The names a `readdir` loop that stops only at the end of the listing hands to its body. */
  function ReaddirNames(listing: seq<string>): (names: seq<string>)
    ensures forall i :: 0 <= i < |names| ==> names[i] != "." && names[i] != ".."
  {
    if listing == [] then []
    else if listing[0] == "." || listing[0] == ".." then ReaddirNames(listing[1..])
    else [listing[0]] + ReaddirNames(listing[1..])
  }

  /** Every real entry of the listing reaches the body of the corrected loop. */
  lemma {:induction false} ReaddirNamesComplete(listing: seq<string>, i: nat)
    requires i < |listing| && listing[i] != "." && listing[i] != ".."
    ensures listing[i] in ReaddirNames(listing)
  {
    if i > 0 {
      ReaddirNamesComplete(listing[1..], i - 1);
    }
  }

  /**
   * As written, every entry `readdir` returns after an entry named "0" is
   * never copied, nor is "0" itself: with the order ".", "..", "0", "a",
   * nothing at all is copied although the directory holds "0" and "a".
   */
  lemma ReaddirStopsAtZero()
    ensures ReaddirNamesAsWritten([".", "..", "0", "a"]) == []
    ensures ReaddirNames([".", "..", "0", "a"]) == ["0", "a"]
  {
  }

  // ---------------------------------------------------------------------------
  // restructure_flat_repository: reading the layout

  /** No name appears twice in `s`. */
  predicate Distinct(s: seq<string>) {
    forall i, j :: 0 <= i < j < |s| ==> s[i] != s[j]
  }

  /** A sequence without repeats has as many elements as its set. */
  lemma {:induction false} DistinctCard(s: seq<string>)
    requires Distinct(s)
    ensures |set x | x in s| == |s|
  {
    if s != [] {
      DistinctCard(s[1..]);
      assert (set x | x in s) == (set x | x in s[1..]) + {s[0]};
      assert s[0] !in s[1..];
    }
  }

  /**
   * The plugin branch of the nested-structure check for one sub-directory:
   * whether some `.php` file directly in `dir` holds the plugin header.
   */
  method FindPluginHeader(fs: FileSystem, dir: Path) returns (found: bool)
    requires IsDir(Get(fs.root, dir))
    ensures found <==> HoldsMarker(Plugin, Get(fs.root, dir).value.entries)
  {
    var files := fs.Dirlist(dir);
    var names := files.Keys;
    found := false;
    while names != {} && !found
      invariant names <= files.Keys
      invariant found ==> HoldsMarker(Plugin, files)
      invariant !found ==> forall y :: y in files && y !in names ==> !IsPluginMainFile(y, files[y])
      decreases names
    {
      var x :| x in names;
      if files[x].File? && Extension(x) == "php" {
        GetChild(fs.root, dir, x);
        var content := fs.GetContents(dir + [x]);
        if Contains(content.value, "Plugin Name:") {
          found := true;
        }
      }
      names := names - {x};
    }
  }

  /**
   * The first loop over the listing of `source`: its sub-directories, and the
   * other entries whose extension is `php`.
   */
  method ListEntries(fs: FileSystem, source: Path) returns (directories: seq<string>, phpFiles: seq<string>)
    requires IsDir(Get(fs.root, source))
    ensures var m := Get(fs.root, source).value.entries;
      && (set x | x in directories) == Dirs(m)
      && Distinct(directories)
      && forall y :: y in phpFiles <==> y in m && m[y].File? && Extension(y) == "php"
  {
    var files := fs.Dirlist(source);
    var names := files.Keys;
    directories := [];
    phpFiles := [];
    while names != {}
      invariant names <= files.Keys
      invariant forall i :: 0 <= i < |directories| ==>
        directories[i] in files && files[directories[i]].Dir? && directories[i] !in names
      invariant forall y :: y in files && y !in names && files[y].Dir? ==> y in directories
      invariant Distinct(directories)
      invariant forall y :: y in phpFiles <==>
        y in files && y !in names && files[y].File? && Extension(y) == "php"
      decreases names
    {
      var x :| x in names;
      if files[x].Dir? {
        directories := directories + [x];
      } else if Extension(x) == "php" {
        phpFiles := phpFiles + [x];
      }
      names := names - {x};
    }
  }

  /**
   * The root check for plugins: the `php` files of `source` are read in
   * order until one holds the plugin header.
   */
  method FindRootPluginHeader(fs: FileSystem, source: Path, phpFiles: seq<string>) returns (found: bool)
    requires IsDir(Get(fs.root, source))
    requires forall y :: y in phpFiles <==>
      y in Get(fs.root, source).value.entries && Get(fs.root, source).value.entries[y].File? && Extension(y) == "php"
    ensures found <==> HoldsMarker(Plugin, Get(fs.root, source).value.entries)
  {
    ghost var files := Get(fs.root, source).value.entries;
    found := false;
    var i := 0;
    while i < |phpFiles| && !found
      invariant 0 <= i <= |phpFiles|
      invariant found ==> HoldsMarker(Plugin, files)
      invariant !found ==> forall k :: 0 <= k < i ==> !IsPluginMainFile(phpFiles[k], files[phpFiles[k]])
    {
      assert phpFiles[i] in phpFiles;
      GetChild(fs.root, source, phpFiles[i]);
      var content := fs.GetContents(source + [phpFiles[i]]);
      if Contains(content.value, "Plugin Name:") {
        found := true;
      }
      i := i + 1;
    }
    if !found {
      forall y | y in phpFiles ensures !IsPluginMainFile(y, files[y]) {
        var k :| 0 <= k < |phpFiles| && phpFiles[k] == y;
      }
    }
  }

  /**
   * The nested-structure loop: whether some sub-directory holds the marker,
   * and whether the one named `slug` does.
   */
  method ScanSubdirectories(fs: FileSystem, source: Path, kind: Kind, slug: string, directories: seq<string>)
    returns (hasNested: bool, hasCorrect: bool)
    requires IsDir(Get(fs.root, source))
    requires (set x | x in directories) == Dirs(Get(fs.root, source).value.entries)
    ensures var m := Get(fs.root, source).value.entries;
      && (hasNested <==> exists d :: d in m && m[d].Dir? && HoldsMarker(kind, m[d].entries))
      && (hasCorrect <==> slug in m && m[slug].Dir? && HoldsMarker(kind, m[slug].entries))
  {
    ghost var files := Get(fs.root, source).value.entries;
    hasNested := false;
    hasCorrect := false;
    forall k | 0 <= k < |directories| ensures directories[k] in files && files[directories[k]].Dir? {
      assert directories[k] in (set x | x in directories);
      assert directories[k] in Dirs(files);
    }
    var i := 0;
    while i < |directories|
      invariant 0 <= i <= |directories|
      invariant forall k :: 0 <= k < |directories| ==> directories[k] in files && files[directories[k]].Dir?
      invariant hasNested <==>
        exists k :: 0 <= k < i && HoldsMarker(kind, files[directories[k]].entries)
      invariant hasCorrect <==>
        exists k :: 0 <= k < i && directories[k] == slug && HoldsMarker(kind, files[directories[k]].entries)
    {
      var dir := directories[i];
      var subdir := source + [dir];
      GetChild(fs.root, source, dir);
      if kind == Theme {
        var present := fs.Exists(subdir + ["style.css"]);
        GetChild(fs.root, subdir, "style.css");
        if present {
          hasNested := true;
          if dir == slug {
            hasCorrect := true;
          }
        }
      }
      if kind == Plugin {
        var found := FindPluginHeader(fs, subdir);
        if found {
          hasNested := true;
          if dir == slug {
            hasCorrect := true;
          }
        }
      }
      i := i + 1;
    }
    if hasNested {
      ghost var k :| 0 <= k < i && HoldsMarker(kind, files[directories[k]].entries);
    }
    forall d | d in files && files[d].Dir? ensures d in directories {
      assert d in Dirs(files);
    }
  }

  /**
   * The three flags `restructure_flat_repository` computes for the directory
   * `source`, and its list of sub-directories: each flag is the predicate of
   * the same name in `Layout`.
   */
  method ClassifyLayout(fs: FileSystem, source: Path, kind: Kind, slug: string)
    returns (isFlat: bool, hasNested: bool, hasCorrect: bool, directories: seq<string>)
    requires IsDir(Get(fs.root, source))
    ensures var m := Get(fs.root, source).value.entries;
      && isFlat == IsFlat(kind, m)
      && hasNested == HasNested(kind, m)
      && hasCorrect == HasCorrect(kind, slug, m)
      && (set x | x in directories) == Dirs(m)
      && Distinct(directories)
  {
    var phpFiles;
    directories, phpFiles := ListEntries(fs, source);
    var hasStyleCss := fs.Exists(source + ["style.css"]);
    GetChild(fs.root, source, "style.css");
    isFlat := false;
    if kind == Theme && hasStyleCss {
      isFlat := true;
    }
    if kind == Plugin && |phpFiles| > 0 {
      isFlat := FindRootPluginHeader(fs, source, phpFiles);
    }
    if kind == Plugin && |phpFiles| == 0 {
      ghost var m := Get(fs.root, source).value.entries;
      assert forall y :: y !in phpFiles;
    }
    hasNested := false;
    hasCorrect := false;
    if !isFlat && |directories| > 0 {
      hasNested, hasCorrect := ScanSubdirectories(fs, source, kind, slug, directories);
    }
    ghost var m := Get(fs.root, source).value.entries;
    assert forall d :: d in m && m[d].Dir? ==> d in Dirs(m);
    assert |directories| == 0 ==> (set x | x in directories) == {};
  }

  // ---------------------------------------------------------------------------
  // restructure_flat_repository: moving the package under its slug

  /** The slug after `sanitize_file_name`, or `github-theme`/`github-plugin` when that leaves it empty. */
  function RestructureSlug(slug: string, typ: string, sanitize: string -> string): (s: string)
    ensures !PhpEmpty(s)
    ensures !PhpEmpty(sanitize(slug)) ==> s == sanitize(slug)
    ensures PhpEmpty(sanitize(slug)) ==> s == (if typ == "theme" then "github-theme" else "github-plugin")
  {
    var clean := sanitize(slug);
    if PhpEmpty(clean) then (if typ == "theme" then "github-theme" else "github-plugin") else clean
  }

  /** `$destination . '-restructure-temp'`: a sibling of the destination. */
  function TempDir(destination: Path): (temp: Path)
    requires destination != []
    ensures temp != [] && Parent(temp) == Parent(destination)
  {
    Parent(destination) + [destination[|destination| - 1] + "-restructure-temp"]
  }

  /**
   * The tree after the tail of the restructure: `source` is removed, created
   * again, and the entries of the staged directory `moved` are copied into it.
   * When `source` cannot be created again, it is simply gone.
   */
  function Replaced(t: Node, source: Path, moved: Node, denied: set<Path>): Node
    requires moved.Dir?
  {
    if source in denied then Delete(t, source)
    else Put(t, source, Dir(CopyInto(map[], moved, source, denied, false)))
  }

  /** What is copied under the slug: the only sub-directory of a misnamed package, else the kept root entries. */
  ghost function Staged(shape: Shape, m: map<string, Node>): (n: Node)
    requires shape.NestedMisnamed? ==> shape.dir in m && m[shape.dir].Dir?
    ensures n.Dir?
  {
    if shape.NestedMisnamed? then m[shape.dir] else Dir(KeepEntries(m))
  }

  /** The answer and the tree a call of `restructure_flat_repository` leaves. */
  datatype Outcome = Outcome(result: Result<Path, WpError>, tree: Node)

  /**
   * `restructure_flat_repository($source, $destination, $slug, $type)` on the
   * tree `t0`, with `slug` already sanitised and `temp` its working directory.
   */
  ghost function Restructured(t0: Node, source: Path, temp: Path, slug: string, kind: Kind, denied: set<Path>): (o: Outcome)
    requires IsDir(Get(t0, source))
    ensures o.result.Ok? ==> o.result.value == source
    ensures o.result.Err? ==> o.tree == t0 && o.result.error.code == "mkdir_failed"
  {
    var m := Get(t0, source).value.entries;
    var shape := Classify(kind, slug, m);
    if shape == NestedCorrect then Outcome(Ok(source), t0)
    else if !(Get(t0, temp) == None && Placeable(t0, temp) && temp !in denied) then
      Outcome(Err(WpError("mkdir_failed", "Could not create temporary directory for restructuring", None)), t0)
    else if temp + [slug] in denied then
      Outcome(Err(WpError("mkdir_failed", "Could not create proper directory structure", None)), t0)
    else
      var moved := Dir(map[slug := Dir(CopyInto(map[], Staged(shape, m), temp + [slug], denied, false))]);
      Outcome(Ok(source), Replaced(t0, source, moved, denied))
  }

  /**
   * The copy loop of the flat restructure: every root entry of `source` that
   * is kept goes into `proper`, a directory by `mkdir` and `copy_dir`, a file
   * by `copy`.
   */
  method CopyKept(fs: FileSystem, source: Path, proper: Path)
    requires Disjoint(source, proper)
    requires IsDir(Get(fs.root, source))
    modifies fs
    ensures fs.root == CopiedInto(old(fs.root), Dir(KeepEntries(Get(old(fs.root), source).value.entries)), proper, fs.denied, false)
  {
    ghost var t0 := fs.root;
    var files := fs.Dirlist(source);
    var names := files.Keys;
    ghost var copied: map<string, Node> := map[];
    CopiedIntoNothing(t0, proper, fs.denied, false);
    while names != {}
      invariant names <= files.Keys
      invariant forall y :: y in copied <==> y in files && y !in names && Kept(y)
      invariant forall y :: y in copied ==> copied[y] == files[y]
      invariant fs.root == CopiedInto(t0, Dir(copied), proper, fs.denied, false)
      decreases names
    {
      var x :| x in names;
      if !(StartsWith(x, ".") || x in VcsDirs) && (x !in GithubFiles || x in ImportantFiles) {
        assert Get(fs.root, source + [x]) == Some(files[x]) by {
          GetChild(t0, source, x);
          DisjointBelow(source, proper, [x], []);
          assert proper + [] == proper;
          if IsDir(Get(t0, proper)) {
            GetPutDisjoint(t0, proper, Dir(CopyInto(Get(t0, proper).value.entries, Dir(copied), proper, fs.denied, false)), source + [x]);
          }
        }
        CopyEntry(fs, source, proper, x, files[x]);
        CopiedIntoUnion(t0, copied, map[x := files[x]], proper, fs.denied, false);
        assert copied + map[x := files[x]] == copied[x := files[x]];
        copied := copied[x := files[x]];
      }
      names := names - {x};
    }
    assert copied == KeepEntries(files);
  }

  /** Copying into the fresh, empty `temp/slug` stages the copy under `temp`. */
  lemma StageCopy(t0: Node, temp: Path, slug: string, staged: Node, denied: set<Path>)
    requires staged.Dir? && temp != []
    requires Placeable(t0, temp)
    ensures CopiedInto(Put(Put(t0, temp, Dir(map[])), temp + [slug], Dir(map[])), staged, temp + [slug], denied, false)
         == Put(t0, temp, Dir(map[slug := Dir(CopyInto(map[], staged, temp + [slug], denied, false))]))
  {
    var proper := temp + [slug];
    var t1 := Put(t0, temp, Dir(map[]));
    GetPutSame(t0, temp, Dir(map[]));
    assert Parent(proper) == temp;
    GetPutSame(t1, proper, Dir(map[]));
    var t2 := Put(t1, proper, Dir(map[]));
    var inner := Dir(CopyInto(map[], staged, proper, denied, false));
    PutPut(t1, proper, Dir(map[]), inner);
    PutChild(t1, temp, map[], slug, inner);
    PutPut(t0, temp, Dir(map[]), Dir(map[slug := inner]));
  }

  /**
   * The tail both restructures share: `rmdir($source, true)`,
   * `mkdir($source)`, `copy_dir($temp_dir, $source)`, `rmdir($temp_dir, true)`.
   */
  method MoveBack(fs: FileSystem, source: Path, temp: Path, ghost moved: Node, ghost t0: Node)
    requires Disjoint(source, temp) && moved.Dir?
    requires IsDir(Get(t0, source)) && Get(t0, temp) == None && Placeable(t0, temp)
    requires fs.root == Put(t0, temp, moved)
    modifies fs
    ensures fs.root == Replaced(t0, source, moved, fs.denied)
  {
    var _ := fs.Remove(source);
    PutDeleteCommute(t0, temp, moved, source);
    ghost var d0 := Delete(t0, source);
    // The parents of `source` and `temp` are still directories.
    ExistingIsPlaceable(t0, source);
    if |temp| <= |Parent(source)| {
      assert Parent(source)[..|temp|] == source[..|temp|];
    }
    DeleteKeepsDir(t0, source, Parent(source));
    PutKeepsDir(d0, temp, moved, Parent(source));
    if |source| <= |Parent(temp)| {
      assert Parent(temp)[..|source|] == temp[..|source|];
    }
    DeleteKeepsDir(t0, source, Parent(temp));
    GetDeleteBelow(t0, source, source);
    GetPutDisjoint(d0, temp, moved, source);
    GetDeleteDisjoint(t0, source, temp);
    GetPutSame(d0, temp, moved);
    ghost var t4 := fs.root;
    var _ := fs.Mkdir(source);
    GetPutDisjoint(t4, source, Dir(map[]), temp);
    CopyDir(fs, temp, source, moved);
    ghost var t6 := fs.root;
    var _ := fs.Remove(temp);
    if source in fs.denied {
      DeleteAfterPutFresh(d0, temp, moved);
    } else {
      GetPutSame(t4, source, Dir(map[]));
      GetPutDisjoint(t4, source, Dir(map[]), temp);
      var c := Dir(CopyInto(map[], moved, source, fs.denied, false));
      PutPut(t4, source, Dir(map[]), c);
      PutDeleteCommute(t4, source, c, temp);
      DeleteAfterPutFresh(d0, temp, moved);
      PutAfterDelete(t0, source, c);
    }
  }

  /**
   * `restructure_flat_repository`: returns `source` unchanged when the
   * package already sits in a directory named after the slug; otherwise
   * stages the package (the only sub-directory of a misnamed one, or the
   * kept root entries) under `temp/slug` and moves the result back into
   * `source`. A failed `mkdir` of `temp` or of `temp/slug` is an error and
   * leaves the tree as it was.
   */
  method Restructure(fs: FileSystem, source: Path, destination: Path, slugArg: string, typ: string,
                     sanitize: string -> string)
    returns (r: Result<Path, WpError>)
    requires destination != []
    requires IsDir(Get(fs.root, source))
    requires Disjoint(source, TempDir(destination))
    modifies fs
    ensures Outcome(r, fs.root) == Restructured(old(fs.root), source, TempDir(destination),
                                                RestructureSlug(slugArg, typ, sanitize), KindOf(typ), fs.denied)
  {
    ghost var t0 := fs.root;
    var slug := RestructureSlug(slugArg, typ, sanitize);
    var kind := KindOf(typ);
    var isFlat, hasNested, hasCorrect, directories := ClassifyLayout(fs, source, kind, slug);
    ghost var m := Get(t0, source).value.entries;
    ghost var shape := Classify(kind, slug, m);
    if hasCorrect {
      return Ok(source);
    }
    DistinctCard(directories);
    var misnamed := hasNested && |directories| == 1;
    if misnamed {
      assert directories[0] in (set x | x in directories);
      OnlyMember(Dirs(m), directories[0]);
    }
    assert misnamed ==> shape == NestedMisnamed(directories[0]);
    assert !misnamed ==> !shape.NestedMisnamed?;
    var temp := TempDir(destination);
    var made := fs.Mkdir(temp);
    if !made {
      return Err(WpError("mkdir_failed", "Could not create temporary directory for restructuring", None));
    }
    var proper := temp + [slug];
    GetPutSame(t0, temp, Dir(map[]));
    assert Parent(proper) == temp;
    GetChild(fs.root, temp, slug);
    ghost var t1 := fs.root;
    var madeProper := fs.Mkdir(proper);
    if !madeProper {
      var _ := fs.Remove(temp);
      DeleteAfterPutFresh(t0, temp, Dir(map[]));
      return Err(WpError("mkdir_failed", "Could not create proper directory structure", None));
    }
    DisjointBelow(source, temp, [], [slug]);
    assert source + [] == source;
    GetPutDisjoint(t0, temp, Dir(map[]), source);
    GetPutDisjoint(t1, proper, Dir(map[]), source);
    ghost var staged := Staged(shape, m);
    if misnamed {
      var existing := directories[0];
      DisjointBelow(source, temp, [existing], [slug]);
      GetChild(t0, source, existing);
      GetChild(fs.root, source, existing);
      CopyDir(fs, source + [existing], proper, m[existing]);
    } else {
      CopyKept(fs, source, proper);
    }
    StageCopy(t0, temp, slug, staged, fs.denied);
    MoveBack(fs, source, temp, Dir(map[slug := Dir(CopyInto(map[], staged, proper, fs.denied, false))]), t0);
    r := Ok(source);
  }

  /**
   * Where no `mkdir` is refused inside `temp` or `source`, a restructure that
   * does anything leaves `source` holding exactly one directory, named after
   * the slug, with the staged entries in it.
   */
  lemma RestructureWithoutDenials(t0: Node, source: Path, temp: Path, slug: string, kind: Kind, denied: set<Path>)
    requires IsDir(Get(t0, source)) && Disjoint(source, temp)
    requires Get(t0, temp) == None && Placeable(t0, temp)
    requires NoDeniedWithin(denied, temp) && NoDeniedWithin(denied, source)
    requires Classify(kind, slug, Get(t0, source).value.entries) != NestedCorrect
    ensures var m := Get(t0, source).value.entries;
      Restructured(t0, source, temp, slug, kind, denied)
        == Outcome(Ok(source), Put(t0, source, Dir(map[slug := Staged(Classify(kind, slug, m), m)])))
  {
    var m := Get(t0, source).value.entries;
    var staged := Staged(Classify(kind, slug, m), m);
    assert IsPrefix(temp, temp) && IsPrefix(source, source);
    assert (temp + [slug])[..|temp|] == temp;
    NoDeniedBelow(denied, temp, [slug]);
    CopyIntoEmpty(staged, temp + [slug], denied, false);
    CopyIntoEmpty(Dir(map[slug := staged]), source, denied, false);
  }

  /**
   * The restructure touches nothing outside `source`: its working directory
   * is gone again and every other path reads as before.
   */
  lemma RestructureFrame(t0: Node, source: Path, temp: Path, slug: string, kind: Kind, denied: set<Path>, q: Path)
    requires IsDir(Get(t0, source)) && Disjoint(q, source)
    ensures Get(Restructured(t0, source, temp, slug, kind, denied).tree, q) == Get(t0, q)
  {
    var o := Restructured(t0, source, temp, slug, kind, denied);
    if o.tree != t0 {
      var m := Get(t0, source).value.entries;
      var moved := Dir(map[slug := Dir(CopyInto(map[], Staged(Classify(kind, slug, m), m), temp + [slug], denied, false))]);
      if source in denied {
        GetDeleteDisjoint(t0, source, q);
      } else {
        GetPutDisjoint(t0, source, Dir(CopyInto(map[], moved, source, denied, false)), q);
      }
    }
  }

  /**
   * The packages a restructure settles: a misnamed package, a flat theme, and
   * a flat plugin whose main file is not hidden (a theme slug `style.css`
   * excepted, which would make the new root look flat).
   */
  ghost predicate Settles(kind: Kind, slug: string, m: map<string, Node>) {
    match kind
    case Theme => slug != "style.css" && (IsFlat(Theme, m) || Classify(Theme, slug, m).NestedMisnamed?)
    case Plugin =>
      (exists x :: x in m && IsPluginMainFile(x, m[x]) && !StartsWith(x, "."))
      || Classify(Plugin, slug, m).NestedMisnamed?
    case OtherKind => false
  }

  /**
   * A second restructure of a package the first one settled returns it as
   * it is: the package now sits in a directory named after the slug.
   */
  lemma RestructureSettles(t0: Node, source: Path, temp: Path, slug: string, kind: Kind, denied: set<Path>)
    requires IsDir(Get(t0, source)) && Disjoint(source, temp)
    requires Get(t0, temp) == None && Placeable(t0, temp)
    requires NoDeniedWithin(denied, temp) && NoDeniedWithin(denied, source)
    requires Settles(kind, slug, Get(t0, source).value.entries)
    ensures var t1 := Restructured(t0, source, temp, slug, kind, denied).tree;
      IsDir(Get(t1, source)) && Restructured(t1, source, temp, slug, kind, denied) == Outcome(Ok(source), t1)
  {
    var m := Get(t0, source).value.entries;
    var shape := Classify(kind, slug, m);
    var staged := Staged(shape, m);
    assert shape != NestedCorrect by {
      if kind == Plugin && !shape.NestedMisnamed? {
        var x :| x in m && IsPluginMainFile(x, m[x]) && !StartsWith(x, ".");
      }
    }
    RestructureWithoutDenials(t0, source, temp, slug, kind, denied);
    ExistingIsPlaceable(t0, source);
    GetPutSame(t0, source, Dir(map[slug := staged]));
    if shape.NestedMisnamed? {
      MisnamedBecomesCorrect(kind, m, slug, shape.dir);
    } else if kind == Theme {
      FlatThemeBecomesCorrect(m, slug);
    } else {
      var x :| x in m && IsPluginMainFile(x, m[x]) && !StartsWith(x, ".");
      FlatPluginBecomesCorrect(m, slug, x);
    }
  }

  /**
   * A package in which no marker is recognised is wrapped again by every
   * restructure: after one, its root is a single directory named after the
   * slug, which still holds no marker.
   */
  lemma UnrecognisedStaysUnrecognised(t0: Node, source: Path, temp: Path, slug: string, kind: Kind, denied: set<Path>)
    requires IsDir(Get(t0, source)) && Disjoint(source, temp)
    requires Get(t0, temp) == None && Placeable(t0, temp)
    requires NoDeniedWithin(denied, temp) && NoDeniedWithin(denied, source)
    requires var m := Get(t0, source).value.entries;
      !HoldsMarker(kind, m) && forall d :: d in m && m[d].Dir? ==> !HoldsMarker(kind, m[d].entries)
    ensures var t1 := Restructured(t0, source, temp, slug, kind, denied).tree;
      && Get(t1, source) == Some(Dir(map[slug := Dir(KeepEntries(Get(t0, source).value.entries))]))
      && Classify(kind, slug, Get(t1, source).value.entries) == NeedsRestructure
  {
    var m := Get(t0, source).value.entries;
    var k := KeepEntries(m);
    RestructureWithoutDenials(t0, source, temp, slug, kind, denied);
    ExistingIsPlaceable(t0, source);
    GetPutSame(t0, source, Dir(map[slug := Dir(k)]));
    var m1 := map[slug := Dir(k)];
    assert !HoldsMarker(kind, k) by {
      if kind == Plugin {
        forall y | y in k ensures !IsPluginMainFile(y, k[y]) {
        }
      }
    }
    assert forall d :: d in m1 && m1[d].Dir? ==> !HoldsMarker(kind, m1[d].entries);
  }

  // ---------------------------------------------------------------------------
  // maybe_restructure_github_package

  /** The keys of the upgrader's `$args` the filter reads: `github_update`, `type`, `slug`. */
  datatype UpgradeArgs = UpgradeArgs(githubUpdate: bool, typ: Option<string>, slug: Option<string>)

  /** The class of the running upgrader, as `is_a` sees it. */
  datatype UpgraderClass = ThemeUpgrader | PluginUpgrader | OtherUpgrader

  /** What the filter reads from the upgrader: its skin's `type` option, and its class. */
  datatype Upgrader = Upgrader(skinType: Option<string>, kind: UpgraderClass)

  /** A name the root's `*.php` glob returns: it ends with `.php` and is not hidden. */
  predicate Globbed(name: string) {
    EndsWith(name, ".php") && !StartsWith(name, ".")
  }

  /**
   * Some file `glob` returns has a non-empty `Plugin Name` header, as
   * `get_file_data` reads it from the file's text (`pluginName`).
   */
  predicate HasHeaderFile(m: map<string, Node>, pluginName: string -> string) {
    exists x :: x in m && Globbed(x) && m[x].File? && !PhpEmpty(pluginName(m[x].contents))
  }

  /**
   * The package type the filter settles on: the `type` argument; when that
   * is empty and not even set, the skin's `type` option, else the upgrader's
   * class; when still empty, `theme` if the root holds `style.css`, `plugin`
   * if a root `.php` file has a plugin header.
   */
  function DetectedType(args: UpgradeArgs, upgrader: Upgrader, hasStyleCss: bool, hasHeader: bool): (typ: string)
    ensures !PhpEmpty(args.typ.GetOr("")) ==> typ == args.typ.value
  {
    var given := args.typ.GetOr("");
    var typ :=
      if !PhpEmpty(given) then given
      else if args.typ.Some? then args.typ.value
      else if upgrader.skinType.Some? then upgrader.skinType.value
      else if upgrader.kind == ThemeUpgrader then "theme"
      else if upgrader.kind == PluginUpgrader then "plugin"
      else given;
    if !PhpEmpty(typ) then typ
    else if hasStyleCss then "theme"
    else if hasHeader then "plugin"
    else typ
  }

  /**
   * A `type` argument that is set but empty hides the skin option and the
   * upgrader's class: only the files decide, even under a plugin upgrader.
   */
  lemma EmptyTypeArgumentHidesUpgrader(upgrader: Upgrader, b: bool, slug: Option<string>, hasHeader: bool)
    ensures DetectedType(UpgradeArgs(b, Some(""), slug), upgrader, true, hasHeader) == "theme"
    ensures DetectedType(UpgradeArgs(b, Some(""), slug), upgrader, false, hasHeader) == (if hasHeader then "plugin" else "")
    ensures DetectedType(UpgradeArgs(b, None, slug), Upgrader(None, PluginUpgrader), true, hasHeader) == "plugin"
  {
  }

  /**
   * With no `type` argument, a non-empty skin `type` option wins over the
   * upgrader's class and over the files; the class decides only when the
   * option is not set.
   */
  lemma SkinOptionBeforeUpgraderClass(b: bool, slug: Option<string>, s: string, kind: UpgraderClass,
                                      hasStyleCss: bool, hasHeader: bool)
    requires !PhpEmpty(s)
    ensures DetectedType(UpgradeArgs(b, None, slug), Upgrader(Some(s), kind), hasStyleCss, hasHeader) == s
    ensures DetectedType(UpgradeArgs(b, None, slug), Upgrader(None, ThemeUpgrader), hasStyleCss, hasHeader) == "theme"
    ensures DetectedType(UpgradeArgs(b, None, slug), Upgrader(None, PluginUpgrader), hasStyleCss, hasHeader) == "plugin"
  {
  }

  /** The files are consulted only when neither the arguments nor the upgrader name a type. */
  lemma DetectedTypeFromFiles(args: UpgradeArgs, upgrader: Upgrader, hasStyleCss: bool, hasHeader: bool)
    requires args.typ == None && upgrader.skinType == None && upgrader.kind == OtherUpgrader
    ensures DetectedType(args, upgrader, hasStyleCss, hasHeader) == "theme" <==> hasStyleCss
    ensures DetectedType(args, upgrader, hasStyleCss, hasHeader) == "plugin" <==> !hasStyleCss && hasHeader
    ensures DetectedType(args, upgrader, hasStyleCss, hasHeader) == "" <==> !hasStyleCss && !hasHeader
  {
  }

  /**
   * The slug the filter passes on: the `slug` argument, or when that is
   * empty the one derived from the directory name, sanitised.
   */
  function ChosenSlug(args: UpgradeArgs, dirName: string, sanitize: string -> string): (r: string)
    ensures args.slug.Some? && !PhpEmpty(args.slug.value) ==> r == args.slug.value
    ensures (args.slug.None? || PhpEmpty(args.slug.value)) ==>
      exists d :: IsPieceOf(d, dirName) && '.' !in d && r == sanitize(d)
  {
    var given := args.slug.GetOr("");
    if PhpEmpty(given) then
      var d := DeriveSlug(dirName);
      assert IsPieceOf(d, dirName) && '.' !in d;
      sanitize(d)
    else given
  }

  /**
   * The filter goes to work on our own updates, and otherwise only on a
   * directory whose name, holding a dash or a dot, looks like a GitHub download.
   */
  function HandlesSource(args: UpgradeArgs, dirName: string): (b: bool)
    ensures args.githubUpdate ==> b
    ensures b && !args.githubUpdate ==> '-' in dirName || '.' in dirName
  {
    args.githubUpdate || IsGithubDirName(dirName)
  }

  /**
   * `maybe_restructure_github_package($source, $remote_source, $upgrader, $args)`
   * on the tree `t0`: anything but a directory, or a directory the filter
   * does not handle, is returned as it is; otherwise the package is
   * restructured next to `remote_source`.
   */
  ghost function MaybeRestructured(t0: Node, source: Path, remoteSource: Path, args: UpgradeArgs, upgrader: Upgrader,
                                   pluginName: string -> string, sanitize: string -> string, denied: set<Path>): (o: Outcome)
    requires remoteSource != [] && source != []
    ensures !IsDir(Get(t0, source)) ==> o == Outcome(Ok(source), t0)
  {
    if !IsDir(Get(t0, source)) then Outcome(Ok(source), t0)
    else
      var name := source[|source| - 1];
      if !HandlesSource(args, name) then Outcome(Ok(source), t0)
      else
        var m := Get(t0, source).value.entries;
        var typ := DetectedType(args, upgrader, "style.css" in m, HasHeaderFile(m, pluginName));
        var slug := RestructureSlug(ChosenSlug(args, name, sanitize), typ, sanitize);
        Restructured(t0, source, TempDir(remoteSource), slug, KindOf(typ), denied)
  }

  /** The working directory next to `remote_source` never overlaps a source inside it. */
  lemma TempDirDisjoint(remoteSource: Path, source: Path)
    requires remoteSource != [] && IsPrefix(remoteSource, source)
    ensures Disjoint(source, TempDir(remoteSource))
  {
    var temp := TempDir(remoteSource);
    var n := |remoteSource| - 1;
    assert temp[n] != remoteSource[n] by {
      assert |temp[n]| > |remoteSource[n]|;
    }
    assert source[n] == remoteSource[n];
    if |temp| <= |source| {
      assert source[..|temp|][n] == source[n];
    }
    if |source| <= |temp| {
      assert temp[..|source|][n] == temp[n];
    }
  }

  /**
   * The type detection of the filter: the arguments and the upgrader first,
   * then `style.css`, then the `glob` loop over the root's `.php` files,
   * which stops at the first one with a plugin header.
   */
  method DetectType(fs: FileSystem, source: Path, args: UpgradeArgs, upgrader: Upgrader, pluginName: string -> string)
    returns (typ: string)
    requires IsDir(Get(fs.root, source))
    ensures var m := Get(fs.root, source).value.entries;
      typ == DetectedType(args, upgrader, "style.css" in m, HasHeaderFile(m, pluginName))
  {
    ghost var m := Get(fs.root, source).value.entries;
    typ := args.typ.GetOr("");
    if PhpEmpty(typ) {
      if args.typ.Some? {
        typ := args.typ.value;
      } else if upgrader.skinType.Some? {
        typ := upgrader.skinType.value;
      } else if upgrader.kind == ThemeUpgrader {
        typ := "theme";
      } else if upgrader.kind == PluginUpgrader {
        typ := "plugin";
      }
    }
    if PhpEmpty(typ) {
      var hasStyleCss := fs.Exists(source + ["style.css"]);
      GetChild(fs.root, source, "style.css");
      if hasStyleCss {
        typ := "theme";
      } else {
        var files := fs.Dirlist(source);
        var names := set x | x in files && Globbed(x);
        var found := false;
        while names != {} && !found
          invariant names <= files.Keys
          invariant found ==> HasHeaderFile(m, pluginName)
          invariant !found ==> forall y :: y in files && Globbed(y) && y !in names ==>
            !(files[y].File? && !PhpEmpty(pluginName(files[y].contents)))
          decreases names
        {
          var x :| x in names;
          GetChild(fs.root, source, x);
          var content := fs.GetContents(source + [x]);
          if content.Some? && !PhpEmpty(pluginName(content.value)) {
            found := true;
          }
          names := names - {x};
        }
        if found {
          typ := "plugin";
        }
      }
    }
  }

  /**
   * `maybe_restructure_github_package`: the upgrader's source filter that
   * moves a GitHub download into the layout WordPress expects.
   */
  method MaybeRestructure(fs: FileSystem, source: Path, remoteSource: Path, args: UpgradeArgs, upgrader: Upgrader,
                          pluginName: string -> string, sanitize: string -> string)
    returns (r: Result<Path, WpError>)
    requires remoteSource != [] && IsPrefix(remoteSource, source) && source != []
    modifies fs
    ensures Outcome(r, fs.root)
         == MaybeRestructured(old(fs.root), source, remoteSource, args, upgrader, pluginName, sanitize, fs.denied)
  {
    var isDir := fs.IsDirectory(source);
    if !isDir {
      return Ok(source);
    }
    var name := source[|source| - 1];
    var isGithubSource := HasHashSuffix(name) || Contains(name, "-master") || Contains(name, "-main")
                          || Contains(name, "-v") || IsOwnerDotRepo(name);
    if !(args.githubUpdate || isGithubSource) {
      return Ok(source);
    }
    var typ := DetectType(fs, source, args, upgrader, pluginName);
    var slug := args.slug.GetOr("");
    if PhpEmpty(slug) {
      slug := sanitize(DeriveSlug(name));
    }
    TempDirDisjoint(remoteSource, source);
    r := Restructure(fs, source, remoteSource, slug, typ, sanitize);
  }

  /**
   * A directory that is not one of our updates and whose name has neither a
   * dash nor a dot is passed through untouched.
   */
  lemma PlainDirectoryPassesThrough(t0: Node, source: Path, remoteSource: Path, args: UpgradeArgs, upgrader: Upgrader,
                                    pluginName: string -> string, sanitize: string -> string, denied: set<Path>)
    requires remoteSource != [] && source != []
    requires !args.githubUpdate
    requires '-' !in source[|source| - 1] && '.' !in source[|source| - 1]
    ensures MaybeRestructured(t0, source, remoteSource, args, upgrader, pluginName, sanitize, denied) == Outcome(Ok(source), t0)
  {
  }

  /**
   * A commit download `owner-repo-hash` with no slug argument is restructured
   * under the sanitised repository name.
   */
  lemma CommitDownloadSlug(args: UpgradeArgs, owner: string, repo: string, hash: string, sanitize: string -> string)
    requires args.slug == None
    requires '-' !in owner && '.' !in owner && IsRepoName(repo) && IsCommitHash(hash)
    ensures ChosenSlug(args, owner + "-" + repo + "-" + hash, sanitize) == sanitize(repo)
    ensures HandlesSource(args, owner + "-" + repo + "-" + hash)
  {
    DeriveFromHashSuffix(owner, repo, hash);
    HashNameIsGithubDirName(owner, repo, hash);
  }
}
