/**
 * The filesystem the installer works on, and its three copy/remove helpers
 * `copy_dir`, `recursive_copy` and `recursive_rmdir`.
 *
 * A `FileSystem` object holds the current tree. Its primitive methods are the
 * calls the plugin makes on `$wp_filesystem` and on PHP's own file functions;
 * each is specified by `Get`, `Put` and `Delete`. Directory creation can be
 * refused (permissions, quota): `denied` is the set of paths where `mkdir`
 * fails although the parent exists.
 */
module Filesystem {
  import opened Results
  import opened Text
  import opened FileTree

  function Lookup(m: map<string, Node>, x: string): Option<Node> {
    if x in m then Some(m[x]) else None
  }

  /** The entries `m` with `x` set to `o`, or without `x` when `o` is absent. */
  function SetEntry(m: map<string, Node>, x: string, o: Option<Node>): map<string, Node> {
    if o.Some? then m[x := o.value] else m - {x}
  }

  /**
   * What copying the node `s` to the path `at` leaves there, when `dOld` was
   * there before. A file is copied only where nothing is, or, when
   * `overwrite` holds (PHP's `copy`, unlike WordPress's), over a file. A
   * directory is created unless `at` is denied, and then filled; an existing
   * directory is filled in place; a file in the way stops the whole subtree.
   */
  function Merged(dOld: Option<Node>, s: Node, at: Path, denied: set<Path>, overwrite: bool): Option<Node>
    decreases s, 2
  {
    match s
    case File(_) =>
      if dOld.None? || (overwrite && dOld.value.File?) then Some(s) else dOld
    case Dir(_) =>
      if dOld.None? then
        if at in denied then None else Some(Dir(CopyInto(map[], s, at, denied, overwrite)))
      else if dOld.value.Dir? then Some(Dir(CopyInto(dOld.value.entries, s, at, denied, overwrite)))
      else dOld
  }

  /** The entry `x` of the directory at `at` (which held `dm`) after the entries of `s` were copied into it. */
  function EntryAfterCopy(dm: map<string, Node>, s: Node, x: string, at: Path, denied: set<Path>, overwrite: bool): Option<Node>
    requires s.Dir?
    decreases s, 0
  {
    if x in s.entries then Merged(Lookup(dm, x), s.entries[x], at + [x], denied, overwrite)
    else Lookup(dm, x)
  }

  /** The entries of the directory at `at` (which held `dm`) after the entries of the directory `s` were copied into it. */
  function CopyInto(dm: map<string, Node>, s: Node, at: Path, denied: set<Path>, overwrite: bool): map<string, Node>
    requires s.Dir?
    decreases s, 1
  {
    map x | x in dm.Keys + s.entries.Keys && EntryAfterCopy(dm, s, x, at, denied, overwrite).Some?
      :: EntryAfterCopy(dm, s, x, at, denied, overwrite).value
  }

  /** The tree after the entries of the directory `s` were copied into the directory at `dst`; unchanged if there is none. */
  function CopiedInto(t: Node, s: Node, dst: Path, denied: set<Path>, overwrite: bool): Node
    requires s.Dir?
  {
    match Get(t, dst)
    case Some(Dir(dm)) => Put(t, dst, Dir(CopyInto(dm, s, dst, denied, overwrite)))
    case _ => t
  }

  /** The tree after the directory at `src` was copied into the directory at `dst`; unchanged if `src` is no directory. */
  function CopyDirResult(t: Node, src: Path, dst: Path, denied: set<Path>, overwrite: bool): Node {
    match Get(t, src)
    case Some(Dir(sm)) => CopiedInto(t, Dir(sm), dst, denied, overwrite)
    case _ => t
  }

  /** A file sits at `p`, below the root. */
  predicate IsFileAt(t: Node, p: Path) {
    p != [] && Get(t, p).Some? && Get(t, p).value.File?
  }

  /** No path at or below `at` is denied. */
  predicate NoDeniedWithin(denied: set<Path>, at: Path) {
    forall q :: q in denied ==> !IsPrefix(at, q)
  }

  /**
   * `wp_mkdir_p`: the tree after creating `p` and every missing directory
   * above it, top down, stopping at the first one that cannot be created.
   */
  function MakePath(t: Node, p: Path, denied: set<Path>): Node
    decreases |p|
  {
    if p == [] || Get(t, p).Some? then t
    else
      var t1 := MakePath(t, Parent(p), denied);
      if IsDir(Get(t1, Parent(p))) && p !in denied then Put(t1, p, Dir(map[])) else t1
  }

  // ---------------------------------------------------------------------------
  // Properties of the copy specification

  /** Each entry of the result is what copying left for that name. */
  lemma CopyIntoLookup(dm: map<string, Node>, s: Node, at: Path, denied: set<Path>, overwrite: bool, x: string)
    requires s.Dir?
    ensures Lookup(CopyInto(dm, s, at, denied, overwrite), x) == EntryAfterCopy(dm, s, x, at, denied, overwrite)
  {
  }

  /** Copying an empty directory changes nothing. */
  lemma CopyIntoNothing(dm: map<string, Node>, at: Path, denied: set<Path>, overwrite: bool)
    ensures CopyInto(dm, Dir(map[]), at, denied, overwrite) == dm
  {
    var r := CopyInto(dm, Dir(map[]), at, denied, overwrite);
    forall x | x in dm ensures x in r && r[x] == dm[x] {
      assert EntryAfterCopy(dm, Dir(map[]), x, at, denied, overwrite) == Some(dm[x]);
    }
  }

  /** Copying one entry sets that entry of the destination to what merging it leaves. */
  lemma CopyIntoSingle(dm: map<string, Node>, x: string, e: Node, at: Path, denied: set<Path>, overwrite: bool)
    ensures CopyInto(dm, Dir(map[x := e]), at, denied, overwrite)
         == SetEntry(dm, x, Merged(Lookup(dm, x), e, at + [x], denied, overwrite))
  {
    var r := CopyInto(dm, Dir(map[x := e]), at, denied, overwrite);
    var r' := SetEntry(dm, x, Merged(Lookup(dm, x), e, at + [x], denied, overwrite));
    forall y ensures Lookup(r, y) == Lookup(r', y) {
      CopyIntoLookup(dm, Dir(map[x := e]), at, denied, overwrite, y);
    }
    LookupExtensional(r, r');
  }

  /** Two maps with the same lookups are equal. */
  lemma LookupExtensional(a: map<string, Node>, b: map<string, Node>)
    requires forall y :: Lookup(a, y) == Lookup(b, y)
    ensures a == b
  {
    forall y | y in a ensures y in b && a[y] == b[y] {
      assert Lookup(a, y) == Lookup(b, y);
    }
    forall y | y in b ensures y in a {
      assert Lookup(a, y) == Lookup(b, y);
    }
  }

  /** Copying two directories with disjoint names one after the other is copying their union. */
  lemma CopyIntoUnion(dm: map<string, Node>, a: map<string, Node>, b: map<string, Node>, at: Path, denied: set<Path>, overwrite: bool)
    requires a.Keys !! b.Keys
    ensures CopyInto(CopyInto(dm, Dir(a), at, denied, overwrite), Dir(b), at, denied, overwrite)
         == CopyInto(dm, Dir(a + b), at, denied, overwrite)
  {
    var mid := CopyInto(dm, Dir(a), at, denied, overwrite);
    var r := CopyInto(mid, Dir(b), at, denied, overwrite);
    var r' := CopyInto(dm, Dir(a + b), at, denied, overwrite);
    forall y ensures Lookup(r, y) == Lookup(r', y) {
      CopyIntoLookup(mid, Dir(b), at, denied, overwrite, y);
      CopyIntoLookup(dm, Dir(a + b), at, denied, overwrite, y);
      CopyIntoLookup(dm, Dir(a), at, denied, overwrite, y);
    }
    LookupExtensional(r, r');
  }

  /** Copying two directories with disjoint names into the same place one after the other is copying their union. */
  lemma CopiedIntoUnion(t: Node, a: map<string, Node>, b: map<string, Node>, dst: Path, denied: set<Path>, overwrite: bool)
    requires a.Keys !! b.Keys
    ensures CopiedInto(CopiedInto(t, Dir(a), dst, denied, overwrite), Dir(b), dst, denied, overwrite)
         == CopiedInto(t, Dir(a + b), dst, denied, overwrite)
  {
    if IsDir(Get(t, dst)) {
      var dm := Get(t, dst).value.entries;
      var mid := CopyInto(dm, Dir(a), dst, denied, overwrite);
      ExistingIsPlaceable(t, dst);
      GetPutSame(t, dst, Dir(mid));
      PutPut(t, dst, Dir(mid), Dir(CopyInto(mid, Dir(b), dst, denied, overwrite)));
      CopyIntoUnion(dm, a, b, dst, denied, overwrite);
    }
  }

  /** Copying an empty directory leaves the tree as it was. */
  lemma CopiedIntoNothing(t: Node, dst: Path, denied: set<Path>, overwrite: bool)
    ensures CopiedInto(t, Dir(map[]), dst, denied, overwrite) == t
  {
    if IsDir(Get(t, dst)) {
      CopyIntoNothing(Get(t, dst).value.entries, dst, denied, overwrite);
      PutGet(t, dst, Get(t, dst).value);
    }
  }

  /**
   * Copying into a new, empty directory where no creation is refused
   * reproduces the source exactly.
   */
  lemma {:induction false} CopyIntoEmpty(s: Node, at: Path, denied: set<Path>, overwrite: bool)
    requires s.Dir?
    requires NoDeniedWithin(denied, at)
    ensures CopyInto(map[], s, at, denied, overwrite) == s.entries
    decreases s
  {
    var r := CopyInto(map[], s, at, denied, overwrite);
    forall y ensures Lookup(r, y) == Lookup(s.entries, y) {
      CopyIntoLookup(map[], s, at, denied, overwrite, y);
      if y in s.entries && s.entries[y].Dir? {
        NoDeniedBelow(denied, at, [y]);
        assert at + [y] !in denied by {
          assert IsPrefix(at, at + [y]);
        }
        CopyIntoEmpty(s.entries[y], at + [y], denied, overwrite);
      }
    }
    LookupExtensional(r, s.entries);
  }

  /** A region free of refusals is free of them further down too. */
  lemma NoDeniedBelow(denied: set<Path>, at: Path, a: Path)
    requires NoDeniedWithin(denied, at)
    ensures NoDeniedWithin(denied, at + a)
  {
    forall q | q in denied ensures !IsPrefix(at + a, q) {
      if |at + a| <= |q| {
        assert q[..|at + a|][..|at|] == q[..|at|];
        assert (at + a)[..|at|] == at;
      }
    }
  }

  /**
   * WordPress's `copy` never overwrites: every entry the destination had is
   * still there, and its files are untouched.
   */
  lemma {:induction false} CopyIntoKeepsExisting(dm: map<string, Node>, s: Node, at: Path, denied: set<Path>, x: string)
    requires s.Dir?
    requires x in dm
    ensures x in CopyInto(dm, s, at, denied, false)
    ensures dm[x].File? ==> CopyInto(dm, s, at, denied, false)[x] == dm[x]
  {
    CopyIntoLookup(dm, s, at, denied, false, x);
  }

  /**
   * PHP's `copy` does overwrite: after the copy, a file of the source sits at
   * its name wherever the destination had no directory there.
   */
  lemma CopyIntoOverwritesFiles(dm: map<string, Node>, s: Node, at: Path, denied: set<Path>, x: string)
    requires s.Dir? && x in s.entries && s.entries[x].File?
    requires !(x in dm && dm[x].Dir?)
    ensures x in CopyInto(dm, s, at, denied, true)
    ensures CopyInto(dm, s, at, denied, true)[x] == s.entries[x]
  {
    CopyIntoLookup(dm, s, at, denied, true, x);
  }

  /** `wp_mkdir_p` leaves every existing node away from `p` as it was. */
  lemma {:induction false} MakePathFrame(t: Node, p: Path, denied: set<Path>, q: Path)
    requires Disjoint(p, q)
    requires Get(t, q).Some?
    ensures Get(MakePath(t, p, denied), q) == Get(t, q)
    decreases |p|
  {
    if p != [] && Get(t, p).None? {
      var t1 := MakePath(t, Parent(p), denied);
      if IsPrefix(Parent(p), q) {
        // q lies at or below the parent, beside p: the parent exists, so nothing is created above p.
        assert q[..|Parent(p)|] == Parent(p);
        GetPrefixExists(t, q, |Parent(p)|);
        assert MakePath(t, Parent(p), denied) == t;
        if IsDir(Get(t1, Parent(p))) && p !in denied {
          GetPutDisjoint(t1, p, Dir(map[]), q);
        }
      } else {
        assert Disjoint(Parent(p), q) by {
          if |q| <= |Parent(p)| {
            assert Parent(p)[..|q|] == p[..|q|];
          }
        }
        MakePathFrame(t, Parent(p), denied, q);
        if IsDir(Get(t1, Parent(p))) && p !in denied {
          GetPutDisjoint(t1, p, Dir(map[]), q);
        }
      }
    }
  }

  /** Every prefix of an existing path exists. */
  lemma {:induction false} GetPrefixExists(t: Node, q: Path, k: nat)
    requires k <= |q| && Get(t, q).Some?
    ensures Get(t, q[..k]).Some?
    decreases |q|
  {
    if k > 0 {
      assert q[..k][0] == q[0] && q[..k][1..] == q[1..][..k - 1];
      GetPrefixExists(t.entries[q[0]], q[1..], k - 1);
    }
  }

  /** Running `wp_mkdir_p` twice does no more than running it once. */
  lemma {:induction false} MakePathIdempotent(t: Node, p: Path, denied: set<Path>)
    ensures MakePath(MakePath(t, p, denied), p, denied) == MakePath(t, p, denied)
    decreases |p|
  {
    if p != [] && Get(t, p).None? {
      var t1 := MakePath(t, Parent(p), denied);
      MakePathIdempotent(t, Parent(p), denied);
      assert Get(t1, p).None? by {
        MakePathKeepsAbsent(t, Parent(p), denied, p);
      }
      if IsDir(Get(t1, Parent(p))) && p !in denied {
        ExistingIsPlaceable(t1, Parent(p));
        GetPutSame(t1, p, Dir(map[]));
      }
    }
  }

  /** Creating the directories down to `Parent(p)` does not create `p`. */
  lemma {:induction false} MakePathKeepsAbsent(t: Node, pp: Path, denied: set<Path>, p: Path)
    requires p != [] && Parent(p) == pp && Get(t, p).None?
    ensures Get(MakePath(t, pp, denied), p).None?
    decreases |pp|
  {
    if pp != [] && Get(t, pp).None? {
      var t1 := MakePath(t, Parent(pp), denied);
      assert p == pp + [p[|p| - 1]];
      if IsDir(Get(t1, Parent(pp))) && pp !in denied {
        GetPutBelow(t1, pp, Dir(map[]), [p[|p| - 1]]);
      } else {
        MakePathKeepsAbsent(t, Parent(pp), denied, pp);
        GetBelowNonDir(t1, pp, [p[|p| - 1]]);
      }
    }
  }

  /** Below an existing directory, `wp_mkdir_p` is a single `mkdir`. */
  lemma MakePathChild(t: Node, p: Path, denied: set<Path>, x: string)
    requires IsDir(Get(t, p))
    ensures MakePath(t, p + [x], denied)
         == if Get(t, p + [x]).None? && p + [x] !in denied then Put(t, p + [x], Dir(map[])) else t
  {
    var c := p + [x];
    assert Parent(c) == p;
    if Get(t, c).None? {
      assert MakePath(t, p, denied) == t;
    }
  }

  /** Below a path where `wp_mkdir_p` already gave up, it gives up again at once. */
  lemma MakePathChildFailed(t: Node, p: Path, denied: set<Path>, x: string)
    requires MakePath(t, p, denied) == t && !IsDir(Get(t, p))
    ensures MakePath(t, p + [x], denied) == t
  {
    var c := p + [x];
    assert Parent(c) == p;
    GetBelowNonDir(t, p, [x]);
  }

  class FileSystem {
    var root: Node
    const denied: set<Path>

    constructor (tree: Node, refused: set<Path>)
      ensures root == tree && denied == refused
    {
      root := tree;
      denied := refused;
    }

    // -------------------------------------------------------------------------
    // Primitive calls

    /** `$wp_filesystem->exists()` and PHP `file_exists()`. */
    method Exists(p: Path) returns (b: bool)
      ensures b <==> Get(root, p).Some?
    {
      b := Get(root, p).Some?;
    }

    /** PHP `is_dir()`. */
    method IsDirectory(p: Path) returns (b: bool)
      ensures b <==> IsDir(Get(root, p))
    {
      b := IsDir(Get(root, p));
    }

    /**
     * `$wp_filesystem->dirlist()`: the entries of a directory. A file is
     * looked up in the directory above it, limited to its own name; a name
     * PHP counts as false ("0") sets no limit, so the whole directory above
     * is listed. A missing path gives `false`, over which `foreach` runs no
     * iteration.
     */
    method Dirlist(p: Path) returns (listing: map<string, Node>)
      ensures IsDir(Get(root, p)) ==> listing == Get(root, p).value.entries
      ensures Get(root, p) == None ==> listing == map[]
      ensures IsFileAt(root, p) && !PhpEmpty(p[|p| - 1]) ==> listing == map[p[|p| - 1] := Get(root, p).value]
      ensures IsFileAt(root, p) && PhpEmpty(p[|p| - 1]) ==>
        IsDir(Get(root, Parent(p))) && listing == Get(root, Parent(p)).value.entries
    {
      if IsFileAt(root, p) {
        var name := p[|p| - 1];
        if PhpEmpty(name) {
          assert p == Parent(p) + [name];
          GetChild(root, Parent(p), name);
          listing := Get(root, Parent(p)).value.entries;
        } else {
          listing := map[name := Get(root, p).value];
        }
      } else {
        listing := if IsDir(Get(root, p)) then Get(root, p).value.entries else map[];
      }
    }

    /** `$wp_filesystem->get_contents()`: a file's contents, or `false`. */
    method GetContents(p: Path) returns (c: Option<string>)
      ensures Get(root, p).Some? && Get(root, p).value.File? ==> c == Some(Get(root, p).value.contents)
      ensures !(Get(root, p).Some? && Get(root, p).value.File?) ==> c == None
    {
      c := if Get(root, p).Some? && Get(root, p).value.File? then Some(Get(root, p).value.contents) else None;
    }

    /** `$wp_filesystem->mkdir()` and PHP `mkdir()`: an empty directory where nothing was, inside an existing directory. */
    method Mkdir(p: Path) returns (ok: bool)
      modifies this
      ensures ok <==> Get(old(root), p) == None && Placeable(old(root), p) && p !in denied
      ensures root == if ok then Put(old(root), p, Dir(map[])) else old(root)
    {
      ok := Get(root, p) == None && Placeable(root, p) && p !in denied;
      if ok {
        root := Put(root, p, Dir(map[]));
      }
    }

    /**
     * `$wp_filesystem->copy()` (`overwrite` false: never replaces anything)
     * and PHP `copy()` (`overwrite` true: replaces a file, not a directory).
     */
    method Copy(src: Path, dst: Path, overwrite: bool) returns (ok: bool)
      modifies this
      ensures ok <==> Get(old(root), src).Some? && Get(old(root), src).value.File? && Placeable(old(root), dst)
                      && (Get(old(root), dst) == None || (overwrite && Get(old(root), dst).value.File?))
      ensures root == if ok then Put(old(root), dst, Get(old(root), src).value) else old(root)
    {
      ok := Get(root, src).Some? && Get(root, src).value.File? && Placeable(root, dst)
            && (Get(root, dst) == None || (overwrite && Get(root, dst).value.File?));
      if ok {
        root := Put(root, dst, Get(root, src).value);
      }
    }

    /** `$wp_filesystem->rmdir($p, true)`: removes a node and everything below it. */
    method Remove(p: Path) returns (ok: bool)
      modifies this
      ensures ok <==> p != [] && Get(old(root), p).Some?
      ensures root == Delete(old(root), p)
    {
      ok := p != [] && Get(root, p).Some?;
      root := Delete(root, p);
    }

    /** PHP `unlink()`: removes a file. */
    method Unlink(p: Path) returns (ok: bool)
      modifies this
      ensures ok <==> Get(old(root), p).Some? && Get(old(root), p).value.File?
      ensures root == if ok then Delete(old(root), p) else old(root)
    {
      ok := Get(root, p).Some? && Get(root, p).value.File?;
      if ok {
        root := Delete(root, p);
      }
    }

    /** PHP `rmdir()`: removes an empty directory. */
    method Rmdir(p: Path) returns (ok: bool)
      modifies this
      ensures ok <==> p != [] && Get(old(root), p) == Some(Dir(map[]))
      ensures root == if ok then Delete(old(root), p) else old(root)
    {
      ok := p != [] && Get(root, p) == Some(Dir(map[]));
      if ok {
        root := Delete(root, p);
      }
    }

    /** `wp_mkdir_p()`: creates `p` and the directories above it; true when `p` ends up a directory. */
    method MkdirP(p: Path) returns (ok: bool)
      modifies this
      ensures root == MakePath(old(root), p, denied)
      ensures ok <==> IsDir(Get(root, p))
      decreases |p|
    {
      var present := Exists(p);
      if present {
        ok := IsDirectory(p);
        return;
      }
      var _ := MkdirP(Parent(p));
      ghost var t1 := root;
      MakePathKeepsAbsent(old(root), Parent(p), denied, p);
      ok := Mkdir(p);
      if ok {
        GetPutSame(t1, p, Dir(map[]));
      }
    }
  }
}
