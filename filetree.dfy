/**
 * A filesystem as an immutable tree: a directory maps names to nodes, a file
 * holds its contents. Paths are sequences of names below the root. `Get`,
 * `Put` and `Delete` are the three primitive views every filesystem call of
 * the plugin is specified by.
 */
module FileTree {
  import opened Results

  datatype Node = File(contents: string) | Dir(entries: map<string, Node>)

  /** A path below the root, one name per level (`a/b/c` is `["a", "b", "c"]`). */
  type Path = seq<string>

  predicate IsPrefix(p: Path, q: Path) {
    |p| <= |q| && q[..|p|] == p
  }

  /** Neither path lies inside the other. */
  predicate Disjoint(p: Path, q: Path) {
    !IsPrefix(p, q) && !IsPrefix(q, p)
  }

  function Parent(p: Path): Path
    requires p != []
  {
    p[..|p| - 1]
  }

  predicate IsDir(o: Option<Node>) {
    o.Some? && o.value.Dir?
  }

  /** The node at `p`, if there is one. */
  function Get(t: Node, p: Path): Option<Node>
    decreases |p|
  {
    if p == [] then Some(t)
    else match t
      case File(_) => None
      case Dir(m) => if p[0] in m then Get(m[p[0]], p[1..]) else None
  }

  /**
   * The tree with `n` at `p`: the node there is replaced, or `n` becomes a new
   * entry of the directory that would hold it. Where no directory can hold
   * it, the tree is unchanged.
   */
  function Put(t: Node, p: Path, n: Node): Node
    decreases |p|
  {
    if p == [] then n
    else match t
      case File(_) => t
      case Dir(m) =>
        if p[0] in m then Dir(m[p[0] := Put(m[p[0]], p[1..], n)])
        else if |p| == 1 then Dir(m[p[0] := n])
        else t
  }

  /** The tree without the node at `p` and everything below it; the root itself cannot be removed. */
  function Delete(t: Node, p: Path): Node
    decreases |p|
  {
    if p == [] then t
    else match t
      case File(_) => t
      case Dir(m) =>
        if p[0] !in m then t
        else if |p| == 1 then Dir(m - {p[0]})
        else Dir(m[p[0] := Delete(m[p[0]], p[1..])])
  }

  /** A node could be placed at `p`: the directory meant to hold it exists. */
  predicate Placeable(t: Node, p: Path) {
    p == [] || IsDir(Get(t, Parent(p)))
  }

  /** The node one level further down is an entry of the directory at `p`. */
  lemma {:induction false} GetChild(t: Node, p: Path, x: string)
    ensures Get(t, p + [x]) ==
      (if IsDir(Get(t, p)) && x in Get(t, p).value.entries
       then Some(Get(t, p).value.entries[x]) else None)
    decreases |p|
  {
    if p == [] {
      assert [] + [x] == [x];
      assert [x][1..] == [];
    } else {
      assert (p + [x])[0] == p[0];
      assert (p + [x])[1..] == p[1..] + [x];
      if t.Dir? && p[0] in t.entries {
        GetChild(t.entries[p[0]], p[1..], x);
      }
    }
  }

  /** An existing node sits in a directory. */
  lemma ExistingIsPlaceable(t: Node, p: Path)
    requires Get(t, p).Some?
    ensures Placeable(t, p)
  {
    if p != [] {
      var q := Parent(p);
      assert p == q + [p[|p| - 1]];
      GetChild(t, q, p[|p| - 1]);
    }
  }

  /** Below a file or a missing node there is nothing. */
  lemma {:induction false} GetBelowNonDir(t: Node, p: Path, q: Path)
    requires !IsDir(Get(t, p))
    requires q != []
    ensures Get(t, p + q) == None
    decreases |p|
  {
    if p == [] {
      assert p + q == q;
    } else {
      assert (p + q)[0] == p[0];
      assert (p + q)[1..] == p[1..] + q;
      if t.Dir? && p[0] in t.entries {
        GetBelowNonDir(t.entries[p[0]], p[1..], q);
      }
    }
  }

  /** A node placed at `p` can be found at `p`. */
  lemma {:induction false} GetPutSame(t: Node, p: Path, n: Node)
    requires Placeable(t, p)
    ensures Get(Put(t, p, n), p) == Some(n)
    decreases |p|
  {
    if p != [] {
      var q := Parent(p);
      assert p == q + [p[|p| - 1]];
      GetChild(t, q, p[|p| - 1]);
      if |p| > 1 {
        assert q[0] == p[0] && q[1..] == Parent(p[1..]);
        GetPutSame(t.entries[p[0]], p[1..], n);
      }
    }
  }

  /** Below the placed node the tree is the placed node. */
  lemma {:induction false} GetPutBelow(t: Node, p: Path, n: Node, q: Path)
    requires Placeable(t, p)
    ensures Get(Put(t, p, n), p + q) == Get(n, q)
    decreases |p|
  {
    if p == [] {
      assert p + q == q;
    } else {
      var q0 := Parent(p);
      assert p == q0 + [p[|p| - 1]];
      GetChild(t, q0, p[|p| - 1]);
      assert (p + q)[0] == p[0];
      assert (p + q)[1..] == p[1..] + q;
      if |p| > 1 {
        assert q0[0] == p[0] && q0[1..] == Parent(p[1..]);
        GetPutBelow(t.entries[p[0]], p[1..], n, q);
      }
    }
  }

  /** Placing a node at `p` changes nothing at a path disjoint from `p`. */
  lemma {:induction false} GetPutDisjoint(t: Node, p: Path, n: Node, q: Path)
    requires Disjoint(p, q)
    ensures Get(Put(t, p, n), q) == Get(t, q)
    decreases |p|
  {
    assert p != [] && q != [];
    if t.Dir? && p[0] == q[0] && p[0] in t.entries {
      GetPutDisjoint(t.entries[p[0]], p[1..], n, q[1..]);
    }
  }

  /** Removing the node at `p` changes nothing at a path disjoint from `p`. */
  lemma {:induction false} GetDeleteDisjoint(t: Node, p: Path, q: Path)
    requires Disjoint(p, q)
    ensures Get(Delete(t, p), q) == Get(t, q)
    decreases |p|
  {
    assert p != [] && q != [];
    if t.Dir? && p[0] == q[0] && p[0] in t.entries {
      GetDeleteDisjoint(t.entries[p[0]], p[1..], q[1..]);
    }
  }

  /** After removing `p` nothing is left at or below `p`. */
  lemma {:induction false} GetDeleteBelow(t: Node, p: Path, q: Path)
    requires p != [] && IsPrefix(p, q)
    ensures Get(Delete(t, p), q) == None
    decreases |p|
  {
    if t.Dir? && p[0] in t.entries && |p| > 1 {
      assert q[0] == p[0];
      GetDeleteBelow(t.entries[p[0]], p[1..], q[1..]);
    }
  }

  /** A second `Put` at the same path overrides the first. */
  lemma {:induction false} PutPut(t: Node, p: Path, a: Node, b: Node)
    ensures Put(Put(t, p, a), p, b) == Put(t, p, b)
    decreases |p|
  {
    if p != [] && t.Dir? && p[0] in t.entries {
      PutPut(t.entries[p[0]], p[1..], a, b);
    }
  }

  /** Putting back the node already at `p` leaves the tree as it was. */
  lemma {:induction false} PutGet(t: Node, p: Path, n: Node)
    requires Get(t, p) == Some(n)
    ensures Put(t, p, n) == t
    decreases |p|
  {
    if p != [] {
      PutGet(t.entries[p[0]], p[1..], n);
      assert t.entries[p[0] := t.entries[p[0]]] == t.entries;
    }
  }

  /** Placing an entry `x` of the directory at `p` is placing the updated directory at `p`. */
  lemma {:induction false} PutChild(t: Node, p: Path, m: map<string, Node>, x: string, v: Node)
    requires Get(t, p) == Some(Dir(m))
    ensures Put(t, p + [x], v) == Put(t, p, Dir(m[x := v]))
    decreases |p|
  {
    if p == [] {
      assert [] + [x] == [x];
      assert [x][1..] == [];
    } else {
      assert (p + [x])[0] == p[0];
      assert (p + [x])[1..] == p[1..] + [x];
      PutChild(t.entries[p[0]], p[1..], m, x, v);
    }
  }

  /** Removing an entry `x` of the directory at `p` is placing the directory without `x` at `p`. */
  lemma {:induction false} DeleteChild(t: Node, p: Path, m: map<string, Node>, x: string)
    requires Get(t, p) == Some(Dir(m))
    ensures Delete(t, p + [x]) == Put(t, p, Dir(m - {x}))
    decreases |p|
  {
    if p == [] {
      assert [] + [x] == [x];
      if x !in m {
        assert m - {x} == m;
      }
    } else {
      assert (p + [x])[0] == p[0];
      assert (p + [x])[1..] == p[1..] + [x];
      DeleteChild(t.entries[p[0]], p[1..], m, x);
    }
  }

  /** Removing a node and placing another at the same path is replacing it. */
  lemma {:induction false} PutAfterDelete(t: Node, p: Path, n: Node)
    requires p != [] && Placeable(t, p)
    ensures Put(Delete(t, p), p, n) == Put(t, p, n)
    decreases |p|
  {
    var q := Parent(p);
    assert p == q + [p[|p| - 1]];
    GetChild(t, q, p[|p| - 1]);
    if |p| == 1 {
      assert t.Dir?;
      if p[0] in t.entries {
        assert (t.entries - {p[0]})[p[0] := n] == t.entries[p[0] := n];
      }
    } else {
      assert q[0] == p[0] && q[1..] == Parent(p[1..]);
      PutAfterDelete(t.entries[p[0]], p[1..], n);
    }
  }

  /** Removing a node that was just created where nothing was gives back the tree. */
  lemma {:induction false} DeleteAfterPutFresh(t: Node, p: Path, n: Node)
    requires p != [] && Get(t, p) == None
    ensures Delete(Put(t, p, n), p) == t
    decreases |p|
  {
    if t.Dir? {
      if p[0] in t.entries {
        DeleteAfterPutFresh(t.entries[p[0]], p[1..], n);
        assert t.entries[p[0] := t.entries[p[0]]] == t.entries;
      } else if |p| == 1 {
        assert t.entries[p[0] := n] - {p[0]} == t.entries;
      }
    }
  }

  /** A `Put` and a `Delete` at disjoint paths commute. */
  lemma {:induction false} PutDeleteCommute(t: Node, p: Path, n: Node, q: Path)
    requires Disjoint(p, q)
    ensures Delete(Put(t, p, n), q) == Put(Delete(t, q), p, n)
    decreases |p|
  {
    assert p != [] && q != [];
    if t.Dir? {
      var m := t.entries;
      if p[0] == q[0] {
        if p[0] in m {
          PutDeleteCommute(m[p[0]], p[1..], n, q[1..]);
        }
      } else if p[0] in m && q[0] in m {
        if |q| == 1 {
          assert m[p[0] := Put(m[p[0]], p[1..], n)] - {q[0]} == (m - {q[0]})[p[0] := Put(m[p[0]], p[1..], n)];
        } else {
          assert m[p[0] := Put(m[p[0]], p[1..], n)][q[0] := Delete(m[q[0]], q[1..])]
              == m[q[0] := Delete(m[q[0]], q[1..])][p[0] := Put(m[p[0]], p[1..], n)];
        }
      } else if p[0] !in m && |p| == 1 && q[0] in m {
        if |q| == 1 {
          assert m[p[0] := n] - {q[0]} == (m - {q[0]})[p[0] := n];
        } else {
          assert m[p[0] := n][q[0] := Delete(m[q[0]], q[1..])]
              == m[q[0] := Delete(m[q[0]], q[1..])][p[0] := n];
        }
      }
    }
  }

  /** Removing a node just placed at `p` is removing whatever was there before. */
  lemma {:induction false} DeleteAfterPut(t: Node, p: Path, n: Node)
    requires p != [] && Placeable(t, p)
    ensures Delete(Put(t, p, n), p) == Delete(t, p)
    decreases |p|
  {
    var q := Parent(p);
    assert p == q + [p[|p| - 1]];
    GetChild(t, q, p[|p| - 1]);
    if |p| == 1 {
      assert t.entries[p[0] := n] - {p[0]} == t.entries - {p[0]};
    } else {
      assert q[0] == p[0] && q[1..] == Parent(p[1..]);
      DeleteAfterPut(t.entries[p[0]], p[1..], n);
    }
  }

  /** Paths below two disjoint paths are disjoint. */
  lemma DisjointBelow(p: Path, q: Path, a: Path, b: Path)
    requires Disjoint(p, q)
    ensures Disjoint(p + a, q + b)
  {
    if |p| <= |q| {
      assert (q + b)[..|p|] == q[..|p|];
      assert (p + a)[..|p|] == p;
    } else {
      assert (p + a)[..|q|] == p[..|q|];
      assert (q + b)[..|q|] == q;
    }
  }

  /** A directory outside the subtree that a `Put` replaces stays a directory. */
  lemma {:induction false} PutKeepsDir(t: Node, p: Path, n: Node, q: Path)
    requires IsDir(Get(t, q)) && !IsPrefix(p, q)
    ensures IsDir(Get(Put(t, p, n), q))
    decreases |q|
  {
    if q != [] {
      var m := t.entries;
      if p[0] == q[0] {
        if |p| <= |q| {
          assert q[..|p|] == [q[0]] + q[1..][..|p| - 1];
        }
        PutKeepsDir(m[q[0]], p[1..], n, q[1..]);
      }
    }
  }

  /** A directory outside the subtree that a `Delete` removes stays a directory. */
  lemma {:induction false} DeleteKeepsDir(t: Node, p: Path, q: Path)
    requires IsDir(Get(t, q)) && !IsPrefix(p, q)
    ensures IsDir(Get(Delete(t, p), q))
    decreases |q|
  {
    if q != [] {
      var m := t.entries;
      if p[0] == q[0] {
        if |p| <= |q| {
          assert q[..|p|] == [q[0]] + q[1..][..|p| - 1];
        }
        DeleteKeepsDir(m[q[0]], p[1..], q[1..]);
      }
    }
  }
}
