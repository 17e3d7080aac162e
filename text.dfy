/**
 * The PHP string operations the plugin relies on, written out over `seq<char>`:
 * `empty()`, `strpos(...) !== false`, `explode`, `implode`, `str_replace`, and
 * the version-number pattern `^v?\d+(\.\d+)*$` that several of its
 * functions test.
 */
module Text {

  /** PHP `empty($s)` for a string: the empty string and "0" are both empty. */
  predicate PhpEmpty(s: string) {
    s == "" || s == "0"
  }

  predicate StartsWith(s: string, prefix: string) {
    |prefix| <= |s| && s[..|prefix|] == prefix
  }

  predicate EndsWith(s: string, suffix: string) {
    |suffix| <= |s| && s[|s| - |suffix|..] == suffix
  }

  /** `strpos($s, $needle) !== false`: the needle occurs somewhere in `s`. */
  predicate Contains(s: string, needle: string)
    decreases |s|
  {
    StartsWith(s, needle) || (|s| > 0 && Contains(s[1..], needle))
  }

  /** The needle sits at offset `i` of `s`. */
  predicate OccursAt(s: string, needle: string, i: int) {
    0 <= i <= |s| - |needle| && s[i..i + |needle|] == needle
  }

  /** `Contains` holds exactly when the needle sits at some offset of `s`. */
  lemma {:induction false} ContainsAt(s: string, needle: string)
    ensures Contains(s, needle) <==> exists i :: OccursAt(s, needle, i)
    decreases |s|
  {
    if StartsWith(s, needle) {
      assert OccursAt(s, needle, 0);
    } else if |s| > 0 {
      ContainsAt(s[1..], needle);
      if exists i :: OccursAt(s, needle, i) {
        var i :| OccursAt(s, needle, i);
        assert i != 0;
        assert s[1..][i - 1..i - 1 + |needle|] == s[i..i + |needle|];
        assert OccursAt(s[1..], needle, i - 1);
      }
      if exists i :: OccursAt(s[1..], needle, i) {
        var i :| OccursAt(s[1..], needle, i);
        assert s[i + 1..i + 1 + |needle|] == s[1..][i..i + |needle|];
        assert OccursAt(s, needle, i + 1);
      }
    } else {
      assert |needle| > 0;
    }
  }

  /** A string that contains `left + right` contains `right`. */
  lemma ContainsRightPart(s: string, left: string, right: string)
    requires Contains(s, left + right)
    ensures Contains(s, right)
  {
    ContainsAt(s, left + right);
    var i :| OccursAt(s, left + right, i);
    assert s[i + |left|..i + |left| + |right|] == (left + right)[|left|..];
    assert OccursAt(s, right, i + |left|);
    ContainsAt(s, right);
  }

  /** The needle occurs in `a + b` when it occurs in `b`. */
  lemma ContainsInSuffix(a: string, b: string, needle: string)
    requires Contains(b, needle)
    ensures Contains(a + b, needle)
  {
    ContainsAt(b, needle);
    var i :| OccursAt(b, needle, i);
    assert (a + b)[|a| + i..|a| + i + |needle|] == b[i..i + |needle|];
    assert OccursAt(a + b, needle, |a| + i);
    ContainsAt(a + b, needle);
  }

  /** The needle occurs in `a + b` when it occurs in `a`. */
  lemma ContainsInPrefix(a: string, b: string, needle: string)
    requires Contains(a, needle)
    ensures Contains(a + b, needle)
  {
    ContainsAt(a, needle);
    var i :| OccursAt(a, needle, i);
    assert (a + b)[i..i + |needle|] == a[i..i + |needle|];
    assert OccursAt(a + b, needle, i);
    ContainsAt(a + b, needle);
  }

  /**
   * PHP `explode($sep, $s)` for a one-character separator: the pieces of `s`
   * between the separators, in order; never an empty list.
   */
  function Split(s: string, sep: char): (parts: seq<string>)
    ensures |parts| >= 1
    ensures forall i :: 0 <= i < |parts| ==> sep !in parts[i]
  {
    if s == [] then [""]
    else
      var rest := Split(s[1..], sep);
      if s[0] == sep then [""] + rest
      else [[s[0]] + rest[0]] + rest[1..]
  }

  /** PHP `implode($sep, $parts)`. */
  function Join(parts: seq<string>, sep: char): string {
    if |parts| == 0 then ""
    else if |parts| == 1 then parts[0]
    else parts[0] + [sep] + Join(parts[1..], sep)
  }

  /** The last piece of `explode($sep, $s)`, as PHP's `end()` returns it. */
  function LastPiece(s: string, sep: char): string {
    var parts := Split(s, sep);
    parts[|parts| - 1]
  }

  /** Joining the pieces of a split gives back the string. */
  lemma {:induction false} JoinSplit(s: string, sep: char)
    ensures Join(Split(s, sep), sep) == s
  {
    if s != [] {
      var rest := Split(s[1..], sep);
      JoinSplit(s[1..], sep);
      if s[0] == sep {
        assert Split(s, sep) == [""] + rest;
      } else {
        var parts := Split(s, sep);
        if |rest| > 1 {
          assert parts[1..] == rest[1..];
          assert Join(rest, sep) == rest[0] + [sep] + Join(rest[1..], sep);
        }
      }
    }
  }

  /** A string without the separator splits into itself alone. */
  lemma {:induction false} SplitWithoutSeparator(s: string, sep: char)
    requires sep !in s
    ensures Split(s, sep) == [s]
  {
    if s != [] {
      SplitWithoutSeparator(s[1..], sep);
      assert [s[0]] + s[1..] == s;
    }
  }

  /** Splitting `p + sep + r`, where `p` holds no separator, yields `p` and then the pieces of `r`. */
  lemma {:induction false} SplitAfterPiece(p: string, sep: char, r: string)
    requires sep !in p
    ensures Split(p + [sep] + r, sep) == [p] + Split(r, sep)
  {
    if p == [] {
      assert p + [sep] + r == [sep] + r;
      assert ([sep] + r)[1..] == r;
    } else {
      assert (p + [sep] + r)[1..] == p[1..] + [sep] + r;
      SplitAfterPiece(p[1..], sep, r);
      assert [p[0]] + p[1..] == p;
    }
  }

  /** Splitting a join of separator-free pieces gives back the pieces. */
  lemma {:induction false} SplitJoin(parts: seq<string>, sep: char)
    requires |parts| >= 1
    requires forall i :: 0 <= i < |parts| ==> sep !in parts[i]
    ensures Split(Join(parts, sep), sep) == parts
  {
    if |parts| == 1 {
      SplitWithoutSeparator(parts[0], sep);
    } else {
      SplitJoin(parts[1..], sep);
      SplitAfterPiece(parts[0], sep, Join(parts[1..], sep));
      assert [parts[0]] + parts[1..] == parts;
    }
  }

  /** A join of separator-free pieces contains a character only if some piece does. */
  lemma {:induction false} JoinChars(parts: seq<string>, sep: char, ch: char)
    requires ch != sep
    requires forall i :: 0 <= i < |parts| ==> ch !in parts[i]
    ensures ch !in Join(parts, sep)
  {
    if |parts| > 1 {
      JoinChars(parts[1..], sep, ch);
    }
  }

  /** Every piece of a split is made of characters of the string. */
  lemma {:induction false} SplitPiecesChars(s: string, sep: char, ch: char)
    requires ch !in s
    ensures forall i :: 0 <= i < |Split(s, sep)| ==> ch !in Split(s, sep)[i]
  {
    if s != [] {
      SplitPiecesChars(s[1..], sep, ch);
    }
  }

  /**
   * PHP `str_replace($search, $replace, $s)` for one search string: every
   * occurrence, scanning left to right without overlaps, is replaced.
   */
  function ReplaceAll(s: string, search: string, replace: string): string
    requires |search| > 0
    decreases |s|
  {
    if |s| < |search| then s
    else if s[..|search|] == search then replace + ReplaceAll(s[|search|..], search, replace)
    else [s[0]] + ReplaceAll(s[1..], search, replace)
  }

  /** A string without the search string is left as it is. */
  lemma {:induction false} ReplaceAllAbsent(s: string, search: string, replace: string)
    requires |search| > 0
    requires !Contains(s, search)
    ensures ReplaceAll(s, search, replace) == s
    decreases |s|
  {
    if |s| >= |search| {
      ReplaceAllAbsent(s[1..], search, replace);
    }
  }

  /** Where the search string does not start `s`, its first character is kept. */
  lemma ReplaceAllSkip(s: string, search: string, replace: string)
    requires |search| > 0 && |s| >= |search| && !StartsWith(s, search)
    ensures ReplaceAll(s, search, replace) == [s[0]] + ReplaceAll(s[1..], search, replace)
  {
  }

  /** Where the search string starts `s`, it is replaced. */
  lemma ReplaceAllHit(s: string, search: string, replace: string)
    requires |search| > 0 && StartsWith(s, search)
    ensures ReplaceAll(s, search, replace) == replace + ReplaceAll(s[|search|..], search, replace)
  {
  }

  /** No occurrence starts inside `a` after its first character either. */
  lemma NoStartInsideTail(a: string, b: string, search: string)
    requires a != []
    requires forall i :: 0 <= i < |a| ==> !StartsWith((a + b)[i..], search)
    ensures forall i :: 0 <= i < |a[1..]| ==> !StartsWith((a[1..] + b)[i..], search)
  {
    forall i | 0 <= i < |a[1..]|
      ensures !StartsWith((a[1..] + b)[i..], search)
    {
      assert (a[1..] + b)[i..] == (a + b)[i + 1..];
    }
  }

  /** Replacing in `a + b` when the search string starts `b` and occurs nowhere that starts inside `a`. */
  lemma {:induction false} ReplaceAllAt(a: string, b: string, search: string, replace: string)
    requires |search| > 0
    requires StartsWith(b, search)
    requires forall i :: 0 <= i < |a| ==> !StartsWith((a + b)[i..], search)
    ensures ReplaceAll(a + b, search, replace) == a + replace + ReplaceAll(b[|search|..], search, replace)
    decreases |a|
  {
    var r := ReplaceAll(b[|search|..], search, replace);
    if a == [] {
      assert a + b == b;
      ReplaceAllHit(b, search, replace);
    } else {
      var s := a + b;
      assert !StartsWith(s[0..], search);
      assert s[0..] == s;
      ReplaceAllSkip(s, search, replace);
      assert s[1..] == a[1..] + b;
      NoStartInsideTail(a, b, search);
      ReplaceAllAt(a[1..], b, search, replace);
      calc {
        ReplaceAll(s, search, replace);
        [a[0]] + ReplaceAll(a[1..] + b, search, replace);
        [a[0]] + (a[1..] + replace + r);
        { assert [a[0]] + a[1..] == a; }
        a + replace + r;
      }
    }
  }

  predicate IsDigit(c: char) {
    '0' <= c <= '9'
  }

  /** One or more decimal digits: `\d+`. */
  predicate IsDigits(s: string) {
    |s| > 0 && forall i :: 0 <= i < |s| ==> IsDigit(s[i])
  }

  /** `\d+(\.\d+)*`: digit groups separated by single dots. */
  predicate IsDottedDigits(s: string) {
    var groups := Split(s, '.');
    forall i :: 0 <= i < |groups| ==> IsDigits(groups[i])
  }

  /** The pattern `^v?\d+(\.\d+)*$`: an optional `v` and a dotted version number. */
  predicate IsVersionNumber(s: string) {
    IsDottedDigits(s) || (|s| > 0 && s[0] == 'v' && IsDottedDigits(s[1..]))
  }

  /** A version number is never "master" or "main" and never contains a dash. */
  lemma VersionNumberHasNoDash(s: string)
    requires IsVersionNumber(s)
    ensures '-' !in s
  {
    var t := if IsDottedDigits(s) then s else s[1..];
    assert IsDottedDigits(t);
    JoinSplit(t, '.');
    var groups := Split(t, '.');
    forall i | 0 <= i < |groups| ensures '-' !in groups[i] {
      assert IsDigits(groups[i]);
    }
    JoinChars(groups, '.', '-');
    if t != s {
      assert s == [s[0]] + t;
    }
  }

  /** The last piece of a join of two or more pieces follows the last separator. */
  lemma {:induction false} JoinLast(parts: seq<string>, sep: char)
    requires |parts| >= 2
    ensures Join(parts, sep) == Join(parts[..|parts| - 1], sep) + [sep] + parts[|parts| - 1]
  {
    if |parts| > 2 {
      JoinLast(parts[1..], sep);
      assert parts[1..][..|parts| - 2] == parts[..|parts| - 1][1..];
    }
  }

  /** A string holding the separator splits into two or more pieces. */
  lemma {:induction false} SplitAtSeparator(s: string, sep: char)
    requires sep in s
    ensures |Split(s, sep)| >= 2
  {
    if s[0] != sep {
      assert s == [s[0]] + s[1..];
      assert sep in s[1..];
      SplitAtSeparator(s[1..], sep);
    }
  }

  /** A string holding the separator splits into two or more pieces, and ends with the last of them after a separator. */
  lemma EndsWithLastPiece(s: string, sep: char)
    requires sep in s
    ensures |Split(s, sep)| >= 2
    ensures EndsWith(s, [sep] + LastPiece(s, sep))
  {
    var parts := Split(s, sep);
    SplitAtSeparator(s, sep);
    var front, last := Join(parts[..|parts| - 1], sep), parts[|parts| - 1];
    var tail := [sep] + last;
    assert s == front + tail by {
      JoinSplit(s, sep);
      JoinLast(parts, sep);
      AppendAssoc(front, [sep], last);
    }
    assert LastPiece(s, sep) == last;
    assert |s| - |tail| == |front|;
    assert s[|front|..] == tail;
  }

  /** A separator in front opens an empty first piece. */
  lemma SplitSepCons(sep: char, t: string)
    ensures Split([sep] + t, sep) == [""] + Split(t, sep)
  {
    var s := [sep] + t;
    assert s[0] == sep && s[1..] == t;
  }

  /** Any other character in front joins the first piece. */
  lemma SplitCharCons(c: char, t: string, sep: char)
    requires c != sep
    ensures Split([c] + t, sep) == [[c] + Split(t, sep)[0]] + Split(t, sep)[1..]
  {
    var s := [c] + t;
    assert s[0] == c && s[1..] == t;
  }

  /** Concatenation is associative. */
  lemma AppendAssoc<T>(x: seq<T>, y: seq<T>, z: seq<T>)
    ensures (x + y) + z == x + (y + z)
  {
  }

  /** The step of `SplitConcat` for a separator in front. */
  lemma SplitConcatSepCons(sep: char, tail: string, ra: seq<string>, sb: seq<string>)
    requires Split(tail, sep) == ra + sb
    ensures Split([sep] + tail, sep) == ([""] + ra) + sb
  {
    SplitSepCons(sep, tail);
    AppendAssoc([""], ra, sb);
  }

  /** The step of `SplitConcat` for any other character in front. */
  lemma SplitConcatCharCons(c: char, tail: string, sep: char, ra: seq<string>, sb: seq<string>)
    requires c != sep && |ra| >= 1
    requires Split(tail, sep) == ra + sb
    ensures Split([c] + tail, sep) == ([[c] + ra[0]] + ra[1..]) + sb
  {
    SplitCharCons(c, tail, sep);
    assert (ra + sb)[0] == ra[0];
    assert (ra + sb)[1..] == ra[1..] + sb;
    AppendAssoc([[c] + ra[0]], ra[1..], sb);
  }

  /** The step of `SplitConcat`: one more character in front of the left side. */
  lemma SplitConcatCons(c: char, a: string, sep: char, b: string)
    requires Split(a + [sep] + b, sep) == Split(a, sep) + Split(b, sep)
    ensures Split([c] + a + [sep] + b, sep) == Split([c] + a, sep) + Split(b, sep)
  {
    var tail := a + [sep] + b;
    assert [c] + a + [sep] + b == [c] + tail;
    if c == sep {
      SplitSepCons(sep, a);
      SplitConcatSepCons(sep, tail, Split(a, sep), Split(b, sep));
    } else {
      SplitCharCons(c, a, sep);
      SplitConcatCharCons(c, tail, sep, Split(a, sep), Split(b, sep));
    }
  }

  /** Splitting around one separator splits each side. */
  lemma {:induction false} SplitConcat(a: string, sep: char, b: string)
    ensures Split(a + [sep] + b, sep) == Split(a, sep) + Split(b, sep)
  {
    if a == [] {
      assert a + [sep] + b == [sep] + b;
      SplitSepCons(sep, b);
    } else {
      SplitConcat(a[1..], sep, b);
      SplitConcatCons(a[0], a[1..], sep, b);
      assert [a[0]] + a[1..] == a;
    }
  }

  /** The last piece after a separator is the text that follows it, when that text holds no separator. */
  lemma LastPieceAfter(a: string, sep: char, b: string)
    requires sep !in b
    ensures Split(a + [sep] + b, sep) == Split(a, sep) + [b]
    ensures LastPiece(a + [sep] + b, sep) == b
    ensures Join(Split(a + [sep] + b, sep)[..|Split(a + [sep] + b, sep)| - 1], sep) == a
  {
    SplitConcat(a, sep, b);
    SplitWithoutSeparator(b, sep);
    var parts := Split(a + [sep] + b, sep);
    assert parts[..|parts| - 1] == Split(a, sep);
    JoinSplit(a, sep);
  }

  /** A string that starts with neither a digit nor `v` is no version number. */
  lemma NotVersionNumber(s: string)
    requires |s| > 0 && !IsDigit(s[0]) && s[0] != 'v'
    ensures !IsVersionNumber(s)
  {
    if s[0] == '.' {
      assert Split(s, '.')[0] == "";
    } else {
      FirstPieceStarts(s, '.');
    }
  }

  /** The first piece of a split starts with the first character, unless that is the separator. */
  lemma FirstPieceStarts(s: string, sep: char)
    requires |s| > 0 && s[0] != sep
    ensures |Split(s, sep)[0]| > 0 && Split(s, sep)[0][0] == s[0]
  {
  }

  /** A string lacking one of the needle's characters does not contain the needle. */
  lemma NotContainsChar(s: string, needle: string, k: int)
    requires 0 <= k < |needle| && needle[k] !in s
    ensures !Contains(s, needle)
  {
    forall i | 0 <= i <= |s| - |needle| ensures !OccursAt(s, needle, i) {
      assert s[i + k] in s;
      assert s[i..i + |needle|][k] == s[i + k];
    }
    ContainsAt(s, needle);
  }

  /** A needle that starts nowhere inside `a` and is absent from `b` is absent from `a + b`. */
  lemma {:induction false} NotContainsConcat(a: string, b: string, needle: string)
    requires forall i :: 0 <= i < |a| ==> !StartsWith((a + b)[i..], needle)
    requires !Contains(b, needle)
    ensures !Contains(a + b, needle)
    decreases |a|
  {
    if a == [] {
      assert a + b == b;
    } else {
      assert (a + b)[0..] == a + b;
      assert (a + b)[1..] == a[1..] + b;
      NoStartInsideTail(a, b, needle);
      NotContainsConcat(a[1..], b, needle);
    }
  }

  /** `n` in decimal, as PHP's `%d` and string conversion print it. */
  function IntToString(n: int): (s: string)
    ensures |s| > 0
    decreases if n < 0 then 1 - n else n
  {
    if n < 0 then "-" + IntToString(-n)
    else if n < 10 then [DigitChar(n)]
    else IntToString(n / 10) + [DigitChar(n % 10)]
  }

  function DigitChar(d: int): char
    requires 0 <= d < 10
  {
    (48 + d) as char
  }

  /** Three digit groups joined by dots form a version number, such as `1.4.0`. */
  lemma ThreePartVersion(a: string, b: string, c: string)
    requires IsDigits(a) && IsDigits(b) && IsDigits(c)
    ensures IsVersionNumber(a + "." + b + "." + c)
  {
    DigitsHaveNoDot(a);
    DigitsHaveNoDot(b);
    DigitsHaveNoDot(c);
    SplitWithoutSeparator(a, '.');
    SplitWithoutSeparator(b, '.');
    SplitWithoutSeparator(c, '.');
    SplitConcat(b, '.', c);
    SplitConcat(a, '.', b + ['.'] + c);
    assert a + "." + b + "." + c == a + ['.'] + (b + ['.'] + c);
    assert Split(a + "." + b + "." + c, '.') == [a, b, c];
  }

  lemma DigitsHaveNoDot(s: string)
    requires IsDigits(s)
    ensures '.' !in s
  {
    forall i | 0 <= i < |s| ensures s[i] != '.' {
      assert IsDigit(s[i]);
    }
  }

  /** A needle whose first character is missing from `a` starts nowhere inside `a`. */
  lemma NoStartInside(a: string, b: string, needle: string)
    requires |needle| > 0 && needle[0] !in a
    ensures forall i :: 0 <= i < |a| ==> !StartsWith((a + b)[i..], needle)
  {
    forall i | 0 <= i < |a| ensures !StartsWith((a + b)[i..], needle) {
      assert (a + b)[i..][0] == a[i];
      assert a[i] in a;
    }
  }

  /**
   * A needle of two or more characters whose second character is missing
   * from `a`, and which does not start with the last character of `a`,
   * starts nowhere inside `a`.
   */
  lemma NoStartInsideSecond(a: string, b: string, needle: string)
    requires |needle| >= 2 && needle[1] !in a
    requires |a| > 0 ==> a[|a| - 1] != needle[0]
    ensures forall i :: 0 <= i < |a| ==> !StartsWith((a + b)[i..], needle)
  {
    forall i | 0 <= i < |a| ensures !StartsWith((a + b)[i..], needle) {
      if i + 1 < |a| {
        assert (a + b)[i..][1] == a[i + 1];
        assert a[i + 1] in a;
      } else {
        assert (a + b)[i..][0] == a[i];
      }
    }
  }

  /** A string that starts with the needle starts, after `d` characters, with the rest of it. */
  lemma StartsWithDrop(s: string, needle: string, d: int)
    requires 0 <= d <= |needle|
    ensures StartsWith(s, needle) ==> StartsWith(s[d..], needle[d..])
  {
    if |needle| <= |s| {
      assert s[d..][..|needle| - d] == s[..|needle|][d..];
    }
  }

  /** A string lacking one of the needle's characters does not start with it. */
  lemma NoStartWithout(s: string, needle: string, k: int)
    requires 0 <= k < |needle| && needle[k] !in s
    ensures !StartsWith(s, needle)
  {
    if |needle| <= |s| {
      assert s[..|needle|][k] == s[k];
      assert s[k] in s;
    }
  }

  /**
   * A needle starts nowhere inside `a` when its character at offset `k` is
   * missing from `a` and `b` starts with none of the needle's tails an
   * occurrence reaching into `b` before that offset would need.
   */
  lemma NoStartInsideUpTo(a: string, b: string, needle: string, k: int)
    requires 0 <= k < |needle| && needle[k] !in a
    requires forall d :: 1 <= d <= k ==> !StartsWith(b, needle[d..])
    ensures forall i :: 0 <= i < |a| ==> !StartsWith((a + b)[i..], needle)
  {
    forall i | 0 <= i < |a| ensures !StartsWith((a + b)[i..], needle) {
      var d := |a| - i;
      if d > k {
        assert (a + b)[i..][k] == a[i + k];
        assert a[i + k] in a;
      } else {
        StartsWithDrop((a + b)[i..], needle, d);
        assert (a + b)[i..][d..] == b;
      }
    }
  }

  /** Facts about where a needle starts inside `x` and inside `y` combine into one about `x + y`. */
  lemma NoStartInsideConcat(x: string, y: string, z: string, needle: string)
    requires forall i :: 0 <= i < |x| ==> !StartsWith((x + (y + z))[i..], needle)
    requires forall i :: 0 <= i < |y| ==> !StartsWith((y + z)[i..], needle)
    ensures forall i :: 0 <= i < |x + y| ==> !StartsWith((x + y + z)[i..], needle)
  {
    assert x + y + z == x + (y + z);
    forall i | |x| <= i < |x + y| ensures !StartsWith((x + y + z)[i..], needle) {
      assert (x + y + z)[i..] == (y + z)[i - |x|..];
    }
  }

  /**
   * A segment `x` followed by the separator `c` starts with the segment `w`
   * and `c` only when `x` is `w` (neither holding `c`).
   */
  lemma SegmentStart(x: string, c: char, rest: string, w: string)
    requires c !in x && c !in w && x != w
    ensures !StartsWith(x + [c] + rest, w + [c])
  {
    var s, n := x + [c] + rest, w + [c];
    if |x| < |w| {
      assert s[|x|] == c && n[|x|] == w[|x|];
      assert w[|x|] in w;
    } else if |x| > |w| {
      assert s[|w|] == x[|w|] && n[|w|] == c;
      assert x[|w|] in x;
    } else {
      var j :| 0 <= j < |x| && x[j] != w[j];
      assert s[j] == x[j] && n[j] == w[j];
    }
  }

  /**
   * The search string between `a`, inside which it starts nowhere, and `b`,
   * which does not contain it, is replaced once.
   */
  lemma ReplaceAllOnce(a: string, search: string, b: string, replace: string)
    requires |search| > 0
    requires forall i :: 0 <= i < |a| ==> !StartsWith((a + (search + b))[i..], search)
    requires !Contains(b, search)
    ensures Contains(a + search + b, search)
    ensures ReplaceAll(a + search + b, search, replace) == a + replace + b
  {
    var sb := search + b;
    AppendAssoc(a, search, b);
    ContainsMiddle(a, search, b);
    ReplaceAllAt(a, sb, search, replace);
    assert sb[|search|..] == b;
    ReplaceAllAbsent(b, search, replace);
  }

  /** A needle between two strings is contained in their concatenation. */
  lemma ContainsMiddle(x: string, needle: string, y: string)
    ensures Contains(x + needle + y, needle)
  {
    var s := x + needle + y;
    assert s[|x|..|x| + |needle|] == needle;
    assert OccursAt(s, needle, |x|);
    ContainsAt(s, needle);
  }
}
