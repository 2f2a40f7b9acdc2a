/**
 * The Python `str` operations the importer is built from, on `seq<char>`:
 * `strip`, `isspace`, `isalpha`, `replace(old, new, 1)`, `replace(old, "")`,
 * `split(sep)` with a one-character separator, and `os.path.basename` for
 * POSIX paths. `Find` and `Join` are not called by the importer: `Find`
 * says which occurrence `replace(old, new, 1)` rewrites, and `Join` states
 * the round trip of `split`.
 */
module PyStr {

  datatype Option<T> = None | Some(value: T)

  /** Python's `str.isspace`: the characters Unicode classes as white space. */
  predicate IsSpace(c: char) {
    || ('\t' <= c <= '\r')
    || ('\U{1C}' <= c <= '\U{1F}')
    || c == ' '
    || c == '\U{85}'
    || c == '\U{A0}'
    || c == '\U{1680}'
    || ('\U{2000}' <= c <= '\U{200A}')
    || c == '\U{2028}'
    || c == '\U{2029}'
    || c == '\U{202F}'
    || c == '\U{205F}'
    || c == '\U{3000}'
  }

  /** `str.isalpha`, restricted to the ASCII letters. */
  predicate IsAlpha(c: char) {
    ('A' <= c <= 'Z') || ('a' <= c <= 'z')
  }

  /** The end of the run of white space that starts at `i`. */
  function SpaceRunEnd(s: string, i: nat): (j: nat)
    requires i <= |s|
    ensures i <= j <= |s|
    ensures forall k :: i <= k < j ==> IsSpace(s[k])
    ensures j < |s| ==> !IsSpace(s[j])
    decreases |s| - i
  {
    if i < |s| && IsSpace(s[i]) then SpaceRunEnd(s, i + 1) else i
  }

  /** The start of the run of white space that ends at `j`, going back no further than `lo`. */
  function SpaceRunStart(s: string, lo: nat, j: nat): (i: nat)
    requires lo <= j <= |s|
    ensures lo <= i <= j
    ensures forall k :: i <= k < j ==> IsSpace(s[k])
    ensures lo < i ==> !IsSpace(s[i - 1])
  {
    if lo < j && IsSpace(s[j - 1]) then SpaceRunStart(s, lo, j - 1) else j
  }

  /**
   * Where `str.strip()` cuts `s`: everything before `a` and from `b` on is
   * white space, and a non-empty remainder starts and ends with a character
   * that is not.
   */
  function StripBounds(s: string): (ab: (nat, nat))
    ensures ab.0 <= ab.1 <= |s|
    ensures forall k :: 0 <= k < ab.0 ==> IsSpace(s[k])
    ensures forall k :: ab.1 <= k < |s| ==> IsSpace(s[k])
    ensures ab.0 < ab.1 ==> !IsSpace(s[ab.0]) && !IsSpace(s[ab.1 - 1])
  {
    var a := SpaceRunEnd(s, 0);
    (a, SpaceRunStart(s, a, |s|))
  }

  /**
   * `str.strip()`: never longer than `s`, and a non-empty result neither
   * starts nor ends with white space.
   */
  function Strip(s: string): (r: string)
    ensures |r| <= |s|
    ensures r != [] ==> !IsSpace(r[0]) && !IsSpace(r[|r| - 1])
  {
    s[StripBounds(s).0..StripBounds(s).1]
  }

  /** A value strips to nothing exactly when it is all white space. */
  lemma StripBlank(s: string)
    ensures Strip(s) == [] <==> forall i :: 0 <= i < |s| ==> IsSpace(s[i])
  {
    var (a, b) := StripBounds(s);
    assert |Strip(s)| == b - a;
  }

  /** `pat` occurs in `s` starting at index `i`. */
  predicate OccursAt(s: string, pat: string, i: int) {
    0 <= i && i + |pat| <= |s| && s[i..i + |pat|] == pat
  }

  /** The first occurrence of `pat` in `s` at or after `from` (`str.find`). */
  function FindFrom(s: string, pat: string, from: nat): (r: Option<nat>)
    ensures r.Some? ==> from <= r.value && OccursAt(s, pat, r.value)
                        && forall j :: from <= j < r.value ==> !OccursAt(s, pat, j)
    ensures r.None? ==> forall j :: from <= j ==> !OccursAt(s, pat, j)
    decreases |s| - from
  {
    if from + |pat| > |s| then None
    else if s[from..from + |pat|] == pat then Some(from)
    else FindFrom(s, pat, from + 1)
  }

  function Find(s: string, pat: string): (r: Option<nat>)
    ensures r.Some? ==> OccursAt(s, pat, r.value)
                        && forall j :: 0 <= j < r.value ==> !OccursAt(s, pat, j)
    ensures r.None? ==> forall j :: !OccursAt(s, pat, j)
  {
    FindFrom(s, pat, 0)
  }

  /** The first `c` in `a + [c] + b` is the one after `a` when `a` holds none. */
  lemma FindAfter(a: string, c: char, b: string)
    requires c !in a
    ensures Find(a + [c] + b, [c]) == Some(|a|)
  {
    var s := a + [c] + b;
    assert s[|a|..|a| + 1] == [c];
    assert OccursAt(s, [c], |a|);
    forall j | 0 <= j < |a| ensures !OccursAt(s, [c], j) {
      assert s[j..j + 1] == [a[j]];
    }
  }

  /** `s.replace(pat, rep, 1)`: only the first occurrence is rewritten. */
  function ReplaceFirst(s: string, pat: string, rep: string): (r: string)
    ensures |r| == |s| + if Find(s, pat).Some? then |rep| - |pat| else 0
  {
    match Find(s, pat)
    case None => s
    case Some(i) => s[..i] + rep + s[i + |pat|..]
  }

  /** `s.replace(pat, "")`: a left-to-right scan that deletes every non-overlapping occurrence. */
  function RemoveAll(s: string, pat: string): (r: string)
    requires pat != []
    ensures |r| <= |s|
    decreases |s|
  {
    if |s| < |pat| then s
    else if s[..|pat|] == pat then RemoveAll(s[|pat|..], pat)
    else [s[0]] + RemoveAll(s[1..], pat)
  }

  /** Removal only deletes characters. */
  lemma {:induction false} RemoveAllShrinks(s: string, pat: string)
    requires pat != []
    ensures |RemoveAll(s, pat)| <= |s|
    ensures forall c :: c in RemoveAll(s, pat) ==> c in s
    decreases |s|
  {
    if |s| < |pat| {
    } else if s[..|pat|] == pat {
      RemoveAllShrinks(s[|pat|..], pat);
    } else {
      RemoveAllShrinks(s[1..], pat);
    }
  }

  /** A string without the pattern comes back unchanged. */
  lemma {:induction false} RemoveAllAbsent(s: string, pat: string)
    requires pat != []
    requires forall j :: !OccursAt(s, pat, j)
    ensures RemoveAll(s, pat) == s
    decreases |s|
  {
    if |s| >= |pat| {
      assert !OccursAt(s, pat, 0);
      forall j | OccursAt(s[1..], pat, j) ensures OccursAt(s, pat, j + 1) {
        assert s[1..][j..j + |pat|] == s[j + 1..j + 1 + |pat|];
      }
      RemoveAllAbsent(s[1..], pat);
      assert [s[0]] + s[1..] == s;
    }
  }

  /** One step of the scan: an occurrence at the front is dropped. */
  lemma RemoveAllSkip(s: string, pat: string)
    requires pat != [] && OccursAt(s, pat, 0)
    ensures RemoveAll(s, pat) == RemoveAll(s[|pat|..], pat)
  {
  }

  /** One step of the scan: a character that does not start an occurrence is kept. */
  lemma RemoveAllKeep(s: string, pat: string)
    requires pat != [] && s != [] && !OccursAt(s, pat, 0)
    ensures RemoveAll(s, pat) == [s[0]] + RemoveAll(s[1..], pat)
  {
    if |s| < |pat| {
      assert [s[0]] + s[1..] == s;
    }
  }

  /**
   * A pattern whose first character does not recur in it cannot overlap
   * itself, so no occurrence of it can straddle an occurrence next to it.
   */
  predicate Unbordered(pat: string) {
    pat != [] && forall i :: 0 < i < |pat| ==> pat[i] != pat[0]
  }

  /**
   * For such a pattern, `replace(pat, "")` treats each occurrence on its
   * own: removing from `x + pat + y` is removing from `x` and from `y`.
   */
  lemma {:induction false} RemoveAllAround(x: string, pat: string, y: string)
    requires Unbordered(pat)
    ensures RemoveAll(x + pat + y, pat) == RemoveAll(x, pat) + RemoveAll(y, pat)
    decreases |x|, 1
  {
    if x == [] {
      var s := x + pat + y;
      assert OccursAt(s, pat, 0) && s[|pat|..] == y;
      RemoveAllSkip(s, pat);
    } else if OccursAt(x, pat, 0) {
      RemoveAllAroundSkip(x, pat, y);
    } else {
      RemoveAllAroundKeep(x, pat, y);
    }
  }

  lemma {:induction false} RemoveAllAroundSkip(x: string, pat: string, y: string)
    requires Unbordered(pat) && OccursAt(x, pat, 0)
    ensures RemoveAll(x + pat + y, pat) == RemoveAll(x, pat) + RemoveAll(y, pat)
    decreases |x|, 0
  {
    var s := x + pat + y;
    var tail := x[|pat|..] + pat + y;
    assert s[..|pat|] == x[..|pat|] && s[|pat|..] == tail;
    RemoveAllSkip(s, pat);
    RemoveAllSkip(x, pat);
    RemoveAllAround(x[|pat|..], pat, y);
  }

  lemma {:induction false} RemoveAllAroundKeep(x: string, pat: string, y: string)
    requires Unbordered(pat) && x != [] && !OccursAt(x, pat, 0)
    ensures RemoveAll(x + pat + y, pat) == RemoveAll(x, pat) + RemoveAll(y, pat)
    decreases |x|, 0
  {
    KeepFirst(x, pat, y);
    RemoveAllKeep(x, pat);
    RemoveAllAround(x[1..], pat, y);
    var rx, ry := RemoveAll(x[1..], pat), RemoveAll(y, pat);
    assert [x[0]] + (rx + ry) == ([x[0]] + rx) + ry;
  }

  /** The first character of `x` survives the scan of `x + pat + y`. */
  lemma KeepFirst(x: string, pat: string, y: string)
    requires Unbordered(pat) && x != [] && !OccursAt(x, pat, 0)
    ensures RemoveAll(x + pat + y, pat) == [x[0]] + RemoveAll(x[1..] + pat + y, pat)
  {
    var s := x + pat + y;
    NotAtFront(x, pat, y);
    assert s[0] == x[0] && s[1..] == x[1..] + pat + y;
    RemoveAllKeep(s, pat);
  }

  /** `x + pat + y` starts with the pattern only if `x` does (or is empty). */
  lemma NotAtFront(x: string, pat: string, y: string)
    requires Unbordered(pat) && x != [] && !OccursAt(x, pat, 0)
    ensures !OccursAt(x + pat + y, pat, 0)
  {
    var s := x + pat + y;
    if |x| < |pat| {
      assert s[|x|] == pat[0] && pat[|x|] != pat[0];
    } else {
      assert s[..|pat|] == x[..|pat|];
    }
  }

  /** `sep.join(pieces)`. */
  function Join(pieces: seq<string>, sep: string): string {
    if pieces == [] then []
    else if |pieces| == 1 then pieces[0]
    else pieces[0] + sep + Join(pieces[1..], sep)
  }

  /** `s.split(sep)` for a one-character separator. */
  function Split(s: string, sep: char): (pieces: seq<string>)
    ensures pieces != []
    ensures |pieces| == 1 ==> pieces[0] == s
  {
    if s == [] then [[]]
    else
      var rest := Split(s[1..], sep);
      assert s == [s[0]] + s[1..];
      if s[0] == sep then [[]] + rest
      else [[s[0]] + rest[0]] + rest[1..]
  }

  /** `split` gives one piece more than there are separators. */
  lemma {:induction false} SplitCount(s: string, sep: char)
    ensures |Split(s, sep)| == multiset(s)[sep] + 1
  {
    if s != [] {
      SplitCount(s[1..], sep);
      assert s == [s[0]] + s[1..];
      assert multiset(s) == multiset{s[0]} + multiset(s[1..]);
    }
  }

  /** No piece of a `split` holds the separator. */
  lemma {:induction false} SplitPieces(s: string, sep: char)
    ensures forall k :: 0 <= k < |Split(s, sep)| ==> sep !in Split(s, sep)[k]
  {
    if s != [] {
      SplitPieces(s[1..], sep);
    }
  }

  /** Joining the pieces of a `split` with the separator gives the string back. */
  lemma {:induction false} SplitJoinBack(s: string, sep: char)
    ensures Join(Split(s, sep), [sep]) == s
  {
    if s != [] {
      var tail := s[1..];
      SplitJoinBack(tail, sep);
      var rest := Split(tail, sep);
      assert rest != [];
      if s[0] == sep {
        assert Join(Split(s, sep), [sep]) == [] + [sep] + Join(rest, [sep]);
      } else {
        JoinPrepend(rest, s[0], [sep]);
      }
      assert [s[0]] + tail == s;
    }
  }

  /** Putting a character in front of the first piece puts it in front of the joined string. */
  lemma JoinPrepend(pieces: seq<string>, c: char, sep: string)
    requires pieces != []
    ensures Join([[c] + pieces[0]] + pieces[1..], sep) == [c] + Join(pieces, sep)
  {
    var r := [[c] + pieces[0]] + pieces[1..];
    assert r[1..] == pieces[1..];
  }

  /** Splitting is the inverse of joining pieces that hold no separator. */
  lemma {:induction false} SplitJoin(pieces: seq<string>, sep: char)
    requires pieces != []
    requires forall k :: 0 <= k < |pieces| ==> sep !in pieces[k]
    ensures Split(Join(pieces, [sep]), sep) == pieces
  {
    if |pieces| == 1 {
      SplitNoSep(pieces[0], sep);
    } else {
      var tail := Join(pieces[1..], [sep]);
      assert Join(pieces, [sep]) == pieces[0] + [sep] + tail;
      SplitJoin(pieces[1..], sep);
      SplitAround(pieces[0], tail, sep);
      assert [pieces[0]] + pieces[1..] == pieces;
    }
  }

  lemma {:induction false} SplitNoSep(s: string, sep: char)
    requires sep !in s
    ensures Split(s, sep) == [s]
  {
    if s != [] {
      SplitNoSep(s[1..], sep);
      assert [s[0]] + s[1..] == s;
    }
  }

  /** Splitting `a + sep + b`, where `a` holds no separator, gives `a` then the pieces of `b`. */
  lemma {:induction false} SplitAround(a: string, b: string, sep: char)
    requires sep !in a
    ensures Split(a + [sep] + b, sep) == [a] + Split(b, sep)
  {
    var s := a + [sep] + b;
    if a == [] {
      assert s[0] == sep && s[1..] == b;
    } else {
      assert s[0] == a[0] && s[1..] == a[1..] + [sep] + b;
      SplitAround(a[1..], b, sep);
      var rest := Split(s[1..], sep);
      assert rest == [a[1..]] + Split(b, sep);
      assert Split(s, sep) == [[a[0]] + rest[0]] + rest[1..];
      assert [a[0]] + a[1..] == a;
    }
  }

  /**
   * `os.path.basename` for POSIX paths: the text after the last `/`, the
   * whole path when there is none.
   */
  function Basename(path: string): (r: string)
    ensures '/' !in r
    ensures |r| <= |path| && path[|path| - |r|..] == r
    ensures |r| < |path| ==> path[|path| - |r| - 1] == '/'
  {
    if path == [] then []
    else if path[|path| - 1] == '/' then []
    else Basename(path[..|path| - 1]) + [path[|path| - 1]]
  }
}
