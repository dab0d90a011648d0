/**
  The two functions of Go's `strings` package that the parser relies on:
  `strings.Index` and `strings.Split`. A Go string is a sequence of bytes;
  here each `char` of a `string` stands for one byte.
  `Join` is the inverse of `Split` and serves as its specification.
 */
module GoStrings {

  /** `sep` occurs in `s` starting at index `i`. */
  predicate OccursAt(s: string, sep: string, i: int) {
    0 <= i && i + |sep| <= |s| && s[i..i + |sep|] == sep
  }

  /** `sep` occurs somewhere in `s` (strings.Contains). */
  predicate Contains(s: string, sep: string) {
    exists i | 0 <= i <= |s| :: OccursAt(s, sep, i)
  }

  /** An occurrence inside a prefix of `s` is an occurrence in `s`. */
  lemma OccursInPrefix(s: string, sep: string, n: int, j: int)
    requires 0 <= n <= |s|
    requires OccursAt(s[..n], sep, j)
    ensures OccursAt(s, sep, j) && j + |sep| <= n
  {
    assert s[..n][j..j + |sep|] == s[j..j + |sep|];
  }

  /** Occurrences in a suffix of `s` are the occurrences in `s`, shifted. */
  lemma OccursShift(s: string, sep: string, m: int, j: int)
    requires 0 <= m <= |s| && 0 <= j
    ensures OccursAt(s[m..], sep, j) <==> OccursAt(s, sep, m + j)
  {
    if m + j + |sep| <= |s| {
      assert s[m..][j..j + |sep|] == s[m + j..m + j + |sep|];
    }
  }

  /** The first index at or after `from` at which `sep` occurs in `s`, or -1. */
  function IndexFrom(s: string, sep: string, from: nat): (r: int)
    ensures r == -1 || (from <= r && OccursAt(s, sep, r))
    decreases |s| - from
  {
    if from + |sep| > |s| then -1
    else if OccursAt(s, sep, from) then from
    else IndexFrom(s, sep, from + 1)
  }

  /** IndexFrom skips no occurrence: none lies between `from` and its result. */
  lemma {:induction false} IndexFromFirst(s: string, sep: string, from: nat, j: int)
    requires from <= j
    requires IndexFrom(s, sep, from) == -1 || j < IndexFrom(s, sep, from)
    ensures !OccursAt(s, sep, j)
    decreases |s| - from
  {
    if from + |sep| <= |s| && !OccursAt(s, sep, from) && from < j {
      IndexFromFirst(s, sep, from + 1, j);
    }
  }

  /**
    strings.Index: the index of the first occurrence of `sep` in `s`,
    or -1 when `sep` does not occur.
   */
  function Index(s: string, sep: string): (r: int)
    ensures r == -1 || OccursAt(s, sep, r)
  {
    IndexFrom(s, sep, 0)
  }

  /** No occurrence of `sep` lies before the one Index reports (or anywhere, when it reports -1). */
  lemma IndexFirst(s: string, sep: string, j: int)
    requires 0 <= j
    requires Index(s, sep) == -1 || j < Index(s, sep)
    ensures !OccursAt(s, sep, j)
  {
    IndexFromFirst(s, sep, 0, j);
  }

  /** IndexFrom reports the first occurrence at or after `from`. */
  lemma {:induction false} IndexFromIs(s: string, sep: string, from: nat, i: int)
    requires from <= i && OccursAt(s, sep, i)
    requires forall k | from <= k < i :: !OccursAt(s, sep, k)
    ensures IndexFrom(s, sep, from) == i
    decreases i - from
  {
    if from < i {
      assert !OccursAt(s, sep, from);
      IndexFromIs(s, sep, from + 1, i);
    }
  }

  /** An occurrence with none before it is the one Index reports. */
  lemma IndexIs(s: string, sep: string, i: int)
    requires OccursAt(s, sep, i)
    requires forall k | 0 <= k < i :: !OccursAt(s, sep, k)
    ensures Index(s, sep) == i
  {
    IndexFromIs(s, sep, 0, i);
  }

  /** No occurrence lies before the reported one. */
  lemma NoneBeforeIndex(s: string, sep: string)
    ensures forall k | 0 <= k < Index(s, sep) :: !OccursAt(s, sep, k)
  {
    forall k | 0 <= k < Index(s, sep) ensures !OccursAt(s, sep, k) {
      IndexFirst(s, sep, k);
    }
  }

  /** The same, for Index applied to the suffix of `s` from `m`, in positions of `s`. */
  lemma NoneBeforeIndexOfSuffix(s: string, sep: string, m: int)
    requires 0 <= m <= |s|
    ensures var j := Index(s[m..], sep);
      forall k | m <= k < (if j == -1 then |s| else m + j) :: !OccursAt(s, sep, k)
  {
    var j := Index(s[m..], sep);
    forall k | m <= k < (if j == -1 then |s| else m + j) ensures !OccursAt(s, sep, k) {
      IndexFirst(s[m..], sep, k - m);
      OccursShift(s, sep, m, k - m);
    }
  }

  /** Index reports -1 exactly when `sep` does not occur. */
  lemma IndexFindsAny(s: string, sep: string)
    ensures Index(s, sep) == -1 <==> !Contains(s, sep)
  {
    if Index(s, sep) == -1 {
      forall i | 0 <= i <= |s| ensures !OccursAt(s, sep, i) {
        IndexFirst(s, sep, i);
      }
    } else {
      assert OccursAt(s, sep, Index(s, sep));
    }
  }

  /** The piece before the first occurrence of `sep` does not contain `sep`. */
  lemma NoSepBeforeIndex(s: string, sep: string)
    requires sep != [] && Index(s, sep) >= 0
    ensures !Contains(s[..Index(s, sep)], sep)
  {
    var i := Index(s, sep);
    forall j | 0 <= j <= i && OccursAt(s[..i], sep, j) ensures false {
      OccursInPrefix(s, sep, i, j);
      IndexFirst(s, sep, j);
    }
  }

  /**
    strings.Split for a non-empty separator: the pieces of `s` between
    the successive non-overlapping occurrences of `sep`, found left to
    right. There is always at least one piece.
   */
  function Split(s: string, sep: string): (parts: seq<string>)
    requires sep != []
    ensures |parts| >= 1
    decreases |s|
  {
    var i := Index(s, sep);
    if i == -1 then [s]
    else [s[..i]] + Split(s[i + |sep|..], sep)
  }

  /** The first piece of a split ends at the first occurrence of `sep`. */
  lemma SplitHead(s: string, sep: string)
    requires sep != []
    ensures Split(s, sep)[0] == if Index(s, sep) == -1 then s else s[..Index(s, sep)]
  {
  }

  /** The second piece of a split is the first piece of what follows the first `sep`. */
  lemma SplitSecond(s: string, sep: string)
    requires sep != [] && Index(s, sep) != -1
    ensures |Split(s, sep)| >= 2
    ensures Split(s, sep)[1] == Split(s[Index(s, sep) + |sep|..], sep)[0]
  {
  }

  /** There is a single piece exactly when `sep` does not occur. */
  lemma SplitSingle(s: string, sep: string)
    requires sep != []
    ensures |Split(s, sep)| == 1 <==> !Contains(s, sep)
  {
    IndexFindsAny(s, sep);
  }

  /**
    `s` starts with `first`, then `sep`, then `second`, where the `sep` is
    the first occurrence in `s`, no occurrence starts inside `second`, and
    what follows `second` is either the end of `s` or another `sep`.
   */
  predicate FirstTwoAt(s: string, sep: string, first: string, second: string) {
    var m := |first| + |sep|;
    var n := m + |second|;
    && n <= |s|
    && s[..n] == first + sep + second
    && (forall j | 0 <= j < |first| :: !OccursAt(s, sep, j))
    && OccursAt(s, sep, |first|)
    && (forall j | m <= j < n :: !OccursAt(s, sep, j))
    && (n == |s| || OccursAt(s, sep, n))
  }

  /**
    When `sep` occurs in `s`, the first two pieces of the split are
    consecutive in `s`, separated by the first occurrence of `sep`, and
    followed either by the end of `s` or by the next occurrence of `sep`.
   */
  lemma SplitFirstTwo(s: string, sep: string)
    requires sep != [] && Index(s, sep) != -1
    ensures |Split(s, sep)| >= 2
    ensures FirstTwoAt(s, sep, Split(s, sep)[0], Split(s, sep)[1])
  {
    var i := Index(s, sep);
    var rest := s[i + |sep|..];
    var j := Index(rest, sep);
    var second := if j == -1 then rest else rest[..j];
    assert |Split(s, sep)| >= 2 && Split(s, sep)[0] == s[..i] && Split(s, sep)[1] == second by {
      SplitSecond(s, sep);
      SplitHead(rest, sep);
      SplitHead(s, sep);
    }
    FirstTwoLayout(s, sep, i, j);
  }

  /** The facts about Index behind SplitFirstTwo, stated without Split. */
  lemma FirstTwoLayout(s: string, sep: string, i: int, j: int)
    requires i == Index(s, sep) && i != -1
    requires j == Index(s[i + |sep|..], sep)
    ensures FirstTwoAt(s, sep, s[..i], if j == -1 then s[i + |sep|..] else s[i + |sep|..][..j])
  {
    var m := i + |sep|;
    var rest := s[m..];
    var n := if j == -1 then |s| else m + j;
    NoneBeforeIndex(s, sep);
    NoneBeforeIndexOfSuffix(s, sep, m);
    if j != -1 {
      OccursShift(s, sep, m, j);
    }
    FirstTwoIntro(s, sep, i, n);
    assert s[m..n] == if j == -1 then rest else rest[..j];
  }

  /** Occurrences of `sep` at `i` and at `n` (or the end), and none elsewhere before `n`, delimit the first two pieces. */
  lemma FirstTwoIntro(s: string, sep: string, i: int, n: int)
    requires 0 <= i && i + |sep| <= n <= |s|
    requires forall k | 0 <= k < i :: !OccursAt(s, sep, k)
    requires OccursAt(s, sep, i)
    requires forall k | i + |sep| <= k < n :: !OccursAt(s, sep, k)
    requires n == |s| || OccursAt(s, sep, n)
    ensures FirstTwoAt(s, sep, s[..i], s[i + |sep|..n])
  {
    assert s[..n] == s[..i] + s[i..i + |sep|] + s[i + |sep|..n];
  }

  /** The first two pieces are determined by `s` and `sep`: FirstTwoAt has at most one solution. */
  lemma FirstTwoAtUnique(s: string, sep: string, a: string, b: string, c: string, d: string)
    requires FirstTwoAt(s, sep, a, b) && FirstTwoAt(s, sep, c, d)
    ensures a == c && b == d
  {
    assert |a| == |c|;
    var m := |a| + |sep|;
    assert a == s[..m + |b|][..|a|] == s[..m + |d|][..|a|] == c;
    assert |b| == |d|;
    assert b == s[..m + |b|][m..] == d;
  }

  /** strings.Join: the parts with `sep` between consecutive ones. */
  function Join(parts: seq<string>, sep: string): string {
    if |parts| == 0 then []
    else if |parts| == 1 then parts[0]
    else parts[0] + sep + Join(parts[1..], sep)
  }

  lemma JoinCons(part: string, rest: seq<string>, sep: string)
    requires |rest| >= 1
    ensures Join([part] + rest, sep) == part + sep + Join(rest, sep)
  {
    assert ([part] + rest)[1..] == rest;
  }

  /** Joining the pieces of a split with the separator gives back the text. */
  lemma {:induction false} JoinSplit(s: string, sep: string)
    requires sep != []
    ensures Join(Split(s, sep), sep) == s
    decreases |s|
  {
    var i := Index(s, sep);
    if i != -1 {
      var rest := s[i + |sep|..];
      var tail := Split(rest, sep);
      assert Split(s, sep) == [s[..i]] + tail;
      JoinSplit(rest, sep);
      JoinCons(s[..i], tail, sep);
      assert s[i..i + |sep|] == sep;
      assert s == s[..i] + s[i..i + |sep|] + rest;
    }
  }

  /** No piece of a split contains the separator. */
  lemma {:induction false} SplitPiecesFree(s: string, sep: string)
    requires sep != []
    ensures forall k :: 0 <= k < |Split(s, sep)| ==> !Contains(Split(s, sep)[k], sep)
    decreases |s|
  {
    var i := Index(s, sep);
    if i == -1 {
      IndexFindsAny(s, sep);
    } else {
      var rest := s[i + |sep|..];
      SplitPiecesFree(rest, sep);
      NoSepBeforeIndex(s, sep);
      var parts := Split(s, sep);
      assert forall k | 1 <= k < |parts| :: parts[k] == Split(rest, sep)[k - 1];
    }
  }

  /** Joining one more part appends the separator and that part. */
  lemma {:induction false} JoinSnoc(parts: seq<string>, part: string, sep: string)
    requires |parts| >= 1
    ensures Join(parts + [part], sep) == Join(parts, sep) + sep + part
    decreases |parts|
  {
    if |parts| == 1 {
      JoinCons(parts[0], [part], sep);
    } else {
      assert parts + [part] == [parts[0]] + (parts[1..] + [part]);
      JoinCons(parts[0], parts[1..] + [part], sep);
      JoinSnoc(parts[1..], part, sep);
      JoinCons(parts[0], parts[1..], sep);
      assert [parts[0]] + parts[1..] == parts;
    }
  }

  /**
    For a one-character separator, splitting a join gives back the parts,
    provided no part contains the separator.
   */
  lemma {:induction false} SplitJoin(parts: seq<string>, sep: string)
    requires |sep| == 1 && |parts| >= 1
    requires forall k | 0 <= k < |parts| :: !Contains(parts[k], sep)
    ensures Split(Join(parts, sep), sep) == parts
    decreases |parts|
  {
    var p := parts[0];
    if |parts| == 1 {
      IndexFindsAny(p, sep);
    } else {
      var rest := parts[1..];
      var t := Join(rest, sep);
      assert Join(parts, sep) == p + sep + t by {
        assert [p] + rest == parts;
        JoinCons(p, rest, sep);
      }
      SplitAfterFree(p, sep, t);
      SplitJoin(rest, sep);
    }
  }

  /** With a one-character separator, a first part free of it ends at the first separator. */
  lemma SplitAfterFree(p: string, sep: string, t: string)
    requires |sep| == 1 && !Contains(p, sep)
    ensures Split(p + sep + t, sep) == [p] + Split(t, sep)
  {
    var s := p + sep + t;
    forall k | 0 <= k < |p| ensures !OccursAt(s, sep, k) {
      if OccursAt(s, sep, k) {
        assert s[k..k + 1] == p[k..k + 1];
        assert OccursAt(p, sep, k);
      }
    }
    assert s[|p|..|p| + 1] == sep;
    IndexIs(s, sep, |p|);
    assert s[..|p|] == p && s[|p| + 1..] == t;
  }
}
