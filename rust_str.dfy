/**
  The parts of Rust's `str` API that the JMAP test helpers rely on, on
  strings as sequences of characters: `find`, `split(c).nth(1)` and
  `replace`, including `replace` with an empty pattern.
 */
module RustStr {
  import opened Wrappers

  /** `pat` occurs in `s` starting at index `i`. */
  predicate IsMatchAt(s: string, pat: string, i: nat) {
    i + |pat| <= |s| && SameFrom(s, i, pat)
  }

  /** The characters of `s` from index `i` on are those of `pat`, compared one by one. */
  predicate SameFrom(s: string, i: nat, pat: string)
    requires i + |pat| <= |s|
    decreases |pat|
  {
    pat == [] || (s[i] == pat[0] && SameFrom(s, i + 1, pat[1..]))
  }

  /** The comparison is equality of the slice `s[i..i + |pat|]` with `pat`. */
  lemma {:induction false} SameFromSlice(s: string, i: nat, pat: string)
    requires i + |pat| <= |s|
    ensures SameFrom(s, i, pat) <==> s[i..i + |pat|] == pat
    decreases |pat|
  {
    if pat != [] {
      SameFromSlice(s, i + 1, pat[1..]);
      assert s[i..i + |pat|] == [s[i]] + s[i + 1..i + 1 + |pat[1..]|];
      assert pat == [pat[0]] + pat[1..];
    }
  }

  predicate Occurs(s: string, pat: string) {
    exists i: nat | i <= |s| :: IsMatchAt(s, pat, i)
  }

  /** The leftmost occurrence of `pat` in `s` at or after index `i`; `FindFromLeftmost` proves it is one. */
  function FindFrom(s: string, pat: string, i: nat): (r: Option<nat>)
    ensures r.Some? ==> i <= r.value && r.value + |pat| <= |s|
    decreases |s| - i
  {
    if |s| < i + |pat| then None
    else if SameFrom(s, i, pat) then Some(i)
    else FindFrom(s, pat, i + 1)
  }

  /** What `FindFrom` reports is an occurrence, and no occurrence at or after `i` comes before it. */
  lemma {:induction false} FindFromLeftmost(s: string, pat: string, i: nat)
    ensures var r := FindFrom(s, pat, i);
            r.Some? ==> IsMatchAt(s, pat, r.value) && forall j: nat :: i <= j < r.value ==> !IsMatchAt(s, pat, j)
    ensures FindFrom(s, pat, i).None? ==> forall j: nat :: i <= j ==> !IsMatchAt(s, pat, j)
    decreases |s| - i
  {
    if i + |pat| <= |s| && !SameFrom(s, i, pat) {
      FindFromLeftmost(s, pat, i + 1);
    }
  }

  /** `str::find`: the index of the leftmost occurrence, if any (0 for the empty pattern). */
  function Find(s: string, pat: string): (r: Option<nat>)
    ensures r.Some? ==> IsMatchAt(s, pat, r.value) && forall j: nat :: j < r.value ==> !IsMatchAt(s, pat, j)
    ensures r.None? <==> !Occurs(s, pat)
  {
    FindFromLeftmost(s, pat, 0);
    FindFrom(s, pat, 0)
  }

  /** A match inside the suffix `s[a..]` is a match in `s`, shifted by `a`. */
  lemma MatchInSuffix(s: string, pat: string, a: nat, j: nat)
    requires a <= |s|
    ensures IsMatchAt(s[a..], pat, j) <==> IsMatchAt(s, pat, a + j)
  {
    if a + j + |pat| <= |s| {
      SameFromSlice(s[a..], j, pat);
      SameFromSlice(s, a + j, pat);
      assert s[a..][j..j + |pat|] == s[a + j..a + j + |pat|];
    }
  }

  /** Searching the suffix `s[a..]` finds what searching `s` from `a` finds, relative to `a`. */
  lemma FindInSuffix(s: string, pat: string, a: nat)
    requires a <= |s|
    ensures Find(s[a..], pat).Some? <==> FindFrom(s, pat, a).Some?
    ensures Find(s[a..], pat).Some? ==> a + Find(s[a..], pat).value == FindFrom(s, pat, a).value
  {
    FindFromLeftmost(s, pat, a);
    var r := Find(s[a..], pat);
    match FindFrom(s, pat, a)
    case None =>
      if r.Some? {
        MatchInSuffix(s, pat, a, r.value);
        assert false;
      }
    case Some(k) =>
      MatchInSuffix(s, pat, a, k - a);
      assert r.Some?;
      MatchInSuffix(s, pat, a, r.value);
      assert r.value >= k - a;
  }

  /**
    The leftmost non-overlapping occurrences of `pat` in `s` from index `from`
    on, in increasing order: each search resumes where the previous match ends.
    This is the order `str::match_indices` reports them in.
   */
  function MatchIndices(s: string, pat: string, from: nat): (ms: seq<nat>)
    requires pat != []
    ensures forall k :: 0 <= k < |ms| ==> from <= ms[k] && ms[k] + |pat| <= |s|
    decreases |s| - from
  {
    match FindFrom(s, pat, from)
    case None => []
    case Some(k) => [k] + MatchIndices(s, pat, k + |pat|)
  }

  /** Unfolding the scan one occurrence at a time. */
  lemma MatchIndicesNext(s: string, pat: string, from: nat)
    requires pat != [] && FindFrom(s, pat, from).Some?
    ensures var k := FindFrom(s, pat, from).value;
            MatchIndices(s, pat, from) == [k] + MatchIndices(s, pat, k + |pat|)
  {
  }

  /** Every index in `ms` is an occurrence of `pat` in `s`. */
  predicate AllMatches(s: string, pat: string, ms: seq<nat>) {
    forall k :: 0 <= k < |ms| ==> IsMatchAt(s, pat, ms[k])
  }

  /** Each index in `ms` is at least `len` past the one before: occurrences of length `len` do not overlap. */
  predicate Disjoint(ms: seq<nat>, len: nat) {
    forall i, j :: 0 <= i < j < |ms| ==> ms[i] + len <= ms[j]
  }

  /** Every reported index is an occurrence, and each starts after the previous one ends. */
  lemma {:induction false} MatchIndicesSound(s: string, pat: string, from: nat)
    requires pat != []
    ensures AllMatches(s, pat, MatchIndices(s, pat, from))
    ensures Disjoint(MatchIndices(s, pat, from), |pat|)
    decreases |s| - from
  {
    FindFromLeftmost(s, pat, from);
    match FindFrom(s, pat, from)
    case None =>
    case Some(k) =>
      MatchIndicesSound(s, pat, k + |pat|);
      var ms := MatchIndices(s, pat, from);
      var rest := MatchIndices(s, pat, k + |pat|);
      assert ms == [k] + rest;
      forall i, j | 0 <= i < j < |ms| ensures ms[i] + |pat| <= ms[j] {
        assert ms[j] == rest[j - 1];
        if i > 0 {
          assert ms[i] == rest[i - 1];
        }
      }
      forall i | 0 <= i < |ms| ensures IsMatchAt(s, pat, ms[i]) {
        if i > 0 {
          assert ms[i] == rest[i - 1];
        }
      }
  }

  /** Some occurrence reported in `ms`, each `len` long, spans index `j`. */
  predicate Covers(ms: seq<nat>, len: nat, j: nat) {
    exists k :: 0 <= k < |ms| && ms[k] <= j < ms[k] + len
  }

  /**
    Every occurrence from `from` on is either reported or overlaps the reported
    occurrence before it: the scan skips only matches that overlap one it took.
   */
  lemma {:induction false} MatchIndicesComplete(s: string, pat: string, from: nat, j: nat)
    requires pat != [] && from <= j && IsMatchAt(s, pat, j)
    ensures Covers(MatchIndices(s, pat, from), |pat|, j)
    decreases |s| - from
  {
    FindFromLeftmost(s, pat, from);
    var ms := MatchIndices(s, pat, from);
    assert FindFrom(s, pat, from).Some?;
    var k0 := FindFrom(s, pat, from).value;
    var rest := MatchIndices(s, pat, k0 + |pat|);
    assert ms == [k0] + rest;
    assert k0 <= j;
    if j < k0 + |pat| {
      assert 0 < |ms| && ms[0] <= j < ms[0] + |pat|;
    } else {
      MatchIndicesComplete(s, pat, k0 + |pat|, j);
      var k :| 0 <= k < |rest| && rest[k] <= j < rest[k] + |pat|;
      assert ms[k + 1] == rest[k];
      assert ms[k + 1] <= j < ms[k + 1] + |pat|;
    }
  }

  /** `pat` occurs in `s` exactly when the scan from the start reports something. */
  lemma MatchIndicesEmpty(s: string, pat: string)
    requires pat != []
    ensures MatchIndices(s, pat, 0) == [] <==> !Occurs(s, pat)
  {
    FindFromLeftmost(s, pat, 0);
    if Occurs(s, pat) {
      var j: nat :| IsMatchAt(s, pat, j);
      MatchIndicesComplete(s, pat, 0, j);
    }
  }

  /** The index of the first `c` in `t` at or after `i`, or `|t|` if there is none. */
  function IndexOfChar(t: string, c: char, i: nat): (r: nat)
    requires i <= |t|
    ensures i <= r <= |t| && (r < |t| ==> t[r] == c)
    decreases |t| - i
  {
    if i == |t| || t[i] == c then i else IndexOfChar(t, c, i + 1)
  }

  /** No `c` comes before the one found: it is the first at or after `i`. */
  lemma {:induction false} IndexOfCharFirst(t: string, c: char, i: nat)
    requires i <= |t|
    ensures forall j :: i <= j < IndexOfChar(t, c, i) ==> t[j] != c
    decreases |t| - i
  {
    if i < |t| && t[i] != c {
      IndexOfCharFirst(t, c, i + 1);
    }
  }

  /**
    The characters of `t` from index `i` up to, not including, `j`, built one
    at a time; `SegmentIsSlice` shows it is the slice `t[i..j]`.
   */
  function Segment(t: string, i: nat, j: nat): (r: string)
    requires i <= j <= |t|
    ensures |r| == j - i
    decreases j - i
  {
    if i == j then [] else [t[i]] + Segment(t, i + 1, j)
  }

  lemma {:induction false} SegmentIsSlice(t: string, i: nat, j: nat)
    requires i <= j <= |t|
    ensures Segment(t, i, j) == t[i..j]
    decreases j - i
  {
    if i < j {
      SegmentIsSlice(t, i + 1, j);
      assert t[i..j] == [t[i]] + t[i + 1..j];
    }
  }

  /**
    `t.split(c).nth(1)`: the text between the first and the second `c`, or from
    the first `c` to the end when there is no second; None when `t` has no `c`.
   */
  function SplitNth1(t: string, c: char): Option<string> {
    var a := IndexOfChar(t, c, 0);
    if a == |t| then None else Some(t[a + 1..IndexOfChar(t, c, a + 1)])
  }

  /** There is a second piece exactly when `c` occurs, and it holds no `c`. */
  lemma SplitNth1Pieces(t: string, c: char)
    ensures SplitNth1(t, c).None? <==> c !in t
    ensures SplitNth1(t, c).Some? ==> forall k :: 0 <= k < |SplitNth1(t, c).value| ==> SplitNth1(t, c).value[k] != c
  {
    IndexOfCharFirst(t, c, 0);
    var a := IndexOfChar(t, c, 0);
    if a < |t| {
      var b := IndexOfChar(t, c, a + 1);
      IndexOfCharFirst(t, c, a + 1);
      var piece := t[a + 1..b];
      forall k | 0 <= k < |piece| ensures piece[k] != c {
        assert piece[k] == t[a + 1 + k];
      }
    }
  }

  /** Searching the suffix `t[p..]` from `i` is searching `t` from `p + i`, shifted by `p`. */
  lemma {:induction false} IndexOfCharSuffix(t: string, c: char, p: nat, i: nat)
    requires p + i <= |t|
    ensures IndexOfChar(t[p..], c, i) == IndexOfChar(t, c, p + i) - p
    decreases |t| - p - i
  {
    if p + i < |t| {
      assert t[p..][i] == t[p + i];
      if t[p + i] != c {
        IndexOfCharSuffix(t, c, p, i + 1);
      }
    }
  }

  lemma SliceOfSuffix(t: string, p: nat, i: nat, j: nat)
    requires p + i <= p + j <= |t|
    ensures t[p..][i..j] == t[p + i..p + j]
  {
  }

  /** `t[p..]` has a second `c`-piece exactly when a `c` occurs in `t` at or after `p`. */
  lemma SplitNth1SuffixSome(t: string, c: char, p: nat)
    requires p <= |t|
    ensures SplitNth1(t[p..], c).Some? <==> IndexOfChar(t, c, p) < |t|
  {
    IndexOfCharSuffix(t, c, p, 0);
  }

  /** That piece of `t[p..]`, in terms of the positions of `c` in `t`. */
  lemma SplitNth1SuffixValue(t: string, c: char, p: nat)
    requires p <= |t| && IndexOfChar(t, c, p) < |t|
    ensures SplitNth1(t[p..], c).Some?
    ensures var a := IndexOfChar(t, c, p);
            SplitNth1(t[p..], c).value == t[a + 1..IndexOfChar(t, c, a + 1)]
  {
    var u := t[p..];
    var a := IndexOfChar(t, c, p);
    var b := IndexOfChar(t, c, a + 1);
    IndexOfCharSuffix(t, c, p, 0);
    var a' := IndexOfChar(u, c, 0);
    assert a' == a - p;
    IndexOfCharSuffix(t, c, p, a' + 1);
    assert p + (a' + 1) == a + 1;
    var b' := IndexOfChar(u, c, a' + 1);
    assert b' == b - p;
    SliceOfSuffix(t, p, a' + 1, b');
    assert p + b' == b;
    assert SplitNth1(u, c).value == u[a' + 1..b'];
  }

  /**
    `str::replace`: every leftmost non-overlapping occurrence of `from` is
    replaced by `to`. With an empty `from`, `to` is inserted before every
    character and at the end.
   */
  function Replace(s: string, from: string, to: string): string {
    if from == [] then InsertEverywhere(s, to) else ReplaceFrom(s, from, to, 0)
  }

  /** The replacing scan of `str::replace`, from index `last` on. */
  function ReplaceFrom(s: string, from: string, to: string, last: nat): string
    requires from != [] && last <= |s|
    decreases |s| - last
  {
    match FindFrom(s, from, last)
    case None => s[last..]
    case Some(k) => s[last..k] + to + ReplaceFrom(s, from, to, k + |from|)
  }

  /** What `str::replace` does with an empty pattern, which matches at every character boundary. */
  function InsertEverywhere(s: string, to: string): string {
    if s == [] then to else to + [s[0]] + InsertEverywhere(s[1..], to)
  }

  /** A pattern that does not occur leaves the string as it is. */
  lemma ReplaceWithoutMatch(s: string, from: string, to: string)
    requires from != [] && !Occurs(s, from)
    ensures Replace(s, from, to) == s
  {
    FindFromLeftmost(s, from, 0);
  }

  /** Replacing a pattern by itself changes nothing, for the empty pattern too. */
  lemma ReplaceSame(s: string, p: string)
    ensures Replace(s, p, p) == s
  {
    if p == [] {
      InsertNothing(s);
    } else {
      ReplaceFromSame(s, p, 0);
    }
  }

  lemma {:induction false} InsertNothing(s: string)
    ensures InsertEverywhere(s, []) == s
  {
    if s != [] {
      InsertNothing(s[1..]);
    }
  }

  lemma {:induction false} ReplaceFromSame(s: string, p: string, last: nat)
    requires p != [] && last <= |s|
    ensures ReplaceFrom(s, p, p, last) == s[last..]
    decreases |s| - last
  {
    FindFromLeftmost(s, p, last);
    match FindFrom(s, p, last)
    case None =>
    case Some(k) =>
      ReplaceFromSame(s, p, k + |p|);
      SameFromSlice(s, k, p);
      assert s[last..k] + p + s[k + |p|..] == s[last..];
  }

  /** Each reported occurrence changes the length by |to| - |from|. */
  lemma ReplaceLength(s: string, from: string, to: string)
    requires from != []
    ensures |Replace(s, from, to)| == |s| + |MatchIndices(s, from, 0)| * (|to| - |from|)
  {
    ReplaceFromLength(s, from, to, 0);
  }

  lemma {:induction false} ReplaceFromLength(s: string, from: string, to: string, last: nat)
    requires from != [] && last <= |s|
    ensures |ReplaceFrom(s, from, to, last)| ==
            |s| - last + |MatchIndices(s, from, last)| * (|to| - |from|)
    decreases |s| - last
  {
    var f := FindFrom(s, from, last);
    if f.Some? {
      var k := f.value;
      var next := k + |from|;
      var n := |MatchIndices(s, from, next)|;
      ReplaceFromLength(s, from, to, next);
      MatchIndicesNext(s, from, last);
      assert |MatchIndices(s, from, last)| == n + 1;
      assert |ReplaceFrom(s, from, to, last)| == (k - last) + |to| + |ReplaceFrom(s, from, to, next)|;
      MulSucc(n, |to| - |from|);
    }
  }

  lemma MulSucc(n: nat, d: int)
    ensures (n + 1) * d == n * d + d
  {
  }
  /** With an empty pattern, `to` appears once per character boundary: |s| + 1 times. */
  lemma {:induction false} InsertEverywhereLength(s: string, to: string)
    ensures |InsertEverywhere(s, to)| == |s| + (|s| + 1) * |to|
  {
    if s != [] {
      InsertEverywhereLength(s[1..], to);
    }
  }
}
