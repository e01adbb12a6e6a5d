/**
  The string helpers of the JMAP test module: `find_values` collects the
  quoted value after every occurrence of a marker, `replace_values` applies
  find/replace pairs in order, and `replace_boundaries` / `replace_blob_ids`
  use the two to rename MIME boundaries and blob ids to `boundary_<i>` and
  `blob_<i>`, so that server output can be compared with fixed text.
 */
module JmapValues {
  import opened Wrappers
  import opened Decimal
  import opened RustStr

  const BOUNDARY_MARKER := "boundary="
  const BLOB_ID_MARKER := "blobId\":"

  /** `if value.ends_with('\\') { value = &value[..value.len() - 1] }`: at most one trailing backslash goes. */
  function StripBackslash(raw: string): (v: string)
    ensures |v| <= |raw| && v == raw[..|v|]
    ensures |v| == |raw| || (|v| + 1 == |raw| && raw[|v|] == '\\')
    ensures |v| == |raw| ==> v == [] || v[|v| - 1] != '\\'
  {
    if raw != [] && raw[|raw| - 1] == '\\' then raw[..|raw| - 1] else raw
  }

  /** A '"' occurs in `s` at or after index `p`. */
  predicate QuoteAfter(s: string, p: nat) {
    p <= |s| && IndexOfChar(s, '"', p) < |s|
  }

  /** Where the field after `p` starts: just past the first '"' at or after `p`. */
  function FieldStart(s: string, p: nat): (a: nat)
    requires QuoteAfter(s, p)
    ensures p < a <= |s|
  {
    IndexOfChar(s, '"', p) + 1
  }

  /**
    `s[p..].split('"').nth(1)`, in positions of `s`: the text from just after
    the first '"' at or after `p` up to the next '"' or the end of `s`.
   */
  function FieldAt(s: string, p: nat): (f: string)
    requires QuoteAfter(s, p)
  {
    var a := FieldStart(s, p);
    Segment(s, a, IndexOfChar(s, '"', a))
  }

  /** Where the value after `p` ends: the end of the field, less one trailing backslash. */
  function ValueEnd(s: string, p: nat): (e: nat)
    requires QuoteAfter(s, p)
    ensures FieldStart(s, p) <= e <= |s|
  {
    var a := FieldStart(s, p);
    var b := IndexOfChar(s, '"', a);
    if a < b && s[b - 1] == '\\' then b - 1 else b
  }

  /** The value `find_values` takes from `s` after position `p`. */
  function ValueAt(s: string, p: nat): (v: string)
    requires QuoteAfter(s, p)
  {
    Segment(s, FieldStart(s, p), ValueEnd(s, p))
  }

  /** The value is the field with at most one trailing backslash stripped, as `find_values` does it. */
  lemma ValueIsStripped(s: string, p: nat)
    requires QuoteAfter(s, p)
    ensures ValueAt(s, p) == StripBackslash(FieldAt(s, p))
  {
    var a := FieldStart(s, p);
    var b := IndexOfChar(s, '"', a);
    var e := ValueEnd(s, p);
    SegmentIsSlice(s, a, b);
    SegmentIsSlice(s, a, e);
    var raw := s[a..b];
    if a < b {
      assert raw[|raw| - 1] == s[b - 1];
    }
    if e < b {
      assert raw[..|raw| - 1] == s[a..e];
    }
  }

  /**
    The scan of `find_values` from index `from` on does not panic: each
    occurrence of `name` it stops at is followed by a '"' (otherwise
    `split('"').nth(1)` is None and `unwrap` panics).
   */
  predicate ScannableFrom(s: string, name: string, from: nat)
    requires name != []
    decreases |s| - from
  {
    match FindFrom(s, name, from)
    case None => true
    case Some(k) => QuoteAfter(s, k + |name|) && ScannableFrom(s, name, k + |name|)
  }

  /**
    What `find_values` needs in order to finish without panicking: a non-empty
    marker (an empty one is found at every position and the scan never
    advances), and a '"' after each occurrence the scan stops at.
   */
  predicate Scannable(s: string, name: string) {
    name != [] && ScannableFrom(s, name, 0)
  }

  /** The values the scan collects from index `from` on, in order. */
  function ValuesFrom(s: string, name: string, from: nat): (vs: seq<string>)
    requires name != [] && ScannableFrom(s, name, from)
    decreases |s| - from
  {
    match FindFrom(s, name, from)
    case None => []
    case Some(k) => [ValueAt(s, k + |name|)] + ValuesFrom(s, name, k + |name|)
  }

  /** The list `find_values(s, name)` returns. */
  function FoundValues(s: string, name: string): (vs: seq<string>)
    requires Scannable(s, name)
  {
    ValuesFrom(s, name, 0)
  }

  /** `string[last_pos..].find(name)`, as a position relative to `last_pos`. */
  method FindNext(s: string, name: string, lastPos: nat) returns (found: Option<nat>)
    requires name != [] && lastPos <= |s|
    ensures found.Some? <==> FindFrom(s, name, lastPos).Some?
    ensures found.Some? ==> FindFrom(s, name, lastPos).value == lastPos + found.value
  {
    found := Find(s[lastPos..], name);
    FindInSuffix(s, name, lastPos);
  }

  /** `s[p..].split('"').nth(1)` is the field after `p`. */
  lemma FieldOfSuffix(s: string, p: nat)
    requires QuoteAfter(s, p)
    ensures SplitNth1(s[p..], '"').Some? && SplitNth1(s[p..], '"').value == FieldAt(s, p)
  {
    SplitNth1SuffixValue(s, '"', p);
    SegmentIsSlice(s, FieldStart(s, p), IndexOfChar(s, '"', FieldStart(s, p)));
  }

  /** `string[p..].split('"').nth(1).unwrap()`, less one trailing backslash. */
  method TakeValue(s: string, p: nat) returns (value: string)
    requires QuoteAfter(s, p)
    ensures value == ValueAt(s, p)
  {
    FieldOfSuffix(s, p);
    ValueIsStripped(s, p);
    value := SplitNth1(s[p..], '"').value;
    if value != [] && value[|value| - 1] == '\\' {
      value := value[..|value| - 1];
    }
  }

  /** `find_values`: the loop keeps `values` followed by what is still to be found equal to the whole list. */
  method FindValues(s: string, name: string) returns (values: seq<string>)
    requires Scannable(s, name)
    ensures values == FoundValues(s, name)
  {
    var lastPos: nat := 0;
    values := [];
    var found := FindNext(s, name, lastPos);
    while found.Some?
      invariant lastPos <= |s| && ScannableFrom(s, name, lastPos)
      invariant found.Some? <==> FindFrom(s, name, lastPos).Some?
      invariant found.Some? ==> FindFrom(s, name, lastPos).value == lastPos + found.value
      invariant values + ValuesFrom(s, name, lastPos) == FoundValues(s, name)
      decreases |s| - lastPos
    {
      var pos := found.value;
      var next := lastPos + pos + |name|;
      ValuesFromStep(s, name, lastPos, lastPos + pos, next, values);
      var value := TakeValue(s, next);
      values := values + [value];
      lastPos := next;
      found := FindNext(s, name, lastPos);
    }
    assert values + [] == values;
  }

  /**
    One step of the scan: the occurrence found at `p` gives the value after
    `next`, and the scan goes on from `next`.
   */
  lemma ValuesFromStep(s: string, name: string, from: nat, p: nat, next: nat, done: seq<string>)
    requires name != [] && ScannableFrom(s, name, from)
    requires FindFrom(s, name, from).Some? && FindFrom(s, name, from).value == p && next == p + |name|
    ensures next <= |s| && QuoteAfter(s, next) && ScannableFrom(s, name, next)
    ensures ValuesFrom(s, name, from) == [ValueAt(s, next)] + ValuesFrom(s, name, next)
    ensures done + ValuesFrom(s, name, from) == (done + [ValueAt(s, next)]) + ValuesFrom(s, name, next)
  {
    assert ValuesFrom(s, name, from) == [ValueAt(s, next)] + ValuesFrom(s, name, next);
  }

  /** Each of the positions `ms` is followed, after the marker, by a '"'. */
  predicate QuotedAfterAll(s: string, name: string, ms: seq<nat>) {
    forall k :: 0 <= k < |ms| ==> QuoteAfter(s, ms[k] + |name|)
  }

  lemma QuotedAfterAllCons(s: string, name: string, j: nat, rest: seq<nat>)
    ensures QuotedAfterAll(s, name, [j] + rest) <==> QuoteAfter(s, j + |name|) && QuotedAfterAll(s, name, rest)
  {
    var ms := [j] + rest;
    if QuoteAfter(s, j + |name|) && QuotedAfterAll(s, name, rest) {
      forall k | 0 <= k < |ms| ensures QuoteAfter(s, ms[k] + |name|) {
        if k > 0 {
          assert ms[k] == rest[k - 1];
        }
      }
    }
    if QuotedAfterAll(s, name, ms) {
      assert QuoteAfter(s, ms[0] + |name|);
      forall k | 0 <= k < |rest| ensures QuoteAfter(s, rest[k] + |name|) {
        assert rest[k] == ms[k + 1];
      }
    }
  }

  /**
    The scan does not panic exactly when every occurrence `MatchIndices`
    reports is followed by a '"'.
   */
  lemma {:induction false} ScannableMatches(s: string, name: string, from: nat)
    requires name != []
    ensures ScannableFrom(s, name, from) <==> QuotedAfterAll(s, name, MatchIndices(s, name, from))
    decreases |s| - from
  {
    var f := FindFrom(s, name, from);
    if f.Some? {
      var next := f.value + |name|;
      ScannableMatches(s, name, next);
      MatchIndicesNext(s, name, from);
      QuotedAfterAllCons(s, name, f.value, MatchIndices(s, name, next));
    }
  }

  /**
    `vs` holds, in order, one value per position of `ms`: the one read after
    the marker at that position.
   */
  predicate Paired(s: string, name: string, ms: seq<nat>, vs: seq<string>) {
    |ms| == |vs| &&
    forall k :: 0 <= k < |ms| ==> QuoteAfter(s, ms[k] + |name|) && vs[k] == ValueAt(s, ms[k] + |name|)
  }

  lemma PairedCons(s: string, name: string, m: nat, ms: seq<nat>, v: string, vs: seq<string>)
    requires QuoteAfter(s, m + |name|) && v == ValueAt(s, m + |name|) && Paired(s, name, ms, vs)
    ensures Paired(s, name, [m] + ms, [v] + vs)
  {
    var ms', vs' := [m] + ms, [v] + vs;
    forall k | 0 <= k < |ms'|
      ensures QuoteAfter(s, ms'[k] + |name|) && vs'[k] == ValueAt(s, ms'[k] + |name|)
    {
      if k > 0 {
        ConsAt(m, ms, k);
        ConsAt(v, vs, k);
      }
    }
  }

  /** Index `k` of `[x] + rest` is index `k - 1` of `rest`. */
  lemma ConsAt<T>(x: T, rest: seq<T>, k: nat)
    requires 0 < k <= |rest|
    ensures ([x] + rest)[k] == rest[k - 1]
  {
  }

  /** The scan collects, in order, the value after each occurrence `MatchIndices` reports. */
  lemma {:induction false} ValuesPaired(s: string, name: string, from: nat)
    requires name != [] && ScannableFrom(s, name, from)
    ensures Paired(s, name, MatchIndices(s, name, from), ValuesFrom(s, name, from))
    decreases |s| - from
  {
    var f := FindFrom(s, name, from);
    if f.Some? {
      var next := f.value + |name|;
      ValuesFromStep(s, name, from, f.value, next, []);
      ValuesPaired(s, name, next);
      MatchIndicesNext(s, name, from);
      PairedCons(s, name, f.value, MatchIndices(s, name, next), ValueAt(s, next), ValuesFrom(s, name, next));
    }
  }

  /** `find_values` finds something exactly when the marker occurs. */
  lemma FoundValuesEmpty(s: string, name: string)
    requires Scannable(s, name)
    ensures FoundValues(s, name) == [] <==> !Occurs(s, name)
  {
    MatchIndicesEmpty(s, name);
    ValuesPaired(s, name, 0);
  }

  /**
    Where the value found after `p` sits in `s`: it starts right after the
    first '"' at or after `p` (no '"' lies between `p` and that one), and it
    is followed by the end of `s` or a '"', either directly or after the one
    backslash that was stripped. It holds no '"', and a value that ends the
    field directly does not end in a backslash.
   */
  lemma ValueShape(s: string, p: nat)
    requires QuoteAfter(s, p)
    ensures var a, e := FieldStart(s, p), ValueEnd(s, p);
            s[a - 1] == '"' && s[a..e] == ValueAt(s, p)
    ensures forall j :: p <= j < FieldStart(s, p) - 1 ==> s[j] != '"'
    ensures forall k :: 0 <= k < |ValueAt(s, p)| ==> ValueAt(s, p)[k] != '"'
    ensures var e := ValueEnd(s, p);
            e == |s| || s[e] == '"' || (s[e] == '\\' && (e + 1 == |s| || s[e + 1] == '"'))
    ensures var e, v := ValueEnd(s, p), ValueAt(s, p);
            (e == |s| || s[e] == '"') ==> v == [] || v[|v| - 1] != '\\'
  {
    var a, e := FieldStart(s, p), ValueEnd(s, p);
    var b := IndexOfChar(s, '"', a);
    IndexOfCharFirst(s, '"', p);
    IndexOfCharFirst(s, '"', a);
    SegmentIsSlice(s, a, e);
    var v := ValueAt(s, p);
    forall k | 0 <= k < |v| ensures v[k] != '"' {
      assert v[k] == s[a + k];
    }
    if v != [] {
      assert v[|v| - 1] == s[e - 1];
    }
  }

  /** `replace_values`: the pairs (find[i], replace[i]) applied left to right, up to the shorter list. */
  function ApplyPairs(s: string, find: seq<string>, replace: seq<string>): string
    decreases |find|
  {
    if find == [] || replace == [] then s
    else ApplyPairs(Replace(s, find[0], replace[0]), find[1..], replace[1..])
  }

  /** Applying the pairs of one list after another is applying the concatenated lists. */
  lemma {:induction false} ApplyPairsAppend(s: string, f1: seq<string>, f2: seq<string>,
                                           r1: seq<string>, r2: seq<string>)
    requires |f1| == |r1|
    ensures ApplyPairs(s, f1 + f2, r1 + r2) == ApplyPairs(ApplyPairs(s, f1, r1), f2, r2)
    decreases |f1|
  {
    if f1 == [] {
      assert f1 + f2 == f2 && r1 + r2 == r2;
    } else {
      assert (f1 + f2)[0] == f1[0] && (r1 + r2)[0] == r1[0];
      assert (f1 + f2)[1..] == f1[1..] + f2 && (r1 + r2)[1..] == r1[1..] + r2;
      ApplyPairsAppend(Replace(s, f1[0], r1[0]), f1[1..], f2, r1[1..], r2);
    }
  }

  /** One more pair applies one more replacement to the result so far. */
  lemma ApplyPairsSnoc(s: string, find: seq<string>, replace: seq<string>, i: nat)
    requires i < |find| && i < |replace|
    ensures ApplyPairs(s, find[..i + 1], replace[..i + 1]) ==
            Replace(ApplyPairs(s, find[..i], replace[..i]), find[i], replace[i])
  {
    ApplyPairsAppend(s, find[..i], [find[i]], replace[..i], [replace[i]]);
    assert find[..i + 1] == find[..i] + [find[i]];
    assert replace[..i + 1] == replace[..i] + [replace[i]];
    var t := ApplyPairs(s, find[..i], replace[..i]);
    assert ApplyPairs(t, [find[i]], [replace[i]]) == ApplyPairs(Replace(t, find[i], replace[i]), [], []);
  }

  /** Pairs beyond the shorter list are ignored (the `zip`). */
  lemma {:induction false} ApplyPairsShorter(s: string, find: seq<string>, replace: seq<string>)
    ensures var n := if |find| < |replace| then |find| else |replace|;
            ApplyPairs(s, find, replace) == ApplyPairs(s, find[..n], replace[..n])
    decreases |find|
  {
    if find != [] && replace != [] {
      var n := if |find| < |replace| then |find| else |replace|;
      assert find[..n][1..] == find[1..][..n - 1] && replace[..n][1..] == replace[1..][..n - 1];
      ApplyPairsShorter(Replace(s, find[0], replace[0]), find[1..], replace[1..]);
    }
  }

  /** Empty lists, or pairs that replace a value by itself, leave the string as it is. */
  lemma {:induction false} ApplyPairsIdentity(s: string, find: seq<string>)
    ensures ApplyPairs(s, [], find) == s && ApplyPairs(s, find, []) == s
    ensures ApplyPairs(s, find, find) == s
    decreases |find|
  {
    if find != [] {
      ReplaceSame(s, find[0]);
      ApplyPairsIdentity(s, find[1..]);
    }
  }

  /** `replace_values`. */
  method ReplaceValues(s: string, find: seq<string>, replace: seq<string>) returns (r: string)
    ensures r == ApplyPairs(s, find, replace)
  {
    r := s;
    var n := if |find| < |replace| then |find| else |replace|;
    for i := 0 to n
      invariant r == ApplyPairs(s, find[..i], replace[..i])
    {
      ApplyPairsSnoc(s, find, replace, i);
      r := Replace(r, find[i], replace[i]);
    }
    ApplyPairsShorter(s, find, replace);
  }

  /** The new names `prefix0`, `prefix1`, ... for `n` found values, as `format!("{prefix}{}", i)` writes them. */
  function Labels(prefix: string, n: nat): (ls: seq<string>)
    ensures |ls| == n
  {
    seq(n, i requires 0 <= i < n => prefix + ToDecimal(i))
  }

  /** Different indices get different names. */
  lemma LabelsDistinct(prefix: string, n: nat, i: nat, j: nat)
    requires i < n && j < n && i != j
    ensures Labels(prefix, n)[i] != Labels(prefix, n)[j]
  {
    ToDecimalInjective(i, j);
    assert Labels(prefix, n)[i][|prefix|..] == ToDecimal(i);
    assert Labels(prefix, n)[j][|prefix|..] == ToDecimal(j);
  }

  /**
    The body shared by `replace_boundaries` and `replace_blob_ids`: rename the
    i-th value found after `marker` to `prefix` followed by i, or return the
    text as it is when nothing is found.
   */
  function RenameFound(s: string, marker: string, prefix: string): (r: string)
    requires Scannable(s, marker)
    ensures !Occurs(s, marker) ==> r == s
  {
    FoundValuesEmpty(s, marker);
    var values := FoundValues(s, marker);
    if values != [] then ApplyPairs(s, values, Labels(prefix, |values|)) else s
  }

  /** The emptiness test only short-cuts: renaming is always applying the found values with their labels. */
  lemma RenameIsApplyPairs(s: string, marker: string, prefix: string)
    requires Scannable(s, marker)
    ensures var values := FoundValues(s, marker);
            RenameFound(s, marker, prefix) == ApplyPairs(s, values, Labels(prefix, |values|))
  {
  }

  /** `replace_boundaries`: unchanged when no `boundary=` occurs. */
  function ReplaceBoundaries(s: string): (r: string)
    requires Scannable(s, BOUNDARY_MARKER)
    ensures !Occurs(s, BOUNDARY_MARKER) ==> r == s
  {
    RenameFound(s, BOUNDARY_MARKER, "boundary_")
  }

  /** `replace_blob_ids`: unchanged when no `blobId":` occurs. */
  function ReplaceBlobIds(s: string): (r: string)
    requires Scannable(s, BLOB_ID_MARKER)
    ensures !Occurs(s, BLOB_ID_MARKER) ==> r == s
  {
    RenameFound(s, BLOB_ID_MARKER, "blob_")
  }
}
