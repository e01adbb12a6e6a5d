# HAVESPACE and the JMAP test string helpers, in Dafny

This project models two small pieces of the Stalwart mail server.

- **The ManageSieve HAVESPACE handler** (`Session::handle_havespace`). It
  implements section 2.5 of RFC 5804. The handler reads a script name and a
  size from the first two request tokens and parses the size as a `usize`.
  It then runs the name validator. Finally it answers `OK ""` when the quota
  is 0 (unlimited) or when `size as i64 + used <= quota as i64`. Otherwise it
  answers `NO "Quota exceeded."` with the QUOTA/MAXSIZE response code of
  section 1.3 of RFC 5804. Module `HaveSpace` models it as a pure function.
  Module `Decimal` models `str::parse::<usize>()` on a 64-bit target and the
  decimal rendering of `format!`.
- **The string helpers of the JMAP integration tests.**
  - `find_values` collects the quoted value after each occurrence of a marker.
  - `replace_values` applies find/replace pairs in order.
  - `replace_boundaries` and `replace_blob_ids` use the two to rename MIME
    boundaries and blob ids to `boundary_<i>` and `blob_<i>`.

  Module `JmapValues` models `find_values` and `replace_values` as methods
  with their loops, each proved against a specification function. The other
  two are functions. Module `RustStr` gives the meaning of the parts of
  Rust's `str` API they use: `find`, `split('"').nth(1)`, and `replace`,
  including `replace` with an empty pattern.

Strings are sequences of characters. `Option` and `Result` live in module
`Wrappers`.

## Model

| member | source | states |
|---|---|---|
| HaveSpace.ParseArgs | crates/managesieve/src/op/havespace.rs:15-37 | The three parse errors, each in both directions. A missing or non-string first token gives "Expected script name as a parameter.". Otherwise a missing or non-string second token gives "Expected script size as a parameter.". Otherwise a size string that is not a valid usize gives "Invalid size parameter.". It succeeds exactly when both tokens are strings and the size parses, and the name and size are then those tokens. |
| HaveSpace.WrapI64 | crates/managesieve/src/op/havespace.rs:46-52 | The `as i64` cast and the i64 addition wrap modulo 2^64 into the i64 range. Values already in range are unchanged. |
| HaveSpace.FitsWrapping | crates/managesieve/src/op/havespace.rs:46-52 | The handler's comparison, `size as i64 + used <= quota as i64`, in wrapping i64 arithmetic. When size, quota and size + used all lie in the i64 range, it holds iff size + used <= quota (FitsExact). |
| HaveSpace.FitsExact | crates/managesieve/src/op/havespace.rs:46-52 | Definition: the comparison size + used <= quota on unbounded integers, the one the corrected handler makes. Its use is stated by CheckedQuotaDecision. |
| HaveSpace.Evaluate | crates/managesieve/src/op/havespace.rs:39-60 | After parsing, the only success message is the empty one. |
| HaveSpace.HandleHaveSpace | crates/managesieve/src/op/havespace.rs:14-61 | The answer is Ok("") or an error. Ok requires the arguments to parse and the name to validate. With a quota set, Ok also requires the used-quota query to succeed. |
| HaveSpace.MissingNameFirst | crates/managesieve/src/op/havespace.rs:16-23 | With no first string token, the answer is the missing-name error, whatever the other inputs. |
| HaveSpace.MissingSizeSecond | crates/managesieve/src/op/havespace.rs:24-31 | With a name but no second string token, the answer is the missing-size error. |
| HaveSpace.InvalidSizeReported | crates/managesieve/src/op/havespace.rs:32-37 | A size string that does not parse gives "Invalid size parameter.", which differs from both missing-parameter errors. |
| HaveSpace.ParseErrorBeforeValidation | crates/managesieve/src/op/havespace.rs:16-42 | A parse error is returned before the validator, the quota or the used quota are looked at. Any two choices of those give the same error. |
| HaveSpace.InvalidNamePropagates | crates/managesieve/src/op/havespace.rs:42 | The validator's error is returned unchanged and never becomes the quota error. |
| HaveSpace.UnlimitedQuota | crates/managesieve/src/op/havespace.rs:45-54 | With quota 0 and a valid name, the answer is Ok(""). The used quota is never consulted: any two used-quota results, failures included, give the same answer. |
| HaveSpace.UsedQuotaFailurePropagates | crates/managesieve/src/op/havespace.rs:47-51 | With a quota set, a failing used-quota query is returned as that error, never as success. |
| HaveSpace.QuotaDecision | crates/managesieve/src/op/havespace.rs:45-60 | With a quota set, the answer is Ok("") iff the wrapped i64 comparison holds. Otherwise it is exactly "Quota exceeded." with QUOTA/MAXSIZE. |
| HaveSpace.QuotaDecisionInRange | crates/managesieve/src/op/havespace.rs:45-60 | When nothing leaves the i64 range, the answer is Ok("") iff size + used <= quota. |
| HaveSpace.ExtraTokensIgnored | crates/managesieve/src/op/havespace.rs:15-31 | Tokens after the second never change the answer. |
| HaveSpace.OversizedRequestPasses | crates/managesieve/src/op/havespace.rs:46 | As written, usize::MAX "fits" a 1000-byte quota with nothing used. The corrected handler answers QUOTA/MAXSIZE. |
| HaveSpace.HandleHaveSpaceChecked | crates/managesieve/src/op/havespace.rs:14-61 | The corrected handler: the only success is Ok(""). |
| HaveSpace.CheckedQuotaDecision | crates/managesieve/src/op/havespace.rs:45-60 | The corrected handler: with a quota set, Ok("") iff size + used <= quota for every size, else the quota error. |
| HaveSpace.CheckedAgreesWithoutWrap | crates/managesieve/src/op/havespace.rs:45-60 | Wherever the casts and the sum of the handler as written stay in the i64 range, the corrected handler answers exactly as the handler as written. |
| Decimal.ParseUsize | crates/managesieve/src/op/havespace.rs:32 | An accepted size string is an optional '+' followed by decimal digits. |
| Decimal.ParseUsizeCanonical | crates/managesieve/src/op/havespace.rs:32 | Every usize, written in decimal with or without '+', parses back to itself. |
| Decimal.ParseUsizeOverflow | crates/managesieve/src/op/havespace.rs:32-37 | A number above usize::MAX is rejected. |
| Decimal.ParseUsizeLeadingZero | crates/managesieve/src/op/havespace.rs:32 | A leading zero does not change what a size string parses to. |
| Decimal.ParseUsizeRejects | crates/managesieve/src/op/havespace.rs:32-37 | The empty string, a lone '+' and any '-'-signed string are rejected. |
| Decimal.ToDecimal | tests/src/jmap/mod.rs:224 | `format!("{}", i)` writes canonical decimal: digits only, with no leading zero. |
| Decimal.ToDecimalValue | tests/src/jmap/mod.rs:224 | The rendered digits denote the number rendered. |
| Decimal.ValueToDecimal | tests/src/jmap/mod.rs:224 | Canonical digits render back to themselves, the inverse of ToDecimalValue. |
| Decimal.ToDecimalInjective | tests/src/jmap/mod.rs:224 | Different numbers render differently. |
| RustStr.SameFromSlice | tests/src/jmap/mod.rs:195 | The character-by-character match test agrees with slice equality. |
| RustStr.FindFrom | tests/src/jmap/mod.rs:195 | A match found from i lies inside the string, at or after i. |
| RustStr.FindFromLeftmost | tests/src/jmap/mod.rs:195 | The search from i returns a match, and no earlier match exists at or after i. When it finds nothing, no match exists at or after i. |
| RustStr.Find | tests/src/jmap/mod.rs:195 | `str::find`: the leftmost match, and None iff the pattern does not occur. |
| RustStr.MatchInSuffix | tests/src/jmap/mod.rs:195 | A match at j in `s[a..]` is a match at a + j in `s`. |
| RustStr.FindInSuffix | tests/src/jmap/mod.rs:195 | `s[a..].find(p)`, shifted by a, is the search in `s` from a, including whether it finds anything. |
| RustStr.MatchIndices | tests/src/jmap/mod.rs:195-204 | The positions the scan stops at lie inside the string, from the start index on. |
| RustStr.MatchIndicesSound | tests/src/jmap/mod.rs:195-204 | Every reported position is a match. The positions increase, and each next one starts after the previous match ends, so matches never overlap. |
| RustStr.MatchIndicesComplete | tests/src/jmap/mod.rs:195-204 | Every match at or after the start begins inside a reported match, so the scan skips only matches that overlap one it took. |
| RustStr.MatchIndicesEmpty | tests/src/jmap/mod.rs:195 | No position is reported iff the marker does not occur. |
| RustStr.IndexOfChar | tests/src/jmap/mod.rs:197 | The next index at or after i holding c, or the end of the string. |
| RustStr.IndexOfCharFirst | tests/src/jmap/mod.rs:197 | No c occurs before that index. |
| RustStr.Segment | tests/src/jmap/mod.rs:196-198 | A segment from i to j has j - i characters. |
| RustStr.SegmentIsSlice | tests/src/jmap/mod.rs:196-198 | The segment is the slice `t[i..j]`. |
| RustStr.SplitNth1 | tests/src/jmap/mod.rs:196-198 | Definition of `split(c).nth(1)`: None when c does not occur, else the text from just after the first c up to the next c or the end. Its properties are stated by SplitNth1Pieces, SplitNth1SuffixSome and SplitNth1SuffixValue. |
| RustStr.SplitNth1Pieces | tests/src/jmap/mod.rs:196-198 | `split(c).nth(1)` is None iff c does not occur. A piece it returns holds no c. |
| RustStr.IndexOfCharSuffix | tests/src/jmap/mod.rs:196-197 | Searching `t[p..]` is searching `t` from p, shifted by p. |
| RustStr.SplitNth1SuffixSome | tests/src/jmap/mod.rs:196-199 | `t[p..].split(c).nth(1)` is Some iff a c occurs at or after p, so `unwrap` does not panic. |
| RustStr.SplitNth1SuffixValue | tests/src/jmap/mod.rs:196-199 | That piece is the text between the first c at or after p and the next c, or the end of `t`. |
| RustStr.Replace | tests/src/jmap/mod.rs:212 | Definition of `str::replace`: a non-empty pattern goes through ReplaceFrom from index 0, and an empty one through InsertEverywhere. Its properties are stated by the Replace lemmas below. |
| RustStr.ReplaceFrom | tests/src/jmap/mod.rs:212 | Definition: the text up to the next match (FindFrom), then `to`, then the scan resumed after the match; the rest of the string when no match is left. Its properties are stated by ReplaceFromSame and ReplaceFromLength. |
| RustStr.InsertEverywhere | tests/src/jmap/mod.rs:212 | Definition of `replace` with an empty pattern: `to` before every character and at the end. Its properties are stated by InsertNothing and InsertEverywhereLength. |
| RustStr.ReplaceWithoutMatch | tests/src/jmap/mod.rs:212 | `replace` with a pattern that does not occur returns the string as it is. |
| RustStr.ReplaceSame | tests/src/jmap/mod.rs:212 | Replacing a pattern by itself returns the string as it is, the empty pattern included. |
| RustStr.InsertNothing | tests/src/jmap/mod.rs:212 | Inserting the empty string everywhere changes nothing. |
| RustStr.ReplaceFromSame | tests/src/jmap/mod.rs:212 | The left-to-right replacement of a non-empty pattern by itself rebuilds the rest of the string. |
| RustStr.ReplaceLength | tests/src/jmap/mod.rs:212 | The result is longer by (|to| - |from|) per non-overlapping occurrence the scan finds. |
| RustStr.ReplaceFromLength | tests/src/jmap/mod.rs:212 | The same length count, from any start index. |
| RustStr.InsertEverywhereLength | tests/src/jmap/mod.rs:212 | With an empty pattern, `to` is inserted at all |s| + 1 character boundaries. |
| JmapValues.StripBackslash | tests/src/jmap/mod.rs:200-202 | At most one trailing backslash is removed and nothing else changes. A result as long as the input does not end in a backslash. |
| JmapValues.FieldStart | tests/src/jmap/mod.rs:196-198 | The field starts after p, within the string. |
| JmapValues.FieldAt | tests/src/jmap/mod.rs:196-198 | Definition: the text from just after the first '"' at or after p up to the next '"' or the end. FieldOfSuffix states that it is `s[p..].split('"').nth(1)`. |
| JmapValues.ValueEnd | tests/src/jmap/mod.rs:196-202 | The value ends between the field's start and the end of the string. |
| JmapValues.ValueAt | tests/src/jmap/mod.rs:196-202 | Definition of the value taken after p. ValueIsStripped states that it is FieldAt less at most one trailing backslash, and ValueShape where it sits in the string. |
| JmapValues.ValueIsStripped | tests/src/jmap/mod.rs:196-202 | The value after p is the field after p with at most one trailing backslash stripped. |
| JmapValues.ValueShape | tests/src/jmap/mod.rs:196-202 | The value starts right after the first '"' at or after p: no '"' lies between p and that one. The value holds no '"'. It is followed by the end of the string or a '"', directly or after the one stripped backslash. A value ending the field directly does not end in a backslash. |
| JmapValues.ScannableFrom | tests/src/jmap/mod.rs:195-199 | Definition of the no-panic condition of the scan from an index: a '"' follows each match the scan stops at. ScannableMatches states this over all matches MatchIndices reports. |
| JmapValues.Scannable | tests/src/jmap/mod.rs:195-199 | Definition: a non-empty marker (an empty one loops at line 204) and the no-panic condition from index 0. |
| JmapValues.ValuesFrom | tests/src/jmap/mod.rs:195-205 | Definition of the values the scan collects from an index: the value after each match FindFrom finds, in order. ValuesPaired states it against MatchIndices. |
| JmapValues.FoundValues | tests/src/jmap/mod.rs:191-207 | Definition of what `find_values` returns: the scan from index 0. FindValues, ValuesPaired and FoundValuesEmpty state its properties. |
| JmapValues.FindNext | tests/src/jmap/mod.rs:195 | `string[last_pos..].find(name)`, shifted by last_pos, is the scan's next match. |
| JmapValues.FieldOfSuffix | tests/src/jmap/mod.rs:196-199 | `string[p..].split('"').nth(1)` is Some and is the field after p. |
| JmapValues.TakeValue | tests/src/jmap/mod.rs:196-202 | The value the loop body extracts at p is ValueAt(s, p). |
| JmapValues.FindValues | tests/src/jmap/mod.rs:191-208 | The loop returns exactly FoundValues: one value per scanned match, in order. Its invariant keeps "collected so far + still to find == all". |
| JmapValues.ScannableMatches | tests/src/jmap/mod.rs:195-199 | The scan finishes without panicking iff a '"' follows every match it stops at. |
| JmapValues.ValuesPaired | tests/src/jmap/mod.rs:191-207 | The k-th collected value is the value after the k-th match, for every k. There are as many values as matches. |
| JmapValues.FoundValuesEmpty | tests/src/jmap/mod.rs:192-207 | `find_values` returns an empty list iff the marker does not occur. |
| JmapValues.ApplyPairs | tests/src/jmap/mod.rs:210-215 | Definition of `replace_values`: `replace` with the first pair, then the rest, stopping when either list runs out. The ApplyPairs lemmas state its properties. |
| JmapValues.ApplyPairsAppend | tests/src/jmap/mod.rs:210-215 | Applying two lists of pairs one after the other is applying their concatenation. |
| JmapValues.ApplyPairsSnoc | tests/src/jmap/mod.rs:211-212 | Each loop step applies one more pair, in index order, to the string so far. |
| JmapValues.ApplyPairsShorter | tests/src/jmap/mod.rs:211 | Pairs beyond the shorter list are ignored, as with `zip`. |
| JmapValues.ApplyPairsIdentity | tests/src/jmap/mod.rs:210-215 | Empty lists, or pairs that replace a value by itself, leave the string unchanged. |
| JmapValues.ReplaceValues | tests/src/jmap/mod.rs:210-215 | The loop returns ApplyPairs: the pairs applied left to right up to the shorter list, each a global `replace`. |
| JmapValues.Labels | tests/src/jmap/mod.rs:223-225 | One label per found value. |
| JmapValues.LabelsDistinct | tests/src/jmap/mod.rs:223-225 | Different indices get different labels. |
| JmapValues.RenameFound | tests/src/jmap/mod.rs:217-245 | The shared body returns the text unchanged when the marker does not occur. |
| JmapValues.RenameIsApplyPairs | tests/src/jmap/mod.rs:219-229 | The renaming substitutes the i-th found value with prefix + i. The emptiness test only short-cuts. |
| JmapValues.ReplaceBoundaries | tests/src/jmap/mod.rs:217-230 | Unchanged when no `boundary=` occurs. |
| JmapValues.ReplaceBlobIds | tests/src/jmap/mod.rs:232-245 | Unchanged when no `blobId":` occurs. |

## Left out

- The name validator (`validate_name`) and the used-quota query (`get_used_quota`) are storage calls outside this model. The validator is a function parameter. The used quota is a value that is either a number or the error the query failed with.
- The `trc` error plumbing: error causes, `caused_by(location!())` context and the wire encoding by `StatusResponse::into_bytes`. An answer is `Ok(message)` or `Err(details, optional response code)`.
- The list of response codes is taken from section 1.3 of RFC 5804, because the `ResponseCode` type is not part of this model.
- A string token whose bytes are not valid UTF-8 (`unwrap_string` failing) is folded into `NonString`: both give the same missing-parameter error.
- Asynchronous I/O, the session's transport, and races between sessions on the used-quota figure are not modelled.
- HaveSpace.WrapI64: the i64 addition is modelled with release-build wrap-around. A debug build would panic on overflow instead; that panic is not modelled.
- Positions are character indices, not UTF-8 byte offsets. Every slice point in `find_values` sits after a marker or a '"', so the two views pick the same text.
- JmapValues.FindValues: the `unwrap` panic (no '"' after a match) and the endless loop with an empty marker are not modelled as behaviour. They are excluded by the precondition `Scannable`, which ScannableMatches characterises exactly.
- JmapValues.ReplaceBoundaries: the ensures states only the unchanged case. What it substitutes is stated by RenameIsApplyPairs together with the ApplyPairs lemmas.
- JmapValues.ReplaceBlobIds: the ensures states only the unchanged case. What it substitutes is stated by RenameIsApplyPairs together with the ApplyPairs lemmas.
- The test harness around these helpers (server start-up, accounts, the HTTP client) is not part of this model.

## Findings

| source | as written | input that shows it | evidently intended | confidence | as-written member | corrected member |
|---|---|---|---|---|---|---|
| crates/managesieve/src/op/havespace.rs:46 | `size as i64` wraps a usize above i64::MAX to a negative number, so the comparison passes | HAVESPACE "script" 18446744073709551615, quota 1000, used 0 answers OK | the script fits only when size + used <= quota | not executed | HaveSpace.OversizedRequestPasses | HaveSpace.CheckedQuotaDecision |
