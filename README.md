# OrbitDB address parser, modelled in Dafny

OrbitDB names every database by an address of the form `/orbitdb/<root>/<path>`. The
root is a content identifier (CID) and the path is a human-readable name. The class
`OrbitDBAddress` in `src/orbit-db-address.js` holds three operations. `isValid` decides
whether a string is an address. `parse` splits a valid string into `{root, path}`.
`toString` writes an address back out.

`isValid` and `parse` run the same pipeline on their input:

1. every backslash becomes `/`;
2. the string is split on `/`;
3. an `orbitdb` piece is dropped, but only at split index 0 or 1, and only when the tested
   string starts with `/orbit`;
4. the pieces `""` and `" "` are dropped (`notEmpty`).

`isValid` accepts the input when the first surviving segment contains `zd` or `Qm` and also
decodes as a CID. `parse` rejects the empty string and everything `isValid` rejects.
Otherwise it returns the first segment as `root` and the other segments, joined by `/`, as
`path`.

Files:

- `js_string.dfy` (module `JsString`): the JavaScript string operations the code uses.
  These are `replace(/\\/g, '/')`, `split('/')`, `join('/')` and `indexOf`, each proved
  against a reference meaning: pointwise replacement, split/join inverses and substring
  occurrence.
- `orbit_db_address.dfy` (module `OrbitDBAddress`): the address type, the pipeline,
  `IsValid`, `Parse`, `ToString`, and the lemmas about them.

CID decoding comes from the foreign `cids` library. Here it is the parameter
`decodes: string -> bool` of `IsValid` and `Parse`. It is true exactly when
`new CID(token).toBaseEncodedString()` returns without throwing.

The two prefix tests are modelled as they are written, and they differ. `isValid` tests the
normalised string, because line 19 reassigns `address` before line 20 reads it. `parse`
tests its original input (line 50). `ValidSegments` and `ParseSegments` are the two
pipelines. They agree unless the input starts with `\orbit` (`SegmentsAgree`). The
behaviour on `\orbitdb\…` is listed under Findings.

Two behaviours one might expect do not hold, and the model follows the code:

- One might expect `parse("\\orbitdb\\zd…\\my\\db")` to parse like its forward-slash form.
  The code returns root `orbitdb` instead (`BackslashMarkerKeepsProtocol`).
- One might expect that collapsing duplicate slashes leaves validity unchanged. It does not:
  `//orbitdb/<token>` is invalid while `/orbitdb/<token>` is valid
  (`CollapsingSlashesChangesValidity`). Only backslash normalisation leaves validity
  unchanged (`IsValidIgnoresBackslashes`).

The data model: `Address(root, path)` is the object the constructor at lines 9-12 builds.
`Error` has the one constructor `InvalidAddress(input)`, standing for the two `throw`s at
lines 42 and 45. `Result` is `Ok(value)` or `Err(error)`, the outcome of `parse`.

## Model

| member | source | states |
|---|---|---|
| JsString.ReplaceBackslashes | src/orbit-db-address.js:19 | the result has the input's length; each backslash becomes `/` and every other character stays |
| JsString.ReplaceBackslashesRemovesAll | src/orbit-db-address.js:19 | no backslash is left after the replacement |
| JsString.ReplaceBackslashesIdempotent | src/orbit-db-address.js:19 | replacing twice is the same as replacing once |
| JsString.ReplaceBackslashesConcat | src/orbit-db-address.js:19 | the replacement distributes over concatenation |
| JsString.Join | src/orbit-db-address.js:15 | `join('/')` on a list of strings (also line 52); a definition without a contract, its meaning is stated by `Split`, `SplitJoin` and `JoinKeepsOut` |
| JsString.Split | src/orbit-db-address.js:23 | `split('/')` yields at least one piece; no piece holds `/`; joining the pieces with `/` gives back the input |
| JsString.SplitNoSeparator | src/orbit-db-address.js:23 | a string without `/` splits into itself alone |
| JsString.SplitConcat | src/orbit-db-address.js:23 | splitting `a + "/" + b` gives the pieces of `a` followed by those of `b` |
| JsString.SplitJoin | src/orbit-db-address.js:52 | splitting the `/`-join of one or more `/`-free parts gives back exactly those parts |
| JsString.SplitKeepsOut | src/orbit-db-address.js:23 | a character missing from the input is missing from every piece |
| JsString.JoinKeepsOut | src/orbit-db-address.js:52 | a character other than `/` that no part holds is not in the join |
| JsString.IndexOfFrom | src/orbit-db-address.js:30 | the result is -1 or an index where `sub` occurs, and `sub` occurs at no earlier index from the start |
| JsString.IndexOf | src/orbit-db-address.js:30 | `indexOf(sub)`, which is `IndexOfFrom` from index 0 (also line 20); a definition without a contract, its meaning is stated by `IndexOfFrom`, `IndexOfFindsIff` and `IndexOfZeroIff` |
| JsString.IndexOfFindsIff | src/orbit-db-address.js:30 | `indexOf(sub) > -1` holds exactly when `sub` is a substring |
| JsString.IndexOfZeroIff | src/orbit-db-address.js:20 | `indexOf(p) === 0` holds exactly when the string starts with `p` |
| OrbitDBAddress.NotEmpty | src/orbit-db-address.js:6 | `notEmpty`: neither `""` nor `" "`; a definition without a contract, used by `FilterEmpty` |
| OrbitDBAddress.StartsWithMarker | src/orbit-db-address.js:20 | the prefix test `indexOf('/orbit') === 0` (also line 50); a definition without a contract, `IndexOfZeroIff` states that it means "starts with `/orbit`" |
| OrbitDBAddress.KeepAt | src/orbit-db-address.js:20 | the index-aware filter callback (also line 50): it drops a piece only at index 0 or 1, only when the prefix test holds and the piece is `orbitdb`; a definition without a contract |
| OrbitDBAddress.StripFrom | src/orbit-db-address.js:20-24 | `filter` with that callback, applied from index `i` on; from index 2 on it keeps every piece |
| OrbitDBAddress.StripProtocolPrefix | src/orbit-db-address.js:20-24 | positional filter: only indices 0 and 1 can be dropped, only when the prefix test holds and the piece is `orbitdb`; index 2 on is kept in order; without the prefix nothing changes |
| OrbitDBAddress.FilterEmpty | src/orbit-db-address.js:6-25 | no survivor is `""` or `" "`; a string survives exactly when it occurs in the input and is neither |
| OrbitDBAddress.FilterEmptyConcat | src/orbit-db-address.js:25 | filtering a concatenation filters each part, so survivors keep their order |
| OrbitDBAddress.FilterEmptyKeepsClean | src/orbit-db-address.js:25 | a list with no empty segment passes unchanged |
| OrbitDBAddress.Segments | src/orbit-db-address.js:19-25 | the pipeline of normalise, split, protocol filter and empty filter, given the outcome of the prefix test; a definition without a contract, its properties are in `SegmentsAreClean` and `SegmentsKeepOrder` |
| OrbitDBAddress.ValidSegments | src/orbit-db-address.js:19-25 | `isValid`'s segments: the prefix test reads the normalised string; a definition without a contract, see `SegmentsAreClean`, `SegmentsKeepOrder` and `SegmentsAgree` |
| OrbitDBAddress.ParseSegments | src/orbit-db-address.js:47-51 | `parse`'s segments: the prefix test reads the original input; a definition without a contract, see `SegmentsAreClean`, `SegmentsKeepOrder` and `SegmentsAgree` |
| OrbitDBAddress.SegmentsAreClean | src/orbit-db-address.js:19-25 | every segment of either pipeline is not `""` or `" "` and holds neither `/` nor `\` |
| OrbitDBAddress.SegmentsKeepOrder | src/orbit-db-address.js:47-51 | the segments of either pipeline are a subsequence of the split normalised input |
| OrbitDBAddress.MarkerAfterNormalising | src/orbit-db-address.js:19-20 | the normalised string starts with `/orbit` exactly when the input starts with `/orbit` or `\orbit` |
| OrbitDBAddress.HasCidMarker | src/orbit-db-address.js:30 | the marker test: `indexOf('zd') > -1` or `indexOf('Qm') > -1`; a definition without a contract, `IsValid`'s contract restates it as substring occurrence |
| OrbitDBAddress.IsValid | src/orbit-db-address.js:18-38 | valid exactly when a first segment exists, contains `zd` or `Qm` as a substring, and decodes; a decode failure gives false |
| OrbitDBAddress.NoSegmentsIsInvalid | src/orbit-db-address.js:29-35 | no surviving segment means invalid, and `parse` rejects the input |
| OrbitDBAddress.EmptyAddressesAreInvalid | src/orbit-db-address.js:22-35 | `""`, `"/"`, `"//"` and `"/orbitdb/"` are invalid; `parse("")` fails |
| OrbitDBAddress.IsValidIgnoresBackslashes | src/orbit-db-address.js:19-25 | validating the normalised string gives the same segments and verdict as validating the input |
| OrbitDBAddress.RootDecidesValidity | src/orbit-db-address.js:29-37 | a serialised address is valid exactly when its root holds a marker and decodes; the marker alone is not enough |
| OrbitDBAddress.NoMarkerWithoutLetters | src/orbit-db-address.js:30 | a token with neither `z` nor `Q` has no marker |
| OrbitDBAddress.ParseSegmentsNotEmpty | src/orbit-db-address.js:44-52 | when `isValid` finds a segment, `parse` finds one too, so `parts[0]` exists |
| OrbitDBAddress.Parse | src/orbit-db-address.js:40-53 | fails exactly on the empty input or one `isValid` rejects; the error carries the input |
| OrbitDBAddress.ParseRecoversSegments | src/orbit-db-address.js:47-52 | a parsed address is `parse`'s segments: the root is the first, and the path splits into the rest in order (no segment when the path is `""`) |
| OrbitDBAddress.SegmentsAgree | src/orbit-db-address.js:19-50 | away from a leading `\orbit`, `parse`'s segments equal `isValid`'s |
| OrbitDBAddress.ParsedRootIsValid | src/orbit-db-address.js:44-52 | away from a leading `\orbit`, the parsed root is a clean segment with a marker that decodes |
| OrbitDBAddress.ToString | src/orbit-db-address.js:14-16 | the result is `/orbitdb/` + root + `/` + path, ending in `/` when the path is empty |
| OrbitDBAddress.RoundTrip | src/orbit-db-address.js:14-53 | parsing the serialisation of a valid root and a join of proper segments returns the same root and path |
| OrbitDBAddress.ProtocolPrefixIsOptional | src/orbit-db-address.js:47-51 | for input not starting with `/orbit` or `\orbit`, a `/orbitdb/` in front changes neither pipeline's segments, nor validity, nor the parsed address |
| OrbitDBAddress.ProtocolSegmentLaterIsKept | src/orbit-db-address.js:50 | an `orbitdb` piece at split index 2 or later stays a segment in both pipelines |
| OrbitDBAddress.CollapsingSlashesChangesValidity | src/orbit-db-address.js:20 | for a valid token, `/orbitdb/<token>` is valid but `//orbitdb/<token>` is not |
| OrbitDBAddress.BackslashMarkerKeepsProtocol | src/orbit-db-address.js:47-52 | for a valid token, `\orbitdb\<token>\a` is valid, yet `parse` returns root `orbitdb` and path `<token>/a` |
| OrbitDBAddress.ParseIntended | src/orbit-db-address.js:40-52 | corrected parse: fails exactly when `isValid` rejects, and its root is a clean segment with a marker that decodes |
| OrbitDBAddress.ParseIntendedAgreesWithParse | src/orbit-db-address.js:50 | away from a leading `\orbit` the corrected parse equals the written one |
| OrbitDBAddress.ParseIntendedRoundTrip | src/orbit-db-address.js:14-52 | the round trip holds for the corrected parse as well |
| OrbitDBAddress.ParseIntendedIgnoresBackslashes | src/orbit-db-address.js:47-49 | the corrected parse treats an input and its normalised form alike |
| OrbitDBAddress.ParseIntendedOnBackslashMarker | src/orbit-db-address.js:47-52 | on `\orbitdb\<token>\a` the corrected parse returns root `<token>` and path `a` |

## Left out

- `pAddress.toString()` on values that are not strings: the inputs here are strings. `isValid(null)`, which throws before the `try`, is not modelled.
- Parse: the falsiness test `!address` becomes `address == ""`; no other string is falsy.
- The exact error message text. Both `throw`s become the one error `InvalidAddress(input)`.
- The CID decoding internals (`cids`, `multihashes`): they become the `decodes` parameter. The string that `toBaseEncodedString()` returns plays no part beyond being non-null.
- The unused imports `path` and `multihashes`.
- `test/custom-keystore.test.js`: it starts IPFS daemons and creates databases, all I/O. It is not part of this model.
- RoundTrip: the path segments must also be free of `/`. Otherwise a segment such as `a//b` comes back as `a/b`, so the round trip does not hold for it.

## Findings

| source | as written | input that shows it | evidently intended | confidence | as-written member | corrected member |
|---|---|---|---|---|---|---|
| src/orbit-db-address.js:50 | `parse` tests `indexOf('/orbit') === 0` on its original input; `isValid` tests the normalised string | `\orbitdb\<token>\a` with a token that decodes: `isValid` is true, `parse` returns root `orbitdb` | `parse` tests the normalised string as `isValid` does, giving root `<token>` and path `a` | medium, not executed | OrbitDBAddress.BackslashMarkerKeepsProtocol | OrbitDBAddress.ParseIntended |

`Parse` keeps the behaviour as written. `ParseIntended` is the corrected definition, and its
own contract guarantees a root that `isValid` accepts. `ParseIntendedAgreesWithParse`
shows the two are equal on every input that does not start with `\orbit`. So the `Parse`
lemmas carry over to `ParseIntended` on those inputs, which include every `ToString` output;
the round trip is restated for it as `ParseIntendedRoundTrip`. On an input that does start
with `\orbit` they do not all carry over: `ParseRecoversSegments`, stated with `parse`'s own
segments, fails for `ParseIntended` on `\orbitdb\<token>\a`.
