/**
 OrbitDB database addresses, written `/orbitdb/<root>/<path>`.

 The address string goes through one pipeline: backslashes become `/`, the string is split
 on `/`, an `orbitdb` segment is dropped at split index 0 or 1 when the string tested starts
 with `/orbit`, and the segments `""` and `" "` are dropped.  `IsValid` runs the pipeline on
 the normalised string and tests its first segment; `Parse` rejects what `IsValid` rejects and
 otherwise turns the segments into a root and a path; `ToString` writes an address back.

 Decoding a content identifier (`new CID(token)`) belongs to a foreign library: it is the
 parameter `decodes`, true exactly when the decoder accepts the token.
 */
module OrbitDBAddress {
  import opened JsString

  /** The protocol segment of every address. */
  const Protocol: string := "orbitdb"

  /** The prefix of the tested string that enables dropping the protocol segment. */
  const ProtocolMarker: string := "/orbit"

  /** An address as its constructor stores it: two strings, not checked in any way. */
  datatype Address = Address(root: string, path: string)

  /** The one error `Parse` raises; it carries the rejected input. */
  datatype Error = InvalidAddress(input: string)

  datatype Result<T> = Ok(value: T) | Err(error: Error)

  /** `notEmpty`: a segment that survives filtering. */
  predicate NotEmpty(e: string)
  {
    e != "" && e != " "
  }

  /** `s.indexOf('/orbit') === 0`. */
  predicate StartsWithMarker(s: string)
  {
    IndexOf(s, ProtocolMarker) == 0
  }

  /** The index-aware filter predicate: the protocol segment goes only at index 0 or 1. */
  predicate KeepAt(parts: seq<string>, i: nat, hasPrefix: bool)
    requires i < |parts|
  {
    !((i == 0 || i == 1) && hasPrefix && parts[i] == Protocol)
  }

  /** `parts.filter((e, i) => KeepAt(parts, i, hasPrefix))`, from index `i` on. */
  function StripFrom(parts: seq<string>, i: nat, hasPrefix: bool): (r: seq<string>)
    requires i <= |parts|
    ensures i >= 2 ==> r == parts[i..]
    decreases |parts| - i
  {
    if i == |parts| then []
    else (if KeepAt(parts, i, hasPrefix) then [parts[i]] else []) + StripFrom(parts, i + 1, hasPrefix)
  }

  /** The element at index `i` when it exists and survives the protocol filter, otherwise nothing. */
  function SurvivorAt(parts: seq<string>, i: nat, hasPrefix: bool): seq<string>
  {
    if i < |parts| && KeepAt(parts, i, hasPrefix) then [parts[i]] else []
  }

  /** The elements from index 2 on. */
  function FromIndexTwo(parts: seq<string>): seq<string>
  {
    if |parts| <= 2 then [] else parts[2..]
  }

  /**
   The protocol filter of the pipeline.  It is positional: only the elements at indices 0
   and 1 can go, and only when `hasPrefix` holds and they equal `orbitdb`; everything from
   index 2 on is kept, in order; without the prefix nothing changes.
   */
  function StripProtocolPrefix(parts: seq<string>, hasPrefix: bool): (r: seq<string>)
    ensures r == SurvivorAt(parts, 0, hasPrefix) + SurvivorAt(parts, 1, hasPrefix) + FromIndexTwo(parts)
    ensures !hasPrefix ==> r == parts
  {
    StripFromStart(parts, hasPrefix);
    StripFrom(parts, 0, hasPrefix)
  }

  lemma StripFromStart(parts: seq<string>, hasPrefix: bool)
    ensures StripFrom(parts, 0, hasPrefix) == SurvivorAt(parts, 0, hasPrefix) + SurvivorAt(parts, 1, hasPrefix) + FromIndexTwo(parts)
    ensures !hasPrefix ==> StripFrom(parts, 0, hasPrefix) == parts
  {
    if |parts| == 1 {
      assert StripFrom(parts, 1, hasPrefix) == [];
    } else if |parts| >= 2 {
      assert StripFrom(parts, 2, hasPrefix) == parts[2..];
      assert StripFrom(parts, 1, hasPrefix) == SurvivorAt(parts, 1, hasPrefix) + parts[2..];
      if !hasPrefix {
        assert parts == [parts[0]] + ([parts[1]] + parts[2..]);
      }
    }
  }

  /** `parts.filter(notEmpty)`: every survivor is non-empty, and exactly the non-empty elements survive. */
  function FilterEmpty(parts: seq<string>): (r: seq<string>)
    ensures |r| <= |parts|
    ensures forall k :: 0 <= k < |r| ==> NotEmpty(r[k])
    ensures forall x :: x in r <==> x in parts && NotEmpty(x)
  {
    if parts == [] then []
    else (if NotEmpty(parts[0]) then [parts[0]] else []) + FilterEmpty(parts[1..])
  }

  /** Filtering a concatenation filters each half: the survivors keep their order. */
  lemma {:induction false} FilterEmptyConcat(a: seq<string>, b: seq<string>)
    ensures FilterEmpty(a + b) == FilterEmpty(a) + FilterEmpty(b)
    decreases |a|
  {
    if a != [] {
      assert (a + b)[0] == a[0];
      assert (a + b)[1..] == a[1..] + b;
      FilterEmptyConcat(a[1..], b);
    } else {
      assert a + b == b;
    }
  }

  /** A list with no empty segment goes through the filter unchanged. */
  lemma {:induction false} FilterEmptyKeepsClean(parts: seq<string>)
    requires forall k :: 0 <= k < |parts| ==> NotEmpty(parts[k])
    ensures FilterEmpty(parts) == parts
    decreases |parts|
  {
    if parts != [] {
      FilterEmptyKeepsClean(parts[1..]);
    }
  }

  /** `a` is `b` with some elements left out, the rest in their original order. */
  ghost predicate Subsequence(a: seq<string>, b: seq<string>)
    decreases |b|
  {
    a == [] || (b != [] && ((a[0] == b[0] && Subsequence(a[1..], b[1..])) || Subsequence(a, b[1..])))
  }

  lemma {:induction false} SubsequenceTransitive(a: seq<string>, b: seq<string>, c: seq<string>)
    requires Subsequence(a, b) && Subsequence(b, c)
    ensures Subsequence(a, c)
    decreases |c|
  {
    if a != [] {
      assert b != [] && c != [];
      if Subsequence(b, c[1..]) {
        SubsequenceTransitive(a, b, c[1..]);
      } else if a[0] == b[0] && Subsequence(a[1..], b[1..]) {
        SubsequenceTransitive(a[1..], b[1..], c[1..]);
      } else {
        SubsequenceTransitive(a, b[1..], c[1..]);
      }
    }
  }

  lemma {:induction false} SubsequenceReflexive(a: seq<string>)
    ensures Subsequence(a, a)
    decreases |a|
  {
    if a != [] {
      SubsequenceReflexive(a[1..]);
    }
  }

  /** Filtering keeps the survivors in their original relative order. */
  lemma {:induction false} FilterEmptyIsSubsequence(parts: seq<string>)
    ensures Subsequence(FilterEmpty(parts), parts)
    decreases |parts|
  {
    if parts != [] {
      FilterEmptyIsSubsequence(parts[1..]);
      var r := FilterEmpty(parts);
      if NotEmpty(parts[0]) {
        assert r == [parts[0]] + FilterEmpty(parts[1..]);
        assert r[0] == parts[0] && r[1..] == FilterEmpty(parts[1..]);
      } else {
        assert r == FilterEmpty(parts[1..]);
      }
    }
  }

  /** Dropping the protocol segment keeps the others in their original relative order. */
  lemma StripProtocolPrefixIsSubsequence(parts: seq<string>, hasPrefix: bool)
    ensures Subsequence(StripProtocolPrefix(parts, hasPrefix), parts)
  {
    var r := StripProtocolPrefix(parts, hasPrefix);
    if |parts| >= 2 {
      var t := parts[2..];
      SubsequenceReflexive(t);
      assert parts[1..][1..] == t;
      var r1 := SurvivorAt(parts, 1, hasPrefix) + t;
      assert Subsequence(r1, parts[1..]) by {
        if KeepAt(parts, 1, hasPrefix) {
          assert r1 == [parts[1]] + t;
          assert r1[0] == parts[1..][0] && r1[1..] == t;
        } else {
          assert r1 == t;
        }
      }
      assert r == SurvivorAt(parts, 0, hasPrefix) + r1;
      if KeepAt(parts, 0, hasPrefix) {
        assert r[1..] == r1;
      }
    } else if |parts| == 1 {
      if !KeepAt(parts, 0, hasPrefix) {
        assert r == [];
      } else {
        assert r == parts;
        SubsequenceReflexive(parts);
      }
    }
  }

  /** The pipeline of lines 19-25 and 47-51, given the outcome of the prefix test. */
  function Segments(address: string, hasPrefix: bool): seq<string>
  {
    FilterEmpty(StripProtocolPrefix(Split(ReplaceBackslashes(address)), hasPrefix))
  }

  /** `isValid`'s segments: the prefix test reads the normalised string (line 19 reassigns it). */
  function ValidSegments(address: string): seq<string>
  {
    Segments(address, StartsWithMarker(ReplaceBackslashes(address)))
  }

  /** `parse`'s segments: the prefix test reads the original input (line 50). */
  function ParseSegments(address: string): seq<string>
  {
    Segments(address, StartsWithMarker(address))
  }

  /** A segment: never `""` or `" "`, and free of both kinds of separator. */
  predicate IsSegment(seg: string)
  {
    NotEmpty(seg) && '/' !in seg && '\\' !in seg
  }

  /** Every segment either pipeline yields is a proper segment. */
  lemma SegmentsAreClean(address: string, hasPrefix: bool)
    ensures forall k :: 0 <= k < |Segments(address, hasPrefix)| ==> IsSegment(Segments(address, hasPrefix)[k])
  {
    var norm := ReplaceBackslashes(address);
    ReplaceBackslashesRemovesAll(address);
    var parts := Split(norm);
    SplitKeepsOut(norm, '\\');
    var stripped := StripProtocolPrefix(parts, hasPrefix);
    assert forall x :: x in stripped ==> x in parts;
    var segs := Segments(address, hasPrefix);
    forall k | 0 <= k < |segs| ensures IsSegment(segs[k]) {
      assert segs[k] in stripped;
      assert segs[k] in parts;
    }
  }

  /** The segments of either pipeline keep their relative order in the split normalised input. */
  lemma SegmentsKeepOrder(address: string, hasPrefix: bool)
    ensures Subsequence(Segments(address, hasPrefix), Split(ReplaceBackslashes(address)))
  {
    var parts := Split(ReplaceBackslashes(address));
    var stripped := StripProtocolPrefix(parts, hasPrefix);
    FilterEmptyIsSubsequence(stripped);
    StripProtocolPrefixIsSubsequence(parts, hasPrefix);
    SubsequenceTransitive(FilterEmpty(stripped), stripped, parts);
  }

  /** `token.indexOf('zd') > -1 || token.indexOf('Qm') > -1`. */
  predicate HasCidMarker(token: string)
  {
    IndexOf(token, "zd") > -1 || IndexOf(token, "Qm") > -1
  }

  /**
   `OrbitDBAddress.isValid`: the first segment must be there, hold `zd` or `Qm` somewhere,
   and decode as a content identifier.
   */
  function IsValid(address: string, decodes: string -> bool): (valid: bool)
    ensures valid <==>
      var parts := ValidSegments(address);
      |parts| > 0 && (Contains(parts[0], "zd") || Contains(parts[0], "Qm")) && decodes(parts[0])
  {
    var parts := ValidSegments(address);
    if |parts| == 0 then
      // `parts[0].indexOf` throws on the missing segment; the catch turns that into false
      false
    else
      IndexOfFindsIff(parts[0], "zd");
      IndexOfFindsIff(parts[0], "Qm");
      if HasCidMarker(parts[0]) then
        // the decoder either throws (caught: false) or yields a string (not null: true)
        decodes(parts[0])
      else
        // the hash stays null
        false
  }

  /** A root that passes validity and survives the pipeline as one segment. */
  predicate IsRootToken(token: string, decodes: string -> bool)
  {
    IsSegment(token) && HasCidMarker(token) && decodes(token)
  }

  /** With the marker test reading the normalised string, the input may also start with `\orbit`. */
  lemma MarkerAfterNormalising(s: string)
    ensures StartsWithMarker(ReplaceBackslashes(s)) <==> StartsWithMarker(s) || "\\orbit" <= s
  {
    var n := ReplaceBackslashes(s);
    IndexOfZeroIff(s, ProtocolMarker);
    IndexOfZeroIff(n, ProtocolMarker);
    if ProtocolMarker <= n {
      assert forall i :: 1 <= i < 6 ==> s[i] == n[i];
      assert s[0] == '/' || s[0] == '\\';
      if s[0] == '/' {
        assert s[..6] == ProtocolMarker;
      } else {
        assert s[..6] == "\\orbit";
      }
    }
    if ProtocolMarker <= s || "\\orbit" <= s {
      assert n[..6] == ProtocolMarker;
    }
  }

  /** When `isValid` finds a segment, `parse` finds one too: its prefix test can only drop less. */
  lemma ParseSegmentsNotEmpty(address: string)
    requires |ValidSegments(address)| > 0
    ensures |ParseSegments(address)| > 0
  {
    var parts := Split(ReplaceBackslashes(address));
    MarkerAfterNormalising(address);
    if StartsWithMarker(ReplaceBackslashes(address)) != StartsWithMarker(address) {
      var x := ValidSegments(address)[0];
      assert x in StripProtocolPrefix(parts, true);
      assert x in parts;
      assert x in ParseSegments(address);
    }
  }

  /** `OrbitDBAddress.parse`: rejects the empty input and every input `IsValid` rejects. */
  function Parse(address: string, decodes: string -> bool): (r: Result<Address>)
    ensures r.Err? <==> address == "" || !IsValid(address, decodes)
    ensures r.Err? ==> r.error == InvalidAddress(address)
  {
    if address == "" then Err(InvalidAddress(address))
    else if !IsValid(address, decodes) then Err(InvalidAddress(address))
    else
      ParseSegmentsNotEmpty(address);
      var parts := ParseSegments(address);
      Ok(Address(parts[0], Join(parts[1..])))
  }

  /** `isValid` once its segments are known: the first one decides. */
  lemma ValidityOfSegments(address: string, decodes: string -> bool)
    requires |ValidSegments(address)| > 0
    ensures IsValid(address, decodes) <==>
      HasCidMarker(ValidSegments(address)[0]) && decodes(ValidSegments(address)[0])
  {
    IndexOfFindsIff(ValidSegments(address)[0], "zd");
    IndexOfFindsIff(ValidSegments(address)[0], "Qm");
  }

  /** `parse` on an accepted input, once its segments are known. */
  lemma ParseOfSegments(address: string, decodes: string -> bool)
    requires address != "" && IsValid(address, decodes)
    ensures |ParseSegments(address)| > 0
    ensures Parse(address, decodes) ==
      Ok(Address(ParseSegments(address)[0], Join(ParseSegments(address)[1..])))
  {
    ParseSegmentsNotEmpty(address);
  }

  /** The segments a path stands for: none for `""`, else its pieces. */
  function PathSegments(path: string): seq<string>
  {
    if path == "" then [] else Split(path)
  }

  /** Root and path build back a list of segments: the path's segments are the ones after the root. */
  lemma JoinedPathSplits(segs: seq<string>)
    requires forall k :: 0 <= k < |segs| ==> IsSegment(segs[k])
    ensures PathSegments(Join(segs)) == segs
  {
    if segs != [] {
      JoinNonEmpty(segs);
      SplitJoin(segs);
    }
  }

  /** A parsed address holds exactly `parse`'s segments: the first as root, the rest, in order, as path. */
  lemma ParseRecoversSegments(address: string, decodes: string -> bool)
    requires Parse(address, decodes).Ok?
    ensures var a := Parse(address, decodes).value;
      [a.root] + PathSegments(a.path) == ParseSegments(address)
  {
    ParseSegmentsNotEmpty(address);
    var parts := ParseSegments(address);
    assert Parse(address, decodes).value == Address(parts[0], Join(parts[1..]));
    SegmentsAreClean(address, StartsWithMarker(address));
    var rest := parts[1..];
    assert forall k :: 0 <= k < |rest| ==> IsSegment(rest[k]) by {
      forall k | 0 <= k < |rest| ensures IsSegment(rest[k]) {
        assert rest[k] == parts[k + 1];
      }
    }
    JoinedPathSplits(rest);
    assert parts == [parts[0]] + rest;
  }

  /** Without a leading `\orbit` both pipelines test the prefix alike and agree on the segments. */
  lemma SegmentsAgree(address: string)
    requires !("\\orbit" <= address)
    ensures ParseSegments(address) == ValidSegments(address)
  {
    MarkerAfterNormalising(address);
  }

  /** Without a leading `\orbit` the root `parse` returns is one `isValid` accepts. */
  lemma ParsedRootIsValid(address: string, decodes: string -> bool)
    requires !("\\orbit" <= address)
    requires Parse(address, decodes).Ok?
    ensures IsRootToken(Parse(address, decodes).value.root, decodes)
  {
    SegmentsAgree(address);
    SegmentsAreClean(address, StartsWithMarker(address));
    var parts := ValidSegments(address);
    IndexOfFindsIff(parts[0], "zd");
    IndexOfFindsIff(parts[0], "Qm");
  }

  /** `toString`: the protocol, the root and the path joined by `/`. */
  function ToString(a: Address): (s: string)
    ensures s == "/orbitdb/" + (a.root + "/" + a.path)
    ensures a.path == "" ==> s[|s| - 1] == '/'
  {
    var parts := ["/orbitdb", a.root, a.path];
    assert parts[1..] == [a.root, a.path] && parts[1..][1..] == [a.path];
    assert Join(parts[1..]) == a.root + "/" + a.path;
    assert "/orbitdb" + "/" == "/orbitdb/";
    Join(parts)
  }

  /** The prefix `/orbitdb/` contributes the split pieces `""` and `orbitdb`, then `rest`'s own. */
  lemma SplitUnderProtocol(rest: string)
    ensures Split("/orbitdb/" + rest) == ["", Protocol] + Split(rest)
  {
    var inner := Protocol + "/" + rest;
    ProtocolPrefixShape(rest);
    SplitConcat("", inner);
    SplitConcat(Protocol, rest);
    SplitNoSeparator(Protocol);
    assert Split("") == [""];
  }

  /** `/orbitdb/` is the empty piece, a separator, the protocol and a separator. */
  lemma ProtocolPrefixShape(rest: string)
    ensures "/orbitdb/" + rest == "" + "/" + (Protocol + "/" + rest)
  {
    assert "" + "/" + Protocol + "/" == "/orbitdb/";
  }

  /** The prefix `/orbitdb/` holds no backslash, so normalising leaves it alone. */
  lemma NormaliseUnderProtocol(rest: string)
    ensures ReplaceBackslashes("/orbitdb/" + rest) == "/orbitdb/" + ReplaceBackslashes(rest)
  {
    ReplaceBackslashesAfterClean("/orbitdb/", rest);
  }

  /** An input written with the `/orbitdb/` prefix passes the marker test. */
  lemma MarkerUnderProtocol(rest: string)
    ensures StartsWithMarker("/orbitdb/" + rest)
  {
    IndexOfZeroIff("/orbitdb/" + rest, ProtocolMarker);
    assert ("/orbitdb/" + rest)[..6] == ProtocolMarker;
  }

  /**
   Prefix stripping is positional and optional: writing `/orbitdb/` in front of an input that
   does not itself start with `/orbit` or `\orbit` changes neither pipeline's segments,
   validity, nor what `parse` builds.
   */
  lemma ProtocolPrefixIsOptional(rest: string, decodes: string -> bool)
    requires !StartsWithMarker(ReplaceBackslashes(rest))
    ensures ParseSegments("/orbitdb/" + rest) == ParseSegments(rest)
    ensures ValidSegments("/orbitdb/" + rest) == ValidSegments(rest)
    ensures IsValid("/orbitdb/" + rest, decodes) == IsValid(rest, decodes)
    ensures Parse("/orbitdb/" + rest, decodes).Ok? ==> Parse("/orbitdb/" + rest, decodes) == Parse(rest, decodes)
  {
    PrefixedSegments(rest);
    UnprefixedSegments(rest);
    if Parse("/orbitdb/" + rest, decodes).Ok? {
      EmptyInputHasNoSegments();
    }
  }

  /** The segments of `/orbitdb/` followed by `rest`: those of the split normalised `rest`, filtered. */
  lemma PrefixedSegments(rest: string)
    ensures ParseSegments("/orbitdb/" + rest) == FilterEmpty(Split(ReplaceBackslashes(rest)))
    ensures ValidSegments("/orbitdb/" + rest) == FilterEmpty(Split(ReplaceBackslashes(rest)))
  {
    var s := "/orbitdb/" + rest;
    NormaliseUnderProtocol(rest);
    MarkerUnderProtocol(ReplaceBackslashes(rest));
    MarkerUnderProtocol(rest);
    PrefixedSegmentsWithMarker(rest);
    assert ParseSegments(s) == Segments(s, true);
    assert ValidSegments(s) == Segments(s, true);
  }

  /** With the prefix test passed, `/orbitdb/` contributes no segment. */
  lemma PrefixedSegmentsWithMarker(rest: string)
    ensures Segments("/orbitdb/" + rest, true) == FilterEmpty(Split(ReplaceBackslashes(rest)))
  {
    var norm := ReplaceBackslashes(rest);
    NormaliseUnderProtocol(rest);
    SplitUnderProtocol(norm);
    var parts := Split(norm);
    StripAfterProtocol(parts);
    FilterAfterEmpty(parts);
  }

  /** The protocol filter drops the `orbitdb` at index 1 and keeps the empty piece before it. */
  lemma StripAfterProtocol(parts: seq<string>)
    ensures StripProtocolPrefix(["", Protocol] + parts, true) == [""] + parts
  {
    var all := ["", Protocol] + parts;
    assert all[0] == "" && all[1] == Protocol;
    assert FromIndexTwo(all) == parts by {
      assert all[2..] == parts;
    }
  }

  /** A leading empty piece is filtered out. */
  lemma FilterAfterEmpty(parts: seq<string>)
    ensures FilterEmpty([""] + parts) == FilterEmpty(parts)
  {
    assert ([""] + parts)[1..] == parts;
  }

  /** An input that does not start with `/orbit` or `\orbit` loses no segment to the protocol filter. */
  lemma UnprefixedSegments(rest: string)
    requires !StartsWithMarker(ReplaceBackslashes(rest))
    ensures ParseSegments(rest) == FilterEmpty(Split(ReplaceBackslashes(rest)))
    ensures ValidSegments(rest) == FilterEmpty(Split(ReplaceBackslashes(rest)))
  {
    MarkerAfterNormalising(rest);
  }

  /** The empty input has no segment. */
  lemma EmptyInputHasNoSegments()
    ensures ValidSegments("") == []
  {
    assert ReplaceBackslashes("") == "";
    assert Split("") == [""];
    assert StripProtocolPrefix([""], StartsWithMarker("")) == [""];
  }

  /** The protocol segment at split index 2 or later is an ordinary segment for both pipelines. */
  lemma ProtocolSegmentLaterIsKept(address: string, k: nat)
    requires 2 <= k < |Split(ReplaceBackslashes(address))|
    requires Split(ReplaceBackslashes(address))[k] == Protocol
    ensures Protocol in ParseSegments(address)
    ensures Protocol in ValidSegments(address)
  {
    var parts := Split(ReplaceBackslashes(address));
    assert parts[k] == FromIndexTwo(parts)[k - 2];
    assert Protocol in StripProtocolPrefix(parts, true);
    assert Protocol in StripProtocolPrefix(parts, false);
  }

  /** With no segment left there is no root: the input is invalid and `parse` rejects it. */
  lemma NoSegmentsIsInvalid(address: string, decodes: string -> bool)
    requires ValidSegments(address) == []
    ensures !IsValid(address, decodes)
    ensures Parse(address, decodes) == Err(InvalidAddress(address))
  {
  }

  /** `"/"` splits into two empty pieces and leaves no segment. */
  lemma SlashHasNoSegments()
    ensures ValidSegments("/") == []
  {
    ReplaceBackslashesFixesClean("/");
    SlashPieces();
    assert StripProtocolPrefix(["", ""], StartsWithMarker("/")) == ["", ""];
    FilterAfterEmpty([""]);
  }

  /** `"/".split('/')` is `["", ""]`. */
  lemma SlashPieces()
    ensures Split("/") == ["", ""]
  {
    assert "/" == "/" + "";
    LeadingSeparator("");
  }

  /** `"//"` splits into three empty pieces and leaves no segment. */
  lemma DoubleSlashHasNoSegments()
    ensures ValidSegments("//") == []
  {
    ReplaceBackslashesFixesClean("//");
    assert "//" == "/" + "/";
    LeadingSeparator("/");
    SlashPieces();
    DoubleSlashFailsMarker("//");
    assert StripProtocolPrefix(Split("//"), false) == [""] + ["", ""];
    FilterAfterEmpty(["", ""]);
    FilterAfterEmpty([""]);
  }

  /** `""`, `"/"`, `"//"` and `"/orbitdb/"` leave no segment, so none of them is valid. */
  lemma EmptyAddressesAreInvalid(decodes: string -> bool)
    ensures !IsValid("", decodes) && !IsValid("/", decodes)
    ensures !IsValid("//", decodes) && !IsValid("/orbitdb/", decodes)
    ensures Parse("", decodes) == Err(InvalidAddress(""))
  {
    EmptyInputHasNoSegments();
    SlashHasNoSegments();
    DoubleSlashHasNoSegments();
    PrefixedSegments("");
    assert "/orbitdb/" + "" == "/orbitdb/";
    assert ReplaceBackslashes("") == "";
    assert Split("") == [""];
  }

  /** A root followed by a joined path splits back into the root and the path's segments. */
  lemma RootAndPathSegments(root: string, segs: seq<string>)
    requires IsSegment(root)
    requires forall k :: 0 <= k < |segs| ==> IsSegment(segs[k])
    ensures FilterEmpty(Split(ReplaceBackslashes(root + "/" + Join(segs)))) == [root] + segs
  {
    var path := Join(segs);
    JoinKeepsOut(segs, '\\');
    var s := root + "/" + path;
    assert '\\' !in s;
    ReplaceBackslashesFixesClean(s);
    SplitConcat(root, path);
    SplitNoSeparator(root);
    FilterEmptyConcat([root], Split(path));
    assert FilterEmpty([root]) == [root];
    if segs == [] {
      assert Split(path) == [""];
    } else {
      SplitJoin(segs);
      FilterEmptyKeepsClean(segs);
    }
  }

  /**
   Serialising and parsing again gives back the same address, when the root is a token
   `isValid` accepts and the path is `""` or a join of proper segments.
   */
  lemma RoundTrip(root: string, segs: seq<string>, decodes: string -> bool)
    requires IsRootToken(root, decodes)
    requires forall k :: 0 <= k < |segs| ==> IsSegment(segs[k])
    ensures Parse(ToString(Address(root, Join(segs))), decodes) == Ok(Address(root, Join(segs)))
  {
    var rest := root + "/" + Join(segs);
    var s := ToString(Address(root, Join(segs)));
    PrefixedSegments(rest);
    RootAndPathSegments(root, segs);
    var parts := [root] + segs;
    assert ValidSegments(s) == parts && ParseSegments(s) == parts;
    assert parts[0] == root && parts[1..] == segs;
    assert IsValid(s, decodes);
    assert s != "";
  }

  /** `isValid` reads only the normalised string, so normalising first changes nothing. */
  lemma IsValidIgnoresBackslashes(address: string, decodes: string -> bool)
    ensures ValidSegments(ReplaceBackslashes(address)) == ValidSegments(address)
    ensures IsValid(ReplaceBackslashes(address), decodes) == IsValid(address, decodes)
  {
    ReplaceBackslashesIdempotent(address);
  }

  /** A token lacking both `z` and `Q` holds neither marker. */
  lemma NoMarkerWithoutLetters(token: string)
    requires 'z' !in token && 'Q' !in token
    ensures !HasCidMarker(token)
  {
    NotContainsWithoutFirst(token, "zd");
    NotContainsWithoutFirst(token, "Qm");
    IndexOfFindsIff(token, "zd");
    IndexOfFindsIff(token, "Qm");
  }

  /**
   For a serialised address the root alone decides validity: it is valid exactly when the
   root holds a marker and decodes.  A marker without decoding is not enough.
   */
  lemma RootDecidesValidity(root: string, segs: seq<string>, decodes: string -> bool)
    requires IsSegment(root)
    requires forall k :: 0 <= k < |segs| ==> IsSegment(segs[k])
    ensures IsValid(ToString(Address(root, Join(segs))), decodes) <==> HasCidMarker(root) && decodes(root)
  {
    var rest := root + "/" + Join(segs);
    PrefixedSegments(rest);
    RootAndPathSegments(root, segs);
    var s := ToString(Address(root, Join(segs)));
    assert ValidSegments(s)[0] == root;
  }

  /** `\orbitdb\` normalises to `/orbitdb/`. */
  lemma NormaliseBackslashProtocol(rest: string)
    ensures ReplaceBackslashes("\\orbitdb\\" + rest) == "/orbitdb/" + ReplaceBackslashes(rest)
  {
    assert "\\orbitdb\\" + rest == "\\" + (Protocol + ("\\" + rest));
    ReplaceLeadingBackslash(Protocol + ("\\" + rest));
    ReplaceBackslashesAfterClean(Protocol, "\\" + rest);
    ReplaceLeadingBackslash(rest);
    assert "/" + (Protocol + ("/" + ReplaceBackslashes(rest))) == "/orbitdb/" + ReplaceBackslashes(rest);
  }

  /** A leading backslash becomes a leading `/`. */
  lemma ReplaceLeadingBackslash(s: string)
    ensures ReplaceBackslashes("\\" + s) == "/" + ReplaceBackslashes(s)
  {
    assert ("\\" + s)[1..] == s;
  }

  /** `\a` normalises to `/a` after a clean token. */
  lemma NormaliseBackslashSegment(token: string)
    requires '\\' !in token
    ensures ReplaceBackslashes(token + "\\a") == token + "/a"
  {
    ReplaceBackslashesConcat(token, "\\a");
    ReplaceBackslashesFixesClean(token);
    assert ReplaceBackslashes("\\a") == "/a";
  }

  /** `\orbitdb\<token>\a` normalises to `/orbitdb/<token>/a`. */
  lemma NormaliseBackslashAddress(token: string)
    requires '\\' !in token
    ensures ReplaceBackslashes("\\orbitdb\\" + (token + "\\a")) == "/orbitdb/" + (token + "/a")
  {
    NormaliseBackslashProtocol(token + "\\a");
    NormaliseBackslashSegment(token);
  }

  /** The pieces `""` and `orbitdb` in front: the empty piece goes, the protocol stays. */
  lemma FilterAfterProtocol(rest: seq<string>)
    ensures FilterEmpty(["", Protocol] + rest) == [Protocol] + FilterEmpty(rest)
  {
    FilterEmptyConcat(["", Protocol], rest);
    assert ["", Protocol][1..] == [Protocol];
    assert FilterEmpty(["", Protocol]) == FilterEmpty([Protocol]);
    assert NotEmpty(Protocol);
    assert FilterEmpty([Protocol]) == [Protocol] + FilterEmpty([]);
  }

  /** `isValid` sees only the normalised string: equal normal forms give equal segments. */
  lemma ValidSegmentsOfNormalForm(a: string, b: string)
    requires ReplaceBackslashes(a) == ReplaceBackslashes(b)
    ensures ValidSegments(a) == ValidSegments(b)
  {
  }

  /** A string that starts with a backslash fails `parse`'s marker test. */
  lemma BackslashStartFailsMarker(s: string)
    requires |s| > 0 && s[0] == '\\'
    ensures !StartsWithMarker(s)
  {
    IndexOfZeroIff(s, ProtocolMarker);
    assert s[0] != ProtocolMarker[0];
  }

  /** The segments of `/orbitdb/<token>/a`, before and after the protocol filter. */
  lemma TokenPathSegments(token: string)
    requires IsSegment(token)
    ensures FilterEmpty(Split(ReplaceBackslashes(token + "/a"))) == [token, "a"]
    ensures Split(token + "/a") == [token, "a"]
  {
    assert Join(["a"]) == "a";
    assert token + "/a" == token + "/" + "a";
    RootAndPathSegments(token, ["a"]);
    SplitConcat(token, "a");
    SplitNoSeparator(token);
    SplitNoSeparator("a");
  }

  /** `isValid`'s segments of `\orbitdb\<token>\a`: `orbitdb` is dropped. */
  lemma BackslashAddressValidSegments(token: string)
    requires IsSegment(token)
    ensures ValidSegments("\\orbitdb\\" + (token + "\\a")) == [token, "a"]
  {
    var clean := "/orbitdb/" + (token + "/a");
    NormaliseBackslashAddress(token);
    NormaliseUnderProtocol(token + "/a");
    ReplaceBackslashesFixesClean(token + "/a");
    ValidSegmentsOfNormalForm("\\orbitdb\\" + (token + "\\a"), clean);
    PrefixedSegments(token + "/a");
    TokenPathSegments(token);
  }

  /** `parse`'s segments of `\orbitdb\<token>\a`: `orbitdb` is kept. */
  lemma BackslashAddressParseSegments(token: string)
    requires IsSegment(token)
    ensures ParseSegments("\\orbitdb\\" + (token + "\\a")) == [Protocol] + [token, "a"]
  {
    var s := "\\orbitdb\\" + (token + "\\a");
    NormaliseBackslashAddress(token);
    BackslashStartFailsMarker(s);
    SplitUnderProtocol(token + "/a");
    TokenPathSegments(token);
    assert ParseSegments(s) == FilterEmpty(["", Protocol] + [token, "a"]);
    FilterAfterProtocol([token, "a"]);
    FilterEmptyKeepsClean([token, "a"]);
  }

  /**
   `\orbitdb\<token>\a` with a token `isValid` accepts: `isValid` tests the normalised string,
   drops `orbitdb` and accepts; `parse` tests the original, which starts with a backslash, keeps
   `orbitdb`, and returns it as the root.
   */
  lemma BackslashMarkerKeepsProtocol(token: string, decodes: string -> bool)
    requires IsRootToken(token, decodes)
    ensures IsValid("\\orbitdb\\" + (token + "\\a"), decodes)
    ensures Parse("\\orbitdb\\" + (token + "\\a"), decodes) == Ok(Address(Protocol, token + "/a"))
  {
    var s := "\\orbitdb\\" + (token + "\\a");
    BackslashAddressValidSegments(token);
    ValidityOfSegments(s, decodes);
    assert s[0] == '\\';
    BackslashAddressParseSegments(token);
    ParseOfSegments(s, decodes);
    assert ([Protocol] + [token, "a"])[1..] == [token, "a"];
    JoinTokenSegment(token);
  }

  /** Joining `[token, "a"]` gives `token/a`. */
  lemma JoinTokenSegment(token: string)
    ensures Join([token, "a"]) == token + "/a"
  {
    assert [token, "a"][1..] == ["a"];
  }

  /** A string whose second character is `/` fails the marker test. */
  lemma DoubleSlashFailsMarker(s: string)
    requires |s| > 1 && s[1] == '/'
    ensures !StartsWithMarker(s)
  {
    IndexOfZeroIff(s, ProtocolMarker);
    assert s[1] != ProtocolMarker[1];
  }

  /** `/orbitdb/<token>` has the single segment `token` for `isValid`. */
  lemma ProtocolTokenSegments(token: string)
    requires IsSegment(token)
    ensures ValidSegments("/orbitdb/" + token) == [token]
  {
    PrefixedSegments(token);
    ReplaceBackslashesFixesClean(token);
    SplitNoSeparator(token);
    FilterEmptyKeepsClean([token]);
  }

  /** `//orbitdb/<token>` keeps `orbitdb` as its first segment for `isValid`. */
  lemma DoubledSlashSegments(token: string)
    requires IsSegment(token)
    ensures ValidSegments("/" + ("/orbitdb/" + token)) == [Protocol] + [token]
  {
    var s := "/" + ("/orbitdb/" + token);
    DoubledSlashPieces(token);
    UnmarkedNormalSegments(s);
    var pieces := ["", Protocol] + [token];
    assert FilterEmpty(Split(s)) == FilterEmpty(pieces) by {
      FilterAfterEmpty(pieces);
    }
    assert FilterEmpty(pieces) == [Protocol] + [token] by {
      FilterAfterProtocol([token]);
      FilterEmptyKeepsClean([token]);
    }
  }

  /** For an already normal string that fails the marker test, `isValid` only drops empty pieces. */
  lemma UnmarkedNormalSegments(s: string)
    requires ReplaceBackslashes(s) == s && !StartsWithMarker(s)
    ensures ValidSegments(s) == FilterEmpty(Split(s))
  {
  }

  /** `//orbitdb/<token>` is already normal, fails the marker test and splits into four pieces. */
  lemma DoubledSlashPieces(token: string)
    requires IsSegment(token)
    ensures var s := "/" + ("/orbitdb/" + token);
      ReplaceBackslashes(s) == s && !StartsWithMarker(s) && Split(s) == [""] + (["", Protocol] + [token])
  {
    var inner := "/orbitdb/" + token;
    var s := "/" + inner;
    assert ReplaceBackslashes(s) == s by {
      ReplaceBackslashesFixesClean(token);
      NormaliseUnderProtocol(token);
      ReplaceBackslashesAfterClean("/", inner);
    }
    DoubleSlashFailsMarker(s);
    assert Split(s) == [""] + Split(inner) by {
      LeadingSeparator(inner);
    }
    assert Split(inner) == ["", Protocol] + [token] by {
      SplitUnderProtocol(token);
      SplitNoSeparator(token);
    }
  }

  /** A leading separator contributes one empty piece. */
  lemma LeadingSeparator(s: string)
    ensures Split("/" + s) == [""] + Split(s)
  {
    assert "/" + s == "" + "/" + s;
    SplitConcat("", s);
    assert Split("") == [""];
  }

  /**
   Collapsing a doubled leading slash changes validity: `//orbitdb/<token>` does not start
   with `/orbit`, keeps `orbitdb` as its first segment and is invalid, while
   `/orbitdb/<token>` is valid.
   */
  lemma CollapsingSlashesChangesValidity(token: string, decodes: string -> bool)
    requires IsRootToken(token, decodes)
    ensures IsValid("/orbitdb/" + token, decodes)
    ensures !IsValid("/" + ("/orbitdb/" + token), decodes)
  {
    ProtocolTokenSegments(token);
    ValidityOfSegments("/orbitdb/" + token, decodes);
    DoubledSlashIsInvalid(token, decodes);
  }

  /** `//orbitdb/<token>` is invalid: its first segment is `orbitdb`, which has no marker. */
  lemma DoubledSlashIsInvalid(token: string, decodes: string -> bool)
    requires IsSegment(token)
    ensures !IsValid("/" + ("/orbitdb/" + token), decodes)
  {
    var s := "/" + ("/orbitdb/" + token);
    DoubledSlashSegments(token);
    assert ValidSegments(s)[0] == Protocol;
    ValidityOfSegments(s, decodes);
    ProtocolHasNoMarker();
  }

  /** The protocol name `orbitdb` holds neither `zd` nor `Qm`. */
  lemma ProtocolHasNoMarker()
    ensures !HasCidMarker(Protocol)
  {
    NoMarkerWithoutLetters(Protocol);
  }

  /**
   The evidently intended `parse`: the prefix test reads the normalised string, as in
   `isValid`, so the root it returns is always one `isValid` accepted.
   */
  function ParseIntended(address: string, decodes: string -> bool): (r: Result<Address>)
    ensures r.Err? <==> !IsValid(address, decodes)
    ensures r.Err? ==> r.error == InvalidAddress(address)
    ensures r.Ok? ==> IsRootToken(r.value.root, decodes)
  {
    if address == "" then
      EmptyInputHasNoSegments();
      Err(InvalidAddress(address))
    else if !IsValid(address, decodes) then Err(InvalidAddress(address))
    else
      var parts := ValidSegments(address);
      SegmentsAreClean(address, StartsWithMarker(ReplaceBackslashes(address)));
      IndexOfFindsIff(parts[0], "zd");
      IndexOfFindsIff(parts[0], "Qm");
      Ok(Address(parts[0], Join(parts[1..])))
  }

  /** Away from a leading `\orbit` the intended `parse` is the written one. */
  lemma ParseIntendedAgreesWithParse(address: string, decodes: string -> bool)
    requires !("\\orbit" <= address)
    ensures ParseIntended(address, decodes) == Parse(address, decodes)
  {
    SegmentsAgree(address);
    if address == "" {
      EmptyInputHasNoSegments();
    }
  }

  /** The round trip carries over to the intended `parse`: a serialised address starts with `/`. */
  lemma ParseIntendedRoundTrip(root: string, segs: seq<string>, decodes: string -> bool)
    requires IsRootToken(root, decodes)
    requires forall k :: 0 <= k < |segs| ==> IsSegment(segs[k])
    ensures ParseIntended(ToString(Address(root, Join(segs))), decodes) == Ok(Address(root, Join(segs)))
  {
    var s := ToString(Address(root, Join(segs)));
    assert s[0] == '/';
    ParseIntendedAgreesWithParse(s, decodes);
    RoundTrip(root, segs, decodes);
  }

  /** The intended `parse` treats an input and its normalised form alike. */
  lemma ParseIntendedIgnoresBackslashes(address: string, decodes: string -> bool)
    ensures ParseIntended(ReplaceBackslashes(address), decodes).Ok? <==> ParseIntended(address, decodes).Ok?
    ensures ParseIntended(address, decodes).Ok? ==>
      ParseIntended(ReplaceBackslashes(address), decodes) == ParseIntended(address, decodes)
  {
    IsValidIgnoresBackslashes(address, decodes);
    if address != "" {
      assert |ReplaceBackslashes(address)| == |address|;
    }
  }

  /** On the input `parse` gets wrong, the intended `parse` returns the token as root. */
  lemma ParseIntendedOnBackslashMarker(token: string, decodes: string -> bool)
    requires IsRootToken(token, decodes)
    ensures ParseIntended("\\orbitdb\\" + (token + "\\a"), decodes) == Ok(Address(token, "a"))
  {
    BackslashMarkerKeepsProtocol(token, decodes);
    BackslashAddressValidSegments(token);
    assert [token, "a"][1..] == ["a"];
  }
}
