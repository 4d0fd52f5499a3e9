/**
 The part of JavaScript's built-in string behaviour that the address code relies on:
 `s.replace(/\\/g, '/')`, `s.split('/')`, `parts.join('/')` and `s.indexOf(sub)`.
 Strings are sequences of characters; the separator of `split` and `join` is always `/`.
 */
module JsString {

  /** `s.replace(/\\/g, '/')`: every backslash becomes a forward slash, nothing else changes. */
  function ReplaceBackslashes(s: string): (r: string)
    ensures |r| == |s|
    ensures forall i :: 0 <= i < |s| ==> r[i] == (if s[i] == '\\' then '/' else s[i])
  {
    if s == [] then []
    else [if s[0] == '\\' then '/' else s[0]] + ReplaceBackslashes(s[1..])
  }

  /** After the replacement no backslash is left. */
  lemma ReplaceBackslashesRemovesAll(s: string)
    ensures '\\' !in ReplaceBackslashes(s)
  {
  }

  /** A string without backslashes is its own replacement; so replacing twice is replacing once. */
  lemma ReplaceBackslashesFixesClean(s: string)
    requires '\\' !in s
    ensures ReplaceBackslashes(s) == s
  {
    var r := ReplaceBackslashes(s);
    forall i | 0 <= i < |s| ensures r[i] == s[i] {
      assert s[i] != '\\';
    }
  }

  lemma ReplaceBackslashesIdempotent(s: string)
    ensures ReplaceBackslashes(ReplaceBackslashes(s)) == ReplaceBackslashes(s)
  {
    ReplaceBackslashesRemovesAll(s);
    ReplaceBackslashesFixesClean(ReplaceBackslashes(s));
  }

  /** The replacement works character by character, so it distributes over concatenation. */
  lemma {:induction false} ReplaceBackslashesConcat(a: string, b: string)
    ensures ReplaceBackslashes(a + b) == ReplaceBackslashes(a) + ReplaceBackslashes(b)
    decreases |a|
  {
    if a == [] {
      assert a + b == b;
    } else {
      assert (a + b)[0] == a[0];
      assert (a + b)[1..] == a[1..] + b;
      ReplaceBackslashesConcat(a[1..], b);
    }
  }

  /** A prefix without backslashes passes through the replacement untouched. */
  lemma ReplaceBackslashesAfterClean(p: string, s: string)
    requires '\\' !in p
    ensures ReplaceBackslashes(p + s) == p + ReplaceBackslashes(s)
  {
    ReplaceBackslashesConcat(p, s);
    ReplaceBackslashesFixesClean(p);
  }

  /** `parts.join('/')`: the empty list joins to the empty string. */
  function Join(parts: seq<string>): string
  {
    if |parts| == 0 then ""
    else if |parts| == 1 then parts[0]
    else parts[0] + "/" + Join(parts[1..])
  }

  /**
   `s.split('/')`: the maximal pieces of `s` between separators, in order.  There is
   always at least one piece (`"".split('/')` is `[""]`), no piece holds a separator,
   and joining the pieces again gives back `s`.
   */
  function Split(s: string): (r: seq<string>)
    ensures |r| >= 1
    ensures forall k :: 0 <= k < |r| ==> '/' !in r[k]
    ensures Join(r) == s
    decreases |s|
  {
    if s == [] then [""]
    else if s[0] == '/' then [""] + Split(s[1..])
    else
      var t := Split(s[1..]);
      assert Join(t) == t[0] + (if |t| == 1 then "" else "/" + Join(t[1..]));
      [[s[0]] + t[0]] + t[1..]
  }

  /** A string without separators splits into itself alone. */
  lemma {:induction false} SplitNoSeparator(s: string)
    requires '/' !in s
    ensures Split(s) == [s]
    decreases |s|
  {
    if s != [] {
      SplitNoSeparator(s[1..]);
    }
  }

  /** Splitting distributes over a separator: the pieces of `a` followed by those of `b`. */
  lemma {:induction false} SplitConcat(a: string, b: string)
    ensures Split(a + "/" + b) == Split(a) + Split(b)
    decreases |a|
  {
    if a == [] {
      assert a + "/" + b == "/" + b;
      assert ("/" + b)[1..] == b;
    } else {
      assert (a + "/" + b)[0] == a[0];
      assert (a + "/" + b)[1..] == a[1..] + "/" + b;
      SplitConcat(a[1..], b);
    }
  }

  /** `split` undoes `join` when no part holds a separator and there is at least one part. */
  lemma {:induction false} SplitJoin(parts: seq<string>)
    requires |parts| >= 1
    requires forall k :: 0 <= k < |parts| ==> '/' !in parts[k]
    ensures Split(Join(parts)) == parts
    decreases |parts|
  {
    if |parts| == 1 {
      SplitNoSeparator(parts[0]);
    } else {
      SplitJoin(parts[1..]);
      SplitConcat(parts[0], Join(parts[1..]));
      SplitNoSeparator(parts[0]);
      assert parts == [parts[0]] + parts[1..];
    }
  }

  /** A character other than the separator that is absent from `s` is absent from every piece. */
  lemma {:induction false} SplitKeepsOut(s: string, c: char)
    requires c !in s
    ensures forall k :: 0 <= k < |Split(s)| ==> c !in Split(s)[k]
    decreases |s|
  {
    if s != [] {
      assert c !in s[1..] by { assert forall x :: x in s[1..] ==> x in s; }
      SplitKeepsOut(s[1..], c);
    }
  }

  /** A character absent from every part, and other than the separator, is absent from the join. */
  lemma {:induction false} JoinKeepsOut(parts: seq<string>, c: char)
    requires c != '/'
    requires forall k :: 0 <= k < |parts| ==> c !in parts[k]
    ensures c !in Join(parts)
    decreases |parts|
  {
    if |parts| > 1 {
      JoinKeepsOut(parts[1..], c);
    }
  }

  /** A join whose first part is non-empty is non-empty. */
  lemma JoinNonEmpty(parts: seq<string>)
    requires |parts| >= 1 && parts[0] != ""
    ensures Join(parts) != ""
  {
    if |parts| > 1 {
      assert |Join(parts)| >= |parts[0]|;
    }
  }

  /** `sub` occurs in `s` starting at index `i`. */
  predicate OccursAt(s: string, sub: string, i: int)
  {
    0 <= i && i + |sub| <= |s| && s[i..i + |sub|] == sub
  }

  /** `sub` is a substring of `s`: the reference meaning of `s.indexOf(sub) > -1`. */
  ghost predicate Contains(s: string, sub: string)
  {
    exists i :: OccursAt(s, sub, i)
  }

  /** `s.indexOf(sub, from)`: the first occurrence at or after `from`, or -1. */
  function IndexOfFrom(s: string, sub: string, from: nat): (r: int)
    requires from <= |s| + 1
    ensures r == -1 || (from <= r && OccursAt(s, sub, r))
    ensures forall j :: from <= j && (r == -1 || j < r) ==> !OccursAt(s, sub, j)
    decreases |s| + 1 - from
  {
    if from + |sub| > |s| then -1
    else if s[from..from + |sub|] == sub then from
    else IndexOfFrom(s, sub, from + 1)
  }

  /** `s.indexOf(sub)`. */
  function IndexOf(s: string, sub: string): int
  {
    IndexOfFrom(s, sub, 0)
  }

  /** `s.indexOf(sub) > -1` is exactly "`sub` is a substring of `s`". */
  lemma IndexOfFindsIff(s: string, sub: string)
    ensures IndexOf(s, sub) > -1 <==> Contains(s, sub)
  {
    var r := IndexOf(s, sub);
    if Contains(s, sub) {
      var i :| OccursAt(s, sub, i);
      assert r != -1;
    }
  }

  /** `s.indexOf(p) === 0` is exactly "`s` starts with `p`". */
  lemma IndexOfZeroIff(s: string, p: string)
    ensures IndexOf(s, p) == 0 <==> p <= s
  {
    var r := IndexOf(s, p);
    if p <= s {
      assert OccursAt(s, p, 0);
      assert r != -1;
    }
    if r == 0 {
      assert OccursAt(s, p, 0);
      assert s[..|p|] == p;
    }
  }

  /** A string that lacks the first character of `sub` cannot contain `sub`. */
  lemma NotContainsWithoutFirst(s: string, sub: string)
    requires |sub| > 0 && sub[0] !in s
    ensures !Contains(s, sub)
  {
  }
}
