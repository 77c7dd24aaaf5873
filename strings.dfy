/** Optional values, used for SQL NULL and Python None. */
module Wrappers {
  datatype Option<+T> = None | Some(value: T) {
    function GetOr(default: T): T {
      match this
      case Some(v) => v
      case None => default
    }
  }
}

/**
 * The string operations the crawler relies on (Python's str.strip, str.lower,
 * startswith, endswith, split, rstrip, replace and join); lower is
 * modelled for ASCII letters only.
 */
module Strings {
  import opened Wrappers

  /**
   * The characters Python's str.strip() removes: those for which
   * str.isspace() holds (Unicode category Zs, or bidirectional class WS, B or S).
   */
  predicate IsSpace(c: char) {
    var n := c as int;
    || 9 <= n <= 13 || 28 <= n <= 32 || n == 0x85 || n == 0xA0 || n == 0x1680
    || 0x2000 <= n <= 0x200A || n == 0x2028 || n == 0x2029 || n == 0x202F || n == 0x205F || n == 0x3000
  }

  predicate IsTrimmed(s: string) {
    |s| == 0 || (!IsSpace(s[0]) && !IsSpace(s[|s| - 1]))
  }

  function LStrip(s: string): string {
    if |s| == 0 then s
    else if IsSpace(s[0]) then LStrip(s[1..])
    else s
  }

  function RStrip(s: string): string {
    if |s| == 0 then s
    else if IsSpace(s[|s| - 1]) then RStrip(s[..|s| - 1])
    else s
  }

  /** LStrip removes a prefix of whitespace and stops at a non-space character. */
  lemma {:induction false} LStripFacts(s: string)
    ensures var r := LStrip(s);
      && |r| <= |s| && r == s[|s| - |r|..]
      && (|r| > 0 ==> !IsSpace(r[0]))
      && forall i :: 0 <= i < |s| - |r| ==> IsSpace(s[i])
  {
    if |s| > 0 && IsSpace(s[0]) {
      LStripFacts(s[1..]);
    }
  }

  /** RStrip removes a suffix of whitespace and stops at a non-space character. */
  lemma {:induction false} RStripFacts(s: string)
    ensures var r := RStrip(s);
      && |r| <= |s| && r == s[..|r|]
      && (|r| > 0 ==> !IsSpace(r[|r| - 1]))
      && forall i :: |r| <= i < |s| ==> IsSpace(s[i])
  {
    if |s| > 0 && IsSpace(s[|s| - 1]) {
      RStripFacts(s[..|s| - 1]);
    }
  }

  /** Python's str.strip() with no argument. */
  function Strip(s: string): (r: string)
  {
    LStrip(RStrip(s))
  }

  /** Stripping yields a trimmed string, and leaves a trimmed string alone. */
  lemma StripTrims(s: string)
    ensures IsTrimmed(Strip(s))
    ensures IsTrimmed(s) ==> Strip(s) == s
  {
    var r := RStrip(s);
    var t := LStrip(r);
    RStripFacts(s);
    LStripFacts(r);
    if |t| > 0 {
      assert t == r[|r| - |t|..];
      assert t[|t| - 1] == r[|r| - 1];
    }
  }

  /** Stripping only removes characters, and keeps a first character that is not whitespace. */
  lemma StripChars(s: string)
    ensures forall c :: c in Strip(s) ==> c in s
    ensures |s| > 0 && !IsSpace(s[0]) && |Strip(s)| > 0 ==> Strip(s)[0] == s[0]
  {
    var r := RStrip(s);
    var t := LStrip(r);
    RStripFacts(s);
    LStripFacts(r);
    assert forall i :: 0 <= i < |t| ==> t[i] == s[|r| - |t| + i];
    if |s| > 0 && !IsSpace(s[0]) && |t| > 0 {
      assert r[0] == s[0];
    }
  }

  /** Whitespace added on either side of a trimmed string is removed again. */
  lemma {:induction false} StripPadded(pre: string, s: string, post: string)
    requires forall i :: 0 <= i < |pre| ==> IsSpace(pre[i])
    requires forall i :: 0 <= i < |post| ==> IsSpace(post[i])
    requires IsTrimmed(s)
    ensures Strip(pre + s + post) == s
  {
    RStripPadded(pre + s, post);
    assert RStrip(pre + s + post) == RStrip(pre + s);
    if |s| > 0 {
      assert RStrip(pre + s) == pre + s by {
        assert (pre + s)[|pre + s| - 1] == s[|s| - 1];
      }
      LStripPadded(pre, s);
    } else {
      assert pre + s == pre;
      RStripAllSpace(pre);
      assert RStrip(pre) == [];
    }
  }

  lemma {:induction false} RStripPadded(s: string, post: string)
    requires forall i :: 0 <= i < |post| ==> IsSpace(post[i])
    ensures RStrip(s + post) == RStrip(s)
    decreases |post|
  {
    if |post| > 0 {
      var p := post[..|post| - 1];
      assert (s + post)[..|s + post| - 1] == s + p;
      assert IsSpace((s + post)[|s + post| - 1]);
      RStripPadded(s, p);
    } else {
      assert s + post == s;
    }
  }

  lemma {:induction false} RStripAllSpace(s: string)
    requires forall i :: 0 <= i < |s| ==> IsSpace(s[i])
    ensures RStrip(s) == []
  {
    RStripFacts(s);
  }

  lemma {:induction false} LStripPadded(pre: string, s: string)
    requires forall i :: 0 <= i < |pre| ==> IsSpace(pre[i])
    requires |s| > 0 && !IsSpace(s[0])
    ensures LStrip(pre + s) == s
    decreases |pre|
  {
    if |pre| > 0 {
      assert (pre + s)[1..] == pre[1..] + s;
      LStripPadded(pre[1..], s);
    } else {
      assert pre + s == s;
    }
  }

  function LowerChar(c: char): char {
    if 'A' <= c <= 'Z' then (c as int + 32) as char else c
  }

  /** Python's str.lower(), on ASCII letters. */
  function Lower(s: string): (r: string)
    ensures |r| == |s|
    ensures forall i :: 0 <= i < |s| ==> r[i] == LowerChar(s[i])
  {
    seq(|s|, i requires 0 <= i < |s| => LowerChar(s[i]))
  }

  predicate StartsWith(s: string, prefix: string) {
    |prefix| <= |s| && s[..|prefix|] == prefix
  }

  predicate EndsWith(s: string, suffix: string) {
    |suffix| <= |s| && s[|s| - |suffix|..] == suffix
  }

  /** Python's `sub in s` for strings. */
  predicate Contains(s: string, sub: string) {
    exists i :: 0 <= i <= |s| - |sub| && OccursAt(s, sub, i)
  }

  predicate OccursAt(s: string, sub: string, i: int) {
    0 <= i <= |s| - |sub| && s[i..i + |sub|] == sub
  }

  /** The index of the first occurrence of c in s, if any. */
  function IndexOf(s: string, c: char): (r: Option<nat>)
    ensures r.Some? ==> r.value < |s| && s[r.value] == c && c !in s[..r.value]
    ensures r.None? <==> c !in s
  {
    if |s| == 0 then None
    else if s[0] == c then Some(0)
    else
      match IndexOf(s[1..], c)
      case None => None
      case Some(k) => assert s[..k + 1] == [s[0]] + s[1..][..k]; Some(k + 1)
  }

  /** Python's s.rstrip(c) for one character c: every trailing c is removed. */
  function RStripChar(s: string, c: char): (r: string)
    ensures |r| <= |s| && r == s[..|r|]
    ensures |r| > 0 ==> r[|r| - 1] != c
    ensures forall i :: |r| <= i < |s| ==> s[i] == c
  {
    if |s| == 0 then s
    else if s[|s| - 1] == c then RStripChar(s[..|s| - 1], c)
    else s
  }

  /** Python's s.replace(c, "") for one character c. */
  function RemoveChar(s: string, c: char): (r: string)
    ensures c !in r
    ensures |r| <= |s|
    ensures c !in s ==> r == s
  {
    if |s| == 0 then s
    else if s[0] == c then RemoveChar(s[1..], c)
    else [s[0]] + RemoveChar(s[1..], c)
  }

  /** Python's sep.join(parts). */
  function Join(sep: string, parts: seq<string>): string {
    if |parts| == 0 then ""
    else if |parts| == 1 then parts[0]
    else parts[0] + sep + Join(sep, parts[1..])
  }

  /** A character appears in a join only if it is in a part or in the separator. */
  lemma {:induction false} JoinAvoids(sep: string, parts: seq<string>, c: char)
    requires c !in sep
    requires forall i :: 0 <= i < |parts| ==> c !in parts[i]
    ensures c !in Join(sep, parts)
  {
    if |parts| > 1 {
      JoinAvoids(sep, parts[1..], c);
    }
  }

  /** Python's s.split(c): the pieces between occurrences of c. */
  function Split(s: string, c: char): (r: seq<string>)
    ensures |r| > 0
    ensures forall i :: 0 <= i < |r| ==> c !in r[i]
    decreases |s|
  {
    match IndexOf(s, c)
    case None => [s]
    case Some(k) => [s[..k]] + Split(s[k + 1..], c)
  }

  /** Splitting the pieces joined with a character gives back the pieces. */
  lemma {:induction false} SplitJoin(parts: seq<string>, c: char)
    requires |parts| > 0
    requires forall i :: 0 <= i < |parts| ==> c !in parts[i]
    ensures Split(Join([c], parts), c) == parts
  {
    if |parts| == 1 {
      assert IndexOf(parts[0], c).None?;
    } else {
      var rest := Join([c], parts[1..]);
      var s := parts[0] + [c] + rest;
      assert Join([c], parts) == s;
      IndexOfAfter(parts[0], c, rest);
      assert s[..|parts[0]|] == parts[0];
      assert s[|parts[0]| + 1..] == rest;
      SplitJoin(parts[1..], c);
      assert [parts[0]] + parts[1..] == parts;
    }
  }

  lemma IndexOfAfter(a: string, c: char, b: string)
    requires c !in a
    ensures IndexOf(a + [c] + b, c) == Some(|a|)
  {
    assert (a + [c] + b)[|a|] == c;
  }
}
