/** The operations of java.lang.String that the adapter relies on, stated on
    Dafny strings (sequences of characters). */
module JavaStrings {

  /** String.startsWith */
  predicate StartsWith(s: string, p: string) {
    |p| <= |s| && s[..|p|] == p
  }

  /** String.endsWith */
  predicate EndsWith(s: string, p: string) {
    |p| <= |s| && s[|s| - |p|..] == p
  }

  /** A character that differs from p's at the same offset rules out the
      prefix p. */
  lemma NotPrefixAt(s: string, p: string, i: nat)
    requires i < |p| && i < |s| && s[i] != p[i]
    ensures !StartsWith(s, p)
  {
    if |p| <= |s| {
      assert s[..|p|][i] == s[i];
    }
  }

  /** String.contains: t occurs in s at some offset. */
  predicate Contains(s: string, t: string)
    decreases |s|
  {
    StartsWith(s, t) || (|s| > 0 && Contains(s[1..], t))
  }

  /** An occurrence at offset i is enough for Contains. */
  lemma {:induction false} ContainsAt(s: string, t: string, i: nat)
    requires i + |t| <= |s| && s[i..i + |t|] == t
    ensures Contains(s, t)
  {
    if i == 0 {
      assert s[..|t|] == t;
    } else {
      assert s[1..][i - 1..i - 1 + |t|] == s[i..i + |t|];
      ContainsAt(s[1..], t, i - 1);
    }
  }

  /** Contains always has an offset that witnesses it. */
  lemma {:induction false} ContainsOffset(s: string, t: string) returns (i: nat)
    requires Contains(s, t)
    ensures i + |t| <= |s| && s[i..i + |t|] == t
  {
    if StartsWith(s, t) {
      i := 0;
    } else {
      var j := ContainsOffset(s[1..], t);
      i := j + 1;
      assert s[1..][j..j + |t|] == s[i..i + |t|];
    }
  }

  /** A string contains each of its infixes. */
  lemma ContainsInfix(a: string, t: string, b: string)
    ensures Contains(a + t + b, t)
  {
    assert (a + t + b)[|a|..|a| + |t|] == t;
    ContainsAt(a + t + b, t, |a|);
  }

  /** Containment is transitive. */
  lemma ContainsTransitive(s: string, t: string, u: string)
    requires Contains(s, t) && Contains(t, u)
    ensures Contains(s, u)
  {
    var i := ContainsOffset(s, t);
    var j := ContainsOffset(t, u);
    assert t[j..j + |u|] == u;
    forall k | 0 <= k < |u| ensures s[i + j + k] == u[k] {
      assert s[i..i + |t|][j + k] == s[i + j + k];
      assert t[j..j + |u|][k] == t[j + k];
    }
    assert s[i + j..i + j + |u|] == u;
    ContainsAt(s, u, i + j);
  }

  /** Every character of a contained string occurs in the container. */
  lemma ContainedCharsOccur(s: string, t: string)
    requires Contains(s, t)
    ensures forall c :: c in t ==> c in s
  {
    var i := ContainsOffset(s, t);
    forall c | c in t ensures c in s {
      var k :| 0 <= k < |t| && t[k] == c;
      assert s[i..i + |t|][k] == s[i + k];
    }
  }

  /** A string lacking one of t's characters cannot contain t. */
  lemma MissingCharNotContainedIn(s: string, t: string, c: char)
    requires c in t && c !in s
    ensures !Contains(s, t)
  {
    if Contains(s, t) {
      ContainedCharsOccur(s, t);
    }
  }

  /** String.replace(pat, rep): the occurrences of pat found while scanning
      left to right, without overlap, are each replaced by rep. */
  function Replace(s: string, pat: string, rep: string): string
    requires |pat| > 0
    decreases |s|
  {
    if |s| < |pat| then s
    else if s[..|pat|] == pat then rep + Replace(s[|pat|..], pat, rep)
    else [s[0]] + Replace(s[1..], pat, rep)
  }

  /** Replacing a pattern that does not occur changes nothing. */
  lemma {:induction false} ReplaceAbsent(s: string, pat: string, rep: string)
    requires |pat| > 0 && !Contains(s, pat)
    ensures Replace(s, pat, rep) == s
    decreases |s|
  {
    if |s| >= |pat| {
      ReplaceAbsent(s[1..], pat, rep);
      assert [s[0]] + s[1..] == s;
    }
  }

  /** A leading occurrence of the pattern is replaced first. */
  lemma ReplaceLeading(pat: string, s: string, rep: string)
    requires |pat| > 0
    ensures Replace(pat + s, pat, rep) == rep + Replace(s, pat, rep)
  {
    var ps := pat + s;
    assert ps[..|pat|] == pat && ps[|pat|..] == s;
  }

  /** A leading occurrence that does not recur is the only one replaced. */
  lemma ReplaceLeadingOnly(pat: string, s: string, rep: string)
    requires |pat| > 0 && !Contains(s, pat)
    ensures Replace(pat + s, pat, rep) == rep + s
  {
    ReplaceLeading(pat, s, rep);
    ReplaceAbsent(s, pat, rep);
  }

  /** Replacing a character that does not occur changes nothing. */
  lemma ReplaceCharAbsent(s: string, c: char, rep: string)
    requires c !in s
    ensures Replace(s, [c], rep) == s
  {
    MissingCharNotContainedIn(s, [c], c);
    ReplaceAbsent(s, [c], rep);
  }

  /** Replacing one character works character by character, so it
      distributes over concatenation. */
  lemma {:induction false} ReplaceCharConcat(a: string, b: string, c: char, rep: string)
    ensures Replace(a + b, [c], rep) == Replace(a, [c], rep) + Replace(b, [c], rep)
  {
    if a == [] {
      assert a + b == b;
    } else {
      var ab := a + b;
      assert ab[..1] == a[..1];
      assert ab[1..] == a[1..] + b;
      ReplaceCharConcat(a[1..], b, c, rep);
    }
  }

  /** Collectors.joining(sep): the parts in order with sep between neighbours. */
  function Join(parts: seq<string>, sep: string): string
    decreases |parts|
  {
    if |parts| == 0 then ""
    else if |parts| == 1 then parts[0]
    else Join(parts[..|parts| - 1], sep) + sep + parts[|parts| - 1]
  }

  /** Appending a part to a non-empty list adds one separator and that part. */
  lemma JoinSnoc(parts: seq<string>, p: string, sep: string)
    requires |parts| > 0
    ensures Join(parts + [p], sep) == Join(parts, sep) + sep + p
  {
    assert (parts + [p])[..|parts|] == parts;
  }

  /** Every segment of s between occurrences of c, empty ones included, in
      order: what String.split yields before it drops trailing empty
      segments. */
  function RawSplit(s: string, c: char): (parts: seq<string>)
    ensures |parts| >= 1
    decreases |s|
  {
    if s == [] then [""]
    else
      var init := RawSplit(s[..|s| - 1], c);
      var last := s[|s| - 1];
      if last == c then init + [""]
      else init[..|init| - 1] + [init[|init| - 1] + [last]]
  }

  /** One step of RawSplit, on the last character. */
  lemma RawSplitSnoc(front: string, last: char, c: char)
    ensures var init := RawSplit(front, c);
      RawSplit(front + [last], c) ==
        if last == c then init + [""]
        else init[..|init| - 1] + [init[|init| - 1] + [last]]
  {
    var s := front + [last];
    assert s[..|s| - 1] == front;
  }

  /** Splitting and then joining with the separator gives back the string. */
  lemma {:induction false} RawSplitJoin(s: string, c: char)
    ensures Join(RawSplit(s, c), [c]) == s
  {
    if s != [] {
      var front, last := s[..|s| - 1], s[|s| - 1];
      assert s == front + [last];
      RawSplitJoin(front, c);
      RawSplitSnoc(front, last, c);
      var init := RawSplit(front, c);
      var n := |init|;
      if last == c {
        JoinSnoc(init, "", [c]);
      } else if n == 1 {
        assert RawSplit(s, c) == [init[0] + [last]];
      } else {
        var parts := init[..n - 1] + [init[n - 1] + [last]];
        assert parts[..n - 1] == init[..n - 1];
        assert init[..n - 1][..n - 2] == init[..n - 2];
        assert Join(init, [c]) == Join(init[..n - 1], [c]) + [c] + init[n - 1];
        assert Join(parts, [c]) == Join(init[..n - 1], [c]) + [c] + (init[n - 1] + [last]);
      }
    }
  }

  /** There is one more segment than separators, no segment holds one, and
      every character of a segment comes from s. */
  lemma {:induction false} RawSplitSegments(s: string, c: char)
    ensures |RawSplit(s, c)| == multiset(s)[c] + 1
    ensures forall k :: 0 <= k < |RawSplit(s, c)| ==> c !in RawSplit(s, c)[k]
    ensures forall k, x :: 0 <= k < |RawSplit(s, c)| && x in RawSplit(s, c)[k] ==> x in s
  {
    if s != [] {
      var front, last := s[..|s| - 1], s[|s| - 1];
      assert s == front + [last];
      RawSplitSegments(front, c);
      RawSplitSnoc(front, last, c);
      var init := RawSplit(front, c);
      var n := |init|;
      var parts := RawSplit(s, c);
      assert multiset(s)[c] == multiset(front)[c] + (if last == c then 1 else 0);
      forall k | 0 <= k < |parts|
        ensures c !in parts[k] && forall x :: x in parts[k] ==> x in s
      {
        if k < n - 1 {
          assert parts[k] == init[k];
        } else if k == n - 1 && last != c {
          assert parts[k] == init[n - 1] + [last];
        } else if k == n - 1 {
          assert parts[k] == init[k];
        }
      }
    }
  }

  /** Without a separator there is one segment, the string itself. */
  lemma {:induction false} RawSplitNoSeparator(p: string, c: char)
    requires c !in p
    ensures RawSplit(p, c) == [p]
  {
    if p != [] {
      var front, last := p[..|p| - 1], p[|p| - 1];
      assert p == front + [last];
      RawSplitNoSeparator(front, c);
      RawSplitSnoc(front, last, c);
    }
  }

  /** A separator followed by separator-free text adds that text as one more
      segment. */
  lemma {:induction false} RawSplitAfterSeparator(a: string, p: string, c: char)
    requires c !in p
    ensures RawSplit(a + [c] + p, c) == RawSplit(a, c) + [p]
  {
    if p == [] {
      assert a + [c] + p == a + [c];
      RawSplitSnoc(a, c, c);
    } else {
      var front, last := p[..|p| - 1], p[|p| - 1];
      assert a + [c] + p == (a + [c] + front) + [last];
      RawSplitAfterSeparator(a, front, c);
      RawSplitSnoc(a + [c] + front, last, c);
      assert front + [last] == p;
    }
  }

  /** Joining separator-free parts and splitting again gives the parts back. */
  lemma {:induction false} RawSplitOfJoin(parts: seq<string>, c: char)
    requires |parts| >= 1
    requires forall k :: 0 <= k < |parts| ==> c !in parts[k]
    ensures RawSplit(Join(parts, [c]), c) == parts
    decreases |parts|
  {
    if |parts| == 1 {
      RawSplitNoSeparator(parts[0], c);
    } else {
      var init, last := parts[..|parts| - 1], parts[|parts| - 1];
      RawSplitOfJoin(init, c);
      RawSplitAfterSeparator(Join(init, [c]), last, c);
      assert init + [last] == parts;
    }
  }

  /** When no segment is empty, String.split keeps every segment. */
  /** One trailing separator after separator-free text is dropped. */
  lemma SplitOneTrailingSeparator(w: string, c: char)
    requires w != [] && c !in w
    ensures Split(w + [c], c) == [w]
  {
    var s := w + [c];
    assert s[|w|] == c;
    assert Split(s, c) == DropTrailingEmpty(RawSplit(s, c));
    RawSplitAfterSeparator(w, [], c);
    assert w + [c] + [] == s;
    RawSplitNoSeparator(w, c);
    DropOneTrailingEmpty(w);
  }

  lemma DropOneTrailingEmpty(w: string)
    requires w != []
    ensures DropTrailingEmpty([w] + [[]]) == [w]
  {
    var raw := [w] + [[]];
    assert raw[..1] == [w];
  }

  /** Two separator-free, non-empty words around one separator split into
      those two words. */
  lemma SplitTwoWords(a: string, b: string, c: char)
    requires a != [] && b != [] && c !in a && c !in b
    ensures Split(a + [c] + b, c) == [a, b]
  {
    RawSplitAfterSeparator(a, b, c);
    RawSplitNoSeparator(a, c);
    assert RawSplit(a + [c] + b, c) == [a, b];
    SplitKeepsNonEmptySegments(a + [c] + b, c);
  }

  lemma SplitKeepsNonEmptySegments(s: string, c: char)
    requires "" !in RawSplit(s, c)
    ensures Split(s, c) == RawSplit(s, c)
  {
    if c !in s {
      RawSplitNoSeparator(s, c);
    }
  }

  /** Removes empty strings from the end of a list. */
  function DropTrailingEmpty(parts: seq<string>): (r: seq<string>)
    ensures r <= parts
    ensures r == [] || r[|r| - 1] != ""
    ensures forall k :: |r| <= k < |parts| ==> parts[k] == ""
    decreases |parts|
  {
    if |parts| > 0 && parts[|parts| - 1] == "" then DropTrailingEmpty(parts[..|parts| - 1])
    else parts
  }

  /** String.split(c) for a one-character pattern c that is not special in a
      regular expression: [s] when c does not occur (so "" splits to [""]),
      otherwise the segments between occurrences with trailing empty
      segments removed. */
  function Split(s: string, c: char): seq<string> {
    if c !in s then [s] else DropTrailingEmpty(RawSplit(s, c))
  }

  /** The characters String.trim removes: code points up to U+0020. */
  predicate IsTrimmed(c: char) {
    c <= ' '
  }

  function TrimStart(s: string): (r: string)
    ensures |r| <= |s| && s[|s| - |r|..] == r
    ensures r == [] || !IsTrimmed(r[0])
    ensures forall k :: 0 <= k < |s| - |r| ==> IsTrimmed(s[k])
    decreases |s|
  {
    if s != [] && IsTrimmed(s[0]) then TrimStart(s[1..]) else s
  }

  function TrimEnd(s: string): (r: string)
    ensures r <= s
    ensures r == [] || !IsTrimmed(r[|r| - 1])
    ensures forall k :: |r| <= k < |s| ==> IsTrimmed(s[k])
    decreases |s|
  {
    if s != [] && IsTrimmed(s[|s| - 1]) then TrimEnd(s[..|s| - 1]) else s
  }

  /** String.trim: strips leading and trailing characters up to U+0020. */
  function Trim(s: string): (r: string)
    ensures |r| <= |s|
    ensures r == [] || (!IsTrimmed(r[0]) && !IsTrimmed(r[|r| - 1]))
  {
    TrimEnd(TrimStart(s))
  }

  /** Trim returns a window of s: it starts after the leading run of
      characters up to U+0020, and every character outside it is one. */
  lemma TrimWindow(s: string)
    ensures var i := |s| - |TrimStart(s)|; var r := Trim(s);
      i + |r| <= |s| && (forall k :: 0 <= k < |r| ==> r[k] == s[i + k]) &&
      (forall k :: 0 <= k < i ==> IsTrimmed(s[k])) &&
      (forall k :: i + |r| <= k < |s| ==> IsTrimmed(s[k]))
  {
    TrimKeepsWindow(s);
    TrimDropsOutside(s);
  }

  lemma TrimKeepsWindow(s: string)
    ensures var i := |s| - |TrimStart(s)|; var r := Trim(s);
      i + |r| <= |s| && forall k :: 0 <= k < |r| ==> r[k] == s[i + k]
  {
    var t := TrimStart(s);
    WindowOfSuffixPrefix(s, t, TrimEnd(t));
  }

  lemma TrimDropsOutside(s: string)
    ensures var i := |s| - |TrimStart(s)|; var r := Trim(s);
      forall k :: i + |r| <= k < |s| ==> IsTrimmed(s[k])
  {
    var t := TrimStart(s);
    WindowOfSuffixPrefix(s, t, TrimEnd(t));
  }

  /** A prefix r of a suffix t of s is a window of s, and what follows r
      in t follows the window in s. */
  lemma WindowOfSuffixPrefix(s: string, t: string, r: string)
    requires |t| <= |s| && s[|s| - |t|..] == t && r <= t
    requires forall k :: |r| <= k < |t| ==> IsTrimmed(t[k])
    ensures var i := |s| - |t|;
      i + |r| <= |s| && (forall k :: 0 <= k < |r| ==> r[k] == s[i + k]) &&
      forall k :: i + |r| <= k < |s| ==> IsTrimmed(s[k])
  {
    var i := |s| - |t|;
    forall k | 0 <= k < |r| ensures r[k] == s[i + k] {
      assert t[k] == s[i + k];
    }
    forall k | i + |r| <= k < |s| ensures IsTrimmed(s[k]) {
      assert s[k] == t[k - i];
    }
  }

  /** Trim is determined by its window: any window of s outside of which
      every character is up to U+0020, and which neither starts nor ends
      with such a character, is what Trim returns. */
  lemma TrimIsWindow(s: string, i: nat, j: nat)
    requires i <= j <= |s|
    requires forall k :: 0 <= k < i ==> IsTrimmed(s[k])
    requires forall k :: j <= k < |s| ==> IsTrimmed(s[k])
    requires i < j ==> !IsTrimmed(s[i]) && !IsTrimmed(s[j - 1])
    ensures Trim(s) == s[i..j]
  {
    if i < j {
      TrimStartAt(s, i);
      TrimEndAt(s[i..], j - i);
      SliceOfSuffix(s, i, j);
    } else {
      TrimStartAt(s, |s|);
    }
  }

  lemma SliceOfSuffix(s: string, i: nat, j: nat)
    requires i <= j <= |s|
    ensures s[i..][..j - i] == s[i..j]
  {
  }

  /** TrimStart drops exactly a leading run that stops before a character
      above U+0020 (or at the end). */
  lemma {:induction false} TrimStartAt(s: string, i: nat)
    requires i <= |s| && forall k :: 0 <= k < i ==> IsTrimmed(s[k])
    requires i < |s| ==> !IsTrimmed(s[i])
    ensures TrimStart(s) == s[i..]
    decreases i
  {
    if i > 0 {
      TrimStartAt(s[1..], i - 1);
      assert s[1..][i - 1..] == s[i..];
    }
  }

  /** TrimEnd drops exactly a trailing run that starts after a character
      above U+0020 (or at the start). */
  lemma {:induction false} TrimEndAt(t: string, j: nat)
    requires j <= |t| && forall k :: j <= k < |t| ==> IsTrimmed(t[k])
    requires j > 0 ==> !IsTrimmed(t[j - 1])
    ensures TrimEnd(t) == t[..j]
    decreases |t| - j
  {
    if j < |t| {
      TrimEndAt(t[..|t| - 1], j);
      assert t[..|t| - 1][..j] == t[..j];
    }
  }

  /** Character.toLowerCase restricted to ASCII letters. */
  function LowerChar(c: char): char {
    if 'A' <= c <= 'Z' then (c as int + 32) as char else c
  }

  /** Character.toUpperCase restricted to ASCII letters. */
  function UpperChar(c: char): char {
    if 'a' <= c <= 'z' then (c as int - 32) as char else c
  }

  /** String.toLowerCase, on ASCII letters only. */
  function Lower(s: string): (r: string)
    ensures |r| == |s|
    ensures forall i :: 0 <= i < |s| ==> r[i] == LowerChar(s[i])
  {
    seq(|s|, i requires 0 <= i < |s| => LowerChar(s[i]))
  }

  /** Lower-casing a lower-cased string changes nothing. */
  lemma LowerIdempotent(s: string)
    ensures Lower(Lower(s)) == Lower(s)
  {
    var l := Lower(s);
    forall k | 0 <= k < |l| ensures Lower(l)[k] == l[k] {
      assert l[k] == LowerChar(s[k]);
    }
  }

  /** The case folding String.equalsIgnoreCase applies, for every character
      that folds onto an ASCII letter: the ASCII capitals, dotless i (U+0131)
      and capital I with dot (U+0130) onto i, long s (U+017F) onto s and the
      Kelvin sign (U+212A) onto k. */
  function FoldChar(c: char): char {
    if 'A' <= c <= 'Z' then LowerChar(c)
    else if c == '\U{0131}' || c == '\U{0130}' then 'i'
    else if c == '\U{017F}' then 's'
    else if c == '\U{212A}' then 'k'
    else c
  }

  /** String.equalsIgnoreCase */
  predicate EqualsIgnoreCase(s: string, t: string) {
    |s| == |t| && forall i :: 0 <= i < |s| ==> FoldChar(s[i]) == FoldChar(t[i])
  }
}
