/** Python's built-in string operations that the segmenter relies on:
    `str.isspace` per character, `str.isupper()`, `str.strip()`, `str.split()`
    with no argument, `str.split("\n")` and `sep.join(parts)`. */
module Text {

  /** Python's `str.isspace` for one character: the whitespace that both
      `str.split()` (no argument) and `str.strip()` (no argument) act on. */
  predicate IsSpace(c: char) {
    || ('\t' <= c <= '\r')
    || ('\U{1C}' <= c <= '\U{1F}')
    || c == ' '
    || c == '\U{85}'
    || c == '\U{A0}'
    || c == '\U{1680}'
    || ('\U{2000}' <= c <= '\U{200A}')
    || c == '\U{2028}'
    || c == '\U{2029}'
    || c == '\U{202F}'
    || c == '\U{205F}'
    || c == '\U{3000}'
  }

  /** Upper-case letters of the ASCII and Latin-1 ranges (U+0000-U+00FF), of
      the Greek and Coptic block (U+0370-U+03FF) and of basic Cyrillic
      (U+0400-U+045F), as Python classifies them. */
  predicate IsUpperChar(c: char) {
    || ('A' <= c <= 'Z')
    || ('\U{C0}' <= c <= '\U{DE}' && c != '\U{D7}')
    || c == '\U{370}' || c == '\U{372}' || c == '\U{376}' || c == '\U{37F}'
    || c == '\U{386}' || ('\U{388}' <= c <= '\U{38A}') || c == '\U{38C}'
    || ('\U{38E}' <= c <= '\U{3AB}' && c != '\U{390}' && c != '\U{3A2}')
    || c == '\U{3CF}' || ('\U{3D2}' <= c <= '\U{3D4}')
    || ('\U{3D8}' <= c <= '\U{3EE}' && (c as int) % 2 == 0)
    || c == '\U{3F4}' || c == '\U{3F7}' || ('\U{3F9}' <= c <= '\U{3FA}')
    || ('\U{3FD}' <= c <= '\U{3FF}')
    || ('\U{400}' <= c <= '\U{42F}')
  }

  /** Lower-case letters of the same ranges (Python counts the ordinal
      indicators, the micro sign and the Greek iota subscript as lower-case). */
  predicate IsLowerChar(c: char) {
    || ('a' <= c <= 'z')
    || c == '\U{AA}' || c == '\U{B5}' || c == '\U{BA}'
    || ('\U{DF}' <= c <= '\U{FF}' && c != '\U{F7}')
    || c == '\U{371}' || c == '\U{373}' || c == '\U{377}' || ('\U{37A}' <= c <= '\U{37D}')
    || c == '\U{390}' || ('\U{3AC}' <= c <= '\U{3CE}')
    || ('\U{3D0}' <= c <= '\U{3D1}') || ('\U{3D5}' <= c <= '\U{3D7}')
    || ('\U{3D9}' <= c <= '\U{3EF}' && (c as int) % 2 == 1)
    || ('\U{3F0}' <= c <= '\U{3F3}') || c == '\U{3F5}' || c == '\U{3F8}'
    || ('\U{3FB}' <= c <= '\U{3FC}')
    || ('\U{430}' <= c <= '\U{45F}')
  }

  /** Python's `str.isupper()`: at least one cased character, and every cased
      character upper-case (no lower-case character at all). */
  predicate IsUpper(s: string) {
    && (exists i :: 0 <= i < |s| && IsUpperChar(s[i]))
    && (forall i :: 0 <= i < |s| ==> !IsLowerChar(s[i]))
  }

  /** Python's `s.endswith(":")`. */
  predicate EndsWithColon(s: string) {
    |s| > 0 && s[|s| - 1] == ':'
  }

  predicate AllSpace(s: string) {
    forall k :: 0 <= k < |s| ==> IsSpace(s[k])
  }

  /** Number of whitespace characters at the front of `s`. */
  function LeadingSpace(s: string): (n: nat)
    ensures n <= |s|
  {
    if s == [] || !IsSpace(s[0]) then 0 else 1 + LeadingSpace(s[1..])
  }

  /** The leading run is all whitespace and ends at a non-whitespace
      character or at the end of `s`. */
  lemma {:induction false} LeadingSpaceRun(s: string)
    ensures AllSpace(s[..LeadingSpace(s)])
    ensures LeadingSpace(s) < |s| ==> !IsSpace(s[LeadingSpace(s)])
  {
    if s != [] && IsSpace(s[0]) {
      var n := LeadingSpace(s[1..]);
      LeadingSpaceRun(s[1..]);
      var run := s[..n + 1];
      forall k | 0 <= k < |run|
        ensures IsSpace(run[k])
      {
        if k > 0 {
          assert run[k] == s[1..][..n][k - 1];
        }
      }
      assert n + 1 < |s| ==> s[n + 1] == s[1..][n];
    }
  }

  /** Number of whitespace characters at the back of `s`. */
  function TrailingSpace(s: string): (n: nat)
    ensures n <= |s|
  {
    if s == [] || !IsSpace(s[|s| - 1]) then 0 else 1 + TrailingSpace(s[..|s| - 1])
  }

  /** The trailing run is all whitespace and starts after a non-whitespace
      character or at the start of `s`. */
  lemma {:induction false} TrailingSpaceRun(s: string)
    ensures AllSpace(s[|s| - TrailingSpace(s)..])
    ensures TrailingSpace(s) < |s| ==> !IsSpace(s[|s| - 1 - TrailingSpace(s)])
  {
    if s != [] && IsSpace(s[|s| - 1]) {
      var init := s[..|s| - 1];
      var n := TrailingSpace(init);
      TrailingSpaceRun(init);
      assert TrailingSpace(s) == n + 1;
      var tail := s[|s| - (n + 1)..];
      forall k | 0 <= k < |tail|
        ensures IsSpace(tail[k])
      {
        if k < n {
          assert tail[k] == init[|init| - n..][k];
        }
      }
      assert n + 1 < |s| ==> s[|s| - 1 - (n + 1)] == init[|init| - 1 - n];
    }
  }

  /** Python's `s.strip()`: `s` without its leading and trailing whitespace. */
  function Strip(s: string): (r: string)
  {
    var t := s[LeadingSpace(s)..];
    t[..|t| - TrailingSpace(t)]
  }

  /** The stripped text neither starts nor ends with whitespace. */
  lemma StripEnds(s: string)
    ensures var r := Strip(s);
      r == [] || (!IsSpace(r[0]) && !IsSpace(r[|r| - 1]))
  {
    var i := LeadingSpace(s);
    var t := s[i..];
    var m := TrailingSpace(t);
    LeadingSpaceRun(s);
    TrailingSpaceRun(t);
    var r := Strip(s);
    if r != [] {
      assert r[0] == s[i];
      assert r[|r| - 1] == t[|t| - 1 - m];
    }
  }

  /** `s.strip()` removes whitespace only: `s` is the stripped text with
      whitespace before and after it. */
  lemma StripRemovesSpaceOnly(s: string)
    ensures exists i :: 0 <= i <= |s| - |Strip(s)| && s[i..i + |Strip(s)|] == Strip(s)
                        && AllSpace(s[..i]) && AllSpace(s[i + |Strip(s)|..])
  {
    var i := LeadingSpace(s);
    var t := s[i..];
    var m := TrailingSpace(t);
    LeadingSpaceRun(s);
    TrailingSpaceRun(t);
    var r := Strip(s);
    assert r == t[..|t| - m];
    assert s[i..i + |r|] == r;
    assert s[i + |r|..] == t[|t| - m..];
    assert 0 <= i <= |s| - |r| && s[i..i + |r|] == r && AllSpace(s[..i]) && AllSpace(s[i + |r|..]);
  }

  /** A word of `str.split()`: non-empty and free of whitespace. */
  predicate IsWord(w: string) {
    |w| > 0 && forall k :: 0 <= k < |w| ==> !IsSpace(w[k])
  }

  /** Length of the run of non-whitespace characters at the front of `s`. */
  function WordLength(s: string): (n: nat)
    ensures n <= |s|
  {
    if s == [] || IsSpace(s[0]) then 0 else 1 + WordLength(s[1..])
  }

  /** The word at the front of `s` runs up to the first whitespace character. */
  lemma {:induction false} WordLengthStops(s: string)
    ensures forall k :: 0 <= k < WordLength(s) ==> !IsSpace(s[k])
    ensures WordLength(s) < |s| ==> IsSpace(s[WordLength(s)])
  {
    if s != [] && !IsSpace(s[0]) {
      WordLengthStops(s[1..]);
      forall k | 0 < k < WordLength(s)
        ensures !IsSpace(s[k])
      {
        assert s[k] == s[1..][k - 1];
      }
    }
  }

  /** Python's `s.split()` with no argument: the maximal runs of
      non-whitespace characters, in order. */
  function Split(s: string): seq<string>
    decreases |s|
  {
    if s == [] then []
    else if IsSpace(s[0]) then Split(s[1..])
    else
      var n := WordLength(s);
      [s[..n]] + Split(s[n..])
  }

  /** Every element of `s.split()` is a word. */
  lemma {:induction false} SplitWords(s: string)
    ensures forall k :: 0 <= k < |Split(s)| ==> IsWord(Split(s)[k])
    decreases |s|
  {
    if s == [] {
    } else if IsSpace(s[0]) {
      SplitWords(s[1..]);
    } else {
      var n := WordLength(s);
      WordLengthStops(s);
      SplitWords(s[n..]);
      assert Split(s) == [s[..n]] + Split(s[n..]);
    }
  }

  /** The words of every string of `parts`, in order. */
  function SplitAll(parts: seq<string>): seq<string> {
    if parts == [] then [] else Split(parts[0]) + SplitAll(parts[1..])
  }

  /** Python's `sep.join(parts)`. */
  function Join(sep: string, parts: seq<string>): string {
    if |parts| == 0 then []
    else if |parts| == 1 then parts[0]
    else parts[0] + sep + Join(sep, parts[1..])
  }

  /** Python's `s.split("\n")`: the pieces between line feeds; there is always
      at least one, and the empty string gives `[""]`. */
  function SplitLines(s: string): (lines: seq<string>)
    ensures |lines| >= 1
  {
    if s == [] then [[]]
    else
      var rest := SplitLines(s[1..]);
      if s[0] == '\n' then [[]] + rest
      else [[s[0]] + rest[0]] + rest[1..]
  }

  /** No piece of `s.split("\n")` holds a line feed. */
  lemma {:induction false} SplitLinesNoBreak(s: string)
    ensures forall k :: 0 <= k < |SplitLines(s)| ==> '\n' !in SplitLines(s)[k]
  {
    if s != [] {
      var rest := SplitLines(s[1..]);
      SplitLinesNoBreak(s[1..]);
      var lines := SplitLines(s);
      if s[0] == '\n' {
        assert lines == [[]] + rest;
        forall k | 0 < k < |lines|
          ensures '\n' !in lines[k]
        {
          assert lines[k] == rest[k - 1];
        }
      } else {
        assert lines == [[s[0]] + rest[0]] + rest[1..];
        forall k | 0 < k < |lines|
          ensures '\n' !in lines[k]
        {
          assert lines[k] == rest[k];
        }
      }
    }
  }

  /** The concatenation of a sequence of sequences. */
  function Flatten<T>(ss: seq<seq<T>>): seq<T> {
    if ss == [] then [] else ss[0] + Flatten(ss[1..])
  }

  lemma {:induction false} FlattenAppend<T>(a: seq<seq<T>>, b: seq<seq<T>>)
    ensures Flatten(a + b) == Flatten(a) + Flatten(b)
  {
    if a == [] {
      assert a + b == b;
    } else {
      assert (a + b)[1..] == a[1..] + b;
      FlattenAppend(a[1..], b);
    }
  }

  lemma {:induction false} SplitAllAppend(a: seq<string>, b: seq<string>)
    ensures SplitAll(a + b) == SplitAll(a) + SplitAll(b)
  {
    if a == [] {
      assert a + b == b;
    } else {
      assert (a + b)[1..] == a[1..] + b;
      SplitAllAppend(a[1..], b);
    }
  }

  lemma SplitAllSingle(s: string)
    ensures SplitAll([s]) == Split(s)
  {
    assert [s][1..] == [];
    assert Split(s) + [] == Split(s);
  }

  /** Splitting `s.split("\n")` back together with "\n" gives `s`. */
  lemma {:induction false} JoinSplitLines(s: string)
    ensures Join("\n", SplitLines(s)) == s
  {
    if s != [] {
      var rest := SplitLines(s[1..]);
      JoinSplitLines(s[1..]);
      if s[0] == '\n' {
        assert s == "\n" + s[1..];
      } else if |rest| == 1 {
        assert SplitLines(s) == [[s[0]] + rest[0]];
      } else {
        assert SplitLines(s) == [[s[0]] + rest[0]] + rest[1..];
        assert Join("\n", rest) == rest[0] + "\n" + Join("\n", rest[1..]);
      }
    }
  }

  /** A whitespace character never belongs to a word: the word at the front of
      `a + [c] + b` is the word at the front of `a`. */
  lemma WordLengthBefore(a: string, c: char, b: string)
    requires IsSpace(c)
    ensures WordLength(a + [c] + b) == WordLength(a)
  {
    var s := a + [c] + b;
    var n := WordLength(a);
    WordLengthStops(a);
    WordLengthStops(s);
    assert forall k :: 0 <= k < n ==> s[k] == a[k];
    assert n < |a| ==> s[n] == a[n];
    assert n == |a| ==> s[n] == c;
  }

  /** `str.split()` treats one whitespace character as a boundary: the words of
      `a + [c] + b` are the words of `a` followed by the words of `b`. */
  lemma {:induction false} SplitAtSpace(a: string, c: char, b: string)
    requires IsSpace(c)
    ensures Split(a + [c] + b) == Split(a) + Split(b)
    decreases |a|
  {
    var s := a + [c] + b;
    if a == [] {
      assert s[1..] == b;
    } else if IsSpace(a[0]) {
      assert s[1..] == a[1..] + [c] + b;
      SplitAtSpace(a[1..], c, b);
    } else {
      var n := WordLength(a);
      WordLengthBefore(a, c, b);
      assert s[..n] == a[..n];
      assert s[n..] == a[n..] + [c] + b;
      SplitAtSpace(a[n..], c, b);
    }
  }

  /** A single word splits to itself. */
  lemma SplitWord(w: string)
    requires IsWord(w)
    ensures Split(w) == [w]
  {
    assert !IsSpace(w[0]);
    WordLengthStops(w);
    assert WordLength(w) == |w|;
    assert w[..|w|] == w;
    assert w[|w|..] == [];
  }

  /** Joining with a whitespace separator and splitting again gives all the
      words of the parts, in order. */
  lemma {:induction false} SplitJoin(c: char, parts: seq<string>)
    requires IsSpace(c)
    ensures Split(Join([c], parts)) == SplitAll(parts)
  {
    if |parts| == 1 {
      assert parts[1..] == [];
    } else if |parts| > 1 {
      SplitJoin(c, parts[1..]);
      SplitAtSpace(parts[0], c, Join([c], parts[1..]));
    }
  }

  /** `" ".join` followed by `str.split()` is the identity on a list of words. */
  lemma {:induction false} SplitJoinWords(words: seq<string>)
    requires forall k :: 0 <= k < |words| ==> IsWord(words[k])
    ensures Split(Join(" ", words)) == words
  {
    SplitJoin(' ', words);
    SplitAllWords(words);
  }

  lemma {:induction false} SplitAllWords(words: seq<string>)
    requires forall k :: 0 <= k < |words| ==> IsWord(words[k])
    ensures SplitAll(words) == words
  {
    if words != [] {
      SplitWord(words[0]);
      SplitAllWords(words[1..]);
    }
  }

  /** Leading whitespace contributes no words. */
  lemma {:induction false} SplitAfterSpace(pre: string, s: string)
    requires AllSpace(pre)
    ensures Split(pre + s) == Split(s)
  {
    if pre == [] {
      assert pre + s == s;
    } else {
      assert (pre + s)[1..] == pre[1..] + s;
      SplitAfterSpace(pre[1..], s);
    }
  }

  /** Trailing whitespace contributes no words. */
  lemma SplitBeforeSpace(s: string, post: string)
    requires AllSpace(post)
    ensures Split(s + post) == Split(s)
  {
    if post == [] {
      assert s + post == s;
    } else {
      assert s + post == s + [post[0]] + post[1..];
      SplitAtSpace(s, post[0], post[1..]);
      SplitAfterSpace(post[1..], []);
      assert post[1..] + [] == post[1..];
    }
  }

  lemma SplitDropFront(s: string, i: nat)
    requires i <= |s| && AllSpace(s[..i])
    ensures Split(s[i..]) == Split(s)
  {
    assert s == s[..i] + s[i..];
    SplitAfterSpace(s[..i], s[i..]);
  }

  lemma SplitDropBack(s: string, j: nat)
    requires j <= |s| && AllSpace(s[j..])
    ensures Split(s[..j]) == Split(s)
  {
    assert s == s[..j] + s[j..];
    SplitBeforeSpace(s[..j], s[j..]);
  }

  /** Stripping a line does not change its words. */
  lemma SplitStrip(s: string)
    ensures Split(Strip(s)) == Split(s)
  {
    var i := LeadingSpace(s);
    LeadingSpaceRun(s);
    SplitDropFront(s, i);
    var t := s[i..];
    TrailingSpaceRun(t);
    SplitDropBack(t, |t| - TrailingSpace(t));
  }

  /** Where `parts[k]` starts in `sep.join(parts)`. */
  function JoinOffset(sep: string, parts: seq<string>, k: nat): nat
    requires k < |parts|
  {
    if k == 0 then 0 else |parts[0]| + |sep| + JoinOffset(sep, parts[1..], k - 1)
  }

  lemma {:induction false} JoinOffsetNext(sep: string, parts: seq<string>, k: nat)
    requires k + 1 < |parts|
    ensures JoinOffset(sep, parts, k + 1) == JoinOffset(sep, parts, k) + |parts[k]| + |sep|
  {
    if k > 0 {
      JoinOffsetNext(sep, parts[1..], k - 1);
    }
  }

  lemma SliceAfter<T>(a: seq<T>, b: seq<T>, i: nat, j: nat)
    requires i <= j <= |b|
    ensures (a + b)[|a| + i..|a| + j] == b[i..j]
  {
  }

  lemma SliceBefore<T>(a: seq<T>, b: seq<T>, i: nat, j: nat)
    requires i <= j <= |a|
    ensures (a + b)[i..j] == a[i..j]
  {
  }

  /** `sep.join(parts)` for two or more parts: the first part, `sep`, and the
      join of the rest; `JoinOffset` moves along with it. */
  lemma JoinUnfold(sep: string, parts: seq<string>, k: nat)
    requires 2 <= |parts| && 0 < k < |parts|
    ensures Join(sep, parts) == parts[0] + sep + Join(sep, parts[1..])
    ensures JoinOffset(sep, parts, k) == |parts[0]| + |sep| + JoinOffset(sep, parts[1..], k - 1)
    ensures parts[1..][k - 1] == parts[k]
  {
  }

  /** In `sep.join(parts)`, `parts[k]` stands at `JoinOffset(k)`. */
  lemma {:induction false} JoinPartAt(sep: string, parts: seq<string>, k: nat)
    requires k < |parts|
    ensures JoinOffset(sep, parts, k) + |parts[k]| <= |Join(sep, parts)|
    ensures Join(sep, parts)[JoinOffset(sep, parts, k)..JoinOffset(sep, parts, k) + |parts[k]|] == parts[k]
  {
    if |parts| == 1 {
      assert Join(sep, parts) == parts[0];
      assert parts[0][0..|parts[0]|] == parts[0];
    } else if k == 0 {
      var s := Join(sep, parts);
      assert s == parts[0] + (sep + Join(sep, parts[1..]));
      SliceBefore(parts[0], sep + Join(sep, parts[1..]), 0, |parts[0]|);
      assert parts[0][0..|parts[0]|] == parts[0];
    } else {
      var rest := Join(sep, parts[1..]);
      JoinUnfold(sep, parts, k);
      JoinPartAt(sep, parts[1..], k - 1);
      var at := JoinOffset(sep, parts[1..], k - 1);
      assert Join(sep, parts) == (parts[0] + sep) + rest;
      SliceAfter(parts[0] + sep, rest, at, at + |parts[k]|);
    }
  }

  /** In `sep.join(parts)`, `sep` follows every part but the last. */
  lemma {:induction false} JoinSepAfter(sep: string, parts: seq<string>, k: nat)
    requires k + 1 < |parts|
    ensures JoinOffset(sep, parts, k) + |parts[k]| + |sep| <= |Join(sep, parts)|
    ensures var end := JoinOffset(sep, parts, k) + |parts[k]|;
      Join(sep, parts)[end..end + |sep|] == sep
  {
    var rest := Join(sep, parts[1..]);
    JoinUnfold(sep, parts, 1);
    if k == 0 {
      var n := |parts[0]|;
      SliceBefore(parts[0] + sep, rest, n, n + |sep|);
      SliceAfter(parts[0], sep, 0, |sep|);
      assert sep[0..|sep|] == sep;
    } else {
      JoinUnfold(sep, parts, k);
      JoinSepAfter(sep, parts[1..], k - 1);
      var end := JoinOffset(sep, parts[1..], k - 1) + |parts[k]|;
      assert Join(sep, parts) == (parts[0] + sep) + rest;
      SliceAfter(parts[0] + sep, rest, end, end + |sep|);
    }
  }

  /** The last part of `sep.join(parts)` ends the string. */
  lemma {:induction false} JoinEnd(sep: string, parts: seq<string>)
    requires |parts| > 0
    ensures JoinOffset(sep, parts, |parts| - 1) + |parts[|parts| - 1]| == |Join(sep, parts)|
  {
    if |parts| > 1 {
      var n := |parts|;
      JoinEnd(sep, parts[1..]);
      assert parts[1..][n - 2] == parts[n - 1];
      assert JoinOffset(sep, parts, n - 1) == |parts[0]| + |sep| + JoinOffset(sep, parts[1..], n - 2);
      assert |Join(sep, parts)| == |parts[0]| + |sep| + |Join(sep, parts[1..])|;
    }
  }
}
