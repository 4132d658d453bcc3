/**
 * The handful of Python `str` operations the analyzer relies on:
 * `isspace`/`strip()`, `split(ch)`, `sub in s`, `split(sep)[-1]` and `lower()`.
 */
module Strings {

  import opened Wrappers

  /** Python's `str.isspace()`; `strip()` with no argument removes exactly these characters. */
  predicate IsSpace(c: char) {
    || c == ' '
    || ('\t' <= c <= '\r')
    || ('\U{1C}' <= c <= '\U{1F}')
    || c == '\U{85}' || c == '\U{A0}' || c == '\U{1680}'
    || ('\U{2000}' <= c <= '\U{200A}')
    || c == '\U{2028}' || c == '\U{2029}' || c == '\U{202F}' || c == '\U{205F}' || c == '\U{3000}'
  }

  ghost predicate AllSpace(s: string) {
    forall k :: 0 <= k < |s| ==> IsSpace(s[k])
  }

  predicate StartsWith(s: string, prefix: string) {
    |prefix| <= |s| && s[..|prefix|] == prefix
  }

  predicate EndsWith(s: string, suffix: string) {
    |suffix| <= |s| && s[|s| - |suffix|..] == suffix
  }

  lemma EndsWithAppended(s: string, suffix: string)
    ensures EndsWith(s + suffix, suffix)
  {
    assert (s + suffix)[|s|..] == suffix;
  }

  // ---------------------------------------------------------------------------
  // strip()

  /** `r` is `s` with some whitespace, and only whitespace, cut from both ends. */
  ghost predicate TrimmedFrom(r: string, s: string) {
    exists pre, post :: s == pre + r + post && AllSpace(pre) && AllSpace(post)
  }

  /** Python's `s.strip()`: drop whitespace from the front and from the back until neither end is whitespace. */
  function Strip(s: string): string
    decreases |s|
  {
    if s != [] && IsSpace(s[0]) then Strip(s[1..])
    else if s != [] && IsSpace(s[|s| - 1]) then Strip(s[..|s| - 1])
    else s
  }

  lemma AllSpaceConcat(a: string, b: string)
    ensures AllSpace(a + b) <==> AllSpace(a) && AllSpace(b)
  {
    if AllSpace(a) && AllSpace(b) {
      forall k | 0 <= k < |a + b| ensures IsSpace((a + b)[k]) {
        if k < |a| { assert (a + b)[k] == a[k]; } else { assert (a + b)[k] == b[k - |a|]; }
      }
    }
    if AllSpace(a + b) {
      forall k | 0 <= k < |a| ensures IsSpace(a[k]) { assert (a + b)[k] == a[k]; }
      forall k | 0 <= k < |b| ensures IsSpace(b[k]) { assert (a + b)[|a| + k] == b[k]; }
    }
  }

  /** Whitespace in front of a cut string joins the whitespace cut from its front. */
  lemma ConsCuts(c: char, t: string, pre: string, r: string, post: string)
    requires IsSpace(c) && t == pre + r + post && AllSpace(pre)
    ensures [c] + t == ([c] + pre) + r + post && AllSpace([c] + pre)
  {
    assert AllSpace([c]);
    AllSpaceConcat([c], pre);
  }

  /** Whitespace behind a cut string joins the whitespace cut from its back. */
  lemma SnocCuts(c: char, t: string, pre: string, r: string, post: string)
    requires IsSpace(c) && t == pre + r + post && AllSpace(post)
    ensures t + [c] == pre + r + (post + [c]) && AllSpace(post + [c])
  {
    assert AllSpace([c]);
    AllSpaceConcat(post, [c]);
  }

  /** The whitespace `strip()` removes in front of and behind its result. */
  lemma {:induction false} StripCuts(s: string) returns (pre: string, post: string)
    ensures s == pre + Strip(s) + post && AllSpace(pre) && AllSpace(post)
    decreases |s|
  {
    if s != [] && IsSpace(s[0]) {
      var t := s[1..];
      var p, q := StripCuts(t);
      ConsCuts(s[0], t, p, Strip(t), q);
      assert s == [s[0]] + t;
      pre, post := [s[0]] + p, q;
    } else if s != [] && IsSpace(s[|s| - 1]) {
      var t := s[..|s| - 1];
      var p, q := StripCuts(t);
      SnocCuts(s[|s| - 1], t, p, Strip(t), q);
      assert s == t + [s[|s| - 1]];
      pre, post := p, q + [s[|s| - 1]];
    } else {
      pre, post := [], [];
      assert s == pre + Strip(s) + post;
    }
  }

  /** Neither end of a stripped string is whitespace. */
  lemma {:induction false} StripEnds(s: string)
    ensures Strip(s) == [] || (!IsSpace(Strip(s)[0]) && !IsSpace(Strip(s)[|Strip(s)| - 1]))
    decreases |s|
  {
    if s != [] && IsSpace(s[0]) {
      StripEnds(s[1..]);
    } else if s != [] && IsSpace(s[|s| - 1]) {
      StripEnds(s[..|s| - 1]);
    }
  }

  /**
   * `strip()` removes whitespace and only whitespace from both ends, leaves no
   * whitespace at either end, and yields the empty string exactly on blank input.
   */
  lemma StripTrims(s: string)
    ensures TrimmedFrom(Strip(s), s)
    ensures Strip(s) == [] || (!IsSpace(Strip(s)[0]) && !IsSpace(Strip(s)[|Strip(s)| - 1]))
    ensures AllSpace(s) <==> Strip(s) == []
  {
    var r := Strip(s);
    var pre, post := StripCuts(s);
    StripEnds(s);
    AllSpaceConcat(pre + r, post);
    AllSpaceConcat(pre, r);
    if r != [] {
      assert !IsSpace(r[0]);
    }
  }

  // ---------------------------------------------------------------------------
  // split(ch) on one separator character

  /** Python's `s.split(sep)` for a one-character separator. */
  function Split(s: string, sep: char): (pieces: seq<string>)
    ensures |pieces| >= 1
    decreases |s|
  {
    if s == [] then [[]]
    else
      var rest := Split(s[1..], sep);
      if s[0] == sep then [[]] + rest
      else [[s[0]] + rest[0]] + rest[1..]
  }

  /** No piece of a split holds the separator. */
  lemma {:induction false} SplitPiecesFree(s: string, sep: char)
    ensures forall k :: 0 <= k < |Split(s, sep)| ==> sep !in Split(s, sep)[k]
    decreases |s|
  {
    if s != [] {
      var rest := Split(s[1..], sep);
      var pieces := Split(s, sep);
      SplitPiecesFree(s[1..], sep);
      if s[0] == sep {
        forall k | 0 < k < |pieces| ensures sep !in pieces[k] { assert pieces[k] == rest[k - 1]; }
      } else {
        forall k | 0 < k < |pieces| ensures sep !in pieces[k] { assert pieces[k] == rest[k]; }
      }
    }
  }

  /** Python's `sep.join(pieces)`: the inverse of `Split`. */
  function Join(pieces: seq<string>, sep: char): string
    requires |pieces| >= 1
  {
    if |pieces| == 1 then pieces[0] else pieces[0] + [sep] + Join(pieces[1..], sep)
  }

  /** Joining after an empty first piece puts a separator in front. */
  lemma JoinEmptyFirst(rest: seq<string>, sep: char)
    requires |rest| >= 1
    ensures Join([[]] + rest, sep) == [sep] + Join(rest, sep)
  {
    assert ([[]] + rest)[1..] == rest;
  }

  /** Joining after a character is put in front of the first piece puts that character in front. */
  lemma JoinConsFirst(c: char, rest: seq<string>, sep: char)
    requires |rest| >= 1
    ensures Join([[c] + rest[0]] + rest[1..], sep) == [c] + Join(rest, sep)
  {
    var pieces := [[c] + rest[0]] + rest[1..];
    if |rest| > 1 {
      assert pieces[1..] == rest[1..];
    }
  }

  /** Joining the pieces again gives back the text that was split. */
  lemma {:induction false} JoinSplit(s: string, sep: char)
    ensures Join(Split(s, sep), sep) == s
    decreases |s|
  {
    if s != [] {
      var rest := Split(s[1..], sep);
      JoinSplit(s[1..], sep);
      if s[0] == sep {
        JoinEmptyFirst(rest, sep);
      } else {
        JoinConsFirst(s[0], rest, sep);
      }
      assert s == [s[0]] + s[1..];
    }
  }

  /** Splitting text that starts with a non-separator puts that character at the front of the first piece. */
  lemma SplitCons(c: char, u: string, sep: char)
    requires c != sep
    ensures Split([c] + u, sep) == [[c] + Split(u, sep)[0]] + Split(u, sep)[1..]
  {
    assert ([c] + u)[1..] == u;
  }

  lemma {:induction false} SplitPrefix(p: string, t: string, sep: char)
    requires sep !in p
    ensures Split(p + t, sep) == [p + Split(t, sep)[0]] + Split(t, sep)[1..]
    decreases |p|
  {
    var st := Split(t, sep);
    if p == [] {
      assert p + t == t && p + st[0] == st[0];
      assert st == [st[0]] + st[1..];
    } else {
      var u := p[1..] + t;
      var su := Split(u, sep);
      SplitPrefix(p[1..], t, sep);
      assert su[0] == p[1..] + st[0] && su[1..] == st[1..];
      assert p + t == [p[0]] + u;
      SplitCons(p[0], u, sep);
      assert [p[0]] + (p[1..] + st[0]) == p + st[0];
    }
  }

  /** Splitting a join of separator-free pieces gives back the pieces. */
  lemma {:induction false} SplitJoin(pieces: seq<string>, sep: char)
    requires |pieces| >= 1
    requires forall k :: 0 <= k < |pieces| ==> sep !in pieces[k]
    ensures Split(Join(pieces, sep), sep) == pieces
    decreases |pieces|
  {
    if |pieces| == 1 {
      SplitPrefix(pieces[0], [], sep);
      assert Split([], sep) == [[]];
      assert pieces[0] + [] == pieces[0];
      assert pieces == [pieces[0]];
    } else {
      var t := Join(pieces[1..], sep);
      SplitJoin(pieces[1..], sep);
      SplitPrefix(pieces[0], [sep] + t, sep);
      assert Join(pieces, sep) == pieces[0] + ([sep] + t);
      assert ([sep] + t)[1..] == t;
      assert ([sep] + t)[0] == sep;
      var st := Split([sep] + t, sep);
      assert st == [[]] + Split(t, sep);
      assert st[0] == [] && st[1..] == pieces[1..];
      assert pieces[0] + st[0] == pieces[0];
      assert pieces == [pieces[0]] + pieces[1..];
    }
  }

  // ---------------------------------------------------------------------------
  // `sub in s`

  predicate OccursAt(s: string, sub: string, i: nat) {
    i + |sub| <= |s| && s[i..i + |sub|] == sub
  }

  /** Python's `sub in s`. */
  predicate Contains(s: string, sub: string) {
    exists i :: 0 <= i <= |s| - |sub| && OccursAt(s, sub, i)
  }

  /** A text without `sub` has no slice containing `sub`. */
  lemma ContainsInSlice(s: string, sub: string, a: nat, b: nat)
    requires a <= b <= |s|
    ensures Contains(s[a..b], sub) ==> Contains(s, sub)
  {
    if Contains(s[a..b], sub) {
      var i :| 0 <= i <= |s[a..b]| - |sub| && OccursAt(s[a..b], sub, i);
      forall k | 0 <= k < |sub| ensures s[a + i + k] == sub[k] {
        assert s[a..b][i..i + |sub|][k] == sub[k];
      }
      assert s[a + i..a + i + |sub|] == sub;
      assert OccursAt(s, sub, a + i);
    }
  }

  /** Position of the first occurrence of `sub` in `s` at or after `from` (Python's `s.find(sub, from)`). */
  function IndexFrom(s: string, sub: string, from: nat): Option<nat>
    requires from <= |s|
    decreases |s| - from
  {
    if OccursAt(s, sub, from) then Some(from)
    else if from == |s| then None
    else IndexFrom(s, sub, from + 1)
  }

  /** `find` returns the first occurrence at or after `from`, and nothing only when there is none. */
  lemma {:induction false} IndexFromFacts(s: string, sub: string, from: nat)
    requires from <= |s|
    ensures var r := IndexFrom(s, sub, from);
            r.Some? ==> from <= r.value && OccursAt(s, sub, r.value)
    ensures var r := IndexFrom(s, sub, from);
            r.Some? ==> forall k :: from <= k < r.value ==> !OccursAt(s, sub, k)
    ensures IndexFrom(s, sub, from).None? ==> forall k :: from <= k <= |s| ==> !OccursAt(s, sub, k)
    decreases |s| - from
  {
    if !OccursAt(s, sub, from) && from < |s| {
      IndexFromFacts(s, sub, from + 1);
    }
  }

  // ---------------------------------------------------------------------------
  // s.split(sep)[-1]

  /** Occurrences in a suffix of `s` are the occurrences in `s` shifted by where the suffix starts. */
  lemma OccursInSuffix(s: string, sub: string, a: nat, k: nat)
    requires a <= |s|
    ensures OccursAt(s[a..], sub, k) <==> OccursAt(s, sub, a + k)
  {
    if a + k + |sub| <= |s| {
      assert s[a..][k..k + |sub|] == s[a + k..a + k + |sub|];
    }
  }

  /**
   * Where the last piece of `s[from..].split(sep)` starts: each step jumps past
   * the next occurrence of `sep`, as `split` does when it scans from the left.
   */
  function LastPieceStart(s: string, sep: string, from: nat): (r: nat)
    requires |sep| > 0 && from <= |s|
    ensures from <= r <= |s|
    decreases |s| - from
  {
    IndexFromFacts(s, sep, from);
    match IndexFrom(s, sep, from)
    case None => from
    case Some(i) => LastPieceStart(s, sep, i + |sep|)
  }

  /** No occurrence starts at or after the last piece, and one ends right where it starts when the scan moved. */
  lemma {:induction false} LastPieceStartFacts(s: string, sep: string, from: nat)
    requires |sep| > 0 && from <= |s|
    ensures forall k :: LastPieceStart(s, sep, from) <= k <= |s| ==> !OccursAt(s, sep, k)
    ensures var r := LastPieceStart(s, sep, from);
            from < r ==> |sep| <= r && OccursAt(s, sep, r - |sep|)
    decreases |s| - from
  {
    IndexFromFacts(s, sep, from);
    match IndexFrom(s, sep, from)
    case None =>
    case Some(i) =>
      LastPieceStartFacts(s, sep, i + |sep|);
  }

  /**
   * Python's `s.split(sep)[-1]`: the text after the last cut that `split`
   * makes; it holds no occurrence of `sep`, and it follows one when `s` has one.
   * When `sep` can overlap itself these facts do not pin the result down (for
   * `"aaa".split("aa")[-1]`, which is `"a"`, the empty suffix meets them too);
   * `AfterLastOfTail` pins it down for separators whose first character does
   * not recur in them, such as the assistant marker.
   */
  function AfterLast(s: string, sep: string): (r: string)
    requires |sep| > 0
    ensures |r| <= |s| && r == s[|s| - |r|..]
    ensures !Contains(r, sep)
    ensures Contains(s, sep) ==> EndsWith(s[..|s| - |r|], sep)
    ensures !Contains(s, sep) ==> r == s
  {
    var start := LastPieceStart(s, sep, 0);
    LastPieceFacts(s, sep, start);
    var r := s[start..];
    assert |s| - |r| == start;
    r
  }

  lemma LastPieceFacts(s: string, sep: string, start: nat)
    requires |sep| > 0 && start == LastPieceStart(s, sep, 0)
    ensures !Contains(s[start..], sep)
    ensures Contains(s, sep) ==> EndsWith(s[..start], sep)
    ensures !Contains(s, sep) ==> start == 0
  {
    var r := s[start..];
    LastPieceStartFacts(s, sep, 0);
    forall k | 0 <= k <= |r| - |sep| ensures !OccursAt(r, sep, k) {
      OccursInSuffix(s, sep, start, k);
    }
    if Contains(s, sep) {
      var i :| 0 <= i <= |s| - |sep| && OccursAt(s, sep, i);
      assert 0 < start;
      assert s[..start][start - |sep|..] == s[start - |sep|..start];
    }
  }

  /**
   * The first character of `sep` does not occur again inside it, so two
   * occurrences of `sep` in a text can never overlap.
   */
  predicate FirstCharUnique(sep: string) {
    |sep| > 0 && forall k :: 0 < k < |sep| ==> sep[k] != sep[0]
  }

  /** Two occurrences that overlap force a repeat of the separator's first character. */
  lemma OverlapRepeatsFirstChar(s: string, sep: string, i: nat, j: nat)
    requires OccursAt(s, sep, i) && OccursAt(s, sep, j) && i < j
    ensures i + |sep| <= j || sep[j - i] == sep[0]
  {
    if j < i + |sep| {
      assert s[j] == s[j..j + |sep|][0];
      assert s[j] == s[i..i + |sep|][j - i];
    }
  }

  lemma NoOverlap(s: string, sep: string, i: nat, j: nat)
    requires FirstCharUnique(sep)
    requires OccursAt(s, sep, i) && OccursAt(s, sep, j) && i < j
    ensures i + |sep| <= j
  {
    OverlapRepeatsFirstChar(s, sep, i, j);
  }

  /** The scan of `split` from `from` jumps past the first occurrence at or after `from`. */
  lemma NextCut(s: string, sep: string, from: nat, p: nat) returns (i: nat)
    requires |sep| > 0 && from <= p && OccursAt(s, sep, p)
    ensures from <= i <= p && OccursAt(s, sep, i)
    ensures LastPieceStart(s, sep, from) == LastPieceStart(s, sep, i + |sep|)
  {
    IndexFromFacts(s, sep, from);
    i := IndexFrom(s, sep, from).value;
  }

  lemma LastPieceStartAtEnd(s: string, sep: string, q: nat)
    requires |sep| > 0 && q <= |s|
    requires forall k :: q <= k <= |s| ==> !OccursAt(s, sep, k)
    ensures LastPieceStart(s, sep, q) == q
  {
    IndexFromFacts(s, sep, q);
    assert IndexFrom(s, sep, q).None?;
  }

  /** From anywhere up to a last occurrence at `p`, the scan of `split` ends right after it. */
  lemma {:induction false} LastPieceStartAfter(s: string, sep: string, p: nat, from: nat)
    requires FirstCharUnique(sep) && from <= p && OccursAt(s, sep, p)
    requires forall k :: p + |sep| <= k <= |s| ==> !OccursAt(s, sep, k)
    ensures LastPieceStart(s, sep, from) == p + |sep|
    decreases p - from
  {
    var i := NextCut(s, sep, from, p);
    if i == p {
      LastPieceStartAtEnd(s, sep, p + |sep|);
    } else {
      NoOverlap(s, sep, i, p);
      LastPieceStartAfter(s, sep, p, i + |sep|);
    }
  }

  /** Whatever comes before a final `sep`, the text after it is the last split piece. */
  lemma AfterLastOfTail(t: string, sep: string, c: string)
    requires FirstCharUnique(sep)
    requires !Contains(c, sep)
    ensures AfterLast(t + sep + c, sep) == c
  {
    var s := t + sep + c;
    var p := |t|;
    assert s[p..p + |sep|] == sep;
    assert s[p + |sep|..] == c;
    forall k | p + |sep| <= k <= |s| ensures !OccursAt(s, sep, k) {
      OccursInSuffix(s, sep, p + |sep|, k - p - |sep|);
    }
    LastPieceStartAfter(s, sep, p, 0);
  }

  // ---------------------------------------------------------------------------
  // lower()

  function LowerChar(c: char): char {
    if 'A' <= c <= 'Z' then (c as int + 32) as char else c
  }

  /** Python's `s.lower()`, for the ASCII letters. */
  function Lower(s: string): (r: string)
    ensures |r| == |s|
  {
    if s == [] then [] else [LowerChar(s[0])] + Lower(s[1..])
  }

  /** `lower()` maps every character on its own. */
  lemma {:induction false} LowerAt(s: string)
    ensures forall k :: 0 <= k < |s| ==> Lower(s)[k] == LowerChar(s[k])
  {
    if s != [] {
      LowerAt(s[1..]);
      forall k | 0 < k < |s| ensures Lower(s)[k] == LowerChar(s[k]) {
        assert Lower(s)[k] == Lower(s[1..])[k - 1];
      }
    }
  }

  predicate IsAsciiLetter(c: char) {
    'a' <= c <= 'z' || 'A' <= c <= 'Z'
  }

  /** A word without ASCII letters occurs in `s.lower()` exactly where it occurs in `s`. */
  lemma LowerKeepsCaselessWord(s: string, word: string)
    requires forall k :: 0 <= k < |word| ==> !IsAsciiLetter(word[k])
    ensures Contains(Lower(s), word) <==> Contains(s, word)
  {
    var l := Lower(s);
    LowerAt(s);
    forall i | 0 <= i <= |s| - |word|
      ensures OccursAt(l, word, i) <==> OccursAt(s, word, i)
    {
      if OccursAt(l, word, i) {
        forall k | 0 <= k < |word| ensures s[i + k] == word[k] {
          assert l[i..i + |word|][k] == word[k];
        }
        assert s[i..i + |word|] == word;
      }
      if OccursAt(s, word, i) {
        forall k | 0 <= k < |word| ensures l[i + k] == word[k] {
          assert s[i..i + |word|][k] == word[k];
        }
        assert l[i..i + |word|] == word;
      }
    }
  }
}
