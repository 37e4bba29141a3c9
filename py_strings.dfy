/**
 * The Python `str` operations the core relies on, with Python's semantics:
 * `isspace`/`strip`/`lstrip`/`rstrip`, `lower` (ASCII letters only), `in`/`find`,
 * `startswith`, `split(sep, maxsplit)`, `sep.join`, `splitlines()` and the
 * lexicographic order of `<` on strings and on lists.
 */
module PyStrings {
  import opened Wrappers

  // ---------------------------------------------------------------------------
  // Whitespace and stripping

  /**
   * The characters for which Python's `str.isspace()` holds: tab to carriage
   * return, the four information separators, space, next line, no-break
   * space, ogham space mark, the spaces from en quad to hair space, line and
   * paragraph separator, narrow no-break space, medium mathematical space and
   * ideographic space.
   */
  predicate IsSpace(c: char) {
    || '\t' <= c <= '\r'
    || '\U{1c}' <= c <= ' '
    || c == '\U{85}' || c == '\U{a0}' || c == '\U{1680}'
    || '\U{2000}' <= c <= '\U{200a}'
    || c == '\U{2028}' || c == '\U{2029}' || c == '\U{202f}' || c == '\U{205f}' || c == '\U{3000}'
  }

  /** The same characters as a set, for `strip`. */
  const Whitespace: set<char> := set c: char | '\t' <= c <= '\U{3000}' && IsSpace(c)

  /** Every character of `s` is in `chars`. */
  predicate AllIn(s: string, chars: set<char>) {
    forall i | 0 <= i < |s| :: s[i] in chars
  }

  /** `s.lstrip(chars)`: drop the longest prefix made of characters of `chars`. */
  function LStrip(s: string, chars: set<char>): (r: string)
    ensures |r| <= |s| && r == s[|s| - |r|..]
    ensures AllIn(s[..|s| - |r|], chars)
    ensures r == [] || r[0] !in chars
  {
    if s != [] && s[0] in chars then
      var r := LStrip(s[1..], chars);
      assert s[1..][..|s| - 1 - |r|] == s[1..|s| - |r|];
      r
    else
      s
  }

  /** `s.rstrip(chars)`: drop the longest suffix made of characters of `chars`. */
  function RStrip(s: string, chars: set<char>): (r: string)
    ensures |r| <= |s| && r == s[..|r|]
    ensures AllIn(s[|r|..], chars)
    ensures r == [] || r[|r| - 1] !in chars
  {
    if s != [] && s[|s| - 1] in chars then
      var init := s[..|s| - 1];
      var r := RStrip(init, chars);
      assert s[..|r|] == init[..|r|];
      assert s[|r|..] == init[|r|..] + [s[|s| - 1]];
      AllInSnoc(init[|r|..], s[|s| - 1], chars);
      r
    else
      s
  }

  lemma AllInSnoc(a: string, c: char, chars: set<char>)
    requires AllIn(a, chars) && c in chars
    ensures AllIn(a + [c], chars)
  {
    assert forall i | 0 <= i < |a| :: (a + [c])[i] == a[i];
  }

  /** `s.strip()`: both ends, Python whitespace. */
  function Strip(s: string): (r: string)
    ensures |r| <= |s|
    ensures Trimmed(r)
  {
    var l := LStrip(s, Whitespace);
    var r := RStrip(l, Whitespace);
    assert r != [] ==> r[0] == l[0];
    r
  }

  /** `r` is the slice of `s` at `i`, and only characters of `chars` lie around it. */
  predicate SliceBetween(s: string, r: string, i: int, chars: set<char>) {
    && 0 <= i <= |s| - |r|
    && r == s[i..i + |r|]
    && AllIn(s[..i], chars)
    && AllIn(s[i + |r|..], chars)
  }

  /** What `strip()` removes is whitespace at both ends, and what it keeps is one slice of `s`. */
  lemma StripIsSlice(s: string)
    ensures exists i :: SliceBetween(s, Strip(s), i, Whitespace)
  {
    var l := LStrip(s, Whitespace);
    var r := RStrip(l, Whitespace);
    assert Strip(s) == r;
    SliceOfStripped(s, l, r, Whitespace);
  }

  /**
   * Dropping a prefix of `chars` from `s` and then a suffix of `chars` from
   * what is left keeps one slice of `s`.
   */
  lemma SliceOfStripped(s: string, l: string, r: string, chars: set<char>)
    requires |l| <= |s| && l == s[|s| - |l|..] && AllIn(s[..|s| - |l|], chars)
    requires |r| <= |l| && r == l[..|r|] && AllIn(l[|r|..], chars)
    ensures SliceBetween(s, r, |s| - |l|, chars)
  {
    var i := |s| - |l|;
    assert s[i..i + |r|] == l[..|r|];
    assert s[i + |r|..] == l[|r|..];
  }

  /** No whitespace at either end: what `strip()` returns. */
  predicate Trimmed(s: string) {
    s == [] || (s[0] !in Whitespace && s[|s| - 1] !in Whitespace)
  }

  /** A string is left alone by `strip()` exactly when it is trimmed. */
  lemma StripNoop(s: string)
    ensures Strip(s) == s <==> Trimmed(s)
  {
  }

  /** Stripping adds no character: one missing from `s` is missing from `strip(s)`. */
  lemma StripKeepsOut(s: string, c: char)
    requires c !in s
    ensures c !in Strip(s)
  {
    var l := LStrip(s, Whitespace);
    assert l == s[|s| - |l|..];
  }

  /** Stripping is idempotent. */
  lemma {:induction false} StripIdempotent(s: string)
    ensures Strip(Strip(s)) == Strip(s)
  {
    var r := Strip(s);
    if r != [] {
      assert LStrip(r, Whitespace) == r;
      assert RStrip(r, Whitespace) == r;
    }
  }

  /** Whitespace around a string is removed by `strip()`. */
  lemma StripPadded(pre: string, s: string, post: string)
    requires AllIn(pre, Whitespace) && AllIn(post, Whitespace)
    ensures Strip(pre + s + post) == Strip(s)
  {
    assert pre + s + post == pre + (s + post);
    LStripDropsPrefix(pre, s + post, Whitespace);
    var l := LStrip(s, Whitespace);
    LStripSkipsToContent(s, post);
    RStripDropsSuffix([], post);
    assert [] + post == post;
    if l != [] {
      RStripDropsSuffix(l, post);
    }
  }

  lemma {:induction false} LStripDropsPrefix(pre: string, u: string, chars: set<char>)
    requires AllIn(pre, chars)
    ensures LStrip(pre + u, chars) == LStrip(u, chars)
    decreases |pre|
  {
    if pre != [] {
      assert (pre + u)[1..] == pre[1..] + u;
      assert AllIn(pre[1..], chars) by {
        var p := pre[1..];
        assert forall i | 0 <= i < |p| :: p[i] == pre[i + 1];
      }
      LStripDropsPrefix(pre[1..], u, chars);
    } else {
      assert pre + u == u;
    }
  }

  lemma {:induction false} LStripSkipsToContent(s: string, post: string)
    requires AllIn(post, Whitespace)
    ensures LStrip(s + post, Whitespace) == LStrip(s, Whitespace) + post
         || (LStrip(s, Whitespace) == [] && LStrip(s + post, Whitespace) == [])
    decreases |s|
  {
    if s == [] {
      assert [] + post == post;
      LStripDropsPrefix(post, [], Whitespace);
      assert post + [] == post;
    } else if s[0] in Whitespace {
      assert (s + post)[1..] == s[1..] + post;
      LStripSkipsToContent(s[1..], post);
    }
  }

  lemma {:induction false} RStripDropsSuffix(s: string, post: string)
    requires AllIn(post, Whitespace)
    ensures RStrip(s + post, Whitespace) == RStrip(s, Whitespace)
    decreases |post|
  {
    if post != [] {
      var t := s + post;
      var p := post[..|post| - 1];
      assert t[..|t| - 1] == s + p;
      assert t[|t| - 1] == post[|post| - 1];
      assert forall i | 0 <= i < |p| :: p[i] == post[i];
      assert RStrip(t, Whitespace) == RStrip(t[..|t| - 1], Whitespace);
      RStripDropsSuffix(s, p);
    } else {
      assert s + post == s;
    }
  }

  // ---------------------------------------------------------------------------
  // Case

  /** Python's `str.lower()` on ASCII letters; every other character is kept. */
  function LowerChar(c: char): char {
    if 'A' <= c <= 'Z' then (c as int + 32) as char else c
  }

  function Lower(s: string): (r: string)
    ensures |r| == |s|
    ensures forall i | 0 <= i < |s| :: r[i] == LowerChar(s[i])
  {
    seq(|s|, i requires 0 <= i < |s| => LowerChar(s[i]))
  }

  /** Lower-casing is idempotent. */
  lemma LowerIdempotent(s: string)
    ensures Lower(Lower(s)) == Lower(s)
  {
  }

  /** Lower-casing changes only letters, so it keeps every whitespace character and adds none. */
  lemma LowerCharSpace(c: char)
    ensures LowerChar(c) in Whitespace <==> c in Whitespace
  {
    if 'A' <= c <= 'Z' {
      assert !IsSpace(c) && !IsSpace(LowerChar(c));
    }
  }

  /** Stripping and lower-casing commute. */
  lemma StripLower(s: string)
    ensures Strip(Lower(s)) == Lower(Strip(s))
  {
    var l := LStrip(s, Whitespace);
    LStripLower(s);
    RStripLower(l);
  }

  lemma {:induction false} LStripLower(s: string)
    ensures LStrip(Lower(s), Whitespace) == Lower(LStrip(s, Whitespace))
    decreases |s|
  {
    if s != [] {
      LowerCharSpace(s[0]);
      assert Lower(s)[1..] == Lower(s[1..]);
      LStripLower(s[1..]);
    }
  }

  lemma {:induction false} RStripLower(s: string)
    ensures RStrip(Lower(s), Whitespace) == Lower(RStrip(s, Whitespace))
    decreases |s|
  {
    if s != [] {
      LowerCharSpace(s[|s| - 1]);
      assert Lower(s)[..|s| - 1] == Lower(s[..|s| - 1]);
      RStripLower(s[..|s| - 1]);
    }
  }

  // ---------------------------------------------------------------------------
  // Searching

  predicate OccursAt(s: string, pat: string, i: int) {
    0 <= i && i + |pat| <= |s| && s[i..i + |pat|] == pat
  }

  /** `s.find(pat, from)`, with None for -1: the first occurrence at or after `from`. */
  function Find(s: string, pat: string, from: nat): (r: Option<nat>)
    ensures r.Some? ==> from <= r.value && OccursAt(s, pat, r.value)
    ensures r.Some? ==> forall i | from <= i < r.value :: !OccursAt(s, pat, i)
    ensures r.None? ==> forall i | from <= i :: !OccursAt(s, pat, i)
    decreases |s| - from
  {
    if from + |pat| > |s| then None
    else if s[from..from + |pat|] == pat then Some(from)
    else Find(s, pat, from + 1)
  }

  /** Python's `pat in s`. */
  predicate Contains(s: string, pat: string) {
    Find(s, pat, 0).Some?
  }

  lemma ContainsIff(s: string, pat: string)
    ensures Contains(s, pat) <==> exists i :: OccursAt(s, pat, i)
  {
    if Contains(s, pat) {
      assert OccursAt(s, pat, Find(s, pat, 0).value);
    }
  }

  predicate StartsWith(s: string, prefix: string) {
    |prefix| <= |s| && s[..|prefix|] == prefix
  }

  predicate EndsWith(s: string, suffix: string) {
    |suffix| <= |s| && s[|s| - |suffix|..] == suffix
  }

  // ---------------------------------------------------------------------------
  // Splitting and joining

  /** `sep.join(parts)`. */
  function Join(parts: seq<string>, sep: string): string
    decreases |parts|
  {
    if |parts| == 0 then []
    else if |parts| == 1 then parts[0]
    else parts[0] + sep + Join(parts[1..], sep)
  }

  /**
   * `s.split(sep, maxsplit)` for a non-empty separator: at most `maxsplit`
   * cuts, each at the first remaining occurrence (no occurrence starts in a
   * part before its cut, not even one overlapping the cut); the pieces joined
   * with `sep` give back `s`; fewer than `maxsplit` cuts leave no separator in
   * the last part.
   */
  function Split(s: string, sep: string, maxsplit: nat): (parts: seq<string>)
    requires sep != []
    ensures 1 <= |parts| <= maxsplit + 1
    ensures Join(parts, sep) == s
    ensures forall k | 0 <= k < |parts| - 1 :: !Contains(parts[k], sep)
    ensures forall k | 0 <= k < |parts| - 1 :: !Contains(parts[k] + sep[..|sep| - 1], sep)
    ensures |parts| < maxsplit + 1 ==> !Contains(parts[|parts| - 1], sep)
    decreases maxsplit
  {
    if maxsplit == 0 then [s]
    else match Find(s, sep, 0)
      case None => [s]
      case Some(i) =>
        var rest := Split(s[i + |sep|..], sep, maxsplit - 1);
        var head := s[..i];
        FirstCut(s, sep, i);
        JoinCons(head, rest, sep);
        ConsParts(head, rest, sep);
        [head] + rest
  }

  /** A part cut at a first occurrence, put in front of parts cut the same way. */
  lemma ConsParts(head: string, rest: seq<string>, sep: string)
    requires sep != [] && rest != []
    requires !Contains(head, sep) && !Contains(head + sep[..|sep| - 1], sep)
    requires forall k | 0 <= k < |rest| - 1 :: !Contains(rest[k], sep)
    requires forall k | 0 <= k < |rest| - 1 :: !Contains(rest[k] + sep[..|sep| - 1], sep)
    ensures var parts := [head] + rest;
      && (forall k | 0 <= k < |parts| - 1 :: !Contains(parts[k], sep))
      && (forall k | 0 <= k < |parts| - 1 :: !Contains(parts[k] + sep[..|sep| - 1], sep))
      && parts[|parts| - 1] == rest[|rest| - 1]
  {
    var parts := [head] + rest;
    assert forall k | 1 <= k < |parts| :: parts[k] == rest[k - 1];
  }

  /** Overlapping occurrences: the cut is at the leftmost one. */
  lemma SplitOverlapping()
    ensures Split("a----b", "---", 1) == ["a", "-b"]
  {
    var s := "a----b";
    assert s[0..3][0] == 'a';
    assert s[1..4] == "---";
    assert Find(s, "---", 0) == Some(1);
    assert s[..1] == "a" && s[4..] == "-b";
  }

  lemma JoinCons(head: string, rest: seq<string>, sep: string)
    requires rest != []
    ensures Join([head] + rest, sep) == head + sep + Join(rest, sep)
  {
    assert ([head] + rest)[1..] == rest;
  }

  /**
   * Cutting `s` at the first occurrence of `sep`: the text before it holds
   * none, and no occurrence starts before the cut.
   */
  lemma FirstCut(s: string, sep: string, i: nat)
    requires sep != [] && Find(s, sep, 0) == Some(i)
    ensures !Contains(s[..i], sep)
    ensures !Contains(s[..i] + sep[..|sep| - 1], sep)
    ensures s == s[..i] + sep + s[i + |sep|..]
  {
    assert forall j | 0 <= j < i :: !OccursAt(s, sep, j);
    PrefixFree(s, sep, i, s[..i]);
    CutExtended(s, sep, i);
    PrefixFree(s, sep, i, s[..i + |sep| - 1]);
  }

  /** The text before a cut and the separator less its last character are a prefix of `s`. */
  lemma CutExtended(s: string, sep: string, i: nat)
    requires sep != [] && OccursAt(s, sep, i)
    ensures s[..i] + sep[..|sep| - 1] == s[..i + |sep| - 1]
    ensures s == s[..i] + sep + s[i + |sep|..]
  {
    assert s[i..i + |sep|][..|sep| - 1] == s[i..i + |sep| - 1];
  }

  /** A prefix of `s` too short to hold an occurrence starting at or after `i` holds none. */
  lemma PrefixFree(s: string, sep: string, i: nat, x: string)
    requires sep != [] && |x| < i + |sep| && |x| <= |s| && x == s[..|x|]
    requires forall j | 0 <= j < i :: !OccursAt(s, sep, j)
    ensures !Contains(x, sep)
  {
    forall j | 0 <= j && j + |sep| <= |x| ensures !OccursAt(x, sep, j) {
      assert j < i && !OccursAt(s, sep, j);
      assert x[j..j + |sep|] == s[j..j + |sep|];
    }
    ContainsIff(x, sep);
  }

  /** Splitting once at a character cuts at its first occurrence. */
  lemma SplitOnceAt(a: string, c: char, b: string)
    requires c !in a
    ensures Contains(a + [c] + b, [c])
    ensures Split(a + [c] + b, [c], 1) == [a, b]
  {
    var t := a + [c] + b;
    assert t[|a|..|a| + 1] == [c];
    assert OccursAt(t, [c], |a|);
    forall j | 0 <= j < |a| ensures !OccursAt(t, [c], j) {
      assert t[j..j + 1] == [a[j]];
    }
    var i := Find(t, [c], 0).value;
    assert i == |a|;
    assert Split(t, [c], 1) == [t[..i]] + Split(t[i + 1..], [c], 0);
    assert t[..i] == a && t[i + 1..] == b;
  }

  /** `c in s` for a one-character pattern. */
  lemma ContainsChar(s: string, c: char)
    ensures Contains(s, [c]) <==> c in s
  {
    ContainsIff(s, [c]);
    if c in s {
      var i :| 0 <= i < |s| && s[i] == c;
      assert s[i..i + 1] == [c];
      assert OccursAt(s, [c], i);
    }
    if Contains(s, [c]) {
      var i :| OccursAt(s, [c], i);
      assert s[i] == s[i..i + 1][0];
    }
  }

  /** The text before the first `c` in `s`, or all of `s`: `s.split(c, 1)[0]`. */
  function Before(s: string, c: char): (r: string)
    ensures c !in r
    decreases |s|
  {
    if s == [] || s[0] == c then [] else [s[0]] + Before(s[1..], c)
  }

  /** The text after the first `c` in `s`: `s.split(c, 1)[1]` when `c in s`. */
  function After(s: string, c: char): string
    requires c in s
    decreases |s|
  {
    if s[0] == c then s[1..] else After(s[1..], c)
  }

  /** `s` is the text before its first `c`, that `c`, and the text after it. */
  lemma {:induction false} BeforeAfter(s: string, c: char)
    requires c in s
    ensures s == Before(s, c) + [c] + After(s, c)
    decreases |s|
  {
    if s[0] != c {
      BeforeAfter(s[1..], c);
      assert s == [s[0]] + s[1..];
    }
  }

  /** Cutting `a + [c] + b` at its first `c`, for `c` not in `a`, gives back `a` and `b`. */
  lemma {:induction false} CutAt(a: string, c: char, b: string)
    requires c !in a
    ensures Before(a + [c] + b, c) == a
    ensures After(a + [c] + b, c) == b
    decreases |a|
  {
    if a != [] {
      CutAt(a[1..], c, b);
      assert (a + [c] + b)[1..] == a[1..] + [c] + b;
    }
  }

  /** Without a `c`, the text before the first `c` is all of `s`. */
  lemma {:induction false} BeforeAll(s: string, c: char)
    requires c !in s
    ensures Before(s, c) == s
    decreases |s|
  {
    if s != [] {
      BeforeAll(s[1..], c);
    }
  }

  /** `Before` and `After` are what Python's `split(c, 1)` returns. */
  lemma SplitAtChar(s: string, c: char)
    ensures Split(s, [c], 1) == if c in s then [Before(s, c), After(s, c)] else [s]
    ensures Split(s, [c], 1)[0] == Before(s, c)
  {
    ContainsChar(s, c);
    if c in s {
      BeforeAfter(s, c);
      SplitOnceAt(Before(s, c), c, After(s, c));
    } else {
      BeforeAll(s, c);
    }
  }

  /** The characters at which Python's `str.splitlines()` ends a line. */
  predicate IsLineBreak(c: char) {
    c in {'\n', '\r', '\U{b}', '\U{c}', '\U{1c}', '\U{1d}', '\U{1e}', '\U{85}', '\U{2028}', '\U{2029}'}
  }

  predicate NoLineBreak(s: string) {
    forall i | 0 <= i < |s| :: !IsLineBreak(s[i])
  }

  /** The index of the first line break at or after `i`, or `|s|`. */
  function LineEnd(s: string, i: nat): (e: nat)
    requires i <= |s|
    ensures i <= e <= |s|
    ensures NoLineBreak(s[i..e])
    ensures e < |s| ==> IsLineBreak(s[e])
    decreases |s| - i
  {
    if i == |s| || IsLineBreak(s[i]) then i
    else
      var e := LineEnd(s, i + 1);
      assert s[i..e] == [s[i]] + s[i + 1..e];
      e
  }

  /**
   * `s.splitlines()`: the lines of `s` without their terminators, where
   * "\r\n" counts as one terminator and a final terminator opens no new line.
   */
  function SplitLines(s: string): (lines: seq<string>)
    ensures forall k | 0 <= k < |lines| :: NoLineBreak(lines[k])
    ensures lines == [] <==> s == []
    decreases |s|
  {
    if s == [] then []
    else
      var e := LineEnd(s, 0);
      if e == |s| then [s]
      else
        var next := if s[e] == '\r' && e + 1 < |s| && s[e + 1] == '\n' then e + 2 else e + 1;
        [s[..e]] + SplitLines(s[next..])
  }

  /** Joining lines with "\n" and splitting them again gives the lines back. */
  lemma {:induction false} SplitLinesJoin(lines: seq<string>)
    requires forall k | 0 <= k < |lines| :: NoLineBreak(lines[k])
    requires lines != [] ==> lines[|lines| - 1] != []
    ensures SplitLines(Join(lines, "\n")) == lines
    decreases |lines|
  {
    if |lines| == 1 {
      var s := lines[0];
      assert s[0..|s|] == s;
      LineEndIs(s, 0, |s|);
    } else if |lines| > 1 {
      var rest := Join(lines[1..], "\n");
      var s := lines[0] + "\n" + rest;
      var e := |lines[0]|;
      assert s[..e] == lines[0] && s[0..e] == lines[0];
      assert s[e] == '\n';
      LineEndIs(s, 0, e);
      assert s[e + 1..] == rest;
      SplitLinesJoin(lines[1..]);
    }
  }

  /** `LineEnd` is the first line break: any break-free stretch ending at a break or at the end. */
  lemma LineEndIs(s: string, i: nat, e: nat)
    requires i <= e <= |s|
    requires NoLineBreak(s[i..e])
    requires e < |s| ==> IsLineBreak(s[e])
    ensures LineEnd(s, i) == e
  {
  }

  // ---------------------------------------------------------------------------
  // Ordering

  /**
   * Python's `<` on sequences: the first differing position decides with
   * `less`; a proper prefix is smaller.
   */
  function LexLess<T(==)>(a: seq<T>, b: seq<T>, less: (T, T) -> bool): bool
    decreases |a|
  {
    if a == [] then b != []
    else if b == [] then false
    else if a[0] == b[0] then LexLess(a[1..], b[1..], less)
    else less(a[0], b[0])
  }

  ghost predicate StrictTotalOrder<T(!new)>(less: (T, T) -> bool) {
    && (forall x :: !less(x, x))
    && (forall x, y, z :: less(x, y) && less(y, z) ==> less(x, z))
    && (forall x, y :: x != y ==> less(x, y) || less(y, x))
  }

  lemma {:induction false} LexIrreflexive<T(!new)>(a: seq<T>, less: (T, T) -> bool)
    requires StrictTotalOrder(less)
    ensures !LexLess(a, a, less)
    decreases |a|
  {
    if a != [] {
      LexIrreflexive(a[1..], less);
    }
  }

  lemma {:induction false} LexTransitive<T(!new)>(a: seq<T>, b: seq<T>, c: seq<T>, less: (T, T) -> bool)
    requires StrictTotalOrder(less)
    requires LexLess(a, b, less) && LexLess(b, c, less)
    ensures LexLess(a, c, less)
    decreases |a|
  {
    if a != [] && b != [] && c != [] && a[0] == b[0] && b[0] == c[0] {
      LexTransitive(a[1..], b[1..], c[1..], less);
    }
  }

  lemma {:induction false} LexTotal<T(!new)>(a: seq<T>, b: seq<T>, less: (T, T) -> bool)
    requires StrictTotalOrder(less)
    requires a != b
    ensures LexLess(a, b, less) || LexLess(b, a, less)
    decreases |a|
  {
    if a != [] && b != [] && a[0] == b[0] {
      LexTotal(a[1..], b[1..], less);
    }
  }

  /** The lexicographic extension of a strict total order is one. */
  lemma LexOrder<T(!new)>(less: (T, T) -> bool)
    requires StrictTotalOrder(less)
    ensures forall a: seq<T> :: !LexLess(a, a, less)
    ensures forall a: seq<T>, b: seq<T>, c: seq<T> ::
      LexLess(a, b, less) && LexLess(b, c, less) ==> LexLess(a, c, less)
    ensures forall a: seq<T>, b: seq<T> :: a != b ==> LexLess(a, b, less) || LexLess(b, a, less)
  {
    forall a: seq<T> ensures !LexLess(a, a, less) {
      LexIrreflexive(a, less);
    }
    forall a: seq<T>, b: seq<T>, c: seq<T> | LexLess(a, b, less) && LexLess(b, c, less)
      ensures LexLess(a, c, less)
    {
      LexTransitive(a, b, c, less);
    }
    forall a: seq<T>, b: seq<T> | a != b ensures LexLess(a, b, less) || LexLess(b, a, less) {
      LexTotal(a, b, less);
    }
  }

  function CharLess(x: char, y: char): bool {
    x < y
  }

  /** Python's `<` on `str`: code-point order, lexicographically. */
  function StrLess(a: string, b: string): bool {
    LexLess(a, b, CharLess)
  }

  lemma StrLessIsStrictTotal()
    ensures StrictTotalOrder(StrLess)
  {
    LexOrder(CharLess);
  }

  /** `m` is in `s` and below every other element of `s`. */
  predicate IsLeast<T(==)>(m: T, s: set<T>, less: (T, T) -> bool) {
    m in s && forall x | x in s && x != m :: less(m, x)
  }

  /** A finite non-empty set under a strict total order has a least element. */
  lemma {:induction false} LeastExists<T(!new)>(s: set<T>, less: (T, T) -> bool)
    requires StrictTotalOrder(less)
    requires s != {}
    ensures exists m :: IsLeast(m, s, less)
    decreases |s|
  {
    var y :| y in s;
    if s - {y} == {} {
      assert s == {y};
      assert IsLeast(y, s, less);
    } else {
      LeastExists(s - {y}, less);
      var m :| IsLeast(m, s - {y}, less);
      LeastAdd(m, y, s, less);
    }
  }

  /** The least of `s` is the least of `s` less one element, or that element. */
  lemma LeastAdd<T(!new)>(m: T, y: T, s: set<T>, less: (T, T) -> bool)
    requires StrictTotalOrder(less)
    requires y in s && IsLeast(m, s - {y}, less)
    ensures IsLeast(m, s, less) || IsLeast(y, s, less)
  {
    if !less(m, y) {
      assert less(y, m);
      forall x | x in s && x != y ensures less(y, x) {
        if x != m {
          assert less(m, x);
        }
      }
    }
  }
}
