/**
 * Release notes from a changelog: every line opening with "## [" starts a
 * section named by the text inside the brackets; the notes for a version are
 * its section's lines without blank lines at either end.
 */
module ReleaseNotes {
  import opened Wrappers
  import opened PyStrings

  datatype NotesError = VersionNotFound(version: string)

  // ---------------------------------------------------------------------------
  // Headers

  predicate IsHeader(line: string) {
    StartsWith(line, "## [")
  }

  /**
   * The text between the first '[' and the first ']' after it (or the end),
   * stripped: `line.split("[", 1)[1].split("]", 1)[0].strip()`, as
   * `HeaderKeyIsSplit` states.
   */
  function HeaderKey(line: string): string
    requires IsHeader(line)
  {
    assert line[3] == '[';
    Strip(Before(After(line, '['), ']'))
  }

  lemma HeaderKeyIsSplit(line: string)
    requires IsHeader(line)
    ensures var outer := Split(line, "[", 1);
      |outer| == 2 && HeaderKey(line) == Strip(Split(outer[1], "]", 1)[0])
  {
    assert line[3] == '[';
    assert "[" == ['['] && "]" == [']'];
    SplitAtChar(line, '[');
    var inner := After(line, '[');
    assert Split(line, "[", 1) == [Before(line, '['), inner];
    SplitAtChar(inner, ']');
    assert Split(inner, "]", 1)[0] == Before(inner, ']');
  }

  /**
   * The key of "## [k]..." is `k` for a trimmed `k` without ']': the header a
   * changelog writes for a version reads back as that version.
   */
  lemma HeaderKeyRoundTrip(k: string, rest: string)
    requires ']' !in k && Trimmed(k)
    ensures IsHeader("## [" + k + "]" + rest)
    ensures HeaderKey("## [" + k + "]" + rest) == k
  {
    var line := "## [" + k + "]" + rest;
    assert line == "## " + ['['] + (k + [']'] + rest);
    CutAt("## ", '[', k + [']'] + rest);
    CutAt(k, ']', rest);
    StripNoop(k);
  }

  /** A section header's key is trimmed and holds no ']'. */
  lemma HeaderKeyTrimmed(line: string)
    requires IsHeader(line)
    ensures Trimmed(HeaderKey(line)) && ']' !in HeaderKey(line)
  {
    assert line[3] == '[';
    StripKeepsOut(Before(After(line, '['), ']'), ']');
  }

  /** What a line says about sections: the key it opens one for, or None. */
  function HeadOf(line: string): Option<string> {
    if IsHeader(line) then Some(HeaderKey(line)) else None
  }

  /** `HeadOf` of every line. */
  function Heads(lines: seq<string>): (hs: seq<Option<string>>)
    ensures |hs| == |lines|
    decreases |lines|
  {
    if lines == [] then [] else Heads(lines[..|lines| - 1]) + [HeadOf(lines[|lines| - 1])]
  }

  lemma {:induction false} HeadsAt(lines: seq<string>, i: int)
    requires 0 <= i < |lines|
    ensures Heads(lines)[i] == HeadOf(lines[i])
    decreases |lines|
  {
    if i < |lines| - 1 {
      HeadsAt(lines[..|lines| - 1], i);
    }
  }

  // ---------------------------------------------------------------------------
  // Sections, declaratively, over the heads of the lines

  /** The index of the last header. */
  function LastHead(hs: seq<Option<string>>): (r: Option<nat>)
    ensures r.Some? ==> r.value < |hs| && hs[r.value].Some?
    ensures r.Some? ==> forall j | r.value < j < |hs| :: hs[j].None?
    ensures r.None? ==> forall j | 0 <= j < |hs| :: hs[j].None?
    decreases |hs|
  {
    if hs == [] then None
    else if hs[|hs| - 1].Some? then Some(|hs| - 1)
    else
      var r := LastHead(hs[..|hs| - 1]);
      assert forall j | 0 <= j < |hs| - 1 :: hs[..|hs| - 1][j] == hs[j];
      r
  }

  /** The index of the last header for `k`. */
  function LastHeadFor(hs: seq<Option<string>>, k: string): (r: Option<nat>)
    ensures r.Some? ==> r.value < |hs| && hs[r.value] == Some(k)
    ensures r.Some? ==> forall j | r.value < j < |hs| :: hs[j] != Some(k)
    ensures r.None? ==> forall j | 0 <= j < |hs| :: hs[j] != Some(k)
    decreases |hs|
  {
    if hs == [] then None
    else if hs[|hs| - 1] == Some(k) then Some(|hs| - 1)
    else
      var r := LastHeadFor(hs[..|hs| - 1], k);
      assert forall j | 0 <= j < |hs| - 1 :: hs[..|hs| - 1][j] == hs[j];
      r
  }

  /** The index of the first header at or after `i`, or the end. */
  function NextHead(hs: seq<Option<string>>, i: nat): (e: nat)
    requires i <= |hs|
    ensures i <= e <= |hs|
    ensures forall j | i <= j < e :: hs[j].None?
    ensures e < |hs| ==> hs[e].Some?
    decreases |hs| - i
  {
    if i == |hs| || hs[i].Some? then i else NextHead(hs, i + 1)
  }

  lemma {:induction false} NextHeadIs(hs: seq<Option<string>>, i: nat, e: nat)
    requires i <= e <= |hs|
    requires forall j | i <= j < e :: hs[j].None?
    requires e < |hs| ==> hs[e].Some?
    ensures NextHead(hs, i) == e
    decreases e - i
  {
    if i < e {
      NextHeadIs(hs, i + 1, e);
    }
  }

  /** Where the section of `k` lies: after its last header, up to the next header or the end. */
  function Section(hs: seq<Option<string>>, k: string): (r: Option<(nat, nat)>)
    ensures r.Some? ==> 1 <= r.value.0 <= r.value.1 <= |hs|
  {
    match LastHeadFor(hs, k)
    case None => None
    case Some(h) => Some((h + 1, NextHead(hs, h + 1)))
  }

  /**
   * The section of `k`: the lines strictly after its last header, up to the
   * next header or the end. Lines before the first header are in no section.
   */
  function SectionBody(lines: seq<string>, k: string): Option<seq<string>> {
    match Section(Heads(lines), k)
    case None => None
    case Some((start, end)) => Some(lines[start..end])
  }

  /** A section exists exactly when some header names `k`. */
  lemma SectionBodyExists(lines: seq<string>, k: string)
    ensures SectionBody(lines, k).Some? <==> exists j | 0 <= j < |lines| :: HeadOf(lines[j]) == Some(k)
  {
    var hs := Heads(lines);
    if exists j | 0 <= j < |lines| :: HeadOf(lines[j]) == Some(k) {
      var j :| 0 <= j < |lines| && HeadOf(lines[j]) == Some(k);
      HeadsAt(lines, j);
    } else {
      forall j | 0 <= j < |hs| ensures hs[j] != Some(k) {
        HeadsAt(lines, j);
      }
    }
  }

  /**
   * A section starts right after the last header naming `k` and holds no
   * header: it runs up to the next header or the end.
   */
  lemma SectionPlace(hs: seq<Option<string>>, k: string) returns (h: nat, e: nat)
    requires Section(hs, k).Some?
    ensures Section(hs, k) == Some((h + 1, e))
    ensures h < e <= |hs| && hs[h] == Some(k)
    ensures forall j | h < j < |hs| :: hs[j] != Some(k)
    ensures forall j | h < j < e :: hs[j].None?
    ensures e < |hs| ==> hs[e].Some?
  {
    h := LastHeadFor(hs, k).value;
    e := NextHead(hs, h + 1);
  }

  // ---------------------------------------------------------------------------
  // Trimming

  /** `not line.strip()`. */
  predicate Blank(line: string) {
    Strip(line) == []
  }

  /** Drop the lines at the front for which `blank` holds. */
  function DropLeading(body: seq<string>, blank: string -> bool): (r: seq<string>)
    ensures |r| <= |body| && r == body[|body| - |r|..]
    ensures forall i | 0 <= i < |body| - |r| :: blank(body[i])
    ensures r == [] || !blank(r[0])
    decreases |body|
  {
    if body != [] && blank(body[0]) then
      var rest := body[1..];
      var r := DropLeading(rest, blank);
      SuffixOfTail(body, r);
      forall i | 0 <= i < |body| - |r| ensures blank(body[i]) {
        if i > 0 {
          assert body[i] == rest[i - 1];
        }
      }
      r
    else body
  }

  /** A suffix of the tail of `body` is a suffix of `body`. */
  lemma SuffixOfTail<T>(body: seq<T>, r: seq<T>)
    requires body != [] && |r| <= |body| - 1 && r == body[1..][|body| - 1 - |r|..]
    ensures r == body[|body| - |r|..]
  {
  }

  /** Drop the lines at the back for which `blank` holds. */
  function DropTrailing(body: seq<string>, blank: string -> bool): (r: seq<string>)
    ensures |r| <= |body| && r == body[..|r|]
    ensures forall i | |r| <= i < |body| :: blank(body[i])
    ensures r == [] || !blank(r[|r| - 1])
    decreases |body|
  {
    if body != [] && blank(body[|body| - 1]) then
      var init := body[..|body| - 1];
      var r := DropTrailing(init, blank);
      PrefixOfInit(body, r);
      forall i | |r| <= i < |body| ensures blank(body[i]) {
        if i < |body| - 1 {
          assert body[i] == init[i];
        }
      }
      r
    else body
  }

  /** A prefix of `body` without its last element is a prefix of `body`. */
  lemma PrefixOfInit<T>(body: seq<T>, r: seq<T>)
    requires body != [] && |r| <= |body| - 1 && r == body[..|body| - 1][..|r|]
    ensures r == body[..|r|]
  {
  }

  lemma DropLeadingStep(body: seq<string>, blank: string -> bool)
    requires body != [] && blank(body[0])
    ensures DropLeading(body[1..], blank) == DropLeading(body, blank)
  {
  }

  lemma DropTrailingStep(body: seq<string>, blank: string -> bool)
    requires body != [] && blank(body[|body| - 1])
    ensures DropTrailing(body[..|body| - 1], blank) == DropTrailing(body, blank)
  {
  }

  /** A section without its blank lines at either end. */
  function TrimBlank(body: seq<string>): seq<string> {
    DropTrailing(DropLeading(body, Blank), Blank)
  }

  /**
   * Trimming keeps one contiguous run of the lines, drops only blank lines
   * around it, and leaves no blank line at either end.
   */
  lemma TrimBlankShape(body: seq<string>) returns (i: nat)
    ensures TrimmedAt(body, TrimBlank(body), i, Blank)
  {
    var l := DropLeading(body, Blank);
    i := |body| - |l|;
    TrimmedParts(body, l, DropTrailing(l, Blank), i, Blank);
  }

  lemma TrimmedParts(body: seq<string>, l: seq<string>, r: seq<string>, i: nat, blank: string -> bool)
    requires i == |body| - |l| && l == body[i..]
    requires forall j | 0 <= j < i :: blank(body[j])
    requires l == [] || !blank(l[0])
    requires |r| <= |l| && r == l[..|r|]
    requires forall j | |r| <= j < |l| :: blank(l[j])
    requires r == [] || !blank(r[|r| - 1])
    ensures TrimmedAt(body, r, i, blank)
  {
    assert r == body[i..i + |r|];
    forall j | i + |r| <= j < |body| ensures blank(body[j]) {
      assert body[j] == l[j - i];
    }
    if r != [] {
      assert r[0] == l[0];
    }
  }

  /**
   * `r` is `body[i..]` up to lines for which `blank` holds, with no such line
   * at either end of `r`.
   */
  predicate TrimmedAt(body: seq<string>, r: seq<string>, i: int, blank: string -> bool) {
    && 0 <= i <= |body| - |r|
    && r == body[i..i + |r|]
    && (forall j | 0 <= j < i :: blank(body[j]))
    && (forall j | i + |r| <= j < |body| :: blank(body[j]))
    && (r == [] || (!blank(r[0]) && !blank(r[|r| - 1])))
  }

  /** What `extract_section` returns for a changelog's lines. */
  function Extract(lines: seq<string>, version: string): Result<seq<string>, NotesError> {
    match SectionBody(lines, version)
    case None => Err(VersionNotFound(version))
    case Some(body) => Ok(TrimBlank(body))
  }

  // ---------------------------------------------------------------------------
  // The scan of `extract_section`, line by line

  /** What the loop keeps: each key's (start, end) and the open section's key and start. */
  datatype ScanState = ScanState(sections: map<string, (nat, Option<nat>)>, currentKey: Option<string>, currentStart: Option<nat>)

  /** The loop's effect of line `idx`, given what the line says about sections. */
  function Step(st: ScanState, head: Option<string>, idx: nat): ScanState {
    match head
    case None => st
    case Some(key) =>
      var closed :=
        if st.currentKey.Some? && st.currentStart.Some? && st.currentKey.value in st.sections then
          st.sections[st.currentKey.value := (st.sections[st.currentKey.value].0, Some(idx))]
        else st.sections;
      ScanState(closed[key := (idx + 1, None)], Some(key), Some(idx + 1))
  }

  /** The state after the first `n` lines. */
  function Scan(hs: seq<Option<string>>, n: nat): ScanState
    requires n <= |hs|
  {
    if n == 0 then ScanState(map[], None, None)
    else Step(Scan(hs, n - 1), hs[n - 1], n - 1)
  }

  /** What the scan has recorded after `n` lines, in terms of the headers among them. */
  ghost predicate Scanned(hs: seq<Option<string>>, n: nat, st: ScanState)
    requires n <= |hs|
  {
    var p := hs[..n];
    && ScanOpen(hs, p, st)
    && ScanStarts(p, st.sections)
    && ScanEnds(hs, st.sections, st.currentKey)
  }

  /** The open section is the one of the last header so far, if any, and has no end yet. */
  ghost predicate ScanOpen(hs: seq<Option<string>>, p: seq<Option<string>>, st: ScanState)
    requires |p| <= |hs|
  {
    && (st.currentKey.Some? <==> LastHead(p).Some?)
    && (st.currentStart.Some? <==> LastHead(p).Some?)
    && (LastHead(p).Some? ==>
          var c := LastHead(p).value;
          && st.currentKey == hs[c] && st.currentStart == Some(c + 1)
          && st.currentKey.value in st.sections && st.sections[st.currentKey.value].1.None?)
  }

  /** A key is recorded once a header names it, starting after its last such header. */
  ghost predicate ScanStarts(p: seq<Option<string>>, sections: map<string, (nat, Option<nat>)>) {
    && (forall k :: k in sections <==> LastHeadFor(p, k).Some?)
    && (forall k | k in sections :: sections[k].0 == LastHeadFor(p, k).value + 1)
  }

  /** Every section but the open one ends at the next header after its start. */
  ghost predicate ScanEnds(hs: seq<Option<string>>, sections: map<string, (nat, Option<nat>)>, currentKey: Option<string>) {
    forall k | k in sections && currentKey != Some(k) ::
      sections[k].0 <= |hs| && sections[k].1 == Some(NextHead(hs, sections[k].0))
  }

  lemma {:induction false} ScanIsScanned(hs: seq<Option<string>>, n: nat)
    requires n <= |hs|
    ensures Scanned(hs, n, Scan(hs, n))
  {
    if n == 0 {
      ScanStart(hs);
    } else {
      ScanIsScanned(hs, n - 1);
      ScanAdvance(hs, n);
    }
  }

  /** Before the first line nothing is recorded and nothing is open. */
  lemma ScanStart(hs: seq<Option<string>>)
    ensures Scanned(hs, 0, ScanState(map[], None, None))
  {
    assert hs[..0] == [];
  }

  /** One more line keeps the scan's state what the lines so far say. */
  lemma ScanAdvance(hs: seq<Option<string>>, n: nat)
    requires 0 < n <= |hs|
    requires Scanned(hs, n - 1, Scan(hs, n - 1))
    ensures Scanned(hs, n, Scan(hs, n))
  {
    var st := Scan(hs, n - 1);
    assert Scan(hs, n) == Step(st, hs[n - 1], n - 1);
    ScanStep(hs, n - 1, st);
  }

  lemma ScanStep(hs: seq<Option<string>>, idx: nat, st: ScanState)
    requires idx < |hs|
    requires Scanned(hs, idx, st)
    ensures Scanned(hs, idx + 1, Step(st, hs[idx], idx))
  {
    assert hs[..idx + 1][..idx] == hs[..idx];
    if hs[idx].None? {
      ScanPlainLine(hs, idx, st);
    } else {
      ScanHeaderLine(hs, idx, st);
    }
  }

  /** A line that is no header changes nothing. */
  lemma ScanPlainLine(hs: seq<Option<string>>, idx: nat, st: ScanState)
    requires idx < |hs| && hs[idx].None?
    requires hs[..idx + 1][..idx] == hs[..idx]
    requires Scanned(hs, idx, st)
    ensures Scanned(hs, idx + 1, st)
  {
    var p, q := hs[..idx], hs[..idx + 1];
    assert LastHead(q) == LastHead(p);
    forall k ensures LastHeadFor(q, k) == LastHeadFor(p, k) {
    }
  }

  /** A header closes the open section at its own line and opens its key's section after it. */
  lemma ScanHeaderLine(hs: seq<Option<string>>, idx: nat, st: ScanState)
    requires idx < |hs| && hs[idx].Some?
    requires hs[..idx + 1][..idx] == hs[..idx]
    requires Scanned(hs, idx, st)
    ensures Scanned(hs, idx + 1, Step(st, hs[idx], idx))
  {
    var p, q := hs[..idx], hs[..idx + 1];
    var st' := Step(st, hs[idx], idx);
    HeadsAfterHeader(hs, idx);
    assert ScanOpen(hs, q, st');
    HeaderStarts(hs, idx, st);
    HeaderEnds(hs, idx, st);
  }

  /** After a header at `idx`, it is the last header, and the last one for its key. */
  lemma HeadsAfterHeader(hs: seq<Option<string>>, idx: nat)
    requires idx < |hs| && hs[idx].Some?
    requires hs[..idx + 1][..idx] == hs[..idx]
    ensures LastHead(hs[..idx + 1]) == Some(idx)
    ensures LastHeadFor(hs[..idx + 1], hs[idx].value) == Some(idx)
    ensures forall k | k != hs[idx].value :: LastHeadFor(hs[..idx + 1], k) == LastHeadFor(hs[..idx], k)
  {
  }

  lemma HeaderStarts(hs: seq<Option<string>>, idx: nat, st: ScanState)
    requires idx < |hs| && hs[idx].Some?
    requires hs[..idx + 1][..idx] == hs[..idx]
    requires ScanStarts(hs[..idx], st.sections)
    ensures ScanStarts(hs[..idx + 1], Step(st, hs[idx], idx).sections)
  {
    HeadsAfterHeader(hs, idx);
  }

  lemma HeaderEnds(hs: seq<Option<string>>, idx: nat, st: ScanState)
    requires idx < |hs| && hs[idx].Some?
    requires hs[..idx + 1][..idx] == hs[..idx]
    requires ScanOpen(hs, hs[..idx], st) && ScanStarts(hs[..idx], st.sections)
    requires ScanEnds(hs, st.sections, st.currentKey)
    ensures ScanEnds(hs, Step(st, hs[idx], idx).sections, Some(hs[idx].value))
  {
    var p := hs[..idx];
    var key := hs[idx].value;
    var secs := Step(st, hs[idx], idx).sections;
    forall k | k in secs && Some(key) != Some(k)
      ensures secs[k].0 <= |hs| && secs[k].1 == Some(NextHead(hs, secs[k].0))
    {
      if st.currentKey == Some(k) {
        var c := LastHead(p).value;
        LastHeadIsFor(p, c);
        forall j | c + 1 <= j < idx ensures hs[j].None? {
          assert hs[j] == p[j];
        }
        NextHeadIs(hs, c + 1, idx);
      }
    }
  }

  /** The last header is the last one for its own key. */
  lemma LastHeadIsFor(p: seq<Option<string>>, c: nat)
    requires LastHead(p) == Some(c)
    ensures LastHeadFor(p, p[c].value) == Some(c)
  {
  }

  /** The loop's end: the open section, if any, runs to the end of the file. */
  function Close(st: ScanState, len: nat): map<string, (nat, Option<nat>)> {
    if st.currentKey.Some? && st.currentStart.Some? && st.currentKey.value in st.sections then
      st.sections[st.currentKey.value := (st.sections[st.currentKey.value].0, Some(len))]
    else st.sections
  }

  /** After the whole file, every recorded section is the declarative one. */
  lemma ClosedSections(hs: seq<Option<string>>, k: string)
    ensures var sections := Close(Scan(hs, |hs|), |hs|);
      && (k in sections <==> Section(hs, k).Some?)
      && (k in sections ==> sections[k].1.Some? && (sections[k].0, sections[k].1.value) == Section(hs, k).value)
  {
    ScanIsScanned(hs, |hs|);
    ClosedFromScanned(hs, Scan(hs, |hs|), k);
  }

  lemma ClosedFromScanned(hs: seq<Option<string>>, st: ScanState, k: string)
    requires Scanned(hs, |hs|, st)
    ensures var sections := Close(st, |hs|);
      && (k in sections <==> Section(hs, k).Some?)
      && (k in sections ==> sections[k].1.Some? && (sections[k].0, sections[k].1.value) == Section(hs, k).value)
  {
    assert hs[..|hs|] == hs;
    if st.currentKey == Some(k) {
      ClosedOpenSection(hs, st, k);
    }
  }

  /** The section still open at the end of the file runs to the end. */
  lemma ClosedOpenSection(hs: seq<Option<string>>, st: ScanState, k: string)
    requires LastHead(hs).Some? && st.currentKey == Some(k) && st.currentStart.Some?
    requires st.currentKey == hs[LastHead(hs).value] && k in st.sections
    requires st.sections[k].0 == LastHeadFor(hs, k).value + 1
    ensures Close(st, |hs|)[k] == (st.sections[k].0, Some(|hs|))
    ensures Section(hs, k) == Some((st.sections[k].0, |hs|))
  {
    var c := LastHead(hs).value;
    assert LastHeadFor(hs, k) == Some(c);
    NextHeadIs(hs, c + 1, |hs|);
  }

  // ---------------------------------------------------------------------------
  // The extractor

  /**
   * `extract_section` on the changelog's text (reading the file is left
   * out): scan for headers, close the last section, look the version up and
   * trim blank lines from both ends of its body.
   */
  method ExtractSection(changelog: string, version: string) returns (r: Result<seq<string>, NotesError>)
    ensures r == Extract(SplitLines(changelog), version)
  {
    var lines := SplitLines(changelog);
    var sections := ScanSections(lines);
    ClosedSections(Heads(lines), version);
    if version !in sections {
      return Err(VersionNotFound(version));
    }
    var (start, end) := sections[version];
    var body := PopLeading(lines[start..end.value]);
    body := PopTrailing(body);
    r := Ok(body);
  }

  /**
   * The header loop of `extract_section` and the closing of the last
   * section: each key's start line and end line.
   */
  method ScanSections(lines: seq<string>) returns (sections: map<string, (nat, Option<nat>)>)
    ensures sections == Close(Scan(Heads(lines), |lines|), |lines|)
  {
    ghost var hs := Heads(lines);
    assert |hs| == |lines|;
    sections := map[];
    var currentKey: Option<string> := None;
    var currentStart: Option<nat> := None;
    for idx := 0 to |lines|
      invariant ScanState(sections, currentKey, currentStart) == Scan(hs, idx)
    {
      HeadsAt(lines, idx);
      sections, currentKey, currentStart := ScanLine(sections, currentKey, currentStart, lines[idx], idx);
    }
    sections := CloseLast(sections, currentKey, currentStart, |lines|);
  }

  /** After the loop: the open section, if any, ends at the end of the file. */
  method CloseLast(sections: map<string, (nat, Option<nat>)>, currentKey: Option<string>, currentStart: Option<nat>, len: nat)
    returns (sections': map<string, (nat, Option<nat>)>)
    ensures sections' == Close(ScanState(sections, currentKey, currentStart), len)
  {
    sections' := sections;
    if currentKey.Some? && currentStart.Some? && currentKey.value in sections {
      var start := sections[currentKey.value].0;
      sections' := sections[currentKey.value := (start, Some(len))];
    }
  }

  /** The body of the header loop for line `idx`. */
  method ScanLine(sections: map<string, (nat, Option<nat>)>, currentKey: Option<string>, currentStart: Option<nat>, line: string, idx: nat)
    returns (sections': map<string, (nat, Option<nat>)>, currentKey': Option<string>, currentStart': Option<nat>)
    ensures ScanState(sections', currentKey', currentStart') == Step(ScanState(sections, currentKey, currentStart), HeadOf(line), idx)
  {
    sections', currentKey', currentStart' := sections, currentKey, currentStart;
    if StartsWith(line, "## [") {
      if currentKey'.Some? && currentStart'.Some? && currentKey'.value in sections' {
        var start := sections'[currentKey'.value].0;
        sections' := sections'[currentKey'.value := (start, Some(idx))];
      }
      var key := HeaderKey(line);
      currentKey' := Some(key);
      currentStart' := Some(idx + 1);
      sections' := sections'[key := (idx + 1, None)];
    }
  }

  /** The first `pop` loop of `extract_section`: blank lines off the front. */
  method PopLeading(section: seq<string>) returns (body: seq<string>)
    ensures body == DropLeading(section, Blank)
  {
    body := section;
    while body != [] && Blank(body[0])
      invariant DropLeading(body, Blank) == DropLeading(section, Blank)
    {
      DropLeadingStep(body, Blank);
      body := body[1..];
    }
  }

  /** The second `pop` loop of `extract_section`: blank lines off the back. */
  method PopTrailing(section: seq<string>) returns (body: seq<string>)
    ensures body == DropTrailing(section, Blank)
  {
    body := section;
    while body != [] && Blank(body[|body| - 1])
      invariant DropTrailing(body, Blank) == DropTrailing(section, Blank)
    {
      DropTrailingStep(body, Blank);
      body := body[..|body| - 1];
    }
  }

  // ---------------------------------------------------------------------------
  // Output

  /** `"\n".join(body).rstrip() + "\n"`. */
  function RenderNotes(body: seq<string>): (out: string)
    ensures |out| >= 1 && out[|out| - 1] == '\n'
    ensures |out| == 1 || out[|out| - 2] !in Whitespace
  {
    RStrip(Join(body, "\n"), Whitespace) + "\n"
  }

  /** The output is the joined notes less trailing whitespace, plus one newline. */
  lemma RenderNotesIsJoin(body: seq<string>)
    ensures var text := Join(body, "\n"); var out := RenderNotes(body);
      && out[..|out| - 1] == text[..|out| - 1]
      && AllIn(text[|out| - 1..], Whitespace)
  {
  }
}
