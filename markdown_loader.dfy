/**
 * Markdown loading: a document may open with a front-matter block between
 * `---` markers whose `key: value` lines become metadata; everything else is
 * the body. Documents under a root are produced in sorted path order.
 */
module MarkdownLoader {
  import opened Wrappers
  import opened PyStrings
  import opened Dicts

  /** A path below the root, as its components. */
  type Path = seq<string>

  datatype MarkdownDocument = MarkdownDocument(path: Path, metadata: map<string, string>, body: string)

  /**
   * The header and the rest of a text that opens with "---\n" and has a
   * closing "---" later: `text.split("---", 2)` then has three parts, of
   * which the first is empty.
   */
  function FrontMatter(text: string): Option<(string, string)> {
    if !StartsWith(text, "---\n") then None
    else
      var parts := Split(text, "---", 2);
      if |parts| >= 3 then Some((parts[1], parts[2])) else None
  }

  /**
   * There is a front-matter block exactly when the text opens with "---\n"
   * and "---" occurs again after the opening marker; the header is then what
   * lies between the opening marker and the first closing one.
   */
  lemma FrontMatterShape(text: string)
    ensures FrontMatter(text).Some? <==> StartsWith(text, "---\n") && Contains(text[3..], "---")
    ensures FrontMatter(text).Some? ==>
      var (header, rest) := FrontMatter(text).value;
      text == "---" + header + "---" + rest && !Contains(header, "---")
  {
    if StartsWith(text, "---\n") {
      var after := text[3..];
      OpeningCut(text);
      match Find(after, "---", 0)
      case None =>
        assert Split(after, "---", 1) == [after];
      case Some(j) =>
        ClosingCut(text, j);
    }
  }

  /** The opening marker is the first occurrence of "---", at index 0. */
  lemma OpeningCut(text: string)
    requires StartsWith(text, "---\n")
    ensures Split(text, "---", 2) == [""] + Split(text[3..], "---", 1)
  {
    assert text[0..3] == "---";
    assert Find(text, "---", 0) == Some(0);
    assert text[..0] == "";
  }

  /** With a closing marker at `j` after the opening one, the header is what lies between them. */
  lemma ClosingCut(text: string, j: nat)
    requires StartsWith(text, "---\n") && Find(text[3..], "---", 0) == Some(j)
    ensures var after := text[3..];
      && FrontMatter(text) == Some((after[..j], after[j + 3..]))
      && text == "---" + after[..j] + "---" + after[j + 3..]
      && !Contains(after[..j], "---")
  {
    var after := text[3..];
    OpeningCut(text);
    FirstCut(after, "---", j);
    assert Split(after, "---", 1) == [after[..j]] + Split(after[j + 3..], "---", 0);
    assert text == text[..3] + after;
  }

  /**
   * What one header line contributes: after stripping, blank lines, comment
   * lines and lines without ':' give nothing; otherwise the line is cut at
   * its first ':' and both halves are stripped.
   */
  function HeaderEntry(line: string): Option<(string, string)> {
    var l := Strip(line);
    if l == [] || StartsWith(l, "#") then None
    else if ':' in l then Some((Strip(Before(l, ':')), Strip(After(l, ':'))))
    else None
  }

  /** The cut is Python's: `":" in l` and `l.split(":", 1)`. */
  lemma HeaderEntryIsSplit(line: string)
    ensures var l := Strip(line);
      && (Contains(l, ":") <==> ':' in l)
      && (':' in l ==> Split(l, ":", 1) == [Before(l, ':'), After(l, ':')])
  {
    var l := Strip(line);
    assert ":" == [':'];
    ContainsChar(l, ':');
    SplitAtChar(l, ':');
  }

  /** A key holds no ':' and no surrounding whitespace; a value has no surrounding whitespace. */
  lemma HeaderEntryShape(line: string)
    ensures HeaderEntry(line).Some? <==>
      var l := Strip(line); l != [] && !StartsWith(l, "#") && ':' in l
    ensures HeaderEntry(line).Some? ==>
      var (key, value) := HeaderEntry(line).value;
      ':' !in key && Trimmed(key) && Trimmed(value)
  {
    var l := Strip(line);
    if HeaderEntry(line).Some? {
      StripKeepsOut(Before(l, ':'), ':');
    }
  }

  /** A line written as `key: value` reads back as that key and value. */
  lemma HeaderEntryRoundTrip(key: string, value: string)
    requires key != [] && Trimmed(key) && key[0] != '#' && ':' !in key
    requires Trimmed(value)
    ensures HeaderEntry(key + ": " + value) == Some((key, value))
  {
    StrippedEntryLine(key, value);
    HeaderEntryOfStripped(key + ": " + value, key, AfterColon(value));
    StripNoop(key);
    StripValue(value);
  }

  /** How `HeaderEntry` reads a line whose stripped form is `key:rest` with a colon-free key. */
  lemma HeaderEntryOfStripped(line: string, key: string, rest: string)
    requires key != [] && key[0] != '#' && ':' !in key
    requires Strip(line) == key + ":" + rest
    ensures HeaderEntry(line) == Some((Strip(key), Strip(rest)))
  {
    CutColon(Strip(line), key, rest);
  }

  lemma CutColon(l: string, key: string, rest: string)
    requires key != [] && key[0] != '#' && ':' !in key
    requires l == key + ":" + rest
    ensures l != [] && !StartsWith(l, "#") && ':' in l
    ensures Before(l, ':') == key && After(l, ':') == rest
  {
    assert l == key + [':'] + rest;
    CutAt(key, ':', rest);
    assert l[0] == key[0];
    assert l[|key|] == ':';
  }

  /** What follows the colon of `key: value` once the line is stripped. */
  function AfterColon(value: string): string {
    if value == [] then "" else " " + value
  }

  lemma StripValue(value: string)
    requires Trimmed(value)
    ensures Strip(AfterColon(value)) == value
  {
    var rest := AfterColon(value);
    if value != [] {
      assert AllIn(" ", Whitespace);
      assert " " + value + [] == rest;
      StripPadded(" ", value, []);
    }
    StripNoop(value);
  }

  /** `strip()` of `key: value` drops only the blank after the colon when the value is empty. */
  lemma StrippedEntryLine(key: string, value: string)
    requires key != [] && Trimmed(key) && Trimmed(value)
    ensures Strip(key + ": " + value) == key + ":" + AfterColon(value)
  {
    if value == [] {
      assert key + ": " + value == key + ": ";
      assert key + ":" + AfterColon(value) == key + ":";
      StripEntryWithoutValue(key);
    } else {
      assert key + ":" + AfterColon(value) == key + ": " + value;
      StripEntryWithValue(key, value);
    }
  }

  lemma StripEntryWithValue(key: string, value: string)
    requires key != [] && Trimmed(key) && Trimmed(value) && value != []
    ensures Strip(key + ": " + value) == key + ": " + value
  {
    var line := key + ": " + value;
    assert line[0] == key[0];
    assert line[|line| - 1] == value[|value| - 1];
    StripNoop(line);
  }

  lemma StripEntryWithoutValue(key: string)
    requires key != [] && Trimmed(key)
    ensures Strip(key + ": ") == key + ":"
  {
    var t := key + ":";
    assert t[0] == key[0];
    assert key + ": " == t + " ";
    StripTrailingBlank(t);
  }

  lemma StripTrailingBlank(t: string)
    requires Trimmed(t)
    ensures Strip(t + " ") == t
  {
    assert t + " " == [] + t + " ";
    assert AllIn(" ", Whitespace);
    StripPadded([], t, " ");
    StripNoop(t);
  }

  /** The metadata of a header: its entries applied in order to an empty dict. */
  function HeaderMetadata(lines: seq<string>): map<string, string>
    decreases |lines|
  {
    if lines == [] then map[]
    else
      var m := HeaderMetadata(lines[..|lines| - 1]);
      match HeaderEntry(lines[|lines| - 1])
      case None => m
      case Some((key, value)) => m[key := value]
  }

  /** The entries of a header, in order. */
  function Entries(lines: seq<string>): (kvs: seq<(string, string)>)
    decreases |lines|
  {
    if lines == [] then []
    else
      var init := Entries(lines[..|lines| - 1]);
      match HeaderEntry(lines[|lines| - 1])
      case None => init
      case Some(kv) => init + [kv]
  }

  /**
   * The metadata is the entries assigned in order, so a repeated key keeps the
   * value of its last line (`AssignLastWins`), and every key comes from a line.
   */
  lemma {:induction false} HeaderMetadataIsAssign(lines: seq<string>)
    ensures HeaderMetadata(lines) == Assign(map[], Entries(lines))
    decreases |lines|
  {
    if lines != [] {
      HeaderMetadataIsAssign(lines[..|lines| - 1]);
    }
  }

  /** Every key of a header's metadata is stripped and holds no ':'. */
  lemma {:induction false} HeaderMetadataKeys(lines: seq<string>)
    ensures forall key | key in HeaderMetadata(lines) :: ':' !in key && Trimmed(key)
    decreases |lines|
  {
    if lines != [] {
      HeaderMetadataKeys(lines[..|lines| - 1]);
      HeaderEntryShape(lines[|lines| - 1]);
    }
  }

  /** One more header line: what `HeaderMetadata` adds for it. */
  lemma HeaderMetadataStep(lines: seq<string>, i: nat)
    requires i < |lines|
    ensures HeaderMetadata(lines[..i + 1]) ==
      match HeaderEntry(lines[i])
      case None => HeaderMetadata(lines[..i])
      case Some((key, value)) => HeaderMetadata(lines[..i])[key := value]
  {
    assert lines[..i + 1][..i] == lines[..i];
  }

  /** The document `_load_single` builds from a file's path and text. */
  function ParseDocument(path: Path, text: string): MarkdownDocument {
    match FrontMatter(text)
    case None => MarkdownDocument(path, map[], text)
    case Some((header, rest)) => MarkdownDocument(path, HeaderMetadata(SplitLines(header)), LStrip(rest, {'\n'}))
  }

  /** Without a complete front-matter block the metadata is empty and the body is the whole text. */
  lemma ParseWithoutFrontMatter(path: Path, text: string)
    requires !StartsWith(text, "---\n") || !Contains(text[3..], "---")
    ensures ParseDocument(path, text) == MarkdownDocument(path, map[], text)
  {
    FrontMatterShape(text);
  }

  /** Every metadata key is stripped and free of ':'. */
  lemma ParsedKeys(path: Path, text: string)
    ensures forall key | key in ParseDocument(path, text).metadata :: ':' !in key && Trimmed(key)
  {
    if FrontMatter(text).Some? {
      HeaderMetadataKeys(SplitLines(FrontMatter(text).value.0));
    }
  }

  /**
   * With a front-matter block, the body is what follows the closing marker
   * less its leading newlines, and nothing else.
   */
  lemma ParsedBody(path: Path, text: string)
    requires FrontMatter(text).Some?
    ensures var rest := FrontMatter(text).value.1; var body := ParseDocument(path, text).body;
      && |body| <= |rest|
      && rest == rest[..|rest| - |body|] + body
      && (forall i | 0 <= i < |rest| - |body| :: rest[i] == '\n')
      && (body == [] || body[0] != '\n')
  {
    var rest := FrontMatter(text).value.1;
    assert ParseDocument(path, text).body == LStrip(rest, {'\n'});
    LeadingNewlines(rest, LStrip(rest, {'\n'}));
  }

  /** The facts `LStrip(rest, {'\n'})` promises, restated on slices. */
  lemma LeadingNewlines(rest: string, body: string)
    requires |body| <= |rest| && body == rest[|rest| - |body|..]
    requires AllIn(rest[..|rest| - |body|], {'\n'})
    requires body == [] || body[0] !in {'\n'}
    ensures && |body| <= |rest|
      && rest == rest[..|rest| - |body|] + body
      && (forall i | 0 <= i < |rest| - |body| :: rest[i] == '\n')
      && (body == [] || body[0] != '\n')
  {
    assert rest == rest[..|rest| - |body|] + body;
    assert forall i | 0 <= i < |rest| - |body| :: rest[i] == rest[..|rest| - |body|][i];
  }

  /**
   * `_load_single` on a file's text (reading the file is left out): start
   * from empty metadata and the whole text as body, and parse a front-matter
   * block when there is a complete one.
   */
  method LoadSingle(path: Path, text: string) returns (doc: MarkdownDocument)
    ensures doc == ParseDocument(path, text)
  {
    var metadata: map<string, string> := map[];
    var body := text;
    if StartsWith(text, "---\n") {
      var parts := Split(text, "---", 2);
      if |parts| >= 3 {
        var header, rest := parts[1], parts[2];
        body := LStrip(rest, {'\n'});
        metadata := ReadHeader(SplitLines(header));
      }
    }
    doc := MarkdownDocument(path, metadata, body);
  }

  /** The header loop of `_load_single`: each line's entry, if any, is assigned in turn. */
  method ReadHeader(lines: seq<string>) returns (metadata: map<string, string>)
    ensures metadata == HeaderMetadata(lines)
  {
    metadata := map[];
    var i := 0;
    while i < |lines|
      invariant 0 <= i <= |lines|
      invariant metadata == HeaderMetadata(lines[..i])
    {
      HeaderMetadataStep(lines, i);
      var entry := ReadEntry(lines[i]);
      if entry.Some? {
        metadata := metadata[entry.value.0 := entry.value.1];
      }
      i := i + 1;
    }
    assert lines[..|lines|] == lines;
  }

  /** The body of the header loop for one line: skip it, or cut it at its first ':'. */
  method ReadEntry(raw: string) returns (entry: Option<(string, string)>)
    ensures entry == HeaderEntry(raw)
  {
    HeaderEntryIsSplit(raw);
    var line := Strip(raw);
    if line == [] || StartsWith(line, "#") {
      return None;
    }
    if Contains(line, ":") {
      var kv := Split(line, ":", 1);
      entry := Some((Strip(kv[0]), Strip(kv[1])));
    } else {
      entry := None;
    }
  }

  // ---------------------------------------------------------------------
  // Walking the root
  // ---------------------------------------------------------------------

  /** Path order: component lists compared lexicographically, components as strings. */
  function PathLess(a: Path, b: Path): bool {
    LexLess(a, b, StrLess)
  }

  lemma PathLessIsStrictTotal()
    ensures StrictTotalOrder(PathLess)
  {
    StrLessIsStrictTotal();
    LexOrder(StrLess);
  }

  /** Strictly increasing under `less`. */
  predicate Increasing<T>(xs: seq<T>, less: (T, T) -> bool) {
    forall i, j | 0 <= i < j < |xs| :: less(xs[i], xs[j])
  }

  function Elems<T>(s: seq<T>): set<T> {
    set x | x in s
  }

  /**
   * `sorted(...)` on a set under a strict total order: each element once, in
   * increasing order, found by picking the least remaining one each time.
   */
  method Sorted<T(!new)>(found: set<T>, less: (T, T) -> bool) returns (xs: seq<T>)
    requires StrictTotalOrder(less)
    ensures Elems(xs) == found
    ensures Increasing(xs, less)
  {
    xs := [];
    var remaining := found;
    while remaining != {}
      invariant SortedSoFar(xs, remaining, found, less)
      decreases |remaining|
    {
      LeastExists(remaining, less);
      var x :| IsLeast(x, remaining, less);
      SortStep(xs, remaining, found, x, less);
      xs := xs + [x];
      remaining := remaining - {x};
    }
  }

  /** The loop's invariant: `xs` is increasing, below everything remaining, and with it makes up `found`. */
  predicate SortedSoFar<T>(xs: seq<T>, remaining: set<T>, found: set<T>, less: (T, T) -> bool) {
    && Elems(xs) + remaining == found
    && Increasing(xs, less)
    && forall i, y | 0 <= i < |xs| && y in remaining :: less(xs[i], y)
  }

  /** Appending the least remaining element keeps the order and the bound. */
  lemma SortStep<T>(xs: seq<T>, remaining: set<T>, found: set<T>, x: T, less: (T, T) -> bool)
    requires SortedSoFar(xs, remaining, found, less)
    requires IsLeast(x, remaining, less)
    ensures SortedSoFar(xs + [x], remaining - {x}, found, less)
  {
    assert Elems(xs + [x]) == Elems(xs) + {x};
  }

  function Paths(docs: seq<MarkdownDocument>): (paths: seq<Path>)
    ensures |paths| == |docs| && forall i | 0 <= i < |docs| :: paths[i] == docs[i].path
  {
    seq(|docs|, i requires 0 <= i < |docs| => docs[i].path)
  }

  /**
   * `iter_markdown`: nothing for a missing root; otherwise one document per
   * markdown file found below the root (`files`, path to text), in strictly
   * increasing path order, each parsed by `_load_single`.
   */
  method IterMarkdown(rootExists: bool, files: map<Path, string>) returns (docs: seq<MarkdownDocument>)
    ensures !rootExists ==> docs == []
    ensures rootExists ==> Elems(Paths(docs)) == files.Keys
    ensures Increasing(Paths(docs), PathLess)
    ensures forall i | 0 <= i < |docs| :: docs[i].path in files && docs[i] == ParseDocument(docs[i].path, files[docs[i].path])
  {
    docs := [];
    if !rootExists {
      return;
    }
    PathLessIsStrictTotal();
    var paths := Sorted(files.Keys, PathLess);
    var k := 0;
    while k < |paths|
      invariant 0 <= k <= |paths|
      invariant |docs| == k
      invariant forall i | 0 <= i < k :: docs[i].path == paths[i]
      invariant forall i | 0 <= i < k :: docs[i] == ParseDocument(paths[i], files[paths[i]])
    {
      assert paths[k] in files;
      var doc := LoadSingle(paths[k], files[paths[k]]);
      docs := docs + [doc];
      k := k + 1;
    }
    assert Paths(docs) == paths;
  }
}
