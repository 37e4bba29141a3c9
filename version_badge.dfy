/**
 * The static version badge: the colour of its right-hand side, inferred from
 * the version string or overridden by name or hex, the badge geometry, and
 * the `v` prefix the displayed version carries.
 */
module VersionBadge {
  import opened Wrappers
  import opened PyStrings

  const Green := "#2ea44f"
  const Orange := "#fe7d37"
  const Yellow := "#dfb317"
  const Red := "#e05d44"
  const Blue := "#007ec6"

  /** The five colours a version can get without an override. */
  predicate IsReleaseColour(c: string) {
    c == Green || c == Orange || c == Yellow || c == Red || c == Blue
  }

  /** The named override colours, looked up by lower-cased name. */
  function NamedColour(name: string): Option<string> {
    if name == "green" then Some(Green)
    else if name == "orange" then Some(Orange)
    else if name == "yellow" then Some(Yellow)
    else if name == "red" then Some(Red)
    else if name == "blue" then Some(Blue)
    else None
  }

  // ---------------------------------------------------------------------------
  // The end-anchored patterns `a\d*$`, `b\d*$` and `rc\d*$`

  predicate IsDigit(c: char) {
    '0' <= c <= '9'
  }

  predicate AllDigits(s: string) {
    forall i | 0 <= i < |s| :: IsDigit(s[i])
  }

  /** How many digits `s` ends with. */
  function TrailingDigits(s: string): (n: nat)
    ensures n <= |s|
    ensures forall i | |s| - n <= i < |s| :: IsDigit(s[i])
    ensures n < |s| ==> !IsDigit(s[|s| - n - 1])
    decreases |s|
  {
    if s != [] && IsDigit(s[|s| - 1]) then
      var n := TrailingDigits(s[..|s| - 1]);
      assert forall i | |s| - 1 - n <= i < |s| - 1 :: s[..|s| - 1][i] == s[i];
      n + 1
    else 0
  }

  /** `marker` followed by nothing but digits up to the end of `s`. */
  predicate MarkerThenDigits(s: string, marker: string) {
    EndsWith(s[..|s| - TrailingDigits(s)], marker)
  }

  /**
   * `re.search(marker + r"\d*$", s)`: without MULTILINE, `$` matches at the
   * end of the string and also just before a newline that ends it.
   */
  predicate SearchAtEnd(s: string, marker: string) {
    || MarkerThenDigits(s, marker)
    || (EndsWith(s, "\n") && MarkerThenDigits(s[..|s| - 1], marker))
  }

  /**
   * For a marker that does not end in a digit, the search succeeds exactly
   * when the marker occurs somewhere and only digits follow it up to the end.
   */
  lemma MarkerThenDigitsIff(s: string, marker: string)
    requires marker != [] && !IsDigit(marker[|marker| - 1])
    ensures MarkerThenDigits(s, marker) <==>
      exists i :: OccursAt(s, marker, i) && AllDigits(s[i + |marker|..])
  {
    if MarkerThenDigits(s, marker) {
      var i := MarkerThenDigitsWitness(s, marker);
    }
    if exists i :: OccursAt(s, marker, i) && AllDigits(s[i + |marker|..]) {
      var i :| OccursAt(s, marker, i) && AllDigits(s[i + |marker|..]);
      MarkerBeforeDigits(s, marker, i);
    }
  }

  /** Where the search succeeds: the marker right before the trailing digits. */
  lemma MarkerThenDigitsWitness(s: string, marker: string) returns (i: int)
    requires MarkerThenDigits(s, marker)
    ensures OccursAt(s, marker, i) && AllDigits(s[i + |marker|..])
  {
    var k := |s| - TrailingDigits(s);
    i := k - |marker|;
    assert s[i..i + |marker|] == s[..k][k - |marker|..];
    forall t | 0 <= t < |s| - k ensures IsDigit(s[k..][t]) {
      assert s[k..][t] == s[k + t];
    }
  }

  /** A marker ending in a non-digit and followed only by digits is what the search finds. */
  lemma MarkerBeforeDigits(s: string, marker: string, i: int)
    requires marker != [] && !IsDigit(marker[|marker| - 1])
    requires OccursAt(s, marker, i) && AllDigits(s[i + |marker|..])
    ensures MarkerThenDigits(s, marker)
  {
    var j := i + |marker|;
    assert s[..j] + s[j..] == s;
    assert s[..j][j - 1] == marker[|marker| - 1];
    TrailingDigitsAfter(s[..j], s[j..]);
    assert s[..|s| - TrailingDigits(s)] == s[..j];
    assert s[..j][j - |marker|..] == s[i..j];
  }

  /** Whatever `rc\d*$` finds, the plain `"rc" in v` test has found already. */
  lemma RcSuffixImpliesRc(v: string)
    requires SearchAtEnd(v, "rc")
    ensures Contains(v, "rc")
  {
    ContainsIff(v, "rc");
    var u := if MarkerThenDigits(v, "rc") then v else v[..|v| - 1];
    var k := |u| - TrailingDigits(u);
    assert u[k - 2..k] == u[..k][k - 2..];
    assert u[k - 2..k] == v[k - 2..k];
    assert OccursAt(v, "rc", k - 2);
  }

  // ---------------------------------------------------------------------------
  // Colour

  /**
   * `infer_color`: a non-empty override is looked up by lower-cased name and
   * otherwise used verbatim; without one, the lower-cased version is tested
   * in order for alpha, beta, release candidate and development markers.
   */
  function InferColour(version: string, override: Option<string>): string {
    if override.Some? && override.value != [] then
      NamedColour(Lower(override.value)).GetOr(override.value)
    else
      ColourOf(Lower(version))
  }

  /** The alpha tests: `"alpha" in v or re.search(r"a\d*$", v)`. */
  predicate AlphaTest(v: string) {
    Contains(v, "alpha") || SearchAtEnd(v, "a")
  }

  /** The beta tests: `"beta" in v or re.search(r"b\d*$", v)`. */
  predicate BetaTest(v: string) {
    Contains(v, "beta") || SearchAtEnd(v, "b")
  }

  /** The release-candidate tests: "rc", "candidate", "pre" or `rc\d*$`. */
  predicate CandidateTest(v: string) {
    Contains(v, "rc") || Contains(v, "candidate") || Contains(v, "pre") || SearchAtEnd(v, "rc")
  }

  /** The development tests: "dev", "nightly" or "snapshot". */
  predicate DevTest(v: string) {
    Contains(v, "dev") || Contains(v, "nightly") || Contains(v, "snapshot")
  }

  /** The release colour of an already lower-cased version: the first test that passes decides. */
  function ColourOf(v: string): (c: string)
    ensures IsReleaseColour(c)
  {
      if AlphaTest(v) then Red
      else if BetaTest(v) then Orange
      else if CandidateTest(v) then Yellow
      else if DevTest(v) then Blue
      else Green
  }

  /**
   * Without an override the colour is one of the five release colours and
   * depends only on the lower-cased version.
   */
  lemma InferColourOfVersion(version: string, override: Option<string>)
    requires override.None? || override.value == []
    ensures IsReleaseColour(InferColour(version, override))
    ensures InferColour(version, override) == InferColour(Lower(version), None)
  {
    var v := Lower(version);
    LowerIdempotent(version);
    assert InferColour(version, override) == ColourOf(v);
    assert InferColour(v, None) == ColourOf(Lower(v));
  }

  /**
   * An override names one of the five colours in any letter case, or is
   * returned as it is.
   */
  lemma InferColourOverride(version: string, name: string)
    requires name != []
    ensures NamedColour(Lower(name)).Some? ==> InferColour(version, Some(name)) == NamedColour(Lower(name)).value
    ensures NamedColour(Lower(name)).None? ==> InferColour(version, Some(name)) == name
    ensures Lower(name) == "red" ==> InferColour(version, Some(name)) == Red
    ensures Lower(name) !in {"green", "orange", "yellow", "red", "blue"} ==> InferColour(version, Some(name)) == name
  {
  }

  /**
   * The colours, each as the group of tests it passes and the earlier groups
   * it fails; green exactly when none of the eleven tests passes. The alpha test
   * includes every version ending in `a` (before any trailing digits), which
   * catches a version ending in "beta".
   */
  lemma InferColourOrder(version: string)
    ensures var v := Lower(version); var c := InferColour(version, None);
      && (c == Red <==> AlphaTest(v))
      && (c == Orange <==> !AlphaTest(v) && BetaTest(v))
      && (c == Yellow <==> !AlphaTest(v) && !BetaTest(v) && CandidateTest(v))
      && (c == Blue <==> !AlphaTest(v) && !BetaTest(v) && !CandidateTest(v) && DevTest(v))
      && (c == Green <==>
            && !Contains(v, "alpha") && !SearchAtEnd(v, "a")
            && !Contains(v, "beta") && !SearchAtEnd(v, "b")
            && !Contains(v, "rc") && !Contains(v, "candidate") && !Contains(v, "pre") && !SearchAtEnd(v, "rc")
            && !Contains(v, "dev") && !Contains(v, "nightly") && !Contains(v, "snapshot"))
  {
  }

  /** A pattern holding a character that `s` lacks does not occur in `s`. */
  lemma NotContainsByChar(s: string, pat: string, c: char)
    requires c in pat && c !in s
    ensures !Contains(s, pat)
  {
    ContainsIff(s, pat);
  }

  /** The plain beta version of the docstring's mapping comes out red, as written. */
  lemma BetaIsRed()
    ensures InferColour("v1.0-beta", None) == Red
  {
    var v := Lower("v1.0-beta");
    assert v == "v1.0-beta";
    assert TrailingDigits(v) == 0;
    assert v[..9][8..] == "a";
  }

  /** A numbered beta whose last letter is not `a` comes out orange. */
  lemma NumberedBetaIsOrange()
    ensures InferColour("v1.0-beta.1", None) == Orange
  {
    AlreadyLower("v1.0-beta.1");
    NumberedBetaColour();
  }

  lemma AlreadyLower(v: string)
    requires forall i | 0 <= i < |v| :: !('A' <= v[i] <= 'Z')
    ensures Lower(v) == v
  {
  }

  lemma NumberedBetaColour()
    ensures ColourOf("v1.0-beta.1") == Orange
  {
    var v := "v1.0-beta.1";
    NotContainsByChar(v, "alpha", 'l');
    NumberedBetaNotA(v);
    HasBeta(v);
  }

  lemma NumberedBetaNotA(v: string)
    requires v == "v1.0-beta.1"
    ensures !SearchAtEnd(v, "a")
  {
    var w := v[..10];
    assert w == "v1.0-beta.";
    assert TrailingDigits(w) == 0;
    assert TrailingDigits(v) == 1;
    assert v[..|v| - TrailingDigits(v)] == w;
    assert !EndsWith(w, "a") && !EndsWith(v, "\n");
  }

  lemma HasBeta(v: string)
    requires v == "v1.0-beta.1"
    ensures Contains(v, "beta")
  {
    assert v[5..9] == "beta";
    assert OccursAt(v, "beta", 5);
    ContainsIff(v, "beta");
  }

  /** A string that ends in a non-digit followed by digits ends in exactly those digits. */
  lemma {:induction false} TrailingDigitsAfter(x: string, ds: string)
    requires x != [] && !IsDigit(x[|x| - 1]) && AllDigits(ds)
    ensures TrailingDigits(x + ds) == |ds|
    decreases |ds|
  {
    if ds == [] {
      assert x + ds == x;
    } else {
      var init := ds[..|ds| - 1];
      assert (x + ds)[..|x + ds| - 1] == x + init;
      TrailingDigitsAfter(x, init);
    }
  }

  /**
   * As written, the alpha test takes every version whose letters end in "beta"
   * (before any trailing digits) for an alpha: "1.0-beta" and "1.0-beta2"
   * come out red, not orange.
   */
  lemma EndingBetaIsRed(p: string, ds: string)
    requires AllDigits(ds)
    ensures ColourOf(p + "beta" + ds) == Red
  {
    var v := p + "beta" + ds;
    TrailingDigitsAfter(p + "beta", ds);
    assert v[..|v| - |ds|] == p + "beta";
  }

  // ---------------------------------------------------------------------------
  // The pre-release suffixes as the docstring of `infer_color` describes them

  predicate IsLetter(c: char) {
    'a' <= c <= 'z'
  }

  /**
   * A PEP 440 pre-release suffix (`1.0a1`, `1.0-a1`, `1.0.a1`, `2.0b`): the
   * marker not right after a letter, then only digits, `(?<![a-z])a\d*$`
   * rather than `a\d*$`; a final newline is allowed as `$` allows it.
   */
  predicate StandaloneMarkerThenDigits(s: string, marker: string) {
    var k := |s| - TrailingDigits(s);
    && EndsWith(s[..k], marker)
    && (k == |marker| || !IsLetter(s[k - |marker| - 1]))
  }

  predicate PepSuffix(s: string, marker: string) {
    || StandaloneMarkerThenDigits(s, marker)
    || (EndsWith(s, "\n") && StandaloneMarkerThenDigits(s[..|s| - 1], marker))
  }

  /** `ColourOf` with the suffix tests for alpha and beta not taking the end of a word. */
  function IntendedColourOf(v: string): (c: string)
    ensures IsReleaseColour(c)
    ensures c != ColourOf(v) ==> ColourOf(v) == Red || ColourOf(v) == Orange
  {
    if Contains(v, "alpha") || PepSuffix(v, "a") then Red
    else if Contains(v, "beta") || PepSuffix(v, "b") then Orange
    else if Contains(v, "rc") || Contains(v, "candidate") || Contains(v, "pre") || SearchAtEnd(v, "rc") then Yellow
    else if Contains(v, "dev") || Contains(v, "nightly") || Contains(v, "snapshot") then Blue
    else Green
  }

  /** `infer_color` with the intended suffix tests; overrides are unchanged. */
  function IntendedInferColour(version: string, override: Option<string>): (c: string)
    ensures override.Some? && override.value != [] ==> c == InferColour(version, override)
    ensures override.None? || override.value == [] ==> IsReleaseColour(c)
  {
    if override.Some? && override.value != [] then
      NamedColour(Lower(override.value)).GetOr(override.value)
    else
      IntendedColourOf(Lower(version))
  }

  /** A version whose letters end in "beta" and that names no alpha is orange. */
  lemma EndingBetaIsOrange(p: string, ds: string)
    requires AllDigits(ds) && !Contains(p + "beta" + ds, "alpha")
    ensures IntendedColourOf(p + "beta" + ds) == Orange
  {
    var v := p + "beta" + ds;
    TrailingDigitsAfter(p + "beta", ds);
    assert v[..|v| - |ds|] == p + "beta";
    assert v[|p| + 2] == 't';
    assert !StandaloneMarkerThenDigits(v, "a");
    assert v[|v| - 1] == if ds == [] then 'a' else ds[|ds| - 1];
    assert !EndsWith(v, "\n");
    assert v[|p|..|p| + 4] == "beta";
    assert OccursAt(v, "beta", |p|);
    ContainsIff(v, "beta");
  }

  /**
   * A PEP 440 alpha suffix is still red, whether it follows the release number
   * directly or after a separator: "1.0a1", "1.0-a1", "1.0.a1".
   */
  lemma PepAlphaIsRed(p: string, c: char, ds: string)
    requires !IsLetter(c) && AllDigits(ds)
    ensures IntendedColourOf(p + [c] + "a" + ds) == Red
  {
    var v := p + [c] + "a" + ds;
    TrailingDigitsAfter(p + [c] + "a", ds);
    assert v[..|v| - |ds|] == p + [c] + "a";
    assert StandaloneMarkerThenDigits(v, "a");
  }

  // ---------------------------------------------------------------------------
  // Geometry

  /** The sizes and fill of the badge's two rectangles. */
  datatype Badge = Badge(leftWidth: int, rightWidth: int, total: int, fill: string, text: string)

  /**
   * `render_svg` less its text: a fixed 62-pixel label, a value side of 8
   * pixels per character but never under 64, and the colour filling the
   * value side.
   */
  function Layout(version: string, colour: string): Badge {
    var right := if 64 >= 8 * |version| then 64 else 8 * |version|;
    Badge(62, right, 62 + right, colour, version)
  }

  /**
   * The value side is the least width that is at least 64 and at least 8
   * pixels per character; the badge is both sides side by side.
   */
  lemma LayoutWidths(version: string, colour: string)
    ensures var b := Layout(version, colour);
      && b.rightWidth >= 64 && b.rightWidth >= 8 * |version|
      && (b.rightWidth == 64 || b.rightWidth == 8 * |version|)
      && b.total == b.leftWidth + b.rightWidth && b.leftWidth == 62
      && b.fill == colour && b.text == version
  {
  }

  /** A longer version never gives a narrower badge. */
  lemma LayoutMonotone(v1: string, v2: string, colour: string)
    requires |v1| <= |v2|
    ensures Layout(v1, colour).total <= Layout(v2, colour).total
  {
  }

  // ---------------------------------------------------------------------------
  // The displayed version

  /** `f"v{ver}" if not ver.startswith("v") else ver`. */
  function VersionOut(ver: string): string {
    if StartsWith(ver, "v") then ver else "v" + ver
  }

  /** The displayed version starts with `v`, adds at most that `v`, and is normalised already. */
  lemma VersionOutNormalises(ver: string)
    ensures StartsWith(VersionOut(ver), "v")
    ensures VersionOut(ver) == ver || VersionOut(ver) == "v" + ver
    ensures VersionOut(VersionOut(ver)) == VersionOut(ver)
  {
  }

  /**
   * The badge `main` renders for a resolved version: the displayed version,
   * and on the value side the colour `infer_color` gives it, as written.
   */
  function BadgeFor(ver: string, override: Option<string>): (b: Badge)
    ensures b.text == VersionOut(ver) && b.fill == InferColour(b.text, override)
    ensures StartsWith(b.text, "v") && b.leftWidth == 62 && b.rightWidth >= 64
    ensures b.total == b.leftWidth + b.rightWidth && b.rightWidth >= 8 * |b.text|
    ensures override.None? ==> IsReleaseColour(b.fill)
  {
    var shown := VersionOut(ver);
    Layout(shown, InferColour(shown, override))
  }

  /** Giving the version with or without its `v` prefix renders the same badge. */
  lemma BadgeForPrefixed(ver: string, override: Option<string>)
    ensures BadgeFor("v" + ver, override) == BadgeFor(ver, override) || StartsWith(ver, "v")
    ensures BadgeFor(VersionOut(ver), override) == BadgeFor(ver, override)
  {
    VersionOutNormalises(ver);
  }

  lemma NoPrefix(ver: string)
    requires ver != [] && ver[0] != 'v'
    ensures VersionOut(ver) == "v" + ver
  {
    assert ver[..1][0] == ver[0];
  }

  /** As written, `main` paints the badge of a plain beta release red. */
  lemma BetaBadgeIsRed()
    ensures BadgeFor("1.0-beta", None).fill == Red
  {
    NoPrefix("1.0-beta");
    WrittenFill("1.0-beta", "v1.0-beta");
  }

  lemma WrittenFill(ver: string, v: string)
    requires VersionOut(ver) == v && v == "v1.0-beta"
    ensures BadgeFor(ver, None).fill == Red
  {
    BetaIsRed();
  }

  /** The badge with the intended suffix tests; it differs from `BadgeFor` in its fill only. */
  function IntendedBadgeFor(ver: string, override: Option<string>): (b: Badge)
    ensures b == BadgeFor(ver, override).(fill := b.fill)
    ensures b.fill == IntendedInferColour(b.text, override)
    ensures override.Some? && override.value != [] ==> b == BadgeFor(ver, override)
    ensures override.None? ==> IsReleaseColour(b.fill)
  {
    var shown := VersionOut(ver);
    Layout(shown, IntendedInferColour(shown, override))
  }

  /** With the intended tests a plain beta release is orange. */
  lemma IntendedBetaBadgeIsOrange()
    ensures IntendedBadgeFor("1.0-beta", None).fill == Orange
  {
    NoPrefix("1.0-beta");
    IntendedFill("1.0-beta", "v1.0-beta");
  }

  lemma IntendedFill(ver: string, v: string)
    requires VersionOut(ver) == v && v == "v1.0-" + "beta" + ""
    ensures IntendedBadgeFor(ver, None).fill == Orange
  {
    AlreadyLower(v);
    NotContainsByChar(v, "alpha", 'l');
    EndingBetaIsOrange("v1.0-", "");
  }
}
