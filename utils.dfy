/**
 * The string utilities of utils.py: `clean_text`, `sanitize_filename`,
 * `validate_magnet_link`, `extract_magnet_link` and `extract_torrent_url`.
 * Each regular expression of the source is written out as the scan it
 * performs (leftmost match, greedy runs).
 */
module Utils {
  import opened Wrappers
  import opened Text

  // ---------------------------------------------------------------- clean_text

  /** The punctuation `clean_text` keeps besides word characters and whitespace. */
  const CleanPunctuation: string := "-.,!?()"

  /** The class `[\w\s\-.,!?()]`. */
  predicate CleanKeeps(c: char) {
    IsWordChar(c) || IsSpace(c) || c in CleanPunctuation
  }

  /** What `clean_text` can return: word characters, spaces and `-.,!?()`. */
  predicate IsCleanText(s: string) {
    forall c :: c in s ==> IsWordChar(c) || c == ' ' || c in CleanPunctuation
  }

  /**
   * `re.sub(r'\s+', ' ', text.strip())`: the non-whitespace characters of
   * `text` survive in order, with single spaces between them and none at
   * either end.
   */
  function CollapseSpace(text: string): (r: string)
    ensures forall c :: c in r ==> c == ' ' || !IsSpace(c)
    ensures forall c :: c in r ==> c == ' ' || c in text
    ensures |r| <= |text|
    ensures r != [] ==> !IsSpace(r[0]) && !IsSpace(r[|r| - 1])
    ensures forall i :: 0 <= i < |r| - 1 ==> r[i] != ' ' || r[i + 1] != ' '
    ensures Filter(r, NotSpace) == Filter(text, NotSpace)
  {
    CollapsedRuns(text);
    ReplaceRuns(StripSpace(text), IsSpace, " ")
  }

  /** What `CollapseSpace` promises, proved for its defining expression. */
  lemma CollapsedRuns(text: string)
    ensures var r := ReplaceRuns(StripSpace(text), IsSpace, " ");
      && (forall c :: c in r ==> c == ' ' || !IsSpace(c))
      && (forall c :: c in r ==> c == ' ' || c in text)
      && |r| <= |text|
      && (r != [] ==> !IsSpace(r[0]) && !IsSpace(r[|r| - 1]))
      && (forall i :: 0 <= i < |r| - 1 ==> r[i] != ' ' || r[i + 1] != ' ')
      && Filter(r, NotSpace) == Filter(text, NotSpace)
  {
    CollapsedShape(StripSpace(text));
    var t := StripSpace(text);
    ReplaceRunsKeeps(t, IsSpace, " ", NotSpace);
    FilterStrip(text, IsSpace, NotSpace);
  }

  /** Replacing the whitespace runs of a stripped string by one space each. */
  lemma CollapsedShape(t: string)
    requires t != [] ==> !IsSpace(t[0]) && !IsSpace(t[|t| - 1])
    ensures var r := ReplaceRuns(t, IsSpace, " ");
      && (forall c :: c in r ==> c == ' ' || !IsSpace(c))
      && (r != [] ==> !IsSpace(r[0]) && !IsSpace(r[|r| - 1]))
      && (forall i :: 0 <= i < |r| - 1 ==> r[i] != ' ' || r[i + 1] != ' ')
  {
    var r := ReplaceRuns(t, IsSpace, " ");
    assert forall c :: c in r ==> c == ' ' || (c in t && !IsSpace(c));
    ReplaceRunsNoAdjacent(t, IsSpace, " ");
    assert IsSpace(' ');
    if t != [] {
      ReplaceRunsLast(t, IsSpace, " ");
    }
  }

  /**
   * `clean_text`: whitespace runs collapse to one space, then every character
   * outside `\w`, `\s` and `-.,!?()` is deleted. The only whitespace left is
   * the plain space, and the output is a subsequence of the collapsed input.
   */
  function CleanText(text: string): (r: string)
    ensures text == "" ==> r == ""
    ensures IsCleanText(r)
    ensures forall c :: c in r ==> c == ' ' || !IsSpace(c)
    ensures IsSubsequence(r, CollapseSpace(text))
    ensures forall c :: c in r ==> c == ' ' || c in text
    ensures |r| <= |text|
  {
    if text == "" then "" else Filter(CollapseSpace(text), CleanKeeps)
  }

  /**
   * Text `clean_text` could have produced comes back unchanged: only kept
   * characters, no space at either end and no two spaces side by side.
   */
  lemma CleanTextFixedPoint(text: string)
    requires IsCleanText(text)
    requires text != [] ==> text[0] != ' ' && text[|text| - 1] != ' '
    requires forall i :: 0 <= i < |text| - 1 ==> text[i] != ' ' || text[i + 1] != ' '
    ensures CleanText(text) == text
  {
    if text != [] {
      CleanCharsNotSpace(text);
      StripNoop(text, IsSpace);
      ReplaceRunsNoop(text, IsSpace, " ");
      FilterAll(text, CleanKeeps);
    }
  }

  /** In clean text the plain space is the only whitespace character. */
  lemma CleanCharsNotSpace(text: string)
    requires IsCleanText(text)
    ensures forall k :: 0 <= k < |text| && IsSpace(text[k]) ==> text[k] == ' '
    ensures forall c :: c in text ==> CleanKeeps(c)
  {
    forall k | 0 <= k < |text| && IsSpace(text[k]) ensures text[k] == ' ' {
      assert text[k] in text;
    }
  }

  // --------------------------------------------------------- sanitize_filename

  /** The class `[<>:"/\\|?*]`. */
  const IllegalFilenameChars: string := "<>:\"/\\|?*"

  const MaxFilenameLength: nat := 200

  predicate IsDotOrUnderscore(c: char) { c == '.' || c == '_' }

  /** `re.sub(r'[<>:"/\\|?*]', '_', s)` */
  function ReplaceIllegal(s: string): (r: string)
    ensures |r| == |s|
    ensures forall c :: c in r ==> c !in IllegalFilenameChars && (c in s || c == '_')
    ensures forall i :: 0 <= i < |s| && s[i] !in IllegalFilenameChars ==> r[i] == s[i]
    ensures forall i :: 0 <= i < |s| && s[i] in IllegalFilenameChars ==> r[i] == '_'
  {
    seq(|s|, i requires 0 <= i < |s| => if s[i] in IllegalFilenameChars then '_' else s[i])
  }

  /** A character `sanitize_filename` never lets through. */
  predicate IsFilenameSafe(c: char) {
    c !in IllegalFilenameChars && !IsSpace(c)
  }

  /** The two substitutions of `sanitize_filename`, before stripping. */
  function Underscored(filename: string): (r: string)
    ensures forall c :: c in r ==> IsFilenameSafe(c)
  {
    var replaced := ReplaceIllegal(filename);
    var r := ReplaceRuns(replaced, IsSpace, "_");
    assert forall c :: c in r ==> c == '_' || (c in replaced && !IsSpace(c));
    r
  }

  /**
   * `sanitize_filename`: illegal characters and whitespace runs become `_`,
   * leading and trailing `.`/`_` are stripped, the rest is cut to 200
   * characters, and an empty outcome becomes `"unknown"`.
   */
  function SanitizeFilename(filename: string): (r: string)
    ensures r != ""
    ensures filename == "" ==> r == "unknown"
    ensures forall c :: c in r ==> IsFilenameSafe(c)
    ensures |r| <= MaxFilenameLength
    ensures !IsDotOrUnderscore(r[0])
  {
    if filename == "" then Unknown()
    else
      var underscored := Underscored(filename);
      var stripped := Strip(underscored, IsDotOrUnderscore);
      var cut := if |stripped| > MaxFilenameLength then stripped[..MaxFilenameLength] else stripped;
      assert forall c :: c in cut ==> c in underscored;
      if cut == "" then Unknown() else cut
  }

  /** The fallback name. */
  function Unknown(): (r: string)
    ensures r == "unknown"
    ensures forall c :: c in r ==> IsFilenameSafe(c)
  {
    var r := "unknown";
    assert forall i :: 0 <= i < |r| ==> IsAsciiLower(r[i]);
    r
  }

  lemma {:induction false} ReplaceRunsNoClass(s: string, inClass: char -> bool, rep: string)
    requires forall c :: c in s ==> !inClass(c)
    ensures ReplaceRuns(s, inClass, rep) == s
  {
    if s != [] {
      ReplaceRunsNoClass(s[1..], inClass, rep);
      assert [s[0]] + s[1..] == s;
    }
  }

  /** A name that is already clean comes back unchanged. */
  lemma SanitizeFilenameFixedPoint(name: string)
    requires name != ""
    requires forall c :: c in name ==> c !in IllegalFilenameChars && !IsSpace(c)
    requires !IsDotOrUnderscore(name[0]) && !IsDotOrUnderscore(name[|name| - 1])
    requires |name| <= MaxFilenameLength
    ensures SanitizeFilename(name) == name
  {
    assert ReplaceIllegal(name) == name;
    ReplaceRunsNoClass(name, IsSpace, "_");
    assert Underscored(name) == name;
  }

  // ------------------------------------------------------ validate_magnet_link

  const MagnetPrefix: string := "magnet:?xt=urn:btih:"

  /** `re.match(r'^magnet:\?xt=urn:btih:[a-zA-Z0-9]+', s)` for a non-empty `s`. */
  predicate ValidateMagnetLink(s: string) {
    s != "" && StartsWith(s, MagnetPrefix) && |s| > |MagnetPrefix| && IsAsciiAlnum(s[|MagnetPrefix|])
  }

  /**
   * A valid magnet link is exactly the prefix, one ASCII letter or digit,
   * and anything after it; the empty string is not one.
   */
  lemma ValidateMagnetLinkShape(s: string)
    ensures ValidateMagnetLink(s) <==> exists h: char, rest: string :: IsAsciiAlnum(h) && s == MagnetPrefix + [h] + rest
    ensures !ValidateMagnetLink("")
  {
    var n := |MagnetPrefix|;
    if ValidateMagnetLink(s) {
      assert s == MagnetPrefix + [s[n]] + s[n + 1..];
    }
    forall h: char, rest: string | IsAsciiAlnum(h) && s == MagnetPrefix + [h] + rest
      ensures ValidateMagnetLink(s)
    {
      assert s[..n] == MagnetPrefix;
      assert s[n] == h;
    }
  }

  // ------------------------------------------------------- extract_magnet_link

  /** The class `[^"\s]`. */
  predicate IsMagnetUrlChar(c: char) { c != '"' && !IsSpace(c) }

  /** The pattern `magnet:\?xt=urn:btih:[a-zA-Z0-9]+` matches at index `k`. */
  predicate MagnetAt(s: string, k: nat) {
    k <= |s| && ValidateMagnetLink(s[k..])
  }

  /** The text `magnet:\?xt=urn:btih:[a-zA-Z0-9]+[^"\s]*` matches at index `k`, greedily. */
  function MagnetMatchAt(s: string, k: nat): (m: string)
    requires MagnetAt(s, k)
    ensures ValidateMagnetLink(m) && StartsWith(s[k..], m)
    ensures forall c :: c in m ==> IsMagnetUrlChar(c)
  {
    var j := RunEnd(s, k + |MagnetPrefix|, IsMagnetUrlChar);
    var m := s[k..j];
    assert m[..|MagnetPrefix|] == MagnetPrefix;
    assert forall i :: 0 <= i < |MagnetPrefix| ==> IsMagnetUrlChar(MagnetPrefix[i]);
    m
  }

  /** The match at `k` is the leftmost one. */
  predicate IsFirstMagnet(html: string, k: nat) {
    MagnetAt(html, k) && forall k' :: 0 <= k' < k ==> !MagnetAt(html, k')
  }

  /** Where the leftmost magnet link starts. */
  function MagnetStart(html: string): (r: Option<nat>)
    ensures r.None? <==> forall k :: 0 <= k <= |html| ==> !MagnetAt(html, k)
    ensures r.Some? ==> IsFirstMagnet(html, r.value)
  {
    var at := (k: nat) => MagnetAt(html, k);
    assert forall k: nat :: at(k) == MagnetAt(html, k);
    FirstFrom(|html|, 0, at)
  }

  /**
   * `extract_magnet_link`: `None` exactly when no magnet link occurs; otherwise
   * the leftmost one, extended as far as the characters allow. What it returns
   * occurs in the input, has no `"` and no whitespace, and passes
   * `validate_magnet_link`.
   */
  function ExtractMagnetLink(html: string): (r: Option<string>)
    ensures r.None? <==> forall k :: 0 <= k <= |html| ==> !MagnetAt(html, k)
    ensures r.Some? ==> exists k :: IsFirstMagnet(html, k) && r.value == MagnetMatchAt(html, k)
    ensures r.Some? ==> Occurs(html, r.value) && ValidateMagnetLink(r.value)
    ensures r.Some? ==> forall c :: c in r.value ==> c != '"' && !IsSpace(c)
  {
    match MagnetStart(html)
    case None => None
    case Some(k) =>
      var m := MagnetMatchAt(html, k);
      assert IsFirstMagnet(html, k);
      assert StartsWith(html[k..], m);
      Some(m)
  }

  /** What `extract_magnet_link` returns is found again, whole, in itself. */
  lemma ExtractMagnetLinkIdempotent(html: string)
    requires ExtractMagnetLink(html).Some?
    ensures ExtractMagnetLink(ExtractMagnetLink(html).value) == ExtractMagnetLink(html)
  {
    var m := ExtractMagnetLink(html).value;
    assert m[0..] == m;
    assert MagnetAt(m, 0);
    assert MagnetStart(m) == Some(0);
    var j := RunEnd(m, |MagnetPrefix|, IsMagnetUrlChar);
    assert j == |m|;
    assert MagnetMatchAt(m, 0) == m;
  }

  // ------------------------------------------------------- extract_torrent_url

  predicate IsQuote(c: char) { c == '"' || c == '\'' }

  predicate IsNotQuote(c: char) { !IsQuote(c) }

  /**
   * The group of `href=["\']([^"\']*\.torrent)["\']` when the pattern matches
   * at index `i`: the whole quote-free run after the opening quote, which must
   * end in `.torrent` and be closed by a quote.
   */
  function TorrentPathAt(s: string, i: nat): (r: Option<string>)
    requires i <= |s|
    ensures r.Some? ==> EndsWith(r.value, ".torrent") && forall c :: c in r.value ==> !IsQuote(c)
  {
    if StartsWith(s[i..], "href=") && i + 5 < |s| && IsQuote(s[i + 5]) then
      var j := RunEnd(s, i + 6, IsNotQuote);
      if j < |s| && EndsWith(s[i + 6..j], ".torrent") then Some(s[i + 6..j]) else None
    else None
  }

  /** The torrent pattern matches at index `k`. */
  predicate TorrentAt(s: string, k: nat) {
    k <= |s| && TorrentPathAt(s, k).Some?
  }

  /** The match at `k` is the leftmost one. */
  predicate IsFirstTorrent(html: string, k: nat) {
    TorrentAt(html, k) && forall k' :: 0 <= k' < k ==> !TorrentAt(html, k')
  }

  /** Where the leftmost torrent link starts. */
  function TorrentStart(html: string): (r: Option<nat>)
    ensures r.None? <==> forall k :: 0 <= k <= |html| ==> !TorrentAt(html, k)
    ensures r.Some? ==> IsFirstTorrent(html, r.value)
  {
    var at := (k: nat) => TorrentAt(html, k);
    assert forall k: nat :: at(k) == TorrentAt(html, k);
    FirstFrom(|html|, 0, at)
  }

  /** How `extract_torrent_url` turns the matched path into a URL. */
  function ResolveTorrentPath(path: string, baseUrl: string): (r: string)
    ensures EndsWith(r, path)
    ensures StartsWith(path, "http") ==> r == path
    ensures !StartsWith(path, "http") ==> StartsWith(r, baseUrl)
    ensures !StartsWith(path, "http") && StartsWith(path, "/") ==> r == baseUrl + path
    ensures !StartsWith(path, "/") && !StartsWith(path, "http") ==> r == baseUrl + "/" + path
  {
    if StartsWith(path, "http") then path
    else if StartsWith(path, "/") then baseUrl + path
    else baseUrl + "/" + path
  }

  /**
   * `extract_torrent_url`: `None` exactly when no torrent link occurs; otherwise
   * the leftmost link, made absolute against `baseUrl`, ending in `.torrent`.
   */
  function ExtractTorrentUrl(html: string, baseUrl: string): (r: Option<string>)
    ensures r.None? <==> forall k :: 0 <= k <= |html| ==> !TorrentAt(html, k)
    ensures r.Some? ==> EndsWith(r.value, ".torrent")
    ensures r.Some? ==> exists k :: IsFirstTorrent(html, k)
                          && r.value == ResolveTorrentPath(TorrentPathAt(html, k).value, baseUrl)
  {
    match TorrentStart(html)
    case None => None
    case Some(k) =>
      var path := TorrentPathAt(html, k).value;
      var r := ResolveTorrentPath(path, baseUrl);
      EndsWithTransitive(r, path, ".torrent");
      Some(r)
  }
}
