/**
 * Magnet links as the crawler records them (`MagnetLink`) and the pure
 * operations on them: the best-link choice of `_filter_magnets_by_priority`
 * (and of the CLI's `_apply_priority_logic`, which differs only in its second
 * tier), `_extract_real_code_from_magnet`, the title search for a code of
 * the form `[A-Z]{2,6}-\d{3,5}`, and `get_magnet_download_url`.
 */
module Magnets {
  import opened Wrappers
  import opened Text

  /** One magnet link with what the detail page says about it. */
  datatype MagnetLink = MagnetLink(
    title: string,
    size: string,
    fileCount: nat,
    tags: seq<string>,
    magnetUrl: string,
    copyUrl: string,
    downloadUrl: string,
    date: string,
    quality: string)

  /** A fresh `MagnetLink()`: every field empty. */
  const EmptyMagnet: MagnetLink := MagnetLink("", "", 0, [], "", "", "", "", "")

  /** The only tag texts a parsed item records. */
  const KnownTags: seq<string> := ["高清", "字幕", "HD", "Subtitle", "4K", "1080p", "720p"]

  /** The first tier of both priority choices. */
  const HighQualityTags: seq<string> := ["高清", "HD", "4K", "1080p", "720p"]

  /** The second tier of `_filter_magnets_by_priority`. */
  const SubtitleTags: seq<string> := ["字幕", "Subtitle"]

  /** The second tier of the CLI's `_apply_priority_logic`. */
  const ChineseTags: seq<string> := ["中文", "Chinese"]

  /** `magnet.copy_url or magnet.magnet_url`: the URL that stands for the link. */
  function PrimaryUrl(m: MagnetLink): string {
    if m.copyUrl != "" then m.copyUrl else m.magnetUrl
  }

  /** `any(tag in magnet.tags for tag in tier)` */
  predicate HasAnyTag(m: MagnetLink, tier: seq<string>) {
    exists k :: 0 <= k < |tier| && tier[k] in m.tags
  }

  /** The index of the first link carrying a tag of `tier`. */
  function FirstTagged(ms: seq<MagnetLink>, tier: seq<string>): (r: Option<nat>)
    ensures r.None? <==> forall j :: 0 <= j < |ms| ==> !HasAnyTag(ms[j], tier)
    ensures r.Some? ==> r.value < |ms| && HasAnyTag(ms[r.value], tier)
                        && forall j :: 0 <= j < r.value ==> !HasAnyTag(ms[j], tier)
  {
    if ms == [] then None
    else if HasAnyTag(ms[0], tier) then Some(0)
    else
      var rest := FirstTagged(ms[1..], tier);
      assert forall j :: 0 < j < |ms| ==> ms[j] == ms[1..][j - 1];
      if rest.Some? then Some(rest.value + 1) else None
  }

  /**
   * The priority choice, stated directly: nothing from nothing; otherwise
   * the first high-quality link, else the first link of the second tier,
   * else the first link.
   */
  function Preferred(ms: seq<MagnetLink>, second: seq<string>): (r: seq<MagnetLink>)
    ensures ms == [] ==> r == []
    ensures ms != [] ==> |r| == 1 && r[0] in ms
  {
    if ms == [] then []
    else
      match FirstTagged(ms, HighQualityTags)
      case Some(i) => [ms[i]]
      case None =>
        match FirstTagged(ms, second)
        case Some(j) => [ms[j]]
        case None => [ms[0]]
  }

  /**
   * The shared loop of `_filter_magnets_by_priority` and
   * `_apply_priority_logic`: one pass sorts the links into a high-quality
   * list and a second-tier list (a link in the first is kept out of the
   * second), then the first of the first non-empty list is returned, or the
   * first link.
   */
  method PickByPriority(ms: seq<MagnetLink>, second: seq<string>) returns (r: seq<MagnetLink>)
    ensures r == Preferred(ms, second)
  {
    if ms == [] {
      return [];
    }
    var highQuality: seq<MagnetLink> := [];
    var secondTier: seq<MagnetLink> := [];
    ghost var hqAt: int := -1;
    ghost var secondAt: int := -1;
    for i := 0 to |ms|
      invariant hqAt == -1 <==> highQuality == []
      invariant hqAt == -1 ==> forall j :: 0 <= j < i ==> !HasAnyTag(ms[j], HighQualityTags)
      invariant hqAt != -1 ==> 0 <= hqAt < i && highQuality[0] == ms[hqAt] && HasAnyTag(ms[hqAt], HighQualityTags)
                               && forall j :: 0 <= j < hqAt ==> !HasAnyTag(ms[j], HighQualityTags)
      invariant secondAt == -1 <==> secondTier == []
      invariant hqAt == -1 && secondAt == -1 ==> forall j :: 0 <= j < i ==> !HasAnyTag(ms[j], second)
      invariant hqAt == -1 && secondAt != -1 ==>
        0 <= secondAt < i && secondTier[0] == ms[secondAt] && HasAnyTag(ms[secondAt], second)
        && forall j :: 0 <= j < secondAt ==> !HasAnyTag(ms[j], second)
    {
      var m := ms[i];
      var hasHighQuality := exists k :: 0 <= k < |HighQualityTags| && HighQualityTags[k] in m.tags;
      var hasSecond := exists k :: 0 <= k < |second| && second[k] in m.tags;
      if hasHighQuality {
        if highQuality == [] {
          hqAt := i;
        }
        highQuality := highQuality + [m];
      } else if hasSecond {
        if secondTier == [] {
          secondAt := i;
        }
        secondTier := secondTier + [m];
      }
    }
    if highQuality != [] {
      r := [highQuality[0]];
    } else if secondTier != [] {
      r := [secondTier[0]];
    } else {
      r := [ms[0]];
    }
  }

  /** `_filter_magnets_by_priority`: high quality first, then subtitles, then the first link. */
  method FilterMagnetsByPriority(ms: seq<MagnetLink>) returns (r: seq<MagnetLink>)
    ensures r == Preferred(ms, SubtitleTags)
  {
    r := PickByPriority(ms, SubtitleTags);
  }

  /**
   * What the choice promises: at most one link, taken from the input; a
   * high-quality one whenever there is one, and then the earliest; failing
   * that the earliest of the second tier; failing that the first link.
   */
  lemma PreferredChoosesByTier(ms: seq<MagnetLink>, second: seq<string>)
    requires ms != []
    ensures var r := Preferred(ms, second);
      (exists i :: 0 <= i < |ms| && HasAnyTag(ms[i], HighQualityTags)) ==>
        exists i :: 0 <= i < |ms| && r == [ms[i]] && HasAnyTag(ms[i], HighQualityTags)
          && forall j :: 0 <= j < i ==> !HasAnyTag(ms[j], HighQualityTags)
    ensures var r := Preferred(ms, second);
      (forall i :: 0 <= i < |ms| ==> !HasAnyTag(ms[i], HighQualityTags)) &&
      (exists i :: 0 <= i < |ms| && HasAnyTag(ms[i], second)) ==>
        exists i :: 0 <= i < |ms| && r == [ms[i]] && HasAnyTag(ms[i], second)
          && forall j :: 0 <= j < i ==> !HasAnyTag(ms[j], second)
    ensures var r := Preferred(ms, second);
      (forall i :: 0 <= i < |ms| ==> !HasAnyTag(ms[i], HighQualityTags) && !HasAnyTag(ms[i], second)) ==>
        r == [ms[0]]
  {
    var hq := FirstTagged(ms, HighQualityTags);
    if hq.Some? {
      assert Preferred(ms, second) == [ms[hq.value]];
    } else {
      var sec := FirstTagged(ms, second);
      if sec.Some? {
        assert Preferred(ms, second) == [ms[sec.value]];
      }
    }
  }

  /** Every tag a parsed link carries is one of the known tags. */
  predicate OnlyKnownTags(ms: seq<MagnetLink>) {
    forall i :: 0 <= i < |ms| ==> forall t :: t in ms[i].tags ==> t in KnownTags
  }

  /**
   * The CLI's second tier (中文 / Chinese) never decides for links the
   * crawler parsed, since it records no such tag: the CLI's choice is the
   * first high-quality link, or else the first link, exactly as with no
   * second tier at all.
   */
  lemma ChineseTierNeverDecides(ms: seq<MagnetLink>)
    requires OnlyKnownTags(ms)
    ensures FirstTagged(ms, ChineseTags).None?
    ensures Preferred(ms, ChineseTags) == Preferred(ms, [])
  {
    forall j | 0 <= j < |ms| ensures !HasAnyTag(ms[j], ChineseTags) {
      forall k | 0 <= k < |ChineseTags| ensures ChineseTags[k] !in ms[j].tags {
        assert ChineseTags[k] !in KnownTags;
      }
    }
    assert FirstTagged(ms, []).None?;
  }

  // ----------------------------------------------- _extract_real_code_from_magnet

  /** The marker that precedes the real code in a magnet link's name. */
  const JavdbMarker: string := "[javdb.com]"

  /** The class `[A-Z0-9\-]`. */
  predicate IsCodeChar(c: char) {
    IsAsciiUpper(c) || IsAsciiDigit(c) || c == '-'
  }

  /** `\[javdb\.com\]([A-Z0-9\-]+)` matches at index `k`. */
  predicate RealCodeAt(s: string, k: nat)
    requires k <= |s|
  {
    StartsWith(s[k..], JavdbMarker) && k + |JavdbMarker| < |s| && IsCodeChar(s[k + |JavdbMarker|])
  }

  /** Where the leftmost match starts. */
  function RealCodeStart(url: string): (r: Option<nat>)
    ensures r.None? <==> forall k :: 0 <= k <= |url| ==> !RealCodeAt(url, k)
    ensures r.Some? ==> r.value <= |url| && RealCodeAt(url, r.value)
                        && forall k :: 0 <= k < r.value ==> !RealCodeAt(url, k)
  {
    var at := (k: nat) => k <= |url| && RealCodeAt(url, k);
    assert forall k: nat :: k <= |url| ==> at(k) == RealCodeAt(url, k);
    FirstFrom(|url|, 0, at)
  }

  /**
   * The match at `k` is the leftmost one, and its group is `r`: the run of
   * code characters after the marker, taken as far as it goes.
   */
  predicate IsRealCodeMatch(url: string, k: nat, r: string) {
    k <= |url| && RealCodeAt(url, k)
    && (forall k' :: 0 <= k' < k ==> !RealCodeAt(url, k'))
    && k + |JavdbMarker| + |r| <= |url|
    && url[k + |JavdbMarker|..k + |JavdbMarker| + |r|] == r
    && (k + |JavdbMarker| + |r| == |url| || !IsCodeChar(url[k + |JavdbMarker| + |r|]))
  }

  /**
   * `_extract_real_code_from_magnet`: the code after the leftmost
   * `[javdb.com]` that is followed by a code character, as long as the code
   * characters go on; `""` when there is none.
   */
  function ExtractRealCode(url: string): (r: string)
    ensures r == "" <==> forall k :: 0 <= k <= |url| ==> !RealCodeAt(url, k)
    ensures r != "" ==> exists k :: IsRealCodeMatch(url, k, r)
    ensures r != "" ==> Occurs(url, JavdbMarker + r) && forall i :: 0 <= i < |r| ==> IsCodeChar(r[i])
  {
    if url == "" then ""
    else
      match RealCodeStart(url)
      case None => ""
      case Some(k) =>
        var start := k + |JavdbMarker|;
        var end := RunEnd(url, start, IsCodeChar);
        RealCodeMatchFound(url, k);
        url[start..end]
  }

  /** The leftmost marker's code run is a non-empty match that occurs after the marker. */
  lemma RealCodeMatchFound(url: string, k: nat)
    requires k <= |url| && RealCodeAt(url, k) && forall k' :: 0 <= k' < k ==> !RealCodeAt(url, k')
    ensures var start := k + |JavdbMarker|;
            var r := url[start..RunEnd(url, start, IsCodeChar)];
            r != "" && IsRealCodeMatch(url, k, r) && Occurs(url, JavdbMarker + r)
            && forall i :: 0 <= i < |r| ==> IsCodeChar(r[i])
  {
    var start := k + |JavdbMarker|;
    var r := url[start..RunEnd(url, start, IsCodeChar)];
    assert url[k..][..|JavdbMarker| + |r|] == JavdbMarker + r;
    assert StartsWith(url[k..], JavdbMarker + r);
  }

  /** A link whose name is `[javdb.com]` and a code gives that code back. */
  lemma ExtractRealCodeRoundTrip(code: string, rest: string)
    requires code != [] && forall c :: c in code ==> IsCodeChar(c)
    requires rest == [] || !IsCodeChar(rest[0])
    ensures ExtractRealCode(JavdbMarker + code + rest) == code
  {
    var url := JavdbMarker + code + rest;
    assert url[0..] == url;
    assert url[..|JavdbMarker|] == JavdbMarker;
    assert url[|JavdbMarker|] == code[0];
    assert RealCodeStart(url) == Some(0);
    var end := RunEnd(url, |JavdbMarker|, IsCodeChar);
    forall k | |JavdbMarker| <= k < |JavdbMarker| + |code| ensures IsCodeChar(url[k]) {
      assert url[k] == code[k - |JavdbMarker|];
    }
    if rest != [] {
      assert url[|JavdbMarker| + |code|] == rest[0];
      RunEndIsFirstMiss(url, |JavdbMarker|, IsCodeChar, |JavdbMarker| + |code|);
    }
    assert end == |JavdbMarker| + |code|;
    assert url[|JavdbMarker|..end] == code;
  }

  // ------------------------------------------- the code search in a title

  /** The shape `[A-Z]{2,6}-\d{3,5}`, whole. */
  predicate IsCodeShape(c: string) {
    var n := RunEnd(c, 0, IsAsciiUpper);
    2 <= n <= 6 && n < |c| && c[n] == '-' && 3 <= |c| - (n + 1) <= 5
    && forall i :: n < i < |c| ==> IsDecimal(c[i])
  }

  /** Where the match of `[A-Z]{2,6}-\d{3,5}` that starts at `k` ends, if it does. */
  function TitleCodeEnd(s: string, k: nat): (e: Option<nat>)
    requires k <= |s|
    ensures e.Some? ==> k < e.value <= |s| && IsCodeShape(s[k..e.value])
  {
    var j := RunEnd(s, k, IsAsciiUpper);
    if 2 <= j - k <= 6 && j < |s| && s[j] == '-' then
      var d := RunEnd(s, j + 1, IsDecimal);
      if d - (j + 1) >= 3 then
        var e := if d - (j + 1) > 5 then j + 6 else d;
        var c := s[k..e];
        assert RunEnd(c, 0, IsAsciiUpper) == j - k by {
          forall i | 0 <= i < j - k ensures IsAsciiUpper(c[i]) { assert c[i] == s[k + i]; }
          assert c[j - k] == s[j];
          RunEndIsFirstMiss(c, 0, IsAsciiUpper, j - k);
        }
        assert forall i :: j - k < i < |c| ==> c[i] == s[k + i];
        Some(e)
      else None
    else None
  }

  /** The match of the code pattern at `k` is the leftmost one, and it is `c`. */
  predicate IsTitleCodeMatch(s: string, k: nat, c: string) {
    TitleCodeAt(s, k) && c == s[k..TitleCodeEnd(s, k).value]
    && forall k' :: 0 <= k' < k ==> !TitleCodeAt(s, k')
  }

  /** The code pattern matches at `k`. */
  predicate TitleCodeAt(s: string, k: nat) {
    k <= |s| && TitleCodeEnd(s, k).Some?
  }

  /** Where the leftmost match starts. */
  function TitleCodeStart(s: string): (r: Option<nat>)
    ensures r.None? <==> forall k :: 0 <= k <= |s| ==> !TitleCodeAt(s, k)
    ensures r.Some? ==> TitleCodeAt(s, r.value) && forall k :: 0 <= k < r.value ==> !TitleCodeAt(s, k)
  {
    var at := (k: nat) => TitleCodeAt(s, k);
    assert forall k: nat :: at(k) == TitleCodeAt(s, k);
    FirstFrom(|s|, 0, at)
  }

  /** `re.search(r'([A-Z]{2,6}-\d{3,5})', title)`, group 1: the leftmost match, which has the code shape. */
  function TitleCode(title: string): (r: Option<string>)
    ensures r.None? <==> forall k :: 0 <= k <= |title| ==> !TitleCodeAt(title, k)
    ensures r.Some? ==> exists k :: IsTitleCodeMatch(title, k, r.value)
    ensures r.Some? ==> IsCodeShape(r.value) && Occurs(title, r.value)
  {
    match TitleCodeStart(title)
    case None => None
    case Some(k) =>
      TitleCodeMatchFound(title, k);
      Some(title[k..TitleCodeEnd(title, k).value])
  }

  /** The code found at the leftmost match is a code-shaped piece of the title. */
  lemma TitleCodeMatchFound(title: string, k: nat)
    requires TitleCodeAt(title, k) && forall k' :: 0 <= k' < k ==> !TitleCodeAt(title, k')
    ensures IsTitleCodeMatch(title, k, title[k..TitleCodeEnd(title, k).value])
    ensures IsCodeShape(title[k..TitleCodeEnd(title, k).value]) && Occurs(title, title[k..TitleCodeEnd(title, k).value])
  {
    assert StartsWith(title[k..], title[k..TitleCodeEnd(title, k).value]);
  }

  /** A title that is just a code yields that code. */
  lemma TitleCodeOfCode(code: string)
    requires IsCodeShape(code)
    ensures TitleCode(code) == Some(code)
  {
    var n := RunEnd(code, 0, IsAsciiUpper);
    var d := RunEnd(code, n + 1, IsDecimal);
    assert d == |code|;
    assert code[0..] == code;
    assert TitleCodeEnd(code, 0) == Some(|code|);
    assert code[0..|code|] == code;
    assert TitleCodeAt(code, 0);
    assert TitleCodeStart(code) == Some(0);
  }

  // ------------------------------------------------- get_magnet_download_url

  /**
   * `get_magnet_download_url`: the URL that stands for the link (the one
   * the manager writes to its list), made absolute by `urljoin` when it is a
   * copy URL that is neither a magnet link nor starts with `http`; a magnet
   * URL standing in for a missing copy URL is returned as it is.
   */
  function DownloadUrl(m: MagnetLink, urljoin: string -> string): (r: string)
    ensures r == PrimaryUrl(m) || r == urljoin(PrimaryUrl(m))
    ensures m.copyUrl == "" || StartsWith(PrimaryUrl(m), "magnet:") || StartsWith(PrimaryUrl(m), "http") ==> r == PrimaryUrl(m)
    ensures m.copyUrl != "" && !StartsWith(PrimaryUrl(m), "magnet:") && !StartsWith(PrimaryUrl(m), "http") ==> r == urljoin(PrimaryUrl(m))
  {
    if m.copyUrl != "" then
      if StartsWith(m.copyUrl, "magnet:") then m.copyUrl
      else if !StartsWith(m.copyUrl, "http") then urljoin(m.copyUrl)
      else m.copyUrl
    else m.magnetUrl
  }
}
