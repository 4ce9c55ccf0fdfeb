/**
 * The result filters and display helpers of the command-line front end
 * (`JavDBMagnetCLI`): `--filter` parsing, tag filtering of magnet links
 * and of ranking results, the CLI's own one-link priority choice (second
 * tier 中文 / Chinese), the output file's extension fix, and the
 * truncation of titles and links for display.
 */
module Cli {
  import opened Wrappers
  import opened Text
  import opened Magnets
  import Manager

  // ------------------------------------------------------------ --filter

  /**
   * `[tag.strip() for tag in args.filter.split(',')]` when `--filter` is
   * given and non-empty; no tags otherwise.
   */
  function ParseFilterTags(arg: Option<string>): (tags: seq<string>)
    ensures arg.None? || arg.value == "" ==> tags == []
    ensures arg.Some? && arg.value != "" ==> |tags| == |Split(arg.value, ',')|
  {
    if arg.None? || arg.value == "" then []
    else
      var pieces := Split(arg.value, ',');
      seq(|pieces|, k requires 0 <= k < |pieces| => StripSpace(pieces[k]))
  }

  /**
   * The filter tags are the comma-separated pieces of the argument, each
   * stripped: the pieces join back to the argument, and no tag holds a
   * comma or starts or ends with whitespace.
   */
  lemma ParsedTagsArePieces(arg: string)
    requires arg != ""
    ensures var tags := ParseFilterTags(Some(arg));
      && (exists pieces :: Join(pieces, ',') == arg && |pieces| == |tags|
            && forall k :: 0 <= k < |tags| ==> tags[k] == StripSpace(pieces[k]))
      && forall k :: 0 <= k < |tags| ==> ',' !in tags[k] && StripSpace(tags[k]) == tags[k]
  {
    var tags := ParseFilterTags(Some(arg));
    var pieces := Split(arg, ',');
    JoinSplit(arg, ',');
    forall k | 0 <= k < |tags| ensures ',' !in tags[k] && StripSpace(tags[k]) == tags[k] {
      assert tags[k] == StripSpace(pieces[k]);
      StripNoop(tags[k], IsSpace);
    }
  }

  // ------------------------------------------------------------ _filter_magnets

  /** `','.join(magnet.tags)` */
  function TagText(m: MagnetLink): string {
    Join(m.tags, ',')
  }

  /** `any(tag in ','.join(magnet.tags) for tag in filter_tags)`: some filter tag is a substring of the joined tags. */
  predicate MatchesFilter(m: MagnetLink, tags: seq<string>) {
    exists k :: 0 <= k < |tags| && Occurs(TagText(m), tags[k])
  }

  function Matcher(tags: seq<string>): MagnetLink -> bool {
    m => MatchesFilter(m, tags)
  }

  /**
   * `_filter_magnets`: without filter tags (or links) the links come back
   * unchanged; otherwise the links that match a filter tag, in order.
   */
  function TagFiltered(ms: seq<MagnetLink>, tags: seq<string>): (r: seq<MagnetLink>)
    ensures tags == [] || ms == [] ==> r == ms
    ensures tags != [] ==> IsSubsequence(r, ms) && forall m :: m in r <==> m in ms && MatchesFilter(m, tags)
  {
    if tags == [] || ms == [] then ms else Filter(ms, Matcher(tags))
  }

  /** `_filter_magnets`, the loop that appends each matching link. */
  method FilterMagnets(ms: seq<MagnetLink>, tags: seq<string>) returns (r: seq<MagnetLink>)
    ensures r == TagFiltered(ms, tags)
  {
    if tags == [] || ms == [] {
      return ms;
    }
    r := [];
    for i := 0 to |ms|
      invariant r == Filter(ms[..i], Matcher(tags))
    {
      var m := ms[i];
      var text := Join(m.tags, ',');
      var keep := exists k :: 0 <= k < |tags| && Occurs(text, tags[k]);
      assert keep == Matcher(tags)(m);
      assert ms[..i + 1] == ms[..i] + [m];
      FilterSnoc(ms[..i], m, Matcher(tags));
      if keep {
        r := r + [m];
      }
    }
    assert ms[..|ms|] == ms;
  }

  /** Each part of a join occurs in the joined text. */
  lemma {:induction false} JoinHasPart(parts: seq<string>, sep: char, k: nat)
    requires k < |parts|
    ensures Occurs(Join(parts, sep), parts[k])
  {
    var joined := Join(parts, sep);
    if |parts| == 1 {
      assert StartsWith(joined[0..], parts[0]);
    } else if k == 0 {
      assert joined[0..][..|parts[0]|] == parts[0];
    } else {
      JoinHasPart(parts[1..], sep, k - 1);
      var rest := Join(parts[1..], sep);
      var i :| 0 <= i <= |rest| && StartsWith(rest[i..], parts[1..][k - 1]);
      var off := |parts[0]| + 1;
      assert joined == parts[0] + [sep] + rest;
      assert joined[off + i..] == rest[i..];
    }
  }

  /** A link that carries one of the filter tags as a tag of its own is always kept. */
  lemma CarriedTagIsKept(ms: seq<MagnetLink>, tags: seq<string>, m: MagnetLink, t: string)
    requires m in ms && t in m.tags && t in tags
    ensures m in TagFiltered(ms, tags)
  {
    var j :| 0 <= j < |m.tags| && m.tags[j] == t;
    JoinHasPart(m.tags, ',', j);
    var k :| 0 <= k < |tags| && tags[k] == t;
    assert Occurs(TagText(m), tags[k]);
  }

  /**
   * An empty filter tag (as `--filter "HD,"` gives) is a substring of
   * every joined tag text, so it keeps every link.
   */
  lemma EmptyTagKeepsAll(ms: seq<MagnetLink>, tags: seq<string>)
    requires "" in tags
    ensures TagFiltered(ms, tags) == ms
  {
    var k :| 0 <= k < |tags| && tags[k] == "";
    forall m | m in ms ensures Matcher(tags)(m) {
      assert StartsWith(TagText(m)[0..], tags[k]);
    }
    if ms != [] {
      FilterAll(ms, Matcher(tags));
    }
  }

  // ------------------------------------------------------------ filtering results

  type RankResult = Manager.RankResult

  /** `[f(r) for r in rs if f(r) is not None]`: the shape of both result filters. */
  function KeepSome(rs: seq<RankResult>, f: RankResult -> Option<RankResult>): (out: seq<RankResult>)
    ensures |out| <= |rs|
  {
    if rs == [] then []
    else KeepSome(rs[..|rs| - 1], f) + (if f(rs[|rs| - 1]).Some? then [f(rs[|rs| - 1]).value] else [])
  }

  /** What `KeepSome` keeps: exactly the rewritten results that are not dropped. */
  lemma {:induction false} KeepSomeMembers(rs: seq<RankResult>, f: RankResult -> Option<RankResult>)
    ensures forall x :: x in KeepSome(rs, f) ==> exists i :: 0 <= i < |rs| && f(rs[i]) == Some(x)
    ensures forall i :: 0 <= i < |rs| && f(rs[i]).Some? ==> f(rs[i]).value in KeepSome(rs, f)
  {
    if rs != [] {
      var init := rs[..|rs| - 1];
      KeepSomeMembers(init, f);
      forall x | x in KeepSome(rs, f) ensures exists i :: 0 <= i < |rs| && f(rs[i]) == Some(x) {
        if x in KeepSome(init, f) {
          var i :| 0 <= i < |init| && f(init[i]) == Some(x);
          assert rs[i] == init[i];
        } else {
          assert f(rs[|rs| - 1]) == Some(x);
        }
      }
      forall i | 0 <= i < |rs| && f(rs[i]).Some? ensures f(rs[i]).value in KeepSome(rs, f) {
        if i < |rs| - 1 {
          assert rs[i] == init[i];
        }
      }
    }
  }

  /** One result under the tag filter: its matching links, or dropped when none match. */
  function TagRefit(tags: seq<string>): RankResult -> Option<RankResult> {
    (r: RankResult) => var fm := TagFiltered(r.magnetLinks, tags);
                       if fm == [] then None else Some(r.(magnetLinks := fm, filteredMagnets := |fm|))
  }

  /** `_apply_filter_to_results`: unchanged without filter tags, else each result refiltered. */
  function FilteredResults(rs: seq<RankResult>, tags: seq<string>): seq<RankResult> {
    if tags == [] then rs else KeepSome(rs, TagRefit(tags))
  }

  /**
   * `_apply_filter_to_results`. The source overwrites `magnet_links` and
   * `filtered_magnets` of the kept result dicts; here the kept results are
   * new values.
   */
  method ApplyFilterToResults(rs: seq<RankResult>, tags: seq<string>) returns (out: seq<RankResult>)
    ensures out == FilteredResults(rs, tags)
  {
    if tags == [] {
      return rs;
    }
    out := [];
    for i := 0 to |rs|
      invariant out == KeepSome(rs[..i], TagRefit(tags))
    {
      var fm := FilterMagnets(rs[i].magnetLinks, tags);
      if fm != [] {
        out := out + [rs[i].(magnetLinks := fm, filteredMagnets := |fm|)];
      }
      assert rs[..i + 1][..i] == rs[..i];
    }
    assert rs[..|rs|] == rs;
  }

  /**
   * With filter tags, a result is kept exactly when one of its links
   * matches; it keeps rank, movie and total, holds only matching links,
   * and its filtered count is their number.
   */
  lemma FilteredResultsSpec(rs: seq<RankResult>, tags: seq<string>)
    requires tags != []
    ensures var out := FilteredResults(rs, tags);
      && |out| <= |rs|
      && (forall x :: x in out ==>
            && x.filteredMagnets == |x.magnetLinks| > 0
            && (forall m :: m in x.magnetLinks ==> MatchesFilter(m, tags))
            && exists i :: 0 <= i < |rs| && x == rs[i].(magnetLinks := TagFiltered(rs[i].magnetLinks, tags),
                                                      filteredMagnets := |x.magnetLinks|))
      && forall i :: 0 <= i < |rs| && (exists m :: m in rs[i].magnetLinks && MatchesFilter(m, tags)) ==>
           var fm := TagFiltered(rs[i].magnetLinks, tags);
           rs[i].(magnetLinks := fm, filteredMagnets := |fm|) in out
  {
    var f := TagRefit(tags);
    KeepSomeMembers(rs, f);
    forall i | 0 <= i < |rs| && (exists m :: m in rs[i].magnetLinks && MatchesFilter(m, tags))
      ensures f(rs[i]).Some?
    {
      var m :| m in rs[i].magnetLinks && MatchesFilter(m, tags);
      assert m in TagFiltered(rs[i].magnetLinks, tags);
    }
  }

  // ------------------------------------------------------------ priority

  /** `_apply_priority_logic`: the first high-quality link, else the first 中文 / Chinese one, else the first. */
  method ApplyPriorityLogic(ms: seq<MagnetLink>) returns (r: seq<MagnetLink>)
    ensures r == Preferred(ms, ChineseTags)
  {
    r := PickByPriority(ms, ChineseTags);
  }

  /** One result under the priority filter: its one chosen link, or dropped when it has none. */
  function PriorityRefit(r: RankResult): Option<RankResult> {
    if r.magnetLinks == [] then None
    else
      var chosen := Preferred(r.magnetLinks, ChineseTags);
      Some(r.(magnetLinks := chosen, filteredMagnets := |chosen|))
  }

  /**
   * `_apply_priority_filter_to_results`. As with the tag filter, the
   * source overwrites the kept dicts; here they are new values.
   */
  method ApplyPriorityFilterToResults(rs: seq<RankResult>) returns (out: seq<RankResult>)
    ensures out == KeepSome(rs, PriorityRefit)
  {
    out := [];
    for i := 0 to |rs|
      invariant out == KeepSome(rs[..i], PriorityRefit)
    {
      if rs[i].magnetLinks != [] {
        var chosen := ApplyPriorityLogic(rs[i].magnetLinks);
        out := out + [rs[i].(magnetLinks := chosen, filteredMagnets := |chosen|)];
      }
      assert rs[..i + 1][..i] == rs[..i];
    }
    assert rs[..|rs|] == rs;
  }

  /**
   * The priority filter keeps exactly the results that have links; each
   * keeps rank, movie and total and ends with one link, taken from its own
   * links by the priority rule, and a filtered count of 1.
   */
  lemma PriorityResultsSpec(rs: seq<RankResult>)
    ensures var out := KeepSome(rs, PriorityRefit);
      && (forall x :: x in out ==>
            && x.filteredMagnets == |x.magnetLinks| == 1
            && exists i :: 0 <= i < |rs| && rs[i].magnetLinks != [] && x.magnetLinks[0] in rs[i].magnetLinks
                 && x == rs[i].(magnetLinks := Preferred(rs[i].magnetLinks, ChineseTags), filteredMagnets := 1))
      && forall i :: 0 <= i < |rs| && rs[i].magnetLinks != [] ==>
           rs[i].(magnetLinks := Preferred(rs[i].magnetLinks, ChineseTags), filteredMagnets := 1) in out
  {
    KeepSomeMembers(rs, PriorityRefit);
  }

  // ------------------------------------------------------------ export file name

  /**
   * The extension fix of `_export_results` and `_export_magnet_links`:
   * `None` for a missing file name (the error path); otherwise the name,
   * with `.{format}` appended unless it already ends so.
   */
  function ExportName(filename: string, format: string): (r: Option<string>)
    ensures r.None? <==> filename == ""
    ensures r.Some? ==> EndsWith(r.value, "." + format) && StartsWith(r.value, filename)
    ensures r.Some? && EndsWith(filename, "." + format) ==> r.value == filename
  {
    if filename == "" then None
    else if EndsWith(filename, "." + format) then Some(filename)
    else
      var named := filename + "." + format;
      assert named[..|filename|] == filename;
      Some(named)
  }

  /** Fixing the extension twice is fixing it once. */
  lemma ExportNameIdempotent(filename: string, format: string)
    requires filename != ""
    ensures ExportName(ExportName(filename, format).value, format) == ExportName(filename, format)
  {
  }

  // ------------------------------------------------------------ display truncation

  /** How many characters of a title the tables show before `...`. */
  const TitleWidth: nat := 27

  /** How many characters of a download link the tables show before `...`. */
  const LinkWidth: nat := 47

  /** `s[:width] + "..."` when `s` is longer than `width`, else `s`. */
  function Truncated(s: string, width: nat): (r: string)
    ensures |r| <= width + 3
    ensures |s| <= width ==> r == s
    ensures |s| > width ==> |r| == width + 3 && StartsWith(s, r[..width]) && EndsWith(r, "...")
  {
    if |s| > width then s[..width] + "..." else s
  }

  /** The title as `_display_results` and `_display_magnet_links` show it. */
  function DisplayTitle(title: string): (r: string)
    ensures |r| <= TitleWidth + 3
  {
    Truncated(title, TitleWidth)
  }

  /** The download link (`copy_url or magnet_url`) as `_display_magnet_links` shows it. */
  function DisplayLink(m: MagnetLink): (r: string)
    ensures |r| <= LinkWidth + 3
  {
    Truncated(PrimaryUrl(m), LinkWidth)
  }

  /**
   * Truncating a truncated text changes nothing, and a text is shown
   * unchanged whenever it fits or has the shape of a truncated text.
   */
  lemma TruncatedIdempotent(s: string, width: nat)
    ensures Truncated(Truncated(s, width), width) == Truncated(s, width)
    ensures Truncated(s, width) == s <==> |s| <= width || s[width..] == "..."
  {
    var r := Truncated(s, width);
    if |s| > width {
      assert r[..width] == s[..width];
      if s[width..] == "..." {
        assert s == s[..width] + s[width..];
      }
    }
  }
}
