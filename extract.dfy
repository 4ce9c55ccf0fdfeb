/**
 * The page parsers of `JavDBMagnetCrawler`: `_parse_rankings_page`,
 * `_parse_movie_item`, `_parse_magnet_links_page` and `_parse_magnet_item`,
 * over the parse tree of the page. Each selector chain of the source is kept
 * in its order; `urljoin` against the site's base URL is the parameter
 * `urljoin`.
 */
module Extract {
  import opened Wrappers
  import opened Text
  import opened Utils
  import opened Markup
  import opened Magnets

  // -------------------------------------------------------- selector chains

  /**
   * The index of the first selector of `sels` that finds something in
   * `doc`; `|sels|` when none does.
   */
  function HitIndex(doc: Node, sels: seq<Matcher>): (k: nat)
    ensures k <= |sels|
    ensures forall j :: 0 <= j < k ==> Find(doc, sels[j]).None?
    ensures k < |sels| ==> Find(doc, sels[k]).Some?
  {
    if sels == [] || Find(doc, sels[0]).Some? then 0
    else
      var k := HitIndex(doc, sels[1..]);
      assert forall j :: 1 <= j <= k ==> sels[j] == sels[1..][j - 1];
      1 + k
  }

  /**
   * `doc.find(s0) or doc.find(s1) or ...`: what the first selector that
   * finds anything finds, and nothing exactly when no selector finds anything.
   */
  function FirstFound(doc: Node, sels: seq<Matcher>): (r: Option<Node>)
    ensures var k := HitIndex(doc, sels); r == if k < |sels| then Find(doc, sels[k]) else None
  {
    if sels == [] then None else OrElse(Find(doc, sels[0]), FirstFound(doc, sels[1..]))
  }

  /** When `sels[k]` is the first selector that finds anything, the chain gives what it finds. */
  lemma FirstFoundAt(doc: Node, sels: seq<Matcher>, k: nat)
    requires k < |sels| && Find(doc, sels[k]).Some?
    requires forall j :: 0 <= j < k ==> Find(doc, sels[j]).None?
    ensures FirstFound(doc, sels) == Find(doc, sels[k])
  {
    assert HitIndex(doc, sels) == k;
  }

  /** When no selector finds anything, neither does the chain. */
  lemma FirstFoundNone(doc: Node, sels: seq<Matcher>)
    requires forall j :: 0 <= j < |sels| ==> Find(doc, sels[j]).None?
    ensures FirstFound(doc, sels) == None
  {
  }

  /**
   * The index of the first selector of `sels` that matches anything below
   * `doc`; `|sels|` when none does.
   */
  function FillIndex(doc: Node, sels: seq<Matcher>): (k: nat)
    ensures k <= |sels|
    ensures forall j :: 0 <= j < k ==> FindAll(doc, sels[j]) == []
    ensures k < |sels| ==> FindAll(doc, sels[k]) != []
  {
    if sels == [] || FindAll(doc, sels[0]) != [] then 0
    else
      var k := FillIndex(doc, sels[1..]);
      assert forall j :: 1 <= j <= k ==> sels[j] == sels[1..][j - 1];
      1 + k
  }

  /**
   * The matches of the first selector of `sels` that matches anything, and
   * none when no selector matches anything.
   */
  function FirstNonEmpty(doc: Node, sels: seq<Matcher>): (r: seq<Node>)
    ensures var k := FillIndex(doc, sels); r == if k < |sels| then FindAll(doc, sels[k]) else []
  {
    if sels == [] then []
    else
      var items := FindAll(doc, sels[0]);
      if items != [] then items else FirstNonEmpty(doc, sels[1..])
  }

  // ------------------------------------------------------------ movie items

  /**
   * A movie of the rankings page. `score` is the text `float()` is applied
   * to (digits and dots only); empty stands for the default score 0.0.
   */
  datatype Movie = Movie(
    rank: nat,
    code: string,
    title: string,
    detailUrl: string,
    coverUrl: string,
    score: string,
    actors: seq<string>,
    tags: seq<string>)

  /** `a or b` on strings. */
  function Either(a: string, b: string): string {
    if a != "" then a else b
  }

  /**
   * `detail_url.split('/')[-1]` when the split has more than one piece, else
   * `""`: the text after the last `/`.
   */
  function CodeFromUrl(url: string): (code: string)
    ensures '/' !in code && EndsWith(url, code)
    ensures '/' !in url ==> code == ""
    ensures '/' in url ==> |code| < |url| && url[|url| - |code| - 1] == '/'
  {
    var parts := Split(url, '/');
    if |parts| > 1 then
      var code := parts[|parts| - 1];
      JoinSplit(url, '/');
      JoinLast(parts, '/');
      assert url == Join(parts[..|parts| - 1], '/') + ['/'] + code;
      code
    else
      assert '/' !in url by {
        JoinSplit(url, '/');
        assert url == parts[0];
      }
      ""
  }

  /** The title text of the element the title chain chose. */
  function TitleText(e: Node): string {
    if e.Element? && e.name == "a" then Either(Attr(e, "title"), GetText(e))
    else
      match Find(e, Tag("a"))
      case Some(a) => Either(Attr(a, "title"), GetText(a))
      case None => GetText(e)
  }

  /** The title text of `e`, cleaned when there is any. */
  function TitleFrom(e: Node): (title: string)
    ensures IsCleanText(title)
  {
    var text := TitleText(e);
    if text != "" then CleanText(text) else ""
  }

  /** The selectors of the title element, tried in order before the movie link itself. */
  const TitleSelectors: seq<Matcher> := [TagClass("div", "video-title"), TagClass("div", "title"), Tag("strong")]

  /** The title: read from `div.video-title`, `div.title`, `strong`, else from the movie link itself. */
  function TitleOf(item: Node, link: Node): (title: string)
    ensures IsCleanText(title)
    ensures var k := HitIndex(item, TitleSelectors);
      title == if k < |TitleSelectors| then TitleFrom(Find(item, TitleSelectors[k]).value) else TitleFrom(link)
  {
    match FirstFound(item, TitleSelectors)
    case Some(e) => TitleFrom(e)
    case None => TitleFrom(link)
  }

  /** The class `[\d.]`. */
  predicate IsScoreChar(c: char) {
    IsDecimal(c) || c == '.'
  }

  /** The selectors of the score element, tried in order. */
  const ScoreSelectors: seq<Matcher> := [
    TagClass("span", "score"), TagClass("span", "rating"), TagClass("div", "score"), TagClass("span", "value")]

  /**
   * The score text: the digits and dots of the text of `span.score`,
   * `span.rating`, `div.score` or `span.value`, whichever is found first, in
   * their order; empty when there is none.
   */
  function ScoreOf(item: Node): (score: string)
    ensures forall c :: c in score ==> IsScoreChar(c)
    ensures var k := HitIndex(item, ScoreSelectors);
      score == if k < |ScoreSelectors| then Filter(GetText(Find(item, ScoreSelectors[k]).value), IsScoreChar) else ""
  {
    match FirstFound(item, ScoreSelectors)
    case Some(e) => ScoreText(e)
    case None => ""
  }

  /** `re.sub(r'[^\d.]', '', e.get_text().strip())`: the digits and dots of the text, in order. */
  function ScoreText(e: Node): (score: string)
    ensures score == Filter(GetText(e), IsScoreChar)
  {
    FilterStrip(GetText(e), IsSpace, IsScoreChar);
    Filter(StripSpace(GetText(e)), IsScoreChar)
  }

  /** `[clean_text(a.get_text()) for a in anchors]` */
  function AnchorTexts(anchors: seq<Node>): (r: seq<string>)
    ensures |r| == |anchors| && forall k :: 0 <= k < |r| ==> IsCleanText(r[k])
  {
    seq(|anchors|, k requires 0 <= k < |anchors| => CleanText(GetText(anchors[k])))
  }

  /** The selectors of the tag block, tried in order. */
  const TagListSelectors: seq<Matcher> := [TagClass("div", "tags"), TagClass("div", "tag-list")]

  /** The tags: the cleaned texts of the links of `div.tags`, else of `div.tag-list`. */
  function TagsOf(item: Node): (tags: seq<string>)
    ensures var k := HitIndex(item, TagListSelectors);
      tags == if k < |TagListSelectors| then AnchorTexts(FindAll(Find(item, TagListSelectors[k]).value, Tag("a"))) else []
  {
    match FirstFound(item, TagListSelectors)
    case Some(e) => AnchorTexts(FindAll(e, Tag("a")))
    case None => []
  }

  /** The class `[演員主演：:]`. */
  predicate IsActorPrefixChar(c: char) {
    c in "演員主演：:"
  }

  /** The text has no comma. */
  predicate CommaFree(s: string) {
    ',' !in s
  }

  /** A name as `clean_text(a.strip())` makes it: clean text, and free of commas when `a` is. */
  function CleanName(part: string): (name: string)
    ensures IsCleanText(name)
    ensures CommaFree(part) ==> CommaFree(name)
  {
    CleanText(StripSpace(part))
  }

  /** A piece that is not blank: `a.strip()` is truthy. */
  predicate HasText(part: string) {
    StripSpace(part) != ""
  }

  /** `[clean_text(a.strip()) for a in parts if a.strip()]` */
  function Names(parts: seq<string>): (r: seq<string>)
    ensures |r| <= |parts|
    ensures forall k :: 0 <= k < |r| ==> IsCleanText(r[k])
  {
    if parts == [] then []
    else
      var rest := Names(parts[1..]);
      if !HasText(parts[0]) then rest
      else
        var name := CleanName(parts[0]);
        ConsClean(name, rest);
        [name] + rest
  }

  /** The names are the non-blank pieces, in order, each stripped and cleaned. */
  lemma {:induction false} NamesOfPieces(parts: seq<string>)
    ensures var kept := Filter(parts, HasText);
      |Names(parts)| == |kept| && forall k :: 0 <= k < |kept| ==> Names(parts)[k] == CleanName(kept[k])
  {
    if parts != [] {
      var tail := parts[1..];
      NamesOfPieces(tail);
      NamesStep(parts);
      FilterCons(parts, HasText);
      if HasText(parts[0]) {
        ConsMapped(CleanName, parts[0], Names(tail), Filter(tail, HasText));
      }
    }
  }

  /** Mapping `f` over a sequence commutes with putting an element in front. */
  lemma ConsMapped<T, U>(f: T -> U, x: T, ys: seq<U>, xs: seq<T>)
    requires |ys| == |xs| && forall k :: 0 <= k < |xs| ==> ys[k] == f(xs[k])
    ensures var ys', xs' := [f(x)] + ys, [x] + xs;
      |ys'| == |xs'| && forall k :: 0 <= k < |xs'| ==> ys'[k] == f(xs'[k])
  {
    var ys', xs' := [f(x)] + ys, [x] + xs;
    forall k | 0 <= k < |xs'| ensures ys'[k] == f(xs'[k]) {
      if k > 0 {
        assert ys'[k] == ys[k - 1] && xs'[k] == xs[k - 1];
      }
    }
  }

  /**
   * A name as `clean_text` leaves it: not empty, only kept characters, no
   * space at either end and none doubled; and free of commas.
   */
  predicate IsCleanName(n: string) {
    && n != "" && IsCleanText(n) && CommaFree(n)
    && n[0] != ' ' && n[|n| - 1] != ' '
    && forall i :: 0 <= i < |n| - 1 ==> n[i] != ' ' || n[i + 1] != ' '
  }

  /** A clean name is not blank and cleaning gives it back. */
  lemma CleanNameNoop(n: string)
    requires IsCleanName(n)
    ensures StripSpace(n) == n && HasText(n) && CleanName(n) == n
  {
    CleanCharsNotSpace(n);
    StripNoop(n, IsSpace);
    CleanTextFixedPoint(n);
  }

  /** A clean name starts and ends with a character outside `\s`. */
  lemma CleanNameEnds(n: string)
    requires IsCleanName(n)
    ensures !IsSpace(n[0]) && !IsSpace(n[|n| - 1])
  {
    CleanCharsNotSpace(n);
  }

  /** Pieces that are not blank and are their own cleaned name come back as the names. */
  lemma {:induction false} NamesOfCleanNames(ns: seq<string>)
    requires forall n :: n in ns ==> HasText(n) && CleanName(n) == n
    ensures Names(ns) == ns
  {
    if ns != [] {
      var tail := ns[1..];
      assert forall n :: n in tail ==> n in ns;
      assert ns[0] in ns;
      NamesOfCleanNames(tail);
      NamesStep(ns);
      HeadTail(ns);
    }
  }

  /** One piece of `Names`: a blank piece is skipped, any other gives its name. */
  lemma NamesStep(parts: seq<string>)
    requires parts != []
    ensures Names(parts) == if HasText(parts[0]) then [CleanName(parts[0])] + Names(parts[1..]) else Names(parts[1..])
  {
  }

  lemma ConsClean(name: string, rest: seq<string>)
    requires IsCleanText(name) && forall k :: 0 <= k < |rest| ==> IsCleanText(rest[k])
    ensures forall k :: 0 <= k < |[name] + rest| ==> IsCleanText(([name] + rest)[k])
  {
    forall k | 0 <= k < |[name] + rest| ensures IsCleanText(([name] + rest)[k]) {
      if k > 0 { assert ([name] + rest)[k] == rest[k - 1]; }
    }
  }

  /** Names cut from comma-free pieces have no comma. */
  lemma {:induction false} NamesCommaFree(parts: seq<string>)
    requires forall k :: 0 <= k < |parts| ==> CommaFree(parts[k])
    ensures forall k :: 0 <= k < |Names(parts)| ==> CommaFree(Names(parts)[k])
  {
    if parts != [] {
      var tail := parts[1..];
      assert forall k :: 0 <= k < |tail| ==> CommaFree(tail[k]) by {
        forall k | 0 <= k < |tail| ensures CommaFree(tail[k]) { assert tail[k] == parts[k + 1]; }
      }
      NamesCommaFree(tail);
      if StripSpace(parts[0]) != "" {
        assert CommaFree(parts[0]);
        ConsCommaFree(CleanName(parts[0]), Names(tail));
      }
    }
  }

  lemma ConsCommaFree(name: string, rest: seq<string>)
    requires CommaFree(name) && forall k :: 0 <= k < |rest| ==> CommaFree(rest[k])
    ensures forall k :: 0 <= k < |[name] + rest| ==> CommaFree(([name] + rest)[k])
  {
  }

  /**
   * Actor names from the text of an actor block without links: the text
   * is stripped, a leading run of `演員主演：:` is cut, and what remains is
   * split on commas into non-blank, cleaned names.
   */
  function ActorsFromText(text: string): (actors: seq<string>)
    ensures forall k :: 0 <= k < |actors| ==> CommaFree(actors[k]) && IsCleanText(actors[k])
  {
    var t := StripSpace(text);
    if t == "" then []
    else
      var u := StripLeft(t, IsActorPrefixChar);
      if u == "" then []
      else
        var parts := Split(u, ',');
        assert forall k :: 0 <= k < |parts| ==> CommaFree(parts[k]);
        NamesCommaFree(parts);
        Names(parts)
  }

  /**
   * Clean names joined with commas come back from the actor text as they
   * were, provided the first does not start with one of `演員主演：:`.
   */
  lemma ActorsFromTextRoundTrip(ns: seq<string>)
    requires forall n :: n in ns ==> IsCleanName(n)
    requires ns != [] ==> ns[0] != "" && !IsActorPrefixChar(ns[0][0])
    ensures ActorsFromText(Join(ns, ',')) == ns
  {
    if ns != [] {
      JoinedNames(ns);
      forall n | n in ns ensures HasText(n) && CleanName(n) == n {
        CleanNameNoop(n);
      }
      NamesOfCleanNames(ns);
    }
  }

  /** The comma join of clean names has nothing to strip and splits back into the names. */
  lemma JoinedNames(ns: seq<string>)
    requires ns != [] && forall n :: n in ns ==> IsCleanName(n)
    requires ns[0] != "" && !IsActorPrefixChar(ns[0][0])
    ensures var text := Join(ns, ',');
      && text != "" && StripSpace(text) == text && StripLeft(text, IsActorPrefixChar) == text
      && Split(text, ',') == ns
  {
    var text := Join(ns, ',');
    assert ns[0] in ns && ns[|ns| - 1] in ns;
    JoinEnds(ns, ',');
    CleanNameEnds(ns[0]);
    CleanNameEnds(ns[|ns| - 1]);
    assert text[0] == ns[0][0] && text[|text| - 1] == ns[|ns| - 1][|ns[|ns| - 1]| - 1];
    StripNoop(text, IsSpace);
    StripLeftNoop(text, IsActorPrefixChar);
    assert forall k :: 0 <= k < |ns| ==> ns[k] in ns;
    SplitJoin(ns, ',');
  }

  /** The actors: the anchor texts of the block if it has links, else its text split on commas. */
  function ActorsOf(e: Option<Node>): seq<string> {
    match e
    case None => []
    case Some(block) =>
      var anchors := FindAll(block, Tag("a"));
      if anchors != [] then AnchorTexts(anchors) else ActorsFromText(GetText(block))
  }

  /** A block whose text names its actors. */
  predicate MentionsActors(d: Node) {
    Occurs(GetText(d), "演員") || Occurs(GetText(d), "主演")
  }

  /** The first of `divs` that mentions actors. */
  function FirstMentioningActors(divs: seq<Node>): (r: Option<Node>)
    ensures r.None? <==> forall k :: 0 <= k < |divs| ==> !MentionsActors(divs[k])
    ensures r.Some? ==> exists k :: 0 <= k < |divs| && divs[k] == r.value && MentionsActors(divs[k])
                          && forall j :: 0 <= j < k ==> !MentionsActors(divs[j])
  {
    if divs == [] then None
    else if MentionsActors(divs[0]) then Some(divs[0])
    else
      var r := FirstMentioningActors(divs[1..]);
      assert forall k :: 1 <= k < |divs| ==> divs[k] == divs[1..][k - 1];
      assert r.Some? ==> exists k :: 0 <= k < |divs| && divs[k] == r.value && MentionsActors(divs[k])
                          && forall j :: 0 <= j < k ==> !MentionsActors(divs[j]) by {
        if r.Some? {
          var k :| 0 <= k < |divs[1..]| && divs[1..][k] == r.value && MentionsActors(divs[1..][k])
                   && forall j :: 0 <= j < k ==> !MentionsActors(divs[1..][j]);
          assert divs[k + 1] == r.value;
        }
      }
      r
  }

  /** The first `div` mentioning the actors is the one after a run of `div`s that do not. */
  lemma FirstMentioningAt(divs: seq<Node>, k: nat)
    requires k < |divs| && MentionsActors(divs[k])
    requires forall j :: 0 <= j < k ==> !MentionsActors(divs[j])
    ensures FirstMentioningActors(divs) == Some(divs[k])
  {
    var r := FirstMentioningActors(divs);
    var i :| 0 <= i < |divs| && divs[i] == r.value && MentionsActors(divs[i])
             && forall j :: 0 <= j < i ==> !MentionsActors(divs[j]);
    assert i == k;
  }

  /** The selectors of the actor block, tried in order. */
  const ActorBlockSelectors: seq<Matcher> := [
    TagClass("div", "actors"), TagClass("div", "actor-list"), TagClass("div", "performers")]

  /** The named actor block: the first of `div.actors`, `div.actor-list`, `div.performers` found. */
  function NamedActorBlock(item: Node): (block: Option<Node>)
    ensures var k := HitIndex(item, ActorBlockSelectors);
      block == if k < |ActorBlockSelectors| then Find(item, ActorBlockSelectors[k]) else None
  {
    FirstFound(item, ActorBlockSelectors)
  }

  /**
   * The movie built from the item's first link and its actor block: the
   * detail URL is the link made absolute, the code is what follows its last
   * `/`, the title is clean text.
   */
  function MovieFrom(item: Node, rank: nat, link: Node, block: Option<Node>, urljoin: string -> string): (m: Movie)
    ensures m.rank == rank && m.detailUrl == urljoin(Attr(link, "href"))
    ensures '/' !in m.code && EndsWith(m.detailUrl, m.code)
    ensures IsCleanText(m.title)
  {
    var detailUrl := urljoin(Attr(link, "href"));
    var coverUrl := match Find(item, Tag("img")) case Some(img) => urljoin(Attr(img, "src")) case None => "";
    Movie(rank, CodeFromUrl(detailUrl), TitleOf(item, link), detailUrl, coverUrl, ScoreOf(item), ActorsOf(block), TagsOf(item))
  }

  /** The movie `_parse_movie_item` builds, stated as one value. */
  function MovieItem(item: Node, rank: nat, urljoin: string -> string): (r: Option<Movie>)
    ensures r.Some? ==> r.value.rank == rank
  {
    match Find(item, Tag("a"))
    case None => None
    case Some(link) =>
      Some(MovieFrom(item, rank, link, OrElse(NamedActorBlock(item), FirstMentioningActors(FindAll(item, Tag("div")))), urljoin))
  }

  /**
   * `_parse_movie_item`: `None` exactly when the item has no link. Otherwise
   * the detail URL is the link made absolute, the code is what follows its
   * last `/`, and the title is clean text.
   */
  method ParseMovieItem(item: Node, rank: nat, urljoin: string -> string) returns (r: Option<Movie>)
    ensures r == MovieItem(item, rank, urljoin)
    ensures r.None? <==> Find(item, Tag("a")).None?
    ensures r.Some? ==> r.value.rank == rank && r.value.detailUrl == urljoin(Attr(Find(item, Tag("a")).value, "href"))
    ensures r.Some? ==> '/' !in r.value.code && EndsWith(r.value.detailUrl, r.value.code)
    ensures r.Some? ==> IsCleanText(r.value.title)
  {
    var link := Find(item, Tag("a"));
    if link.None? {
      return None;
    }
    var block := ActorBlock(item);
    r := Some(MovieFrom(item, rank, link.value, block, urljoin));
  }

  /**
   * The actor block: a named one, else the first `div` whose text mentions
   * 演員 or 主演.
   */
  method ActorBlock(item: Node) returns (block: Option<Node>)
    ensures block == OrElse(NamedActorBlock(item), FirstMentioningActors(FindAll(item, Tag("div"))))
    ensures block.Some? ==> block.value in Descendants(item)
  {
    block := NamedActorBlock(item);
    if block.None? {
      block := FirstDivMentioningActors(FindAll(item, Tag("div")));
    }
  }

  /** The scan over the item's `div`s, stopping at the first whose text names the actors. */
  method FirstDivMentioningActors(divs: seq<Node>) returns (block: Option<Node>)
    ensures block == FirstMentioningActors(divs)
  {
    var k := 0;
    while k < |divs|
      invariant 0 <= k <= |divs|
      invariant forall j :: 0 <= j < k ==> !MentionsActors(divs[j])
    {
      var text := GetText(divs[k]);
      if Occurs(text, "演員") || Occurs(text, "主演") {
        FirstMentioningAt(divs, k);
        return Some(divs[k]);
      }
      assert !MentionsActors(divs[k]);
      k := k + 1;
    }
    return None;
  }

  /** `s[:limit]` for an `int` limit: a negative limit drops that many from the end. */
  function PyPrefix<T>(s: seq<T>, limit: int): (r: seq<T>)
    ensures |r| <= |s| && r == s[..|r|]
    ensures limit >= 0 ==> |r| == if limit < |s| then limit else |s|
    ensures limit < 0 ==> |r| == if |s| + limit > 0 then |s| + limit else 0
  {
    if limit >= 0 then (if limit < |s| then s[..limit] else s)
    else if |s| + limit > 0 then s[..|s| + limit] else []
  }

  /** The movie containers: `div.item`, else `div.movie-item`, else `div.video-item`. */
  function MovieContainers(doc: Node): seq<Node> {
    var items := FindAll(doc, TagClass("div", "item"));
    if items != [] then items
    else
      var items2 := FindAll(doc, TagClass("div", "movie-item"));
      if items2 != [] then items2 else FindAll(doc, TagClass("div", "video-item"))
  }

  /** The movies of `items`, the k-th ranked k (from 1); items without a link drop out. */
  function MoviesOf(items: seq<Node>, urljoin: string -> string): (movies: seq<Movie>)
    ensures |movies| <= |items|
    ensures forall k :: 0 <= k < |movies| ==> 1 <= movies[k].rank <= |items|
    ensures forall j, k :: 0 <= j < k < |movies| ==> movies[j].rank < movies[k].rank
  {
    if items == [] then []
    else
      var prev := MoviesOf(items[..|items| - 1], urljoin);
      match MovieItem(items[|items| - 1], |items|, urljoin)
      case Some(m) =>
        RanksSnoc(prev, m, |items|);
        prev + [m]
      case None => prev
  }

  lemma MoviesPrefixStep(items: seq<Node>, i: nat, urljoin: string -> string)
    requires i < |items|
    ensures MoviesOf(items[..i + 1], urljoin) == MoviesOf(items[..i], urljoin) + OptionToSeq(MovieItem(items[i], i + 1, urljoin))
  {
    assert items[..i + 1][..i] == items[..i];
  }

  lemma RanksSnoc(prev: seq<Movie>, m: Movie, n: nat)
    requires |prev| < n && m.rank == n
    requires forall k :: 0 <= k < |prev| ==> 1 <= prev[k].rank < n
    requires forall j, k :: 0 <= j < k < |prev| ==> prev[j].rank < prev[k].rank
    ensures var ms := prev + [m];
            (forall k :: 0 <= k < |ms| ==> 1 <= ms[k].rank <= n)
            && forall j, k :: 0 <= j < k < |ms| ==> ms[j].rank < ms[k].rank
  {
  }

  /**
   * The movies of the rankings page: the first `limit` containers, parsed
   * in order. At most `limit` movies come back, their ranks are their
   * places among the containers, and they keep the page's order.
   */
  function RankedMovies(doc: Node, limit: int, urljoin: string -> string): (movies: seq<Movie>)
    ensures limit >= 0 ==> |movies| <= limit
    ensures forall k :: 0 <= k < |movies| ==> 1 <= movies[k].rank <= |MovieContainers(doc)|
    ensures forall j, k :: 0 <= j < k < |movies| ==> movies[j].rank < movies[k].rank
  {
    MoviesOf(PyPrefix(MovieContainers(doc), limit), urljoin)
  }

  /** `_parse_rankings_page`, its result stated by `RankedMovies`. */
  method ParseRankingsPage(doc: Node, limit: int, urljoin: string -> string) returns (movies: seq<Movie>)
    ensures movies == RankedMovies(doc, limit, urljoin)
  {
    var chosen := PyPrefix(MovieContainers(doc), limit);
    movies := ParseMovies(chosen, urljoin);
  }

  /** The loop of `_parse_rankings_page`: each container parsed with its rank, in order. */
  method ParseMovies(items: seq<Node>, urljoin: string -> string) returns (movies: seq<Movie>)
    ensures movies == MoviesOf(items, urljoin)
  {
    movies := [];
    for index := 0 to |items|
      invariant movies == MoviesOf(items[..index], urljoin)
    {
      var movie := ParseMovieItem(items[index], index + 1, urljoin);
      MoviesPrefixStep(items, index, urljoin);
      movies := movies + OptionToSeq(movie);
    }
    assert items[..|items|] == items;
  }


  // ------------------------------------------------------------ magnet items

  /** The digits of `(\d+)個文件` as `int()` reads them. */
  function DigitsValue(ds: string): nat
    requires forall c :: c in ds ==> IsDecimal(c)
  {
    if ds == [] then 0 else DigitsValue(ds[..|ds| - 1]) * 10 + DigitValue(ds[|ds| - 1])
  }

  const FilesSuffix: string := "個文件"

  /** `(\d+)個文件` matches at `k`: a digit run starting there runs into `個文件`. */
  predicate FileCountAt(s: string, k: nat) {
    k < |s| && IsDecimal(s[k]) && StartsWith(s[RunEnd(s, k, IsDecimal)..], FilesSuffix)
  }

  /** Where the leftmost match starts. */
  function FileCountStart(s: string): (r: Option<nat>)
    ensures r.None? <==> forall k :: 0 <= k <= |s| ==> !FileCountAt(s, k)
    ensures r.Some? ==> FileCountAt(s, r.value)
  {
    var at := (k: nat) => FileCountAt(s, k);
    assert forall k: nat :: at(k) == FileCountAt(s, k);
    FirstFrom(|s|, 0, at)
  }

  /**
   * The file count read from the size text (`int` of the digits before the
   * leftmost `個文件` preceded by digits); 0 when the text does not state one.
   */
  function FileCount(sizeText: string): (n: nat)
    ensures (forall k :: 0 <= k <= |sizeText| ==> !FileCountAt(sizeText, k)) ==> n == 0
  {
    match FileCountStart(sizeText)
    case None => 0
    case Some(k) => DigitsValue(sizeText[k..RunEnd(sizeText, k, IsDecimal)])
  }

  /** A size text that begins with a count of files gives that count. */
  lemma FileCountRoundTrip(ds: string, rest: string)
    requires ds != [] && forall c :: c in ds ==> IsDecimal(c)
    ensures FileCount(ds + FilesSuffix + rest) == DigitsValue(ds)
  {
    var s := ds + FilesSuffix + rest;
    forall k | 0 <= k < |ds| ensures IsDecimal(s[k]) { assert s[k] == ds[k]; }
    assert s[|ds|] == FilesSuffix[0];
    RunEndIsFirstMiss(s, 0, IsDecimal, |ds|);
    assert s[|ds|..][..|FilesSuffix|] == FilesSuffix;
    assert FileCountAt(s, 0);
    assert FileCountStart(s) == Some(0);
    assert s[0..|ds|] == ds;
  }

  /** The selectors of the copy button, tried in order. */
  const CopyButtonSelectors: seq<Matcher> := [
    TagClass("a", "copy-btn"), TagClass("button", "copy"), TagString("a", "複製")]

  /** The link a copy button carries: its `href`, else `data-url`, else `data-clipboard-text`. */
  function CopyLinkOf(b: Node): (url: string)
    ensures url != "" <==> Attr(b, "href") != "" || Attr(b, "data-url") != "" || Attr(b, "data-clipboard-text") != ""
    ensures url in [Attr(b, "href"), Attr(b, "data-url"), Attr(b, "data-clipboard-text")]
  {
    Either(Either(Attr(b, "href"), Attr(b, "data-url")), Attr(b, "data-clipboard-text"))
  }

  /** The link of the copy button: `a.copy-btn`, `button.copy`, `a` reading 複製, whichever is found first. */
  function CopyButtonUrl(item: Node): (url: string)
    ensures var k := HitIndex(item, CopyButtonSelectors);
      url == if k < |CopyButtonSelectors| then CopyLinkOf(Find(item, CopyButtonSelectors[k]).value) else ""
  {
    match FirstFound(item, CopyButtonSelectors)
    case Some(b) => CopyLinkOf(b)
    case None => ""
  }

  /** The selectors of the download button, tried in order. */
  const DownloadButtonSelectors: seq<Matcher> := [
    TagClass("a", "download-btn"), TagClass("button", "download"), TagString("a", "下載")]

  /** The link a download button carries: its `href`, else `data-url`. */
  function DownloadLinkOf(b: Node): (url: string)
    ensures url != "" <==> Attr(b, "href") != "" || Attr(b, "data-url") != ""
    ensures url in [Attr(b, "href"), Attr(b, "data-url")]
  {
    Either(Attr(b, "href"), Attr(b, "data-url"))
  }

  /** The link of the download button: `a.download-btn`, `button.download`, `a` reading 下載, whichever is found first. */
  function DownloadButtonUrl(item: Node): (url: string)
    ensures var k := HitIndex(item, DownloadButtonSelectors);
      url == if k < |DownloadButtonSelectors| then DownloadLinkOf(Find(item, DownloadButtonSelectors[k]).value) else ""
  {
    match FirstFound(item, DownloadButtonSelectors)
    case Some(b) => DownloadLinkOf(b)
    case None => ""
  }

  /** `clean_text(e.get_text())` of the first element found, or `""`. */
  function CleanTextOf(e: Option<Node>): (r: string)
    ensures IsCleanText(r)
  {
    if e.Some? then CleanText(GetText(e.value)) else ""
  }

  /**
   * The cleaned text of the first element `sels` finds in `item`, or `""`
   * when none finds anything.
   */
  function ChainText(item: Node, sels: seq<Matcher>): (r: string)
    ensures IsCleanText(r)
    ensures var k := HitIndex(item, sels);
      r == if k < |sels| then CleanText(GetText(Find(item, sels[k]).value)) else ""
  {
    CleanTextOf(FirstFound(item, sels))
  }

  const ItemTitleSelectors: seq<Matcher> := [TagClass("span", "title"), TagClass("td", "title"), Tag("strong")]

  const ItemSizeSelectors: seq<Matcher> := [TagClass("span", "size"), TagClass("td", "size")]

  const ItemDateSelectors: seq<Matcher> := [TagClass("span", "date"), TagClass("td", "date")]

  const ItemTagSelectors: seq<Matcher> := [TagClass("span", "tag"), TagClass("span", "label"), TagClass("span", "badge")]

  /** The title: the cleaned text of `span.title`, `td.title` or `strong`, whichever is found first. */
  function ItemTitle(item: Node): (r: string)
    ensures IsCleanText(r)
    ensures var k := HitIndex(item, ItemTitleSelectors);
      r == if k < |ItemTitleSelectors| then CleanText(GetText(Find(item, ItemTitleSelectors[k]).value)) else ""
  {
    ChainText(item, ItemTitleSelectors)
  }

  /** The size text: the cleaned text of `span.size`, else of `td.size`. */
  function ItemSize(item: Node): (r: string)
    ensures IsCleanText(r)
    ensures var k := HitIndex(item, ItemSizeSelectors);
      r == if k < |ItemSizeSelectors| then CleanText(GetText(Find(item, ItemSizeSelectors[k]).value)) else ""
  {
    ChainText(item, ItemSizeSelectors)
  }

  /** The date: the cleaned text of `span.date`, else of `td.date`. */
  function ItemDate(item: Node): (r: string)
    ensures IsCleanText(r)
    ensures var k := HitIndex(item, ItemDateSelectors);
      r == if k < |ItemDateSelectors| then CleanText(GetText(Find(item, ItemDateSelectors[k]).value)) else ""
  {
    ChainText(item, ItemDateSelectors)
  }

  /**
   * The tag: the cleaned text of the first of `span.tag`, `span.label`,
   * `span.badge` found, recorded only when it is a known tag.
   */
  function ItemTags(item: Node): (r: seq<string>)
    ensures |r| <= 1 && forall t :: t in r ==> t in KnownTags
    ensures var k := HitIndex(item, ItemTagSelectors);
      r == if k < |ItemTagSelectors| && ChainText(item, ItemTagSelectors) in KnownTags
           then [CleanText(GetText(Find(item, ItemTagSelectors[k]).value))] else []
  {
    var tagElem := FirstFound(item, ItemTagSelectors);
    var tagText := CleanTextOf(tagElem);
    if tagElem.Some? && tagText in KnownTags then [tagText] else []
  }

  /** What every link of the magnet page satisfies: a copy URL, at most one tag, a known one. */
  predicate IsPageLink(m: MagnetLink) {
    m.copyUrl != "" && |m.tags| <= 1 && forall t :: t in m.tags ==> t in KnownTags
  }

  /** An anchor whose `href` is a magnet link. */
  const MagnetAnchor: Matcher := TagAttrPrefix("a", "href", "magnet:")

  /** The `href` of the first anchor holding a magnet link; `""` when there is none. */
  function MagnetAnchorUrl(item: Node): (url: string)
    ensures url == "" <==> Find(item, MagnetAnchor).None?
    ensures url != "" ==> StartsWith(url, "magnet:")
  {
    match Find(item, MagnetAnchor)
    case Some(a) =>
      assert Matches(a, MagnetAnchor);
      Attr(a, "href")
    case None => ""
  }

  /**
   * `_parse_magnet_item`: a link exists exactly when the item has a copy
   * button with a URL or an anchor whose `href` starts with `magnet:`; the
   * copy URL is then never empty (it takes the magnet URL when the button
   * gave none), the one tag recorded is a known tag, and the file count is
   * the one the size text states.
   */
  function ParseMagnetItem(item: Node): (r: Option<MagnetLink>)
    ensures r.None? <==> CopyButtonUrl(item) == "" && Find(item, MagnetAnchor).None?
    ensures r.Some? ==> IsPageLink(r.value) && PrimaryUrl(r.value) == r.value.copyUrl
    ensures r.Some? ==> r.value.magnetUrl == "" || (StartsWith(r.value.magnetUrl, "magnet:") && r.value.copyUrl == r.value.magnetUrl)
    ensures r.Some? ==> r.value.fileCount == FileCount(r.value.size)
    ensures r.Some? ==> IsCleanText(r.value.title) && IsCleanText(r.value.size) && IsCleanText(r.value.date)
  {
    var copyUrl := CopyButtonUrl(item);
    var magnetUrl := if copyUrl == "" then MagnetAnchorUrl(item) else "";
    var finalCopy := if magnetUrl != "" then magnetUrl else copyUrl;
    if finalCopy != "" then
      var link := ItemLink(item, magnetUrl, finalCopy);
      assert PrimaryUrl(link) == finalCopy;
      Some(link)
    else None
  }

  /** The link of an item once its two URLs are settled: every other field is read from the item. */
  function ItemLink(item: Node, magnetUrl: string, copyUrl: string): (m: MagnetLink)
    ensures m.magnetUrl == magnetUrl && m.copyUrl == copyUrl
    ensures |m.tags| <= 1 && forall t :: t in m.tags ==> t in KnownTags
    ensures m.fileCount == FileCount(m.size)
    ensures IsCleanText(m.title) && IsCleanText(m.size) && IsCleanText(m.date)
  {
    var size := ItemSize(item);
    MagnetLink(ItemTitle(item), size, FileCount(size), ItemTags(item), magnetUrl, copyUrl,
               DownloadButtonUrl(item), ItemDate(item), "")
  }

  // ------------------------------------------------------- magnet links page

  /** The selectors of the magnet section, tried in order. */
  const SectionSelectors: seq<Matcher> := [
    TagClass("div", "magnet-links"), TagId("div", "magnet-links"), TagClass("div", "links"),
    TagClass("div", "magnet-list"), TagClass("div", "torrent-list"),
    TagClassContains("div", "magnet"), TagClassContains("div", "torrent")]

  /** The selectors of the items inside the section, tried in order. */
  const ItemSelectors: seq<Matcher> := [
    TagClass("div", "magnet-item"), TagClass("div", "link-item"), Tag("tr"),
    TagClassContains("div", "item"), TagClassContains("div", "link")]

  /** An anchor reading 複製. */
  const CopyButton: Matcher := TagString("a", "複製")

  /** The items of a section: the item selectors, else divs reading 複製 or 下載, else every div. */
  function ItemsOf(section: Node): seq<Node> {
    var items := FirstNonEmpty(section, ItemSelectors);
    if items != [] then items
    else
      var buttons := FindAll(section, TagStringHasAny("div", ["複製", "下載"]));
      if buttons != [] then buttons else FindAll(section, Tag("div"))
  }

  /** `_parse_magnet_item` applied to each of `items`. */
  function ParsedOptions(items: seq<Node>): (r: seq<Option<MagnetLink>>)
    ensures |r| == |items|
  {
    seq(|items|, k requires 0 <= k < |items| => ParseMagnetItem(items[k]))
  }

  /** The links of `items` that parse, in order; each has a copy URL and at most one tag, a known one. */
  function ParsedItems(items: seq<Node>): (links: seq<MagnetLink>)
    ensures |links| <= |items|
    ensures forall k :: 0 <= k < |links| ==> IsPageLink(links[k])
  {
    var opts := ParsedOptions(items);
    var links := Somes(opts);
    assert forall k :: 0 <= k < |links| ==> IsPageLink(links[k]) by {
      forall k | 0 <= k < |links| ensures IsPageLink(links[k]) {
        assert links[k] in links;
        var j :| 0 <= j < |opts| && opts[j] == Some(links[k]);
        assert ParseMagnetItem(items[j]) == Some(links[k]);
      }
    }
    links
  }

  /** Parsing one more item appends its link, if it has one. */
  lemma ParsedItemsSnoc(items: seq<Node>, item: Node)
    ensures ParsedItems(items + [item]) == ParsedItems(items) + (if ParseMagnetItem(item).Some? then [ParseMagnetItem(item).value] else [])
  {
    var opts := ParsedOptions(items + [item]);
    assert opts[..|items|] == ParsedOptions(items);
    assert opts[|items|] == ParseMagnetItem(item);
  }

  lemma ParsedPrefixStep(items: seq<Node>, i: nat)
    requires i < |items|
    ensures ParsedItems(items[..i + 1]) == ParsedItems(items[..i]) + (if ParseMagnetItem(items[i]).Some? then [ParseMagnetItem(items[i]).value] else [])
  {
    assert items[..i] + [items[i]] == items[..i + 1];
    ParsedItemsSnoc(items[..i], items[i]);
  }

  /** The container of a copy button: its nearest `div`, else its nearest `tr`. */
  function ButtonContainer(ancestors: seq<Node>): Option<Node> {
    OrElse(FindParent(ancestors, "div"), FindParent(ancestors, "tr"))
  }

  /** The containers of the copy buttons among `located`, in document order. */
  function ButtonContainers(located: seq<(Node, seq<Node>)>): seq<Node> {
    if located == [] then []
    else
      var last := located[|located| - 1];
      ButtonContainers(located[..|located| - 1])
      + (if Matches(last.0, CopyButton) && ButtonContainer(last.1).Some? then [ButtonContainer(last.1).value] else [])
  }

  /**
   * The links `_parse_magnet_links_page` returns: with a magnet section, its
   * items are parsed; without one, the container of each copy button is.
   * Every link has a copy URL and at most one tag, a known one.
   */
  function MagnetLinksPage(doc: Node): (links: seq<MagnetLink>)
    requires doc.Element?
    ensures forall k :: 0 <= k < |links| ==> IsPageLink(links[k])
    ensures OnlyKnownTags(links)
  {
    var links := match FirstFound(doc, SectionSelectors)
      case Some(section) => ParsedItems(ItemsOf(section))
      case None => ParsedItems(ButtonContainers(Located(doc.children, [doc])));
    PageLinksKnownTags(links);
    links
  }

  /** Links with known tags only make a list with known tags only. */
  lemma PageLinksKnownTags(links: seq<MagnetLink>)
    requires forall k :: 0 <= k < |links| ==> IsPageLink(links[k])
    ensures OnlyKnownTags(links)
  {
  }

  /** `_parse_magnet_links_page`, its result stated by `MagnetLinksPage`. */
  method ParseMagnetLinksPage(doc: Node) returns (links: seq<MagnetLink>)
    requires doc.Element?
    ensures links == MagnetLinksPage(doc)
  {
    var section := FindFirst(doc, SectionSelectors);
    if section.None? {
      var containers := CopyButtonContainers(doc);
      links := ParseItems(containers);
    } else {
      var items := SectionItems(section.value);
      links := ParseItems(items);
    }
  }

  /** The loop over `selectors` that stops at the first `select_one` that finds something. */
  method FindFirst(doc: Node, sels: seq<Matcher>) returns (found: Option<Node>)
    ensures found == FirstFound(doc, sels)
  {
    found := None;
    var s := 0;
    while s < |sels| && found.None?
      invariant 0 <= s <= |sels|
      invariant found.None? ==> s <= HitIndex(doc, sels)
      invariant found.Some? ==> 0 < s && HitIndex(doc, sels) == s - 1 && found == Find(doc, sels[s - 1])
    {
      found := Find(doc, sels[s]);
      s := s + 1;
    }
  }

  /** The page without a magnet section: the container of every copy button, in document order. */
  method CopyButtonContainers(doc: Node) returns (containers: seq<Node>)
    requires doc.Element?
    ensures containers == ButtonContainers(Located(doc.children, [doc]))
  {
    containers := [];
    var located := Located(doc.children, [doc]);
    for i := 0 to |located|
      invariant containers == ButtonContainers(located[..i])
    {
      assert located[..i + 1][..i] == located[..i];
      if Matches(located[i].0, CopyButton) {
        var parent := ButtonContainer(located[i].1);
        if parent.Some? {
          containers := containers + [parent.value];
        }
      }
    }
    assert located[..|located|] == located;
  }

  /** The items of a magnet section: the first item selector that finds any, then the fallbacks. */
  method SectionItems(section: Node) returns (items: seq<Node>)
    ensures items == ItemsOf(section)
  {
    items := [];
    var t := 0;
    while t < |ItemSelectors| && items == []
      invariant 0 <= t <= |ItemSelectors|
      invariant FirstNonEmpty(section, ItemSelectors) == if items != [] then items else FirstNonEmpty(section, ItemSelectors[t..])
    {
      assert ItemSelectors[t..][1..] == ItemSelectors[t + 1..];
      items := FindAll(section, ItemSelectors[t]);
      t := t + 1;
    }
    if items == [] {
      items := FindAll(section, TagStringHasAny("div", ["複製", "下載"]));
      if items == [] {
        items := FindAll(section, Tag("div"));
      }
    }
  }

  /** Each item is parsed in turn; the ones that give a link contribute it. */
  method ParseItems(items: seq<Node>) returns (links: seq<MagnetLink>)
    ensures links == ParsedItems(items)
  {
    links := [];
    for i := 0 to |items|
      invariant links == ParsedItems(items[..i])
    {
      var link := ParseMagnetItem(items[i]);
      ParsedPrefixStep(items, i);
      if link.Some? {
        links := links + [link.value];
      }
    }
    assert items[..|items|] == items;
  }
}
