/**
 * `JavDBMagnetManager.get_top30_monthly_with_duplicate_check`: the monthly
 * ranking is fetched and parsed, the movies the dedup store already holds
 * are skipped, and for every new movie the best magnet link is chosen, its
 * code repaired, and its URL appended to the URL list file unless that URL
 * was written before; at the end the codes of the newly written movies are
 * recorded in the store. Also `get_movie_magnet_links` and the counts of
 * `get_summary_stats`.
 *
 * The network is a function from an attempt number to the parsed page
 * (`None` for a failed request); the URL list file `magnet/Url List.txt` is
 * a field holding its text (`None` while it does not exist); today's date
 * (`%Y/%m/%d`), the store's timestamp and the code-validity check are
 * parameters.
 */
module Manager {
  import opened Wrappers
  import opened Text
  import opened Stamps
  import opened Tracker
  import opened Fetch
  import opened Markup
  import opened Magnets
  import opened Extract

  /** How many ranking entries the manager reads. */
  const RankingsLimit: int := 30

  /** `_make_request`'s default number of retries. */
  const DefaultRetries: int := 3

  /** One entry of the returned list. */
  datatype RankResult = RankResult(
    rank: nat,
    movie: Movie,
    magnetLinks: seq<MagnetLink>,
    totalMagnets: nat,
    filteredMagnets: nat)

  /** `movie['code']`, the key the dedup store is searched with. */
  function MovieCode(m: Movie): string {
    m.code
  }

  // ------------------------------------------------------------ fetching

  /** The movies of the ranking page, or `None` when it could not be fetched. */
  function RankingMovies(rankings: nat -> Option<seq<Node>>, urljoin: string -> string): Option<seq<Movie>> {
    match FirstResponse(rankings, DefaultRetries)
    case None => None
    case Some(top) => Some(RankedMovies(Document(top), RankingsLimit, urljoin))
  }

  /** What `get_movie_magnet_links` returns for the detail page at `url`. */
  function MovieMagnets(fetch: string -> nat -> Option<seq<Node>>, url: string): seq<MagnetLink> {
    match FirstResponse(fetch(url), DefaultRetries)
    case None => []
    case Some(top) => MagnetLinksPage(Document(top))
  }

  /**
   * `get_movie_magnet_links`: the links of the detail page, none when the
   * page cannot be fetched. Every link comes from the page's own items,
   * keeps a URL and carries at most one known tag.
   */
  method GetMovieMagnetLinks(fetch: string -> nat -> Option<seq<Node>>, url: string) returns (links: seq<MagnetLink>)
    ensures links == MovieMagnets(fetch, url)
    ensures OnlyKnownTags(links) && forall k :: 0 <= k < |links| ==> IsPageLink(links[k])
  {
    var response, _, _ := MakeRequest(fetch(url), DefaultRetries);
    if response.None? {
      return [];
    }
    links := ParseMagnetLinksPage(Document(response.value));
  }

  // ------------------------------------------------------------ the URL list file

  /** Each piece stripped (`line.strip()`). */
  function Stripped(parts: seq<string>): (r: seq<string>)
    ensures |r| == |parts| && forall i :: 0 <= i < |parts| ==> r[i] == StripSpace(parts[i])
  {
    seq(|parts|, i requires 0 <= i < |parts| => StripSpace(parts[i]))
  }

  predicate NonBlank(s: string) {
    s != ""
  }

  /** `[line.strip() for line in f if line.strip()]`: the file's non-blank lines, stripped. */
  function UrlLines(content: string): seq<string> {
    Filter(Stripped(Split(content, '\n')), NonBlank)
  }

  /** The file's text, empty while it does not exist. */
  function Content(file: Option<string>): string {
    if file.Some? then file.value else ""
  }

  /**
   * The header rule: today's date is written as a header unless the last
   * non-blank line of the file already is today's date.
   */
  predicate NeedsDateHeader(file: Option<string>, today: string) {
    var ls := UrlLines(Content(file));
    ls == [] || ls[|ls| - 1] != today
  }

  /** `f"\n{current_date}\n"` */
  function DateHeader(today: string): string {
    "\n" + today + "\n"
  }

  /** The text `f.write(f"{url}\n")` appends for each URL, in order. */
  function UrlText(urls: seq<string>): (t: string)
    ensures urls != [] ==> t != "" && t[|t| - 1] == '\n'
  {
    if urls == [] then "" else UrlText(urls[..|urls| - 1]) + urls[|urls| - 1] + "\n"
  }

  /** Every one of `urls` is a line. */
  predicate AllLines(urls: seq<string>) {
    forall k :: 0 <= k < |urls| ==> IsLine(urls[k])
  }

  /** Text that is empty or ends in a line break, so that what is appended starts a new line. */
  predicate EndsInBreak(text: string) {
    text == "" || text[|text| - 1] == '\n'
  }

  /** A line that needs no stripping and holds no line break. */
  predicate IsLine(s: string) {
    s != "" && '\n' !in s && StripSpace(s) == s
  }

  /** Stripping distributes over concatenation. */
  lemma StrippedAppend(a: seq<string>, b: seq<string>)
    ensures Stripped(a + b) == Stripped(a) + Stripped(b)
  {
  }

  /** The lines on either side of a line break are the lines of the two sides. */
  lemma UrlLinesAround(a: string, b: string)
    ensures UrlLines(a + ['\n'] + b) == UrlLines(a) + UrlLines(b)
  {
    SplitAround(a, '\n', b);
    StrippedAppend(Split(a, '\n'), Split(b, '\n'));
    FilterAppend(Stripped(Split(a, '\n')), Stripped(Split(b, '\n')), NonBlank);
  }

  /** An empty file has no lines. */
  lemma UrlLinesEmpty()
    ensures UrlLines("") == []
  {
    assert Stripped([""]) == [""];
    assert Filter([""], NonBlank) == [];
  }

  /** An empty file has no lines; a line with its break is one line. */
  lemma UrlLinesOfLine(line: string)
    requires IsLine(line)
    ensures UrlLines("") == []
    ensures UrlLines(line + "\n") == [line]
  {
    UrlLinesEmpty();
    SplitNoSeparator(line, '\n');
    assert Stripped([line]) == [line];
    assert Filter([line], NonBlank) == [line];
    UrlLinesAround(line, "");
    assert line + "\n" == line + ['\n'] + "";
  }

  /**
   * Appending a line to a file that is empty or ends in a line break adds
   * exactly that line to the file's non-blank lines.
   */
  lemma AppendLine(content: string, line: string)
    requires EndsInBreak(content)
    requires IsLine(line)
    ensures UrlLines(content + line + "\n") == UrlLines(content) + [line]
  {
    UrlLinesOfLine(line);
    if content == "" {
      assert content + line + "\n" == line + "\n";
    } else {
      var front := content[..|content| - 1];
      assert content == front + ['\n'] + "";
      assert content + line + "\n" == front + ['\n'] + (line + "\n");
      UrlLinesAround(front, "");
      UrlLinesAround(front, line + "\n");
    }
  }

  /** Appending URL lines adds exactly those lines, in order, to the file's non-blank lines. */
  lemma {:induction false} AppendUrls(content: string, urls: seq<string>)
    requires EndsInBreak(content)
    requires forall k :: 0 <= k < |urls| ==> IsLine(urls[k])
    ensures UrlLines(content + UrlText(urls)) == UrlLines(content) + urls
  {
    if urls == [] {
      assert content + UrlText(urls) == content;
    } else {
      var init := urls[..|urls| - 1];
      var last := urls[|urls| - 1];
      var before := UrlTextSnoc(content, urls);
      assert UrlLines(before) == UrlLines(content) + init by {
        AppendUrls(content, init);
      }
      assert UrlLines(before + last + "\n") == UrlLines(before) + [last] by {
        AppendLine(before, last);
      }
      SnocAssoc(UrlLines(content), urls);
    }
  }

  lemma SnocAssoc<T>(a: seq<T>, s: seq<T>)
    requires s != []
    ensures a + s == (a + s[..|s| - 1]) + [s[|s| - 1]]
  {
    assert s == s[..|s| - 1] + [s[|s| - 1]];
  }

  /** The text before the last URL of `urls`, which ends in a line break unless empty. */
  lemma UrlTextSnoc(content: string, urls: seq<string>) returns (before: string)
    requires EndsInBreak(content)
    requires urls != []
    ensures before == content + UrlText(urls[..|urls| - 1])
    ensures EndsInBreak(before)
    ensures content + UrlText(urls) == before + urls[|urls| - 1] + "\n"
  {
    before := content + UrlText(urls[..|urls| - 1]);
  }

  /**
   * Once today's header is written, a later run on the same day writes no
   * second header as long as no URL followed it; after a URL it does.
   */
  lemma DateHeaderSettles(file: Option<string>, today: string, urls: seq<string>)
    requires IsLine(today)
    requires forall k :: 0 <= k < |urls| ==> IsLine(urls[k]) && urls[k] != today
    ensures NeedsDateHeader(Some(Content(file) + DateHeader(today) + UrlText(urls)), today) <==> urls != []
  {
    var c := Content(file) + "\n";
    var withHeader := c + today + "\n";
    HeaderText(Content(file), today);
    AppendLine(c, today);
    AppendUrls(withHeader, urls);
    LastOfLines(UrlLines(c), today, urls);
  }

  /** Appending one more URL appends its line to the text. */
  lemma UrlTextAppend(text: string, urls: seq<string>, url: string)
    ensures text + UrlText(urls + [url]) == text + UrlText(urls) + url + "\n"
  {
    assert (urls + [url])[..|urls|] == urls;
  }

  lemma HeaderText(text: string, today: string)
    ensures text + DateHeader(today) == text + "\n" + today + "\n"
  {
  }

  lemma LastOfLines(ls: seq<string>, line: string, more: seq<string>)
    requires forall k :: 0 <= k < |more| ==> more[k] != line
    ensures var all := ls + [line] + more; all != [] && (all[|all| - 1] == line <==> more == [])
  {
  }

  // ------------------------------------------------------------ one movie

  /**
   * The code repair of the loop, giving the movie's code afterwards and
   * `real_code` (empty for both `None` and `""`): the code in the chosen
   * link's name when there is one; otherwise, when the movie's code is
   * empty or shorter than five characters, the first `[A-Z]{2,6}-\d{3,5}`
   * of its title.
   */
  function FixCode(movie: Movie, chosen: seq<MagnetLink>): (r: (string, string))
    ensures chosen == [] ==> r == (movie.code, "")
    ensures r.1 != "" ==> r.0 == r.1
    ensures r.1 == "" ==> r.0 == movie.code
    ensures chosen != [] && ExtractRealCode(PrimaryUrl(chosen[0])) != "" ==> r.1 == ExtractRealCode(PrimaryUrl(chosen[0]))
    ensures r.0 != movie.code ==>
      chosen != [] && (r.0 == ExtractRealCode(PrimaryUrl(chosen[0]))
        || (ExtractRealCode(PrimaryUrl(chosen[0])) == "" && |movie.code| < 5 && TitleCode(movie.title) == Some(r.0)))
    ensures chosen != [] && ExtractRealCode(PrimaryUrl(chosen[0])) == "" && |movie.code| < 5 && TitleCode(movie.title).Some? ==>
      r == (TitleCode(movie.title).value, TitleCode(movie.title).value)
    ensures chosen != [] && ExtractRealCode(PrimaryUrl(chosen[0])) == "" && (|movie.code| >= 5 || TitleCode(movie.title).None?) ==>
      r == (movie.code, "")
  {
    if chosen == [] then (movie.code, "")
    else
      var realCode := ExtractRealCode(PrimaryUrl(chosen[0]));
      if realCode != "" then (realCode, realCode)
      else if movie.code == "" || |movie.code| < 5 then
        match TitleCode(movie.title)
        case Some(c) => (c, c)
        case None => (movie.code, "")
      else (movie.code, "")
  }

  /** The URL the loop writes for the chosen link: `(copy_url or magnet_url).strip()`. */
  function ChosenUrl(chosen: seq<MagnetLink>): (url: string)
    ensures url != "" ==> StripSpace(url) == url
  {
    if chosen == [] then ""
    else
      var url := StripSpace(PrimaryUrl(chosen[0]));
      StripNoop(url, IsSpace);
      url
  }

  /** What one pass of the loop makes of a movie: its result, the URL it would write, the code it would record. */
  datatype Handled = Handled(result: RankResult, url: string, record: string)

  /**
   * One pass of the loop over the movie at `rank` whose detail page lists
   * `found`: the best link is chosen, the code repaired, and the code to
   * record (`real_code or movie['code']`) is always the repaired code.
   */
  function Handle(movie: Movie, rank: nat, found: seq<MagnetLink>): (h: Handled)
    ensures h.result.rank == rank && h.result.totalMagnets == |found|
    ensures h.result.magnetLinks == Preferred(found, SubtitleTags)
    ensures h.result.filteredMagnets == |h.result.magnetLinks| <= 1
    ensures h.result.filteredMagnets == 0 <==> found == []
    ensures h.result.movie == movie.(code := FixCode(movie, h.result.magnetLinks).0)
    ensures h.url == ChosenUrl(h.result.magnetLinks)
    ensures h.record == h.result.movie.code
  {
    var chosen := Preferred(found, SubtitleTags);
    var (code, realCode) := FixCode(movie, chosen);
    Handled(RankResult(rank, movie.(code := code), chosen, |found|, |chosen|), ChosenUrl(chosen), Either(realCode, code))
  }

  /**
   * `detail` is the crawler's `get_movie_magnet_links`: for every detail
   * URL it gives the links that page yields.
   */
  ghost predicate FetchesDetailPages(fetch: string -> nat -> Option<seq<Node>>, detail: string -> seq<MagnetLink>) {
    forall u {:trigger MovieMagnets(fetch, u)} :: detail(u) == MovieMagnets(fetch, u)
  }

  /** Each movie handled with its rank (1, 2, …) and the links `detail` finds on its page. */
  function Outcomes(movies: seq<Movie>, detail: string -> seq<MagnetLink>): (hs: seq<Handled>)
    ensures |hs| == |movies|
  {
    Ranked(movies, Handler(detail))
  }

  /** A movie handled with the links `detail` finds on its page. */
  function Handler(detail: string -> seq<MagnetLink>): (Movie, nat) -> Handled {
    (m: Movie, rank: nat) => Handle(m, rank, detail(m.detailUrl))
  }

  /** Each movie put through `step` with its rank (1, 2, …), in order. */
  function Ranked<T>(movies: seq<Movie>, step: (Movie, nat) -> T): (ts: seq<T>)
    ensures |ts| == |movies|
  {
    if movies == [] then []
    else Ranked(movies[..|movies| - 1], step) + [step(movies[|movies| - 1], |movies|)]
  }

  /** The element at position `k` is the movie at `k` with rank `k + 1`. */
  lemma {:induction false} RankedAt<T>(movies: seq<Movie>, step: (Movie, nat) -> T, k: nat)
    requires k < |movies|
    ensures Ranked(movies, step)[k] == step(movies[k], k + 1)
  {
    var n := |movies|;
    if k < n - 1 {
      var init := movies[..n - 1];
      RankedAt(init, step, k);
      assert init[k] == movies[k];
    }
  }

  /** The outcome of the movie at position `k` is that movie handled with rank `k + 1` and its own page's links. */
  lemma OutcomeAt(movies: seq<Movie>, detail: string -> seq<MagnetLink>, k: nat)
    requires k < |movies|
    ensures Outcomes(movies, detail)[k] == Handle(movies[k], k + 1, detail(movies[k].detailUrl))
  {
    RankedAt(movies, Handler(detail), k);
  }

  /** One more pass of the loop: the run over one more movie is the run so far, visited with that movie. */
  lemma RunOutcomesStep(written: set<string>, movies: seq<Movie>, i: nat,
                        detail: string -> seq<MagnetLink>, isValid: string -> bool)
    requires i < |movies|
    ensures Run(written, Outcomes(movies[..i + 1], detail), isValid)
         == Visit(Run(written, Outcomes(movies[..i], detail), isValid),
                  Handle(movies[i], i + 1, detail(movies[i].detailUrl)), isValid)
  {
    assert movies[..i + 1][..i] == movies[..i];
    var hs := Outcomes(movies[..i + 1], detail);
    assert hs[..i] == Outcomes(movies[..i], detail);
  }

  // ------------------------------------------------------------ the loop's bookkeeping

  /** What the loop has produced so far. */
  datatype Progress = Progress(
    results: seq<RankResult>,   // `results`
    urls: seq<string>,          // the URLs appended to the file, in order
    written: set<string>,       // `self.written_urls`
    codes: seq<string>)         // `scraped_codes`

  /** The bookkeeping of one pass: a URL is written only when non-empty and new, a code recorded only then. */
  function Visit(p: Progress, h: Handled, isValid: string -> bool): Progress {
    if h.url != "" && h.url !in p.written then
      Progress(p.results + [h.result], p.urls + [h.url], p.written + {h.url},
               p.codes + (if h.record != "" && isValid(h.record) then [h.record] else []))
    else
      Progress(p.results + [h.result], p.urls, p.written, p.codes)
  }

  /** The loop over the handled movies, starting from the URL set `written`: one result per movie, in order. */
  function Run(written: set<string>, hs: seq<Handled>, isValid: string -> bool): (p: Progress)
    ensures |p.results| == |hs| && forall k :: 0 <= k < |hs| ==> p.results[k] == hs[k].result
  {
    if hs == [] then Progress([], [], written, [])
    else
      var prev := Run(written, hs[..|hs| - 1], isValid);
      var p := Visit(prev, hs[|hs| - 1], isValid);
      assert forall k :: 0 <= k < |hs| - 1 ==> p.results[k] == prev.results[k];
      p
  }

  /**
   * No URL is written twice: the URLs the loop appends are non-empty,
   * pairwise distinct, and none of them was in the set it started from,
   * which ends as that set plus the appended URLs.
   */
  lemma {:induction false} RunUrlsDistinct(written: set<string>, hs: seq<Handled>, isValid: string -> bool)
    ensures var p := Run(written, hs, isValid);
      && (forall i, j :: 0 <= i < j < |p.urls| ==> p.urls[i] != p.urls[j])
      && (forall k :: 0 <= k < |p.urls| ==> p.urls[k] !in written && p.urls[k] != "")
      && p.written == written + (set u | u in p.urls)
  {
    if hs != [] {
      var prev := Run(written, hs[..|hs| - 1], isValid);
      RunUrlsDistinct(written, hs[..|hs| - 1], isValid);
      var h := hs[|hs| - 1];
      if h.url != "" && h.url !in prev.written {
        ElemsSnoc(prev.urls, h.url);
      }
    }
  }

  lemma ElemsSnoc(us: seq<string>, u: string)
    ensures (set x | x in us + [u]) == (set x | x in us) + {u}
  {
  }

  /**
   * A code is recorded only for a movie whose URL was newly written, only
   * when it is non-empty and passes the validity check, and it is that
   * movie's repaired code: there are never more codes than written URLs.
   */
  lemma {:induction false} RunCodes(written: set<string>, hs: seq<Handled>, isValid: string -> bool)
    ensures var p := Run(written, hs, isValid);
      && |p.codes| <= |p.urls|
      && forall c :: c in p.codes ==>
           (c != "" && isValid(c) && exists k :: 0 <= k < |hs| && hs[k].record == c && hs[k].url in p.urls)
  {
    if hs != [] {
      var n := |hs|;
      var prev := Run(written, hs[..n - 1], isValid);
      RunCodes(written, hs[..n - 1], isValid);
      var p := Run(written, hs, isValid);
      forall c | c in p.codes
        ensures c != "" && isValid(c) && exists k :: 0 <= k < n && hs[k].record == c && hs[k].url in p.urls
      {
        if c in prev.codes {
          var k :| 0 <= k < n - 1 && hs[..n - 1][k].record == c && hs[..n - 1][k].url in prev.urls;
          assert hs[k] == hs[..n - 1][k];
        } else {
          assert hs[n - 1].record == c && hs[n - 1].url in p.urls;
        }
      }
    }
  }

  /** The URL set the loop starts from: cleared for a new file, else grown by the file's lines. */
  function Seeded(file: Option<string>, written: set<string>): set<string> {
    if file.None? then {} else written + (set u | u in UrlLines(file.value))
  }

  /** What the manager and its tracker hold between two calls. */
  datatype ManagerState = ManagerState(
    written: set<string>,        // `self.written_urls`
    urlFile: Option<string>,     // the text of `magnet/Url List.txt`
    store: seq<Entry>,           // the tracker's `scraped_movies`
    lastUpdate: Option<string>,  // the tracker's `last_update`
    file: StoreFile)             // the tracker's store file

  /**
   * `get_top30_monthly_with_duplicate_check` once the ranking page has
   * given `movies`: the results and the state afterwards. Without a new
   * movie nothing changes. Otherwise the URL set is seeded from the file,
   * today's header is written when needed, the loop runs over the new
   * movies, and when it recorded codes they are marked in the store, which
   * is then saved and trimmed to its cap.
   */
  function Top30(s: ManagerState, movies: seq<Movie>, detail: string -> seq<MagnetLink>,
                 today: string, now: string, isValid: string -> bool): (r: (seq<RankResult>, ManagerState))
    requires UniqueKeys(s.store)
    ensures UniqueKeys(r.1.store) && |r.0| == |NewMovies(movies, MovieCode, Keys(s.store))|
    ensures NewMovies(movies, MovieCode, Keys(s.store)) == [] ==> r == ([], s)
  {
    var unseen := NewMovies(movies, MovieCode, Keys(s.store));
    if unseen == [] then ([], s)
    else
      var p := Run(Seeded(s.urlFile, s.written), Outcomes(unseen, detail), isValid);
      var header := if NeedsDateHeader(s.urlFile, today) then DateHeader(today) else "";
      var file := Some(Content(s.urlFile) + header + UrlText(p.urls));
      if p.codes == [] then
        (p.results, s.(written := p.written, urlFile := file))
      else
        var store := Cleanup(MarkAll(s.store, p.codes, now), MaxRecords);
        (p.results, ManagerState(p.written, file, store, Some(now), Stored(store, Some(now))))
  }

  /** The URLs a call of `Top30` appends to the URL list file, in order. */
  function AppendedUrls(s: ManagerState, movies: seq<Movie>, detail: string -> seq<MagnetLink>, isValid: string -> bool): seq<string> {
    var unseen := NewMovies(movies, MovieCode, Keys(s.store));
    if unseen == [] then [] else Run(Seeded(s.urlFile, s.written), Outcomes(unseen, detail), isValid).urls
  }

  /** The codes a call of `Top30` hands to `batch_mark_as_scraped`, in order. */
  function RecordedCodes(s: ManagerState, movies: seq<Movie>, detail: string -> seq<MagnetLink>, isValid: string -> bool): seq<string> {
    var unseen := NewMovies(movies, MovieCode, Keys(s.store));
    if unseen == [] then [] else Run(Seeded(s.urlFile, s.written), Outcomes(unseen, detail), isValid).codes
  }

  /** No link any detail page yields has a line break in its URL. */
  ghost predicate OneLineLinks(detail: string -> seq<MagnetLink>) {
    forall u, i :: 0 <= i < |detail(u)| ==> '\n' !in PrimaryUrl(detail(u)[i])
  }

  /**
   * The results are the new movies in ranking order, the one at position
   * `k` ranked `k + 1` and handled with the links of its own detail page.
   */
  lemma {:induction false} Top30Results(s: ManagerState, movies: seq<Movie>, detail: string -> seq<MagnetLink>,
                     today: string, now: string, isValid: string -> bool)
    requires UniqueKeys(s.store)
    ensures var unseen := NewMovies(movies, MovieCode, Keys(s.store));
      var rs := Top30(s, movies, detail, today, now, isValid).0;
      |rs| == |unseen| &&
      forall k :: 0 <= k < |rs| ==> rs[k] == Handle(unseen[k], k + 1, detail(unseen[k].detailUrl)).result
  {
    var unseen := NewMovies(movies, MovieCode, Keys(s.store));
    if unseen != [] {
      var hs := Outcomes(unseen, detail);
      var p := Run(Seeded(s.urlFile, s.written), hs, isValid);
      forall k | 0 <= k < |unseen| ensures p.results[k] == Handle(unseen[k], k + 1, detail(unseen[k].detailUrl)).result {
        OutcomeAt(unseen, detail, k);
      }
    }
  }

  /**
   * No URL is written twice: the appended URLs are pairwise distinct, none
   * was already a line of the file, and, while the file existed, none was
   * in the URL set either; the URL set ends as the seeded set plus them.
   */
  lemma {:induction false} Top30NoRewrite(s: ManagerState, movies: seq<Movie>, detail: string -> seq<MagnetLink>,
                       today: string, now: string, isValid: string -> bool)
    requires UniqueKeys(s.store)
    ensures var added := AppendedUrls(s, movies, detail, isValid);
      && (forall i, j :: 0 <= i < j < |added| ==> added[i] != added[j])
      && (forall k :: 0 <= k < |added| ==> added[k] !in UrlLines(Content(s.urlFile)))
      && (s.urlFile.Some? ==> forall k :: 0 <= k < |added| ==> added[k] !in s.written)
  {
    var unseen := NewMovies(movies, MovieCode, Keys(s.store));
    if unseen != [] {
      var seed := Seeded(s.urlFile, s.written);
      RunUrlsDistinct(seed, Outcomes(unseen, detail), isValid);
      if s.urlFile.None? {
        UrlLinesEmpty();
      }
    }
  }

  /** The URL set afterwards: unchanged without a new movie, else the seeded set plus the appended URLs. */
  lemma {:induction false} Top30Written(s: ManagerState, movies: seq<Movie>, detail: string -> seq<MagnetLink>,
                     today: string, now: string, isValid: string -> bool)
    requires UniqueKeys(s.store)
    ensures var r := Top30(s, movies, detail, today, now, isValid);
      r.1.written == if NewMovies(movies, MovieCode, Keys(s.store)) == [] then s.written
                     else Seeded(s.urlFile, s.written) + (set u | u in AppendedUrls(s, movies, detail, isValid))
  {
    var unseen := NewMovies(movies, MovieCode, Keys(s.store));
    if unseen != [] {
      RunUrlsDistinct(Seeded(s.urlFile, s.written), Outcomes(unseen, detail), isValid);
    }
  }

  /** Every URL the loop appends comes from one of the handled movies. */
  lemma {:induction false} RunUrlsFrom(written: set<string>, hs: seq<Handled>, isValid: string -> bool)
    ensures var p := Run(written, hs, isValid);
      forall u :: u in p.urls ==> exists k :: 0 <= k < |hs| && hs[k].url == u
  {
    if hs != [] {
      var n := |hs|;
      var prev := Run(written, hs[..n - 1], isValid);
      RunUrlsFrom(written, hs[..n - 1], isValid);
      var p := Run(written, hs, isValid);
      forall u | u in p.urls ensures exists k :: 0 <= k < n && hs[k].url == u {
        if u in prev.urls {
          var init := hs[..n - 1];
          assert prev == Run(written, init, isValid);
          assert u in prev.urls;
          assert exists k :: 0 <= k < |init| && init[k].url == u;
          var k :| 0 <= k < |init| && init[k].url == u;
          assert hs[k] == init[k];
        } else {
          assert hs[n - 1].url == u;
        }
      }
    }
  }

  /** The URL a movie's outcome would write is a single line of text, or empty. */
  lemma {:induction false} OutcomeUrlIsLine(movies: seq<Movie>, detail: string -> seq<MagnetLink>, k: nat)
    requires k < |movies| && OneLineLinks(detail)
    ensures var url := Outcomes(movies, detail)[k].url; url == "" || IsLine(url)
  {
    OutcomeAt(movies, detail, k);
    var found := detail(movies[k].detailUrl);
    var chosen := Preferred(found, SubtitleTags);
    if chosen != [] {
      var i :| 0 <= i < |found| && found[i] == chosen[0];
      assert '\n' !in PrimaryUrl(found[i]);
    }
  }

  /**
   * The file's non-blank lines afterwards are those before, then today's
   * date when the header was written, then the appended URLs, provided the
   * links carry no line break and the file ended in one (or the header,
   * which starts with one, was written).
   */
  lemma {:induction false} Top30Lines(s: ManagerState, movies: seq<Movie>, detail: string -> seq<MagnetLink>,
                   today: string, now: string, isValid: string -> bool)
    requires UniqueKeys(s.store) && IsLine(today) && OneLineLinks(detail)
    requires NeedsDateHeader(s.urlFile, today) || EndsInBreak(Content(s.urlFile))
    ensures var r := Top30(s, movies, detail, today, now, isValid);
      NewMovies(movies, MovieCode, Keys(s.store)) != [] ==>
        UrlLines(Content(r.1.urlFile))
          == UrlLines(Content(s.urlFile)) + (if NeedsDateHeader(s.urlFile, today) then [today] else [])
             + AppendedUrls(s, movies, detail, isValid)
  {
    if NewMovies(movies, MovieCode, Keys(s.store)) != [] {
      var urls := AppendedUrls(s, movies, detail, isValid);
      Top30File(s, movies, detail, today, now, isValid);
      AppendedUrlsAreLines(s, movies, detail, isValid);
      FileLines(Content(s.urlFile), NeedsDateHeader(s.urlFile, today), today, urls);
    }
  }

  /** With a new movie, the file afterwards is the file before, the header when needed, and the appended URLs. */
  lemma Top30File(s: ManagerState, movies: seq<Movie>, detail: string -> seq<MagnetLink>,
                  today: string, now: string, isValid: string -> bool)
    requires UniqueKeys(s.store) && NewMovies(movies, MovieCode, Keys(s.store)) != []
    ensures Content(Top30(s, movies, detail, today, now, isValid).1.urlFile)
         == Content(s.urlFile) + (if NeedsDateHeader(s.urlFile, today) then DateHeader(today) else "")
            + UrlText(AppendedUrls(s, movies, detail, isValid))
  {
  }

  lemma AppendedUrlsAreLines(s: ManagerState, movies: seq<Movie>, detail: string -> seq<MagnetLink>, isValid: string -> bool)
    requires OneLineLinks(detail)
    ensures AllLines(AppendedUrls(s, movies, detail, isValid))
  {
    var unseen := NewMovies(movies, MovieCode, Keys(s.store));
    if unseen != [] {
      AppendedLines(Seeded(s.urlFile, s.written), unseen, detail, isValid);
    }
  }

  /** The lines of the file after the optional header and the URL lines are written. */
  lemma {:induction false} FileLines(c: string, header: bool, today: string, urls: seq<string>)
    requires IsLine(today) && AllLines(urls)
    requires header || EndsInBreak(c)
    ensures UrlLines(c + (if header then DateHeader(today) else "") + UrlText(urls))
         == UrlLines(c) + (if header then [today] else []) + urls
  {
    var t := UrlText(urls);
    if header {
      calc {
        UrlLines(c + (if header then DateHeader(today) else "") + t);
        { HeaderSplit(c, today, t); }
        UrlLines(c + ['\n'] + (today + "\n" + t));
        { UrlLinesAround(c, today + "\n" + t); }
        UrlLines(c) + UrlLines(today + "\n" + t);
        { AppendUrls(today + "\n", urls); }
        UrlLines(c) + (UrlLines(today + "\n") + urls);
        { UrlLinesOfLine(today); }
        UrlLines(c) + ([today] + urls);
        { AppendAssoc(UrlLines(c), [today], urls); }
        UrlLines(c) + (if header then [today] else []) + urls;
      }
    } else {
      calc {
        UrlLines(c + (if header then DateHeader(today) else "") + t);
        { AppendEmpty(c, t); }
        UrlLines(c + t);
        { AppendUrls(c, urls); }
        UrlLines(c) + urls;
        { AppendEmpty(UrlLines(c), urls); }
        UrlLines(c) + (if header then [today] else []) + urls;
      }
    }
  }

  lemma HeaderSplit(c: string, today: string, t: string)
    ensures c + DateHeader(today) + t == c + ['\n'] + (today + "\n" + t)
  {
  }

  /** With one-line links, every URL the loop over the new movies appends is a line. */
  lemma {:induction false} AppendedLines(written: set<string>, unseen: seq<Movie>, detail: string -> seq<MagnetLink>, isValid: string -> bool)
    requires OneLineLinks(detail)
    ensures AllLines(Run(written, Outcomes(unseen, detail), isValid).urls)
  {
    var hs := Outcomes(unseen, detail);
    var urls := Run(written, hs, isValid).urls;
    RunUrlsFrom(written, hs, isValid);
    RunUrlsDistinct(written, hs, isValid);
    forall k | 0 <= k < |urls| ensures IsLine(urls[k]) {
      assert urls[k] in urls;
      var j :| 0 <= j < |hs| && hs[j].url == urls[k];
      OutcomeUrlIsLine(unseen, detail, j);
    }
  }

  /**
   * A code is recorded only for a result whose chosen URL was appended,
   * only when it is non-empty and valid, and it is that result's repaired
   * code; there are never more codes than appended URLs.
   */
  lemma {:induction false} Top30Codes(s: ManagerState, movies: seq<Movie>, detail: string -> seq<MagnetLink>,
                   today: string, now: string, isValid: string -> bool)
    requires UniqueKeys(s.store)
    ensures var rs := Top30(s, movies, detail, today, now, isValid).0;
      var codes := RecordedCodes(s, movies, detail, isValid);
      var added := AppendedUrls(s, movies, detail, isValid);
      && |codes| <= |added|
      && forall c :: c in codes ==>
           c != "" && isValid(c) && exists k :: 0 <= k < |rs| && rs[k].movie.code == c && ChosenUrl(rs[k].magnetLinks) in added
  {
    var unseen := NewMovies(movies, MovieCode, Keys(s.store));
    if unseen != [] {
      var hs := Outcomes(unseen, detail);
      var p := Run(Seeded(s.urlFile, s.written), hs, isValid);
      RunCodes(Seeded(s.urlFile, s.written), hs, isValid);
      forall c | c in p.codes
        ensures exists k :: 0 <= k < |p.results| && p.results[k].movie.code == c && ChosenUrl(p.results[k].magnetLinks) in p.urls
      {
        var k :| 0 <= k < |hs| && hs[k].record == c && hs[k].url in p.urls;
        OutcomeAt(unseen, detail, k);
        assert p.results[k] == hs[k].result;
      }
    }
  }

  /**
   * The store afterwards: untouched when no code was recorded; otherwise
   * saved with the new timestamp and within its cap, every entry in it
   * either a recorded code stamped `now` or an earlier entry unchanged.
   */
  lemma {:induction false} Top30Store(s: ManagerState, movies: seq<Movie>, detail: string -> seq<MagnetLink>,
                   today: string, now: string, isValid: string -> bool)
    requires UniqueKeys(s.store)
    ensures var st := Top30(s, movies, detail, today, now, isValid).1;
      var codes := RecordedCodes(s, movies, detail, isValid);
      && (codes == [] ==> st.store == s.store && st.lastUpdate == s.lastUpdate && st.file == s.file)
      && (codes != [] ==> st.lastUpdate == Some(now) && st.file == Stored(st.store, Some(now)) && |st.store| <= MaxRecords)
      && forall e :: e in st.store ==> if e.0 in codes then e.1 == now else Lookup(s.store, e.0) == Some(e.1)
  {
    var st := Top30(s, movies, detail, today, now, isValid).1;
    var codes := RecordedCodes(s, movies, detail, isValid);
    if codes == [] {
      forall e | e in st.store ensures Lookup(s.store, e.0) == Some(e.1) {
        LookupEntry(s.store, e);
      }
    } else {
      var unseen := NewMovies(movies, MovieCode, Keys(s.store));
      RunCodes(Seeded(s.urlFile, s.written), Outcomes(unseen, detail), isValid);
      MarkedStore(s.store, codes, now);
    }
  }

  /** Marking codes and trimming to the cap leaves each entry either a marked code stamped `date` or as it was. */
  lemma {:induction false} MarkedStore(items: seq<Entry>, codes: seq<string>, date: string)
    requires UniqueKeys(items) && forall c :: c in codes ==> c != ""
    ensures var r := Cleanup(MarkAll(items, codes, date), MaxRecords);
      forall e :: e in r ==> if e.0 in codes then e.1 == date else Lookup(items, e.0) == Some(e.1)
  {
    var marked := MarkAll(items, codes, date);
    var r := Cleanup(marked, MaxRecords);
    forall e | e in r ensures if e.0 in codes then e.1 == date else Lookup(items, e.0) == Some(e.1) {
      assert e in marked by {
        assert multiset(r)[e] > 0;
      }
      LookupEntry(marked, e);
      MarkAllLookup(items, codes, date, e.0);
    }
  }

  /** `get_summary_stats`; the success rate is kept as an exact ratio. */
  datatype SummaryStats = SummaryStats(totalMovies: nat, totalMagnets: nat, filteredMagnets: nat, moviesWithMagnets: nat, successRate: real)

  function SumTotal(rs: seq<RankResult>): nat {
    if rs == [] then 0 else SumTotal(rs[..|rs| - 1]) + rs[|rs| - 1].totalMagnets
  }

  function SumFiltered(rs: seq<RankResult>): nat {
    if rs == [] then 0 else SumFiltered(rs[..|rs| - 1]) + rs[|rs| - 1].filteredMagnets
  }

  /** A result that kept at least one link. */
  predicate HasMagnets(r: RankResult) {
    r.filteredMagnets > 0
  }

  /** The number of results that kept at least one link. */
  function CountWithMagnets(rs: seq<RankResult>): (n: nat)
    ensures n <= |rs|
    ensures n == |Filter(rs, HasMagnets)|
  {
    if rs == [] then 0
    else
      var init := rs[..|rs| - 1];
      assert rs == init + [rs[|rs| - 1]];
      FilterSnoc(init, rs[|rs| - 1], HasMagnets);
      CountWithMagnets(init) + (if HasMagnets(rs[|rs| - 1]) then 1 else 0)
  }

  /**
   * `get_summary_stats`: the link totals over all results, the number of
   * results with a link, and their share of all results, which lies
   * between 0 and 1 and is 0 for no results.
   */
  function GetSummaryStats(rs: seq<RankResult>): (st: SummaryStats)
    ensures st.totalMovies == |rs| && st.moviesWithMagnets <= st.totalMovies
    ensures st.totalMagnets == SumTotal(rs) && st.filteredMagnets == SumFiltered(rs)
    ensures st.moviesWithMagnets == |Filter(rs, HasMagnets)|
    ensures rs != [] ==> st.successRate == st.moviesWithMagnets as real / |rs| as real
    ensures 0.0 <= st.successRate <= 1.0
    ensures rs == [] ==> st.successRate == 0.0
  {
    var with := CountWithMagnets(rs);
    var rate := if |rs| > 0 then with as real / |rs| as real else 0.0;
    if |rs| > 0 then
      ShareBounds(with, |rs|);
      SummaryStats(|rs|, SumTotal(rs), SumFiltered(rs), with, rate)
    else SummaryStats(0, SumTotal(rs), SumFiltered(rs), with, rate)
  }

  /** A part of a whole is a share between 0 and 1. */
  lemma ShareBounds(part: nat, whole: nat)
    requires 0 < whole && part <= whole
    ensures 0.0 <= part as real / whole as real <= 1.0
  {
  }

  /**
   * For the manager's results, where each movie keeps at most one link,
   * the filtered count is the number of movies with a link, and never more
   * than the links found.
   */
  lemma {:induction false} StatsOfChosen(rs: seq<RankResult>)
    requires forall k :: 0 <= k < |rs| ==> rs[k].filteredMagnets <= 1 && rs[k].filteredMagnets <= rs[k].totalMagnets
    ensures SumFiltered(rs) == CountWithMagnets(rs)
    ensures SumFiltered(rs) <= SumTotal(rs)
  {
    if rs != [] {
      StatsOfChosen(rs[..|rs| - 1]);
    }
  }

  // ------------------------------------------------------------ the manager

  class JavDBMagnetManager {
    /** `self.tracker`, set once by the constructor. */
    const tracker: DuplicateTracker
    /** `self.written_urls` */
    var writtenUrls: set<string>
    /** The text of `magnet/Url List.txt`, `None` while the file does not exist. */
    var urlFile: Option<string>

    ghost predicate Valid()
      reads this, tracker
    {
      tracker.Valid()
    }

    /** The manager's state as `Top30` sees it. */
    ghost function State(): ManagerState
      reads this, tracker
    {
      ManagerState(writtenUrls, urlFile, tracker.movies, tracker.lastUpdate, tracker.file)
    }

    /** `__init__`: a tracker loaded from its store file and an empty URL set. */
    constructor (onDisk: StoreFile, urlFile: Option<string>)
      requires onDisk.Stored? ==> UniqueKeys(onDisk.movies)
      ensures Valid() && fresh(tracker)
      ensures writtenUrls == {} && this.urlFile == urlFile
    {
      tracker := new DuplicateTracker(onDisk);
      writtenUrls := {};
      this.urlFile := urlFile;
    }

    /**
     * `get_top30_monthly_with_duplicate_check`: nothing changes and nothing
     * is returned when the ranking page cannot be fetched; otherwise the
     * call is `Top30` of the movies on that page. `detail` is the crawler's
     * `get_movie_magnet_links`.
     */
    method GetTop30MonthlyWithDuplicateCheck(
      rankings: nat -> Option<seq<Node>>, fetch: string -> nat -> Option<seq<Node>>, detail: string -> seq<MagnetLink>,
      urljoin: string -> string, today: string, now: string, isValid: string -> bool)
      returns (results: seq<RankResult>)
      requires Valid() && FetchesDetailPages(fetch, detail)
      modifies this, tracker
      ensures Valid()
      ensures RankingMovies(rankings, urljoin).None? ==> results == [] && State() == old(State())
      ensures RankingMovies(rankings, urljoin).Some? ==>
                (results, State()) == Top30(old(State()), RankingMovies(rankings, urljoin).value, detail, today, now, isValid)
    {
      var response, _, _ := MakeRequest(rankings, DefaultRetries);
      if response.None? {
        return [];
      }
      var allMovies := ParseRankingsPage(Document(response.value), RankingsLimit, urljoin);
      results := CheckAndWrite(allMovies, detail, today, now, isValid);
    }

    /** The part of `get_top30_monthly_with_duplicate_check` after the ranking page is parsed. */
    method CheckAndWrite(allMovies: seq<Movie>, detail: string -> seq<MagnetLink>,
                         today: string, now: string, isValid: string -> bool)
      returns (results: seq<RankResult>)
      requires Valid()
      modifies this, tracker
      ensures Valid()
      ensures (results, State()) == Top30(old(State()), allMovies, detail, today, now, isValid)
    {
      var unseen, _ := tracker.GetNewMovies(allMovies, MovieCode);
      if unseen == [] {
        return [];
      }
      if urlFile.None? {
        writtenUrls := {};
      } else {
        var lines := UrlLines(urlFile.value);
        writtenUrls := writtenUrls + (set u | u in lines);
      }
      var header := NeedsDateHeader(urlFile, today);
      urlFile := Some(Content(urlFile) + (if header then DateHeader(today) else ""));
      var urls, codes;
      results, urls, codes := WriteNewMovies(unseen, detail, isValid);
      if codes != [] {
        tracker.BatchMarkAsScraped(codes, now);
      }
    }

    /**
     * The loop of `get_top30_monthly_with_duplicate_check` over the new
     * movies: each URL it writes is appended to the file and added to the
     * URL set; its results, URLs and codes are those of `Run`.
     */
    method WriteNewMovies(unseen: seq<Movie>, detail: string -> seq<MagnetLink>, isValid: string -> bool)
      returns (results: seq<RankResult>, urls: seq<string>, codes: seq<string>)
      requires urlFile.Some?
      modifies this`writtenUrls, this`urlFile
      ensures Progress(results, urls, writtenUrls, codes) == Run(old(writtenUrls), Outcomes(unseen, detail), isValid)
      ensures urlFile == Some(old(urlFile).value + UrlText(urls))
    {
      var start := urlFile.value;
      results, urls, codes := [], [], [];
      assert start + UrlText(urls) == start;
      for i := 0 to |unseen|
        invariant Progress(results, urls, writtenUrls, codes) == Run(old(writtenUrls), Outcomes(unseen[..i], detail), isValid)
        invariant urlFile == Some(start + UrlText(urls))
      {
        var found := detail(unseen[i].detailUrl);
        var h := Handle(unseen[i], i + 1, found);
        results, urls, codes := VisitMovie(results, urls, codes, h, start, isValid);
        RunOutcomesStep(old(writtenUrls), unseen, i, detail, isValid);
      }
      assert unseen[..|unseen|] == unseen;
    }

    /**
     * One pass of the loop on a handled movie: its result is kept; its URL,
     * when non-empty and not written before, is appended to the file and
     * to the URL set, and its code then recorded if valid.
     */
    method VisitMovie(results: seq<RankResult>, urls: seq<string>, codes: seq<string>, h: Handled,
                      ghost start: string, isValid: string -> bool)
      returns (results': seq<RankResult>, urls': seq<string>, codes': seq<string>)
      requires urlFile == Some(start + UrlText(urls))
      modifies this`writtenUrls, this`urlFile
      ensures Progress(results', urls', writtenUrls, codes') == Visit(Progress(results, urls, old(writtenUrls), codes), h, isValid)
      ensures urlFile == Some(start + UrlText(urls'))
    {
      results', urls', codes' := results + [h.result], urls, codes;
      if h.url != "" && h.url !in writtenUrls {
        UrlTextAppend(start, urls, h.url);
        urlFile := Some(urlFile.value + h.url + "\n");
        writtenUrls := writtenUrls + {h.url};
        urls' := urls + [h.url];
        if h.record != "" && isValid(h.record) {
          codes' := codes + [h.record];
        }
      }
    }
  }
}
