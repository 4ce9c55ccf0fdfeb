# javdb_magnet — a verified model of the crawler core

javdb_magnet fetches the monthly ranking page of JavDB. It parses up to thirty
movies from it. For every movie it has not collected before, it fetches the
movie's detail page and parses that page's magnet links. It then picks one
link by priority: high definition first, then subtitles, then the first link.
The chosen link is appended to a dated text file of URLs, and the movie's code
is recorded in a JSON duplicate store. The store is capped at 300 entries and
keeps the newest.

This project models that pipeline in Dafny:

- `Tracker` (`duplicate_tracker.dfy`) models the duplicate store as a class.
  The dictionary `scraped_movies` is a sequence of `(code, timestamp)` pairs in
  insertion order, with unique codes. The store file is a field the methods
  rewrite.
- `Stamps` (`stamps.dfy`) holds the timestamp order. It is Python's string
  order, used by `sorted(..., key=lambda x: x[1])`. The module also holds the
  stable sort and the `[-k:]` slice.
- `Fetch` (`fetch.dfy`) models the retry loop of `_make_request`. The attempts
  are an injected function from attempt number to response, and the pauses are
  returned as data.
- `Markup` (`markup.dfy`) is an element tree standing in for the parsed page. It
  provides `find`, `find_all`, `select`, `get_text`, `.string` and
  `find_parent`.
- `Extract` (`extract.dfy`) models the ranking-page and magnet-page parsers.
- `Magnets` (`magnets.dfy`) holds the `MagnetLink` record and the priority
  choice. It also extracts the real code from a magnet title and resolves the
  download URL.
- `Utils` (`utils.dfy`) holds the text helpers of `utils.py`.
- `Manager` (`manager.dfy`) models `get_top30_monthly_with_duplicate_check`.
  It is a class over the tracker, the URL set and the URL file. A pure
  function `Top30` gives the whole run's result and new state.
- `Cli` (`cli.dfy`) models the command line's result filters, priority logic,
  filename fixes and display truncation.
- `Text` and `Wrappers` are shared string and option helpers: `strip`,
  `split`/`join`, `re.sub` over a character class, list comprehension as
  `Filter`, and `Option`.

Loops in the source are methods proved against these functions. Functions
that only compute are functions. Properties across several calls are lemmas.

Notes on the code as written:

- The detail URL of a movie is the link's `href` joined to the base URL and
  nothing more (javdb_magnet_crawler.py:256).
- Pages are fetched only through the HTTP session, retried with pauses
  (javdb_magnet_crawler.py:58-95).
- The set of written URLs is seeded from every non-blank line of an existing
  URL file, date headers included (javdb_magnet_crawler.py:624-629).
- A listing item with an empty code is never new (duplicate_tracker.py:72-73).
- The manager calls `_is_valid_code` on the tracker
  (javdb_magnet_crawler.py:713), but duplicate_tracker.py does not define it,
  so the call raises `AttributeError` as written. The model takes the validity
  test as a predicate parameter `isValid`.

## Model

| member | source | states |
|---|---|---|
| Tracker.Lookup | duplicate_tracker.py:53-55 | A code is absent exactly when it is not among the store's keys; a found timestamp is the one stored with that code |
| Tracker.LookupEntry | duplicate_tracker.py:53-55 | With unique codes, every stored pair is what a lookup of its code returns |
| Tracker.Upsert | duplicate_tracker.py:57-65 | After assigning `scraped_movies[code]`, the code maps to the new date and every other code looks up as before |
| Tracker.UpsertKeys | duplicate_tracker.py:65 | Dictionary insertion order: an existing code keeps its place, a new code is appended last |
| Tracker.UpsertUniqueKeys | duplicate_tracker.py:65 | Assigning a key keeps codes unique |
| Tracker.MarkAll | duplicate_tracker.py:81-86 | Marking a batch keeps codes unique |
| Tracker.MarkAllLookup | duplicate_tracker.py:81-86 | After a batch, each non-empty code in it maps to the batch timestamp; every other code looks up as before |
| Tracker.Cleanup | duplicate_tracker.py:94-118 | Within the cap the store is unchanged; above it exactly `max` entries survive, drawn from the store, with unique codes, and no evicted entry is newer than a survivor |
| Tracker.StaleCodesMembers | duplicate_tracker.py:148-155 | The collected codes are exactly the codes of entries whose date fails to parse or is before the cutoff |
| Tracker.WithoutCodesSnoc | duplicate_tracker.py:157-159 | Deleting the collected codes one at a time is deleting the whole list |
| Tracker.FreshEntries | duplicate_tracker.py:137-164 | The surviving entries are exactly the non-stale ones, in store order, each with a parseable date at or after the cutoff, codes still unique |
| Tracker.WithoutStaleCodes | duplicate_tracker.py:148-159 | Deleting exactly the collected stale codes leaves exactly the fresh entries |
| Tracker.StaleFreshPartition | duplicate_tracker.py:148-164 | Deleted count plus kept count is the store size, so the returned count is the number removed |
| Tracker.StaleCodesExact | duplicate_tracker.py:148-158 | With unique codes, a stored code is collected if and only if its entry is stale |
| Tracker.NewMovies | duplicate_tracker.py:67-79 | A movie is new if and only if it is in the listing, has a non-empty code and that code is not stored |
| Tracker.NewMoviesInOrder | duplicate_tracker.py:67-79 | The new movies are the listing filtered by that test, in listing order |
| Tracker.DuplicateTracker.constructor | duplicate_tracker.py:15-45 | A missing or unreadable file gives the empty store; a store over 300 entries is trimmed to the newest 300 and written back with its old `last_update`; otherwise it is loaded as is |
| Tracker.DuplicateTracker.SaveData | duplicate_tracker.py:47-51 | Saving stamps `last_update` and writes the store unchanged |
| Tracker.DuplicateTracker.IsAlreadyScraped | duplicate_tracker.py:53-55 | True if and only if some stored pair has that code |
| Tracker.DuplicateTracker.MarkAsScraped | duplicate_tracker.py:57-65 | The store becomes the upsert of the code with the given date, else the current time; nothing is saved |
| Tracker.DuplicateTracker.GetNewMovies | duplicate_tracker.py:67-79 | Returns the new movies and the number skipped, which is listing length minus new |
| Tracker.DuplicateTracker.BatchMarkAsScraped | duplicate_tracker.py:81-92 | The store is marked, trimmed to the cap and saved with the new timestamp |
| Tracker.DuplicateTracker.AutoCleanup | duplicate_tracker.py:94-125 | The store becomes its cleanup; it is saved only when something was evicted |
| Tracker.DuplicateTracker.GetStatistics | duplicate_tracker.py:127-135 | Totals, cap, last update, and the last ten keys in insertion order, each of them stored |
| Tracker.DuplicateTracker.ClearOldRecords | duplicate_tracker.py:137-164 | The store becomes its fresh entries; the result counts the removed ones; it is saved only when something was removed |
| Stamps.LexLeReflexive | duplicate_tracker.py:106-109 | The sort key order is reflexive |
| Stamps.LexLeTotal | duplicate_tracker.py:106-109 | Any two timestamps compare |
| Stamps.LexLeTransitive | duplicate_tracker.py:106-109 | The sort key order is transitive |
| Stamps.LexLeAntisymmetric | duplicate_tracker.py:106-109 | Timestamps that compare both ways are equal |
| Stamps.StampedAt | duplicate_tracker.py:106-109 | Holds exactly the entries with a given timestamp |
| Stamps.InsertByDate | duplicate_tracker.py:106-109 | Insertion into a date-sorted list stays sorted and adds exactly the one entry |
| Stamps.SortByDate | duplicate_tracker.py:106-109 | `sorted` by timestamp gives a sorted permutation of the entries |
| Stamps.InsertByDateStable | duplicate_tracker.py:106-109 | Insertion places a new entry after the entries with the same timestamp |
| Stamps.SortByDateStable | duplicate_tracker.py:106-109 | The sort is stable: entries with equal timestamps keep their dictionary order |
| Stamps.SortByDateUniqueKeys | duplicate_tracker.py:106-109 | Sorting keeps codes unique |
| Stamps.PyTail | duplicate_tracker.py:112 | Python `s[-k:]`: the whole list when `k` is 0, else the last `min(k, len)` elements |
| Stamps.KeepNewest | duplicate_tracker.py:30-34 | The kept entries are drawn from the store |
| Stamps.KeepNewestEvictsOldest | duplicate_tracker.py:106-112 | Keeping the newest `k` gives exactly `k` entries, sorted, codes unique, none older than an evicted one |
| Stamps.SuffixKeepsOrder | duplicate_tracker.py:112 | A tail of a sorted store with unique codes is sorted with unique codes |
| Fetch.FirstResponse | javdb_magnet_crawler.py:61-90 | There is no response if and only if every attempt fails; otherwise it is the first successful attempt's |
| Fetch.MakeRequest | javdb_magnet_crawler.py:58-95 | Attempts stop at the first success or after `retries + 1`; the response is that of the first success; the pauses are the random delay per attempt and the doubling backoff after each failure |
| Fetch.BackoffsStep | javdb_magnet_crawler.py:93 | One more failed round adds one backoff of `2^(n-1)` seconds |
| Fetch.FailedRoundsBackoffs | javdb_magnet_crawler.py:88-93 | After `n` failed rounds the backoffs are `1, 2, 4, ..., 2^(n-1)` seconds |
| Fetch.TotalBackoff | javdb_magnet_crawler.py:93 | Backoffs after `n` failed rounds total `2^n - 1` seconds |
| Fetch.DefaultRetriesGiveUpAfterSevenSeconds | javdb_magnet_crawler.py:58-93 | With the default three retries, a request that never succeeds waits 1, 2 and 4 seconds, 7 in all |
| Magnets.FirstTagged | javdb_magnet_crawler.py:522-529 | Finds a link carrying a tag of the tier if and only if one exists |
| Magnets.Preferred | javdb_magnet_crawler.py:513-540 | No links give no choice; otherwise exactly one link, taken from the input |
| Magnets.PickByPriority | javdb_magnet_crawler.py:513-540 | The loop that sorts links into tiers picks the preferred link |
| Magnets.FilterMagnetsByPriority | javdb_magnet_crawler.py:513-540 | The crawler's choice is the preferred link with the subtitle tags as second tier |
| Magnets.PreferredChoosesByTier | javdb_magnet_crawler.py:518-540 | The first high-definition link wins; failing that, the first link of the second tier; failing both, the first link |
| Magnets.ChineseTierNeverDecides | javdb_magnet_cli.py:474-498 | Page links carry only the tags the parser assigns, so the command line's Chinese-subtitle tier never matches and its choice falls back to high definition, else the first link |
| Magnets.RealCodeStart | javdb_magnet_crawler.py:507 | Finds where a `[javdb.com]` code occurs, if and only if one does |
| Magnets.ExtractRealCode | javdb_magnet_crawler.py:501-511 | Empty if and only if no `[javdb.com]` code occurs; otherwise the code characters that follow that marker |
| Magnets.ExtractRealCodeRoundTrip | javdb_magnet_crawler.py:506-509 | A code written after the marker and ended by a non-code character is extracted back |
| Magnets.TitleCodeEnd | javdb_magnet_crawler.py:683 | A match of the title code pattern spans a code-shaped piece |
| Magnets.TitleCodeStart | javdb_magnet_crawler.py:683 | Finds the leftmost position where the title code pattern matches, if any |
| Magnets.TitleCode | javdb_magnet_crawler.py:683-685 | No result if and only if the pattern matches nowhere; otherwise a code-shaped piece of the title |
| Magnets.TitleCodeOfCode | javdb_magnet_crawler.py:683-685 | A title that is exactly a code yields that code |
| Magnets.DownloadUrl | javdb_magnet_crawler.py:542-555 | The download URL is the URL standing for the link or that URL joined to the site: joined exactly when it is a copy URL that is neither `magnet:` nor `http`; a magnet URL standing in for a missing copy URL is returned as it is |
| Extract.CodeFromUrl | javdb_magnet_crawler.py:259-261 | The code is the last `/`-separated piece of the detail URL; empty when there is no `/` |
| Extract.HitIndex | javdb_magnet_crawler.py:451 | The index of the first selector of a chain that finds an element: every earlier selector finds none, the one at the index finds one; the chain length when none does |
| Extract.FirstFound | javdb_magnet_crawler.py:451 | `find(a) or find(b) or ...`: what the first selector that finds anything finds, and nothing when no selector finds anything |
| Extract.FirstFoundAt | javdb_magnet_crawler.py:380-384 | When selector `k` is the first to find anything, the chain gives what selector `k` finds |
| Extract.FirstFoundNone | javdb_magnet_crawler.py:380-386 | When no selector finds anything, the chain finds nothing |
| Extract.FindFirst | javdb_magnet_crawler.py:380-384 | The loop over the section selectors, stopping at the first `select_one` that finds something, returns what the selector chain finds |
| Extract.FillIndex | javdb_magnet_crawler.py:416-421 | The index of the first item selector that matches anything: every earlier one matches nothing, the one at the index matches something; the list length when none does |
| Extract.FirstNonEmpty | javdb_magnet_crawler.py:416-421 | The items are the matches of the first selector that matches anything, and none when no selector matches anything |
| Extract.TitleFrom | javdb_magnet_crawler.py:277-289 | The title read from the chosen element is cleaned text |
| Extract.TitleOf | javdb_magnet_crawler.py:268-289 | The title is read from the first of `div.video-title`, `div.title`, `strong` found, else from the movie link; it is cleaned text |
| Extract.ScoreOf | javdb_magnet_crawler.py:292-303 | The score text is the digits and dots, in order, of the text of the first of `span.score`, `span.rating`, `div.score`, `span.value` found; empty when none is found |
| Extract.ScoreText | javdb_magnet_crawler.py:299-301 | Stripping then deleting everything but digits and dots leaves the digits and dots of the text, in order |
| Extract.TagsOf | javdb_magnet_crawler.py:310-315 | The tags are the cleaned link texts of the first of `div.tags`, `div.tag-list` found; none when neither is found |
| Extract.NamedActorBlock | javdb_magnet_crawler.py:318-322 | The actor block is the first of `div.actors`, `div.actor-list`, `div.performers` found, and none when none is found |
| Extract.AnchorTexts | javdb_magnet_crawler.py:310-315 | One cleaned text per tag anchor |
| Extract.CleanName | javdb_magnet_crawler.py:340-342 | An actor name is cleaned text and stays comma-free |
| Extract.Names | javdb_magnet_crawler.py:340-342 | Names are cleaned and no more than the pieces |
| Extract.NamesOfPieces | javdb_magnet_crawler.py:342 | The names are exactly the non-blank pieces, in order, each stripped and cleaned |
| Extract.CleanNameNoop | javdb_magnet_crawler.py:342 | A name as `clean_text` leaves it is not blank, and stripping and cleaning give it back |
| Extract.NamesOfCleanNames | javdb_magnet_crawler.py:342 | Pieces that are already clean names come back as the names, unchanged |
| Extract.NamesCommaFree | javdb_magnet_crawler.py:337-342 | Names from comma-split pieces contain no comma |
| Extract.ActorsFromText | javdb_magnet_crawler.py:331-342 | Each actor is cleaned text without a comma |
| Extract.JoinedNames | javdb_magnet_crawler.py:335-342 | The comma join of clean names has nothing to strip, no prefix to cut, and splits back into the names |
| Extract.ActorsFromTextRoundTrip | javdb_magnet_crawler.py:335-342 | Clean names joined with commas are read back as the same names, when the first does not start with one of `演員主演：:` |
| Extract.FirstMentioningActors | javdb_magnet_crawler.py:325-329 | Finds a `div` mentioning the actor label if and only if one exists |
| Extract.FirstMentioningAt | javdb_magnet_crawler.py:325-329 | The first such `div` is the one found |
| Extract.FirstDivMentioningActors | javdb_magnet_crawler.py:325-329 | The loop over the `div`s returns the first one mentioning actors |
| Extract.ActorBlock | javdb_magnet_crawler.py:318-329 | The actor block is the named container, else the first `div` mentioning actors, and lies inside the item |
| Extract.MovieFrom | javdb_magnet_crawler.py:256-344 | The movie keeps its rank, its detail URL joins the link's `href`, its code ends that URL and has no `/`, its title is clean |
| Extract.MovieItem | javdb_magnet_crawler.py:238-344 | A parsed movie keeps the rank it was given |
| Extract.ParseMovieItem | javdb_magnet_crawler.py:238-344 | No movie if and only if the item has no link; otherwise the detail URL, code and title as above |
| Extract.PyPrefix | javdb_magnet_crawler.py:227 | Python `items[:limit]`, including a negative limit |
| Extract.MoviesOf | javdb_magnet_crawler.py:227-234 | At most one movie per item, ranked 1 upwards, in strictly increasing rank |
| Extract.RankedMovies | javdb_magnet_crawler.py:201-236 | At most `limit` movies, ranks within the containers found, strictly increasing |
| Extract.ParseRankingsPage | javdb_magnet_crawler.py:201-236 | The parser returns the ranked movies |
| Extract.ParseMovies | javdb_magnet_crawler.py:227-234 | The loop skips items that yield no movie and keeps item order |
| Extract.FileCountStart | javdb_magnet_crawler.py:462 | Finds a `digits + "個文件"` match if and only if one exists |
| Extract.FileCount | javdb_magnet_crawler.py:461-464 | No match gives 0 files |
| Extract.FileCountRoundTrip | javdb_magnet_crawler.py:461-464 | A count written in the size text is read back |
| Extract.CleanTextOf | javdb_magnet_crawler.py:451-486 | The text of an optional element is cleaned text |
| Extract.ChainText | javdb_magnet_crawler.py:451-453 | The cleaned text of the element the first finding selector finds; empty when no selector finds anything |
| Extract.ItemTitle | javdb_magnet_crawler.py:451-453 | The title is the cleaned text of the first of `span.title`, `td.title`, `strong` found; empty when none is found |
| Extract.ItemSize | javdb_magnet_crawler.py:456-459 | The size text is the cleaned text of `span.size`, else of `td.size`; empty when neither is found |
| Extract.ItemDate | javdb_magnet_crawler.py:484-486 | The date is the cleaned text of `span.date`, else of `td.date`; empty when neither is found |
| Extract.CopyLinkOf | javdb_magnet_crawler.py:476 | The copy link is the button's `href`, else `data-url`, else `data-clipboard-text`, and is empty only when all three are |
| Extract.CopyButtonUrl | javdb_magnet_crawler.py:474-476 | The copy URL is the link of the first of `a.copy-btn`, `button.copy`, an `a` reading 複製 found; empty when none is found |
| Extract.DownloadLinkOf | javdb_magnet_crawler.py:481 | The download link is the button's `href`, else `data-url`, and is empty only when both are |
| Extract.DownloadButtonUrl | javdb_magnet_crawler.py:479-481 | The download URL is the link of the first of `a.download-btn`, `button.download`, an `a` reading 下載 found; empty when none is found |
| Extract.ItemTags | javdb_magnet_crawler.py:467-471 | The tag is the cleaned text of the first of `span.tag`, `span.label`, `span.badge` found, recorded only when it is a known tag; at most one tag |
| Extract.MagnetAnchorUrl | javdb_magnet_crawler.py:489-494 | Empty if and only if there is no `magnet:` anchor; otherwise a `magnet:` URL |
| Extract.ParseMagnetItem | javdb_magnet_crawler.py:446-499 | Dropped if and only if it has neither a copy URL nor a magnet anchor; a kept link's primary URL is its copy URL, a magnet anchor fills an empty copy URL, the file count is read from the size, texts are clean |
| Extract.ParsedItems | javdb_magnet_crawler.py:431-441 | No more links than items, each a page link |
| Extract.MagnetLinksPage | javdb_magnet_crawler.py:357-444 | Page links carry only the tags the parser assigns |
| Extract.ParseMagnetLinksPage | javdb_magnet_crawler.py:357-444 | The loops return exactly the links `MagnetLinksPage` describes: the parsed items of the first section a selector finds, else the parsed containers of the copy buttons |
| Extract.CopyButtonContainers | javdb_magnet_crawler.py:387-402 | Collects the containing item of each copy button |
| Extract.SectionItems | javdb_magnet_crawler.py:404-427 | The items are the matches of the first item selector that matches anything, else the `div`s whose text mentions 複製 or 下載, else every `div` of the section |
| Extract.ParseItems | javdb_magnet_crawler.py:431-441 | The loop keeps the items that parse, in order |
| Utils.CollapseSpace | utils.py:194-197 | The non-whitespace characters of the input survive in order, with single plain spaces between them and no whitespace at either end |
| Utils.CollapsedRuns | utils.py:194-197 | Stripping then replacing whitespace runs leaves no whitespace at either end, no two whitespace characters side by side, and the input's other characters in order |
| Utils.CleanText | utils.py:188-199 | Empty input gives empty output; the result keeps only allowed characters, taken in order from the collapsed input |
| Utils.CleanTextFixedPoint | utils.py:188-199 | Text made only of kept characters, with no space at either end and none doubled, is returned unchanged |
| Utils.ReplaceIllegal | utils.py:238 | Same length; each illegal filename character becomes `_` and every other character stays in its place |
| Utils.Underscored | utils.py:238-239 | The result has no illegal character and no whitespace |
| Utils.SanitizeFilename | utils.py:232-246 | The name is never empty (`unknown` for the empty input), safe, at most 200 characters, and does not start with `.` or `_` |
| Utils.SanitizeFilenameFixedPoint | utils.py:232-246 | An already safe name is returned unchanged |
| Utils.ValidateMagnetLinkShape | utils.py:224-230 | A link is valid if and only if it is `magnet:?xt=urn:btih:` followed by an ASCII letter or digit |
| Utils.MagnetMatchAt | utils.py:203 | The match is a valid magnet link of URL characters |
| Utils.MagnetStart | utils.py:203-204 | Finds the first magnet match if and only if one exists |
| Utils.ExtractMagnetLink | utils.py:201-205 | No result if and only if there is no magnet link; otherwise the first one, valid and taken from the page |
| Utils.ExtractMagnetLinkIdempotent | utils.py:201-205 | Extracting from an extracted link gives it back |
| Utils.TorrentPathAt | utils.py:210 | A matched path ends in `.torrent` and contains no quote |
| Utils.TorrentStart | utils.py:210-211 | Finds the first torrent link if and only if one exists |
| Utils.ResolveTorrentPath | utils.py:213-220 | An http path stays; a rooted path is appended to the base; otherwise base, `/`, path |
| Utils.ExtractTorrentUrl | utils.py:207-222 | No result if and only if there is no torrent link; otherwise a `.torrent` URL |
| Text.StripSpace | utils.py:197 | `str.strip()`: no whitespace at either end, a piece of the input |
| Text.ReplaceRuns | utils.py:194 | `re.sub` of a character class: only replacement characters and non-class input characters remain |
| Text.ReplaceRunsKeeps | utils.py:194 | Replacing class runs by class characters leaves the characters outside the class, in order |
| Text.ReplaceRunsNoAdjacent | utils.py:194 | With a one-character replacement no two class characters are side by side, and an input starting outside the class keeps its first character |
| Text.ReplaceRunsLast | utils.py:194 | An input ending outside the class keeps its last character |
| Text.ReplaceRunsNoop | utils.py:194 | An input whose class characters are all the replacement and never side by side is unchanged |
| Text.FilterStrip | utils.py:197 | Stripping characters that a filter drops anyway changes nothing the filter keeps |
| Text.Split | javdb_magnet_cli.py:93 | `str.split` on one character: at least one piece, none containing the separator |
| Text.JoinSplit | javdb_magnet_cli.py:93 | Joining the pieces gives the string back |
| Text.SplitJoin | javdb_magnet_cli.py:93 | Splitting a join of separator-free pieces gives the pieces back |
| Text.Filter | duplicate_tracker.py:67-79 | A list comprehension with a condition keeps exactly the elements that pass, in order |
| Text.FilterAppend | javdb_magnet_cli.py:441-452 | Filtering distributes over concatenation |
| Manager.GetMovieMagnetLinks | javdb_magnet_crawler.py:346-355 | A failed fetch gives no links; otherwise the page's links, each carrying only known tags |
| Manager.UrlText | javdb_magnet_crawler.py:699-709 | Writing URLs ends with a line break |
| Manager.AppendLine | javdb_magnet_crawler.py:708 | Appending a line to a file that ends with a break adds exactly that line |
| Manager.AppendUrls | javdb_magnet_crawler.py:699-709 | Appending URLs adds exactly those lines |
| Manager.DateHeaderSettles | javdb_magnet_crawler.py:636-662 | After a run that appended URLs, today's header is no longer needed |
| Manager.FixCode | javdb_magnet_crawler.py:673-687 | Without a chosen link the code stays; otherwise it becomes the `[javdb.com]` code of the chosen link when there is one, else, for a code shorter than five characters, the first code-shaped piece of the title, else stays; a non-empty `real_code` is the new code, an empty one leaves the code as it was |
| Manager.ChosenUrl | javdb_magnet_crawler.py:700-705 | The URL written is stripped |
| Manager.Handle | javdb_magnet_crawler.py:664-711 | A movie's result holds its rank, all links found, the preferred one, the fixed code, and the URL and code to record |
| Manager.Outcomes | javdb_magnet_crawler.py:664 | One outcome per new movie |
| Manager.OutcomeAt | javdb_magnet_crawler.py:664-697 | The k-th outcome handles the k-th new movie with rank k+1 and its detail page's links |
| Manager.Run | javdb_magnet_crawler.py:664-726 | The loop's results are the handled results, one per movie, in order |
| Manager.RunUrlsDistinct | javdb_magnet_crawler.py:699-709 | Appended URLs are non-empty, pairwise distinct, were not already written, and the URL set grows by exactly them |
| Manager.RunCodes | javdb_magnet_crawler.py:707-714 | A code is recorded only when valid, non-empty, and its movie's URL was appended |
| Manager.Top30 | javdb_magnet_crawler.py:580-735 | Codes stay unique, one result per new movie, and nothing changes when no movie is new |
| Manager.Top30Results | javdb_magnet_crawler.py:664-697 | The k-th result is the handled k-th new movie, with rank k+1 |
| Manager.Top30NoRewrite | javdb_magnet_crawler.py:619-633 | No URL is appended twice, none was already a line of the file, none was in the URL set |
| Manager.Top30Written | javdb_magnet_crawler.py:619-709 | The URL set afterwards is the seeded set plus the appended URLs |
| Manager.Top30Lines | javdb_magnet_crawler.py:636-709 | The file's lines afterwards are the old lines, today's date if a header was needed, then the appended URLs |
| Manager.Top30File | javdb_magnet_crawler.py:636-709 | The file afterwards is the old text, the header when needed, then the URL lines |
| Manager.Top30Codes | javdb_magnet_crawler.py:707-714 | Every recorded code is valid and belongs to a result whose URL was appended |
| Manager.Top30Store | javdb_magnet_crawler.py:729-733 | With nothing recorded the store is untouched; otherwise saved, within its cap, each entry a recorded code stamped now or an earlier entry unchanged |
| Manager.MarkedStore | javdb_magnet_crawler.py:731-733 | Marking then trimming leaves each entry either a marked code with the new date or as it was |
| Manager.CountWithMagnets | javdb_magnet_crawler.py:820 | The number of results that kept a link, no more than the results |
| Manager.GetSummaryStats | javdb_magnet_crawler.py:814-828 | The movie count, the sums of found and kept links, the number of movies that kept a link, and the success rate as that number over the movie count: between 0 and 1, and 0 for no results |
| Manager.StatsOfChosen | javdb_magnet_crawler.py:816-820 | With at most one chosen link per movie, filtered magnets equal movies with magnets and do not exceed total magnets |
| Manager.JavDBMagnetManager.constructor | javdb_magnet_crawler.py:560-564 | Starts with the loaded tracker, an empty URL set and the URL file as found |
| Manager.JavDBMagnetManager.GetTop30MonthlyWithDuplicateCheck | javdb_magnet_crawler.py:580-735 | A failed ranking fetch changes nothing and returns no results; otherwise the results and the new state are those of `Top30` |
| Manager.JavDBMagnetManager.CheckAndWrite | javdb_magnet_crawler.py:603-735 | Results and new state equal `Top30` of the old state |
| Manager.JavDBMagnetManager.WriteNewMovies | javdb_magnet_crawler.py:664-726 | The loop's progress is `Run` of the outcomes, and the file gains exactly the URL lines |
| Manager.JavDBMagnetManager.VisitMovie | javdb_magnet_crawler.py:666-721 | One iteration is one `Visit` step, and the file text follows the URLs appended |
| Cli.ParseFilterTags | javdb_magnet_cli.py:91-93 | No filter, or an empty one, gives no tags; otherwise one tag per comma piece |
| Cli.ParsedTagsArePieces | javdb_magnet_cli.py:91-93 | Each tag is the stripped comma piece at its place, without comma or outer whitespace |
| Cli.TagFiltered | javdb_magnet_cli.py:441-452 | No tags keep every link; otherwise exactly the links whose joined tags contain a filter tag, in order |
| Cli.FilterMagnets | javdb_magnet_cli.py:441-452 | The loop returns the tag-filtered links |
| Cli.CarriedTagIsKept | javdb_magnet_cli.py:446-450 | A link carrying a filter tag is kept |
| Cli.EmptyTagKeepsAll | javdb_magnet_cli.py:449 | An empty filter tag matches every link |
| Cli.KeepSome | javdb_magnet_cli.py:427-439 | Building a new result list never makes it longer |
| Cli.KeepSomeMembers | javdb_magnet_cli.py:427-472 | Exactly the results the refit keeps appear |
| Cli.ApplyFilterToResults | javdb_magnet_cli.py:454-472 | The loop returns the filtered results |
| Cli.FilteredResultsSpec | javdb_magnet_cli.py:454-472 | A result is kept if and only if one of its links matches; it then holds only matching links, counted |
| Cli.ApplyPriorityLogic | javdb_magnet_cli.py:474-498 | The loop picks the preferred link with the Chinese-subtitle tier second |
| Cli.ApplyPriorityFilterToResults | javdb_magnet_cli.py:427-439 | The loop returns the refitted results |
| Cli.PriorityResultsSpec | javdb_magnet_cli.py:427-439 | A result is kept if and only if it has links; it then holds exactly one link, the preferred one from its own links |
| Cli.ExportName | javdb_magnet_cli.py:283-289 | No name is an error; otherwise the name ends in the extension, keeps its start, and is unchanged when already right |
| Cli.ExportNameIdempotent | javdb_magnet_cli.py:283-289 | Fixing an already fixed name changes nothing |
| Cli.Truncated | javdb_magnet_cli.py:220-222 | Short text stays; long text is its first `width` characters and `...` |
| Cli.DisplayTitle | javdb_magnet_cli.py:220-222 | A displayed title is at most 30 characters: 27 and `...` |
| Cli.DisplayLink | javdb_magnet_cli.py:249-256 | A displayed link is at most 50 characters: 47 and `...` |
| Cli.TruncatedIdempotent | javdb_magnet_cli.py:220-222 | Truncating twice is truncating once; text is unchanged exactly when short or already ending in `...` at the cut |

## Left out

- HTTP, the session, its headers and the random User-Agent are not modelled. A request attempt is an injected function from attempt number to an optional page. The random sleeps are returned as a list of pauses, not slept.
- The HTML parser is not modelled. Pages are element trees (`Markup.Node`), and `urljoin` is a function parameter.
- Fetching detail pages is a parameter `detail`. `FetchesDetailPages` ties it to the fetch and parse it stands for.
- JSON reading and writing of the duplicate store is not modelled. Only the rule that a missing or unreadable file gives the empty store is kept. A file that parses but lacks `scraped_movies` is treated the same way, because every later access uses `.get` with an empty default.
- The debug HTML dumps are left out, as they are I/O only.
- `export_magnets_to_file` and the JSON/CSV/TXT export writers are left out, as they are I/O. `export_magnets_to_file` also divides by `total_magnets` when computing a success rate, which fails on an empty result list.
- Rich tables, colours, logging and argparse are left out. Only the truncation and the values shown are modelled.
- `handle_top30` and `handle_code` are left out beyond their filter-tag parsing and filename fixes, and so is interactive mode.
- config.py, run_javdb_magnet.py and check_env.py are not part of this model.
- `get_monthly_rankings_with_magnets`, `get_top30_magnets` and `get_magnets_by_code` are not modelled. They are thin wrappers over the modelled fetch, parse and filter steps and add only logging and sleeps.
- `parse_size`, `format_size`, `parse_date` and `setup_logging` from utils.py are left out. The core does not call them.
- Timestamps from `datetime.now()` are string parameters. `datetime.fromisoformat` is a parameter `parse` from strings to optional integers.
- Tracker.DuplicateTracker.BatchMarkAsScraped: every code of one batch is stamped with the one timestamp `now`, and so are the codes `Manager.Top30` records. The source reads the clock once per mark (duplicate_tracker.py:60, called from :86), so its stamps within a batch can differ and can break ties differently when the store is trimmed to its cap.
- Extract.ScoreOf: the score is kept as the matched text, not converted to a float.
- Manager.GetSummaryStats: the success rate is a Dafny `real`, not a binary float.
- Text.IsWordChar: `\w` is approximated by ASCII letters, digits, `_`, Latin-1 letters, kana, CJK ideographs, Hangul and fullwidth letters and digits, not the full Unicode class.
- Text.IsDecimal: `\d` is approximated by ASCII and fullwidth digits.
- Manager.UrlLines: a lone `\r` is not treated as a line break, as it would be under Python's universal newlines. The URL file is modelled as text whose lines are read with `\n` as the separator.
- Manager.JavDBMagnetManager.constructor: the failure path when the URL file cannot be read is left out. File contents are given as an optional string.
- `_is_valid_code` is the predicate parameter `isValid`, because the tracker class does not define it.
- Cli.ApplyFilterToResults: the command line mutates the result dictionaries in place. The model returns new values, so aliasing between the input and output lists is not captured.
- Cli.ApplyPriorityFilterToResults: the same in-place mutation is modelled as new values.
