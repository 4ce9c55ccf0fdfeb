/**
 * The duplicate tracker (duplicate_tracker.py): a store of movie codes with
 * the ISO timestamp each was recorded at, kept in a JSON file, capped at the
 * 300 most recent entries. The dict is a sequence of (code, timestamp) pairs
 * in insertion order with unique codes; the file is a field the operations
 * overwrite when they save.
 */
module Tracker {
  import opened Wrappers
  import opened Text
  import opened Stamps

  /** The most entries the store keeps. */
  const MaxRecords: nat := 300

  /** How many codes the statistics list as recent. */
  const RecentCount: nat := 10

  /** What the store file holds. */
  datatype StoreFile =
    | Missing
    | Unreadable
    | Stored(movies: seq<Entry>, lastUpdate: Option<string>)

  /** The dict `get_statistics` returns. */
  datatype Statistics = Statistics(totalScraped: nat, lastUpdate: Option<string>, recentScraped: seq<string>, maxRecords: nat)

  /** `list(d.keys())` */
  function Keys(items: seq<Entry>): (ks: seq<string>)
    ensures |ks| == |items| && forall i :: 0 <= i < |items| ==> ks[i] == items[i].0
  {
    seq(|items|, i requires 0 <= i < |items| => items[i].0)
  }

  /** `d.get(code)`: the timestamp recorded for `code`, if any. */
  function Lookup(items: seq<Entry>, code: string): (r: Option<string>)
    ensures r.None? <==> code !in Keys(items)
    ensures r.Some? ==> (code, r.value) in items
  {
    if items == [] then None
    else
      assert Keys(items) == [items[0].0] + Keys(items[1..]);
      if items[0].0 == code then Some(items[0].1) else Lookup(items[1..], code)
  }

  /** With each code present once, an entry's code looks up that entry's own timestamp. */
  lemma LookupEntry(items: seq<Entry>, e: Entry)
    requires UniqueKeys(items) && e in items
    ensures Lookup(items, e.0) == Some(e.1)
  {
    var i :| 0 <= i < |items| && items[i] == e;
    assert Keys(items)[i] == e.0;
    var v := Lookup(items, e.0).value;
    var j :| 0 <= j < |items| && items[j] == (e.0, v);
    assert i == j;
  }

  /**
   * `d[code] = date`: the code maps to `date` afterwards, every other code
   * keeps its timestamp, an existing code keeps its place and a new one goes
   * last.
   */
  function Upsert(items: seq<Entry>, code: string, date: string): (r: seq<Entry>)
    ensures Lookup(r, code) == Some(date)
    ensures forall c :: c != code ==> Lookup(r, c) == Lookup(items, c)
  {
    if items == [] then [(code, date)]
    else if items[0].0 == code then [(code, date)] + items[1..]
    else [items[0]] + Upsert(items[1..], code, date)
  }

  /** An existing code keeps its place; a new one goes last. */
  lemma {:induction false} UpsertKeys(items: seq<Entry>, code: string, date: string)
    ensures code in Keys(items) ==> Keys(Upsert(items, code, date)) == Keys(items)
    ensures code !in Keys(items) ==> Keys(Upsert(items, code, date)) == Keys(items) + [code]
  {
    if items != [] {
      var head, rest := items[0], items[1..];
      var r := Upsert(items, code, date);
      KeysCons(items);
      KeysCons(r);
      if head.0 != code {
        assert r[1..] == Upsert(rest, code, date);
        UpsertKeys(rest, code, date);
        assert code in Keys(items) <==> code in Keys(rest);
        if code !in Keys(items) {
          assert Keys(r) == [head.0] + (Keys(rest) + [code]);
          AppendAssoc([head.0], Keys(rest), [code]);
        }
      } else {
        assert r[1..] == rest;
        assert Keys(items)[0] == code;
      }
    } else {
      assert Keys(Upsert(items, code, date)) == [code];
    }
  }

  lemma KeysCons(items: seq<Entry>)
    requires items != []
    ensures Keys(items) == [items[0].0] + Keys(items[1..])
  {
  }

  /** `d[code] = date` keeps each code once. */
  lemma UpsertUniqueKeys(items: seq<Entry>, code: string, date: string)
    requires UniqueKeys(items)
    ensures UniqueKeys(Upsert(items, code, date))
  {
    var r := Upsert(items, code, date);
    UpsertKeys(items, code, date);
    forall i, j | 0 <= i < j < |r| ensures r[i].0 != r[j].0 {
      assert Keys(r)[i] == r[i].0 && Keys(r)[j] == r[j].0;
      if j < |items| {
        assert Keys(items)[i] == items[i].0 && Keys(items)[j] == items[j].0;
      } else {
        assert Keys(items)[i] == items[i].0;
      }
    }
  }

  /** Codes are unique when the first one does not recur and the rest are unique. */
  lemma UniqueKeysFromKeys(r: seq<Entry>)
    requires r != [] && r[0].0 !in Keys(r[1..])
    requires UniqueKeys(r[1..])
    ensures UniqueKeys(r)
  {
    forall i, j | 0 <= i < j < |r| ensures r[i].0 != r[j].0 {
      if i == 0 {
        assert r[j].0 == Keys(r[1..])[j - 1];
      } else {
        assert r[i] == r[1..][i - 1] && r[j] == r[1..][j - 1];
      }
    }
  }

  /** The marking loop of `batch_mark_as_scraped`: each non-empty code is set to `date`, in order. */
  function MarkAll(items: seq<Entry>, codes: seq<string>, date: string): (r: seq<Entry>)
    ensures UniqueKeys(items) ==> UniqueKeys(r)
    decreases |codes|
  {
    if codes == [] then items
    else
      var prev := MarkAll(items, codes[..|codes| - 1], date);
      var c := codes[|codes| - 1];
      if c == "" then prev
      else
        assert UniqueKeys(items) ==> UniqueKeys(Upsert(prev, c, date)) by {
          if UniqueKeys(items) { UpsertUniqueKeys(prev, c, date); }
        }
        Upsert(prev, c, date)
  }

  /**
   * After the marking loop every non-empty code of the batch maps to the
   * batch's timestamp and every other code keeps what it had.
   */
  lemma {:induction false} MarkAllLookup(items: seq<Entry>, codes: seq<string>, date: string, c: string)
    ensures Lookup(MarkAll(items, codes, date), c) == if c != "" && c in codes then Some(date) else Lookup(items, c)
    decreases |codes|
  {
    if codes != [] {
      var init := codes[..|codes| - 1];
      assert codes == init + [codes[|codes| - 1]];
      MarkAllLookup(items, init, date, c);
    }
  }

  /** `_auto_cleanup(max)` on the dict: nothing changes within the cap; beyond it the newest `max` stay. */
  function Cleanup(items: seq<Entry>, max: nat): (r: seq<Entry>)
    requires UniqueKeys(items)
    ensures |items| <= max ==> r == items
    ensures 0 < max < |items| ==> |r| == max
    ensures max > 0 ==> |r| <= max
    ensures UniqueKeys(r) && multiset(r) <= multiset(items)
    ensures forall e, x :: e in items && e !in r && x in r ==> LexLe(e.1, x.1)
  {
    KeepNewestEvictsOldest(items, max);
    if |items| <= max then items else KeepNewest(items, max)
  }

  /** `datetime.now() - timedelta(days=days)`, in seconds. */
  function Cutoff(now: int, days: int): int {
    now - days * 86400
  }

  /** `clear_old_records` drops an entry whose date does not parse or lies before the cutoff. */
  predicate IsStale(e: Entry, parse: string -> Option<int>, cutoff: int) {
    parse(e.1).None? || parse(e.1).value < cutoff
  }

  /** The codes the first loop of `clear_old_records` collects, in dict order. */
  function StaleCodes(items: seq<Entry>, parse: string -> Option<int>, cutoff: int): seq<string> {
    if items == [] then []
    else
      var last := items[|items| - 1];
      StaleCodes(items[..|items| - 1], parse, cutoff) + (if IsStale(last, parse, cutoff) then [last.0] else [])
  }

  /** The collected codes are exactly the codes of stale entries. */
  lemma {:induction false} StaleCodesMembers(items: seq<Entry>, parse: string -> Option<int>, cutoff: int)
    ensures forall i :: 0 <= i < |items| && IsStale(items[i], parse, cutoff) ==> items[i].0 in StaleCodes(items, parse, cutoff)
    ensures forall c :: c in StaleCodes(items, parse, cutoff) ==>
      exists i :: 0 <= i < |items| && items[i].0 == c && IsStale(items[i], parse, cutoff)
  {
    if items != [] {
      var init := items[..|items| - 1];
      StaleCodesMembers(init, parse, cutoff);
      assert forall i :: 0 <= i < |init| ==> init[i] == items[i];
    }
  }

  /** The entries whose code is not in `gone`, in order. */
  function WithoutCodes(items: seq<Entry>, gone: seq<string>): seq<Entry> {
    if items == [] then []
    else (if items[0].0 in gone then [] else [items[0]]) + WithoutCodes(items[1..], gone)
  }

  /** `del d[code]` for each code of `gone`, then `del d[c]`. */
  lemma {:induction false} WithoutCodesSnoc(items: seq<Entry>, gone: seq<string>, c: string)
    ensures WithoutCodes(WithoutCodes(items, gone), [c]) == WithoutCodes(items, gone + [c])
  {
    if items != [] {
      WithoutCodesSnoc(items[1..], gone, c);
      var head, rest := items[0], items[1..];
      var w := WithoutCodes(items, gone);
      var wr := WithoutCodes(rest, gone);
      if head.0 in gone {
        assert w == wr;
        assert head.0 in gone + [c];
      } else {
        assert w == [head] + wr;
        assert w[0] == head && w[1..] == wr;
        assert head.0 in [c] <==> head.0 in gone + [c];
      }
    }
  }

  /** The entries `clear_old_records` keeps: those whose date parses and is not before the cutoff. */
  function FreshEntries(items: seq<Entry>, parse: string -> Option<int>, cutoff: int): (r: seq<Entry>)
    ensures forall e :: e in r <==> e in items && !IsStale(e, parse, cutoff)
    ensures forall e :: e in r ==> parse(e.1).Some? && parse(e.1).value >= cutoff
    ensures IsSubsequence(r, items)
    ensures UniqueKeys(items) ==> UniqueKeys(r)
  {
    if items == [] then []
    else if IsStale(items[0], parse, cutoff) then FreshEntries(items[1..], parse, cutoff)
    else
      var rest := FreshEntries(items[1..], parse, cutoff);
      assert UniqueKeys(items) ==> UniqueKeys([items[0]] + rest) by {
        if UniqueKeys(items) {
          forall e | e in rest ensures e.0 != items[0].0 {
            var k :| 0 <= k < |items[1..]| && items[1..][k] == e;
            assert items[k + 1] == e;
          }
          UniqueKeysCons(items[0], rest);
        }
      }
      [items[0]] + rest
  }

  lemma UniqueKeysCons(head: Entry, tail: seq<Entry>)
    requires UniqueKeys(tail) && forall e :: e in tail ==> e.0 != head.0
    ensures UniqueKeys([head] + tail)
  {
    var r := [head] + tail;
    forall i, j | 0 <= i < j < |r| ensures r[i].0 != r[j].0 {
      assert r[j] == tail[j - 1];
      if i > 0 { assert r[i] == tail[i - 1]; }
    }
  }

  /** Deleting exactly the stale codes leaves exactly the fresh entries. */
  lemma {:induction false} WithoutStaleCodes(items: seq<Entry>, gone: seq<string>, parse: string -> Option<int>, cutoff: int)
    requires forall e :: e in items ==> (e.0 in gone <==> IsStale(e, parse, cutoff))
    ensures WithoutCodes(items, gone) == FreshEntries(items, parse, cutoff)
  {
    if items != [] {
      assert items[0] in items;
      WithoutStaleCodes(items[1..], gone, parse, cutoff);
    }
  }

  /** Stale entries and fresh entries split the store between them. */
  lemma {:induction false} StaleFreshPartition(items: seq<Entry>, parse: string -> Option<int>, cutoff: int)
    ensures |StaleCodes(items, parse, cutoff)| + |FreshEntries(items, parse, cutoff)| == |items|
  {
    if items != [] {
      var init := items[..|items| - 1];
      var last := items[|items| - 1];
      assert items == init + [last];
      StaleFreshPartition(init, parse, cutoff);
      FreshEntriesAppend(init, last, parse, cutoff);
    }
  }

  lemma {:induction false} FreshEntriesAppend(items: seq<Entry>, e: Entry, parse: string -> Option<int>, cutoff: int)
    ensures FreshEntries(items + [e], parse, cutoff)
         == FreshEntries(items, parse, cutoff) + (if IsStale(e, parse, cutoff) then [] else [e])
  {
    if items == [] {
      assert items + [e] == [e];
    } else {
      assert (items + [e])[0] == items[0] && (items + [e])[1..] == items[1..] + [e];
      FreshEntriesAppend(items[1..], e, parse, cutoff);
    }
  }

  /** With unique codes, an entry's code is collected exactly when the entry is stale. */
  lemma StaleCodesExact(items: seq<Entry>, parse: string -> Option<int>, cutoff: int)
    requires UniqueKeys(items)
    ensures forall e :: e in items ==> (e.0 in StaleCodes(items, parse, cutoff) <==> IsStale(e, parse, cutoff))
  {
    var codes := StaleCodes(items, parse, cutoff);
    StaleCodesMembers(items, parse, cutoff);
    forall e | e in items && e.0 in codes ensures IsStale(e, parse, cutoff) {
      var i :| 0 <= i < |items| && items[i].0 == e.0 && IsStale(items[i], parse, cutoff);
      var j :| 0 <= j < |items| && items[j] == e;
      assert i == j;
    }
    forall e | e in items && IsStale(e, parse, cutoff) ensures e.0 in codes {
      var j :| 0 <= j < |items| && items[j] == e;
    }
  }

  /** The movies of `ms` that `get_new_movies` lets through: a non-empty code not yet recorded. */
  function NewMovies<M(==)>(ms: seq<M>, codeOf: M -> string, known: seq<string>): (r: seq<M>)
    ensures forall m :: m in r ==> m in ms && codeOf(m) != "" && codeOf(m) !in known
    ensures forall m :: m in ms && codeOf(m) != "" && codeOf(m) !in known ==> m in r
    ensures |r| <= |ms|
  {
    if ms == [] then []
    else
      var init := ms[..|ms| - 1];
      var last := ms[|ms| - 1];
      assert ms == init + [last];
      NewMovies(init, codeOf, known) + (if codeOf(last) != "" && codeOf(last) !in known then [last] else [])
  }

  /** The new movies are the listing with the known and code-less ones dropped, in listing order. */
  lemma {:induction false} NewMoviesInOrder<M>(ms: seq<M>, codeOf: M -> string, known: seq<string>)
    ensures NewMovies(ms, codeOf, known) == Filter(ms, m => codeOf(m) != "" && codeOf(m) !in known)
    ensures IsSubsequence(NewMovies(ms, codeOf, known), ms)
    decreases |ms|
  {
    if ms != [] {
      var init := ms[..|ms| - 1];
      assert ms == init + [ms[|ms| - 1]];
      NewMoviesInOrder(init, codeOf, known);
      FilterSnoc(init, ms[|ms| - 1], m => codeOf(m) != "" && codeOf(m) !in known);
    }
  }

  class DuplicateTracker {
    /** `scraped_data['scraped_movies']`, in insertion order. */
    var movies: seq<Entry>
    /** `scraped_data['last_update']` */
    var lastUpdate: Option<string>
    /** The contents of the store file. */
    var file: StoreFile

    ghost predicate Valid()
      reads this
    {
      UniqueKeys(movies)
    }

    /**
     * `__init__` with `_load_data`: a missing or unreadable file gives an
     * empty store; a stored one is loaded, and when it holds more than 300
     * entries it is cut to the newest 300 and written straight back (its
     * `last_update` untouched).
     */
    constructor (onDisk: StoreFile)
      requires onDisk.Stored? ==> UniqueKeys(onDisk.movies)
      ensures Valid()
      ensures !onDisk.Stored? ==> movies == [] && lastUpdate == None && file == onDisk
      ensures onDisk.Stored? ==> lastUpdate == onDisk.lastUpdate
      ensures onDisk.Stored? && |onDisk.movies| <= MaxRecords ==> movies == onDisk.movies && file == onDisk
      ensures onDisk.Stored? && |onDisk.movies| > MaxRecords ==>
        movies == KeepNewest(onDisk.movies, MaxRecords) && file == Stored(movies, lastUpdate)
      ensures |movies| <= MaxRecords || (onDisk.Stored? && movies == onDisk.movies)
    {
      if onDisk.Stored? {
        var loaded := onDisk.movies;
        lastUpdate := onDisk.lastUpdate;
        if |loaded| > MaxRecords {
          movies := Cleanup(loaded, MaxRecords);
          file := Stored(movies, lastUpdate);
        } else {
          movies := loaded;
          file := onDisk;
        }
      } else {
        movies := [];
        lastUpdate := None;
        file := onDisk;
      }
    }

    /** `save_data`: stamps `last_update` and writes the store out. */
    method SaveData(now: string)
      modifies this
      ensures movies == old(movies)
      ensures lastUpdate == Some(now) && file == Stored(movies, lastUpdate)
    {
      lastUpdate := Some(now);
      file := Stored(movies, lastUpdate);
    }

    /** `is_already_scraped`: an exact match on the code. */
    function IsAlreadyScraped(code: string): (b: bool)
      reads this
      ensures b <==> Lookup(movies, code).Some?
      ensures b <==> exists i :: 0 <= i < |movies| && movies[i].0 == code
    {
      code in Keys(movies)
    }

    /**
     * `mark_as_scraped`: the code maps to the given date, or to the current
     * time when none is given. Nothing is saved.
     */
    method MarkAsScraped(code: string, scrapedDate: Option<string>, now: string)
      requires Valid()
      modifies this
      ensures Valid()
      ensures movies == Upsert(old(movies), code, if scrapedDate.Some? then scrapedDate.value else now)
      ensures lastUpdate == old(lastUpdate) && file == old(file)
    {
      var date := if scrapedDate.Some? then scrapedDate.value else now;
      UpsertUniqueKeys(movies, code, date);
      movies := Upsert(movies, code, date);
    }

    /**
     * `get_new_movies`: the movies with a non-empty code not yet recorded,
     * in their order, and how many were skipped (an empty code counts as
     * skipped).
     */
    method GetNewMovies<M(==)>(ms: seq<M>, codeOf: M -> string) returns (unseen: seq<M>, skipped: nat)
      ensures unseen == NewMovies(ms, codeOf, Keys(movies))
      ensures skipped == |ms| - |unseen|
    {
      unseen := [];
      skipped := 0;
      for i := 0 to |ms|
        invariant unseen == NewMovies(ms[..i], codeOf, Keys(movies))
        invariant skipped == i - |unseen|
      {
        var code := codeOf(ms[i]);
        assert ms[..i + 1][..i] == ms[..i];
        if code != "" && !IsAlreadyScraped(code) {
          unseen := unseen + [ms[i]];
        } else {
          skipped := skipped + 1;
        }
      }
      assert ms[..|ms|] == ms;
    }

    /**
     * `batch_mark_as_scraped`: marks every non-empty code, saves, then runs
     * `_auto_cleanup(300)`. The store ends saved and within the cap.
     */
    method BatchMarkAsScraped(codes: seq<string>, now: string)
      requires Valid()
      modifies this
      ensures Valid()
      ensures movies == Cleanup(MarkAll(old(movies), codes, now), MaxRecords)
      ensures |movies| <= MaxRecords
      ensures lastUpdate == Some(now) && file == Stored(movies, lastUpdate)
    {
      for i := 0 to |codes|
        invariant Valid()
        invariant movies == MarkAll(old(movies), codes[..i], now)
      {
        assert codes[..i + 1][..i] == codes[..i];
        if codes[i] != "" {
          MarkAsScraped(codes[i], None, now);
        }
      }
      assert codes[..|codes|] == codes;
      SaveData(now);
      AutoCleanup(MaxRecords, now);
    }

    /**
     * `_auto_cleanup`: within the cap nothing happens; beyond it the store
     * keeps its `max` newest entries, in timestamp order, and is saved.
     */
    method AutoCleanup(max: nat, now: string)
      requires Valid()
      modifies this
      ensures Valid()
      ensures movies == Cleanup(old(movies), max)
      ensures |old(movies)| <= max ==> lastUpdate == old(lastUpdate) && file == old(file)
      ensures |old(movies)| > max ==> lastUpdate == Some(now) && file == Stored(movies, lastUpdate)
    {
      if |movies| <= max {
        return;
      }
      movies := Cleanup(movies, max);
      SaveData(now);
    }

    /**
     * `get_statistics`: the number of entries, the last save time, the last
     * ten codes in insertion order, and the cap.
     */
    method GetStatistics() returns (st: Statistics)
      ensures st.totalScraped == |movies| && st.lastUpdate == lastUpdate && st.maxRecords == MaxRecords
      ensures |st.recentScraped| == Min(RecentCount, |movies|)
      ensures st.recentScraped == Keys(movies)[|movies| - |st.recentScraped|..]
      ensures forall c :: c in st.recentScraped ==> IsAlreadyScraped(c)
    {
      var recent := if movies != [] then PyTail(Keys(movies), RecentCount) else [];
      st := Statistics(|movies|, lastUpdate, recent, MaxRecords);
    }

    /**
     * `clear_old_records(days)`: collects the codes whose date does not
     * parse or is older than `days` days before `now`, deletes them, saves
     * when something was deleted, and returns how many went.
     */
    method ClearOldRecords(days: int, parse: string -> Option<int>, now: int, nowIso: string) returns (deleted: nat)
      requires Valid()
      modifies this
      ensures Valid()
      ensures movies == FreshEntries(old(movies), parse, Cutoff(now, days))
      ensures deleted == |old(movies)| - |movies|
      ensures deleted > 0 ==> lastUpdate == Some(nowIso) && file == Stored(movies, lastUpdate)
      ensures deleted == 0 ==> lastUpdate == old(lastUpdate) && file == old(file)
    {
      var cutoff := Cutoff(now, days);
      var original := movies;
      var toDelete: seq<string> := [];
      for i := 0 to |movies|
        invariant movies == original
        invariant toDelete == StaleCodes(movies[..i], parse, cutoff)
      {
        assert movies[..i + 1] == movies[..i] + [movies[i]];
        assert movies[..i + 1][..i] == movies[..i];
        if IsStale(movies[i], parse, cutoff) {
          toDelete := toDelete + [movies[i].0];
        }
      }
      assert movies[..|movies|] == movies;
      deleted := 0;
      assert WithoutCodes(original, []) == original by { NoCodesKeepsAll(original); }
      for j := 0 to |toDelete|
        invariant movies == WithoutCodes(original, toDelete[..j])
        invariant deleted == j
        invariant lastUpdate == old(lastUpdate) && file == old(file)
      {
        WithoutCodesSnoc(original, toDelete[..j], toDelete[j]);
        assert toDelete[..j + 1] == toDelete[..j] + [toDelete[j]];
        movies := WithoutCodes(movies, [toDelete[j]]);
        deleted := deleted + 1;
      }
      assert toDelete[..|toDelete|] == toDelete;
      assert movies == WithoutCodes(original, toDelete);
      StaleCodesExact(original, parse, cutoff);
      WithoutStaleCodes(original, toDelete, parse, cutoff);
      assert movies == FreshEntries(original, parse, cutoff);
      StaleFreshPartition(original, parse, cutoff);
      if deleted > 0 {
        SaveData(nowIso);
      }
    }
  }

  lemma {:induction false} NoCodesKeepsAll(items: seq<Entry>)
    ensures WithoutCodes(items, []) == items
  {
    if items != [] {
      NoCodesKeepsAll(items[1..]);
      assert [items[0]] + items[1..] == items;
    }
  }
}
