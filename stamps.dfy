/**
 * Timestamps as the dedup store compares them: ISO-8601 strings ordered as
 * Python orders `str` values (code point by code point), and the stable sort
 * by timestamp (`sorted(items, key=lambda x: x[1])`) that eviction uses.
 */
module Stamps {
  import opened Text

  /** One store entry: (movie code, ISO timestamp). */
  type Entry = (string, string)

  /** Python's `a <= b` on `str`. */
  predicate LexLe(a: string, b: string)
    decreases |a|
  {
    a == [] || (b != [] && (a[0] < b[0] || (a[0] == b[0] && LexLe(a[1..], b[1..]))))
  }

  lemma {:induction false} LexLeReflexive(a: string)
    ensures LexLe(a, a)
  {
    if a != [] { LexLeReflexive(a[1..]); }
  }

  lemma {:induction false} LexLeTotal(a: string, b: string)
    ensures LexLe(a, b) || LexLe(b, a)
  {
    if a != [] && b != [] && a[0] == b[0] { LexLeTotal(a[1..], b[1..]); }
  }

  lemma {:induction false} LexLeTransitive(a: string, b: string, c: string)
    requires LexLe(a, b) && LexLe(b, c)
    ensures LexLe(a, c)
  {
    if a != [] && a[0] == b[0] && b[0] == c[0] { LexLeTransitive(a[1..], b[1..], c[1..]); }
  }

  lemma {:induction false} LexLeAntisymmetric(a: string, b: string)
    requires LexLe(a, b) && LexLe(b, a)
    ensures a == b
  {
    if a != [] {
      LexLeAntisymmetric(a[1..], b[1..]);
      assert a == [a[0]] + a[1..] && b == [b[0]] + b[1..];
    }
  }

  /** Timestamps never decrease along `s`. */
  ghost predicate SortedByDate(s: seq<Entry>) {
    forall i, j :: 0 <= i < j < |s| ==> LexLe(s[i].1, s[j].1)
  }

  /** No movie code occurs twice: the entries of a Python dict. */
  ghost predicate UniqueKeys(s: seq<Entry>) {
    forall i, j :: 0 <= i < j < |s| ==> s[i].0 != s[j].0
  }

  /** The codes present in `s`. */
  ghost function KeySet(s: seq<Entry>): set<string> {
    set x | x in s :: x.0
  }

  /** The entries of `s` stamped exactly `date`, in order. */
  function StampedAt(s: seq<Entry>, date: string): (r: seq<Entry>)
    ensures forall x :: x in r <==> x in s && x.1 == date
  {
    if s == [] then []
    else (if s[0].1 == date then [s[0]] else []) + StampedAt(s[1..], date)
  }

  lemma {:induction false} StampedAtAppend(a: seq<Entry>, b: seq<Entry>, date: string)
    ensures StampedAt(a + b, date) == StampedAt(a, date) + StampedAt(b, date)
  {
    if a == [] {
      assert a + b == b;
    } else {
      assert (a + b)[0] == a[0] && (a + b)[1..] == a[1..] + b;
      StampedAtAppend(a[1..], b, date);
    }
  }

  /**
   * Insertion of one entry into a sorted list, after every entry whose
   * timestamp is not later than its own (this placement makes the sort stable).
   */
  function InsertByDate(sorted: seq<Entry>, e: Entry): (r: seq<Entry>)
    requires SortedByDate(sorted)
    ensures SortedByDate(r)
    ensures multiset(r) == multiset(sorted) + multiset{e}
    ensures |r| == |sorted| + 1
  {
    if sorted == [] || LexLe(sorted[|sorted| - 1].1, e.1) then
      forall i | 0 <= i < |sorted| ensures LexLe(sorted[i].1, e.1) {
        if i < |sorted| - 1 {
          LexLeTransitive(sorted[i].1, sorted[|sorted| - 1].1, e.1);
        }
      }
      SortedSnoc(sorted, e);
      sorted + [e]
    else
      var last := sorted[|sorted| - 1];
      var init := sorted[..|sorted| - 1];
      assert sorted == init + [last];
      var front := InsertByDate(init, e);
      LexLeTotal(last.1, e.1);
      forall i | 0 <= i < |front| ensures LexLe(front[i].1, last.1) {
        assert front[i] in multiset(front);
        assert front[i] == e || front[i] in init;
      }
      SortedSnoc(front, last);
      front + [last]
  }

  /** An entry no earlier than every entry of a sorted list may follow it. */
  lemma SortedSnoc(s: seq<Entry>, x: Entry)
    requires SortedByDate(s)
    requires forall i :: 0 <= i < |s| ==> LexLe(s[i].1, x.1)
    ensures SortedByDate(s + [x])
  {

  }

  /** A stable sort by timestamp, oldest first. */
  function SortByDate(s: seq<Entry>): (r: seq<Entry>)
    ensures SortedByDate(r)
    ensures multiset(r) == multiset(s) && |r| == |s|
  {
    if s == [] then []
    else
      assert s == s[..|s| - 1] + [s[|s| - 1]];
      InsertByDate(SortByDate(s[..|s| - 1]), s[|s| - 1])
  }

  /** Inserting `e` leaves the entries of every timestamp in order, `e` after its equals. */
  lemma {:induction false} InsertByDateStable(sorted: seq<Entry>, e: Entry, date: string)
    requires SortedByDate(sorted)
    ensures StampedAt(InsertByDate(sorted, e), date) == StampedAt(sorted + [e], date)
  {
    if sorted != [] && !LexLe(sorted[|sorted| - 1].1, e.1) {
      var last := sorted[|sorted| - 1];
      var init := sorted[..|sorted| - 1];
      assert sorted == init + [last];
      var front := InsertByDate(init, e);
      assert InsertByDate(sorted, e) == front + [last];
      InsertByDateStable(init, e, date);
      LexLeReflexive(e.1);
      StampedAtAppend(front, [last], date);
      StampedAtAppend(init, [e], date);
      StampedAtAppend(init, [last], date);
      StampedAtAppend(sorted, [e], date);
      calc {
        StampedAt(front + [last], date);
        StampedAt(init, date) + StampedAt([e], date) + StampedAt([last], date);
        { assert last.1 != e.1; StampedSwap(StampedAt(init, date), e, last, date); }
        StampedAt(init, date) + StampedAt([last], date) + StampedAt([e], date);
        StampedAt(sorted + [e], date);
      }
    }
  }

  /** Entries with different timestamps can trade places without changing what either timestamp selects. */
  lemma StampedSwap(a: seq<Entry>, x: Entry, y: Entry, date: string)
    requires x.1 != y.1
    ensures a + StampedAt([x], date) + StampedAt([y], date) == a + StampedAt([y], date) + StampedAt([x], date)
  {
    assert [x][1..] == [] && [y][1..] == [];
  }

  /**
   * The sort is stable: entries that carry the same timestamp keep their
   * relative order.
   */
  lemma {:induction false} SortByDateStable(s: seq<Entry>, date: string)
    ensures StampedAt(SortByDate(s), date) == StampedAt(s, date)
  {
    if s != [] {
      var init := s[..|s| - 1];
      assert s == init + [s[|s| - 1]];
      SortByDateStable(init, date);
      InsertByDateStable(SortByDate(init), s[|s| - 1], date);
      StampedAtAppend(SortByDate(init), [s[|s| - 1]], date);
      StampedAtAppend(init, [s[|s| - 1]], date);
    }
  }

  /** Two sequences with the same elements have the same codes. */
  lemma KeySetOfPermutation(a: seq<Entry>, b: seq<Entry>)
    requires multiset(a) == multiset(b)
    ensures KeySet(a) == KeySet(b)
  {
    forall x | x in a ensures x in b { assert x in multiset(a); }
    forall x | x in b ensures x in a { assert x in multiset(b); }
  }

  lemma {:induction false} InsertByDateUniqueKeys(sorted: seq<Entry>, e: Entry)
    requires SortedByDate(sorted) && UniqueKeys(sorted) && e.0 !in KeySet(sorted)
    ensures UniqueKeys(InsertByDate(sorted, e))
    ensures KeySet(InsertByDate(sorted, e)) == KeySet(sorted) + {e.0}
  {
    var r := InsertByDate(sorted, e);
    UniqueKeysSnoc(sorted, e);
    KeySetOfPermutation(r, sorted + [e]);
    if sorted != [] && !LexLe(sorted[|sorted| - 1].1, e.1) {
      var last := sorted[|sorted| - 1];
      var init := sorted[..|sorted| - 1];
      assert sorted == init + [last];
      UniqueKeysSnoc(init, last);
      InsertByDateUniqueKeys(init, e);
      var front := InsertByDate(init, e);
      assert r == front + [last];
      UniqueKeysSnoc(front, last);
    }
  }

  /** An entry whose code is new may follow a list with unique codes. */
  lemma UniqueKeysSnoc(s: seq<Entry>, x: Entry)
    requires UniqueKeys(s)
    ensures x.0 !in KeySet(s) ==> UniqueKeys(s + [x])
    ensures KeySet(s + [x]) == KeySet(s) + {x.0}
  {
    if x.0 !in KeySet(s) {
      forall i | 0 <= i < |s| ensures s[i].0 != x.0 {
        assert s[i] in s;
      }
    }
  }

  /** Sorting a dict's items keeps each code once. */
  lemma {:induction false} SortByDateUniqueKeys(s: seq<Entry>)
    requires UniqueKeys(s)
    ensures UniqueKeys(SortByDate(s))
  {
    if s != [] {
      var init := s[..|s| - 1];
      var last := s[|s| - 1];
      assert s == init + [last];
      SortByDateUniqueKeys(init);
      KeySetOfPermutation(SortByDate(init), init);
      assert last.0 !in KeySet(init);
      InsertByDateUniqueKeys(SortByDate(init), last);
    }
  }

  /** `min(a, b)` */
  function Min(a: nat, b: nat): nat { if a <= b then a else b }

  /**
   * `s[-k:]` in Python: the last `k` elements, the whole sequence when it is
   * shorter, and also the whole sequence when `k` is 0 (`-0` is `0`).
   */
  function PyTail<T>(s: seq<T>, k: nat): (r: seq<T>)
    ensures k == 0 ==> r == s
    ensures k > 0 ==> |r| == Min(k, |s|)
    ensures r == s[|s| - |r|..]
  {
    if k == 0 then s else s[|s| - Min(k, |s|)..]
  }

  /** `sorted(items, key=lambda x: x[1])[-k:]`: the `k` most recently stamped entries. */
  function KeepNewest(items: seq<Entry>, k: nat): (r: seq<Entry>)
    ensures multiset(r) <= multiset(items)
  {
    var sorted := SortByDate(items);
    var r := PyTail(sorted, k);
    assert sorted == sorted[..|sorted| - |r|] + r;
    r
  }

  /**
   * Eviction of `items` down to `k` entries: exactly `k` stay when there were
   * more, each code stays unique, the survivors are in timestamp order, and
   * no evicted entry is newer than any survivor.
   */
  lemma KeepNewestEvictsOldest(items: seq<Entry>, k: nat)
    requires UniqueKeys(items)
    ensures 0 < k <= |items| ==> |KeepNewest(items, k)| == k
    ensures UniqueKeys(KeepNewest(items, k)) && SortedByDate(KeepNewest(items, k))
    ensures forall e, x :: e in items && e !in KeepNewest(items, k) && x in KeepNewest(items, k) ==> LexLe(e.1, x.1)
  {
    var sorted := SortByDate(items);
    var r := KeepNewest(items, k);
    var cut := |sorted| - |r|;
    assert r == sorted[cut..];
    SortByDateUniqueKeys(items);
    SuffixKeepsOrder(sorted, cut);
    forall e, x | e in items && e !in r && x in r ensures LexLe(e.1, x.1) {
      assert e in multiset(items);
      EvictedPrecedes(sorted, cut, e, x);
    }
  }

  /** A suffix of a sorted list with unique codes is sorted with unique codes. */
  lemma SuffixKeepsOrder(sorted: seq<Entry>, cut: nat)
    requires cut <= |sorted| && UniqueKeys(sorted) && SortedByDate(sorted)
    ensures UniqueKeys(sorted[cut..]) && SortedByDate(sorted[cut..])
  {
    var r := sorted[cut..];
    assert UniqueKeys(r) by {
      forall i, j | 0 <= i < j < |r| ensures r[i].0 != r[j].0 {
        assert r[i] == sorted[cut + i] && r[j] == sorted[cut + j];
      }
    }
    assert SortedByDate(r) by {
      forall i, j | 0 <= i < j < |r| ensures LexLe(r[i].1, r[j].1) {
        assert r[i] == sorted[cut + i] && r[j] == sorted[cut + j];
      }
    }
  }

  lemma EvictedPrecedes(sorted: seq<Entry>, cut: nat, e: Entry, x: Entry)
    requires SortedByDate(sorted) && cut <= |sorted|
    requires e in sorted && e !in sorted[cut..] && x in sorted[cut..]
    ensures LexLe(e.1, x.1)
  {
    var i :| 0 <= i < |sorted| && sorted[i] == e;
    var j :| 0 <= j < |sorted| - cut && sorted[cut..][j] == x;
    assert i < cut;
    assert sorted[cut + j] == x;
  }
}
