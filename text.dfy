/**
 * String helpers the rest of the model is written in: the character classes
 * that Python's `re` patterns use, `strip`, `startswith`/`endswith`,
 * substring occurrence, run replacement (`re.sub(r'[C]+', rep, s)`),
 * character filtering (`re.sub(r'[^K]', '', s)`), and `str.split`/`str.join`
 * on a one-character separator.
 */
module Text {
  import opened Wrappers

  /** Python's `str.isspace()`; `\s` in a `str` pattern matches exactly these. */
  predicate IsSpace(c: char) {
    c == ' ' || ('\t' <= c <= '\r') || ('\U{1c}' <= c <= '\U{1f}') || c == '\U{85}' || c == '\U{a0}'
    || c == '\U{1680}' || ('\U{2000}' <= c <= '\U{200a}') || c == '\U{2028}' || c == '\U{2029}'
    || c == '\U{202f}' || c == '\U{205f}' || c == '\U{3000}'
  }

  predicate IsAsciiUpper(c: char) { 'A' <= c <= 'Z' }

  predicate IsAsciiLower(c: char) { 'a' <= c <= 'z' }

  predicate IsAsciiDigit(c: char) { '0' <= c <= '9' }

  /** The class `[a-zA-Z0-9]`. */
  predicate IsAsciiAlnum(c: char) { IsAsciiUpper(c) || IsAsciiLower(c) || IsAsciiDigit(c) }

  /** `\d`: the ASCII digits and the fullwidth digits U+FF10..U+FF19. */
  predicate IsDecimal(c: char) { IsAsciiDigit(c) || ('\U{ff10}' <= c <= '\U{ff19}') }

  /** What Python's `int` makes of one `\d` character. */
  function DigitValue(c: char): (v: nat)
    requires IsDecimal(c)
    ensures v < 10
  {
    if IsAsciiDigit(c) then c as int - '0' as int else c as int - 0xff10
  }

  /**
   * `\w`: ASCII letters and digits, `_`, the Latin-1 letters, Hiragana,
   * Katakana, the CJK unified ideographs, Hangul syllables and the fullwidth
   * letters and digits.
   */
  predicate IsWordChar(c: char) {
    IsAsciiAlnum(c) || c == '_'
    || ('\U{c0}' <= c <= '\U{d6}') || ('\U{d8}' <= c <= '\U{f6}') || ('\U{f8}' <= c <= '\U{ff}')
    || ('\U{3041}' <= c <= '\U{3096}') || ('\U{30a1}' <= c <= '\U{30fa}')
    || ('\U{4e00}' <= c <= '\U{9fff}') || ('\U{ac00}' <= c <= '\U{d7a3}')
    || IsDecimal(c) || ('\U{ff21}' <= c <= '\U{ff3a}') || ('\U{ff41}' <= c <= '\U{ff5a}')
  }

  /** `s.startswith(p)` */
  predicate StartsWith(s: string, p: string) {
    |p| <= |s| && s[..|p|] == p
  }

  /** `s.endswith(p)` */
  predicate EndsWith(s: string, p: string) {
    |p| <= |s| && s[|s| - |p|..] == p
  }

  /** A suffix of a suffix is a suffix. */
  lemma EndsWithTransitive(a: string, b: string, c: string)
    requires EndsWith(a, b) && EndsWith(b, c)
    ensures EndsWith(a, c)
  {
    assert a[|a| - |c|..] == b[|b| - |c|..];
  }

  /** `p in s` on strings: `p` occurs in `s` at some index. */
  predicate Occurs(s: string, p: string) {
    exists i :: 0 <= i <= |s| && StartsWith(s[i..], p)
  }

  /** The longest prefix of `s` made of characters satisfying `drop` is removed. */
  function StripLeft(s: string, drop: char -> bool): (r: string)
    ensures |r| <= |s| && r == s[|s| - |r|..]
    ensures forall i :: 0 <= i < |s| - |r| ==> drop(s[i])
    ensures r != [] ==> !drop(r[0])
  {
    if s != [] && drop(s[0]) then
      var r := StripLeft(s[1..], drop);
      assert r == s[|s| - |r|..];
      assert forall i :: 1 <= i < |s| - |r| ==> s[i] == s[1..][i - 1];
      r
    else s
  }

  /** `s.strip(chars)`: both ends lose their `drop` characters; what is left is a piece of `s`. */
  function Strip(s: string, drop: char -> bool): (r: string)
    ensures |r| <= |s|
    ensures r != [] ==> !drop(r[0]) && !drop(r[|r| - 1])
    ensures Occurs(s, r) && forall c :: c in r ==> c in s
  {
    var i := RunEnd(s, 0, drop);
    var j := BackRun(s, i, |s|, drop);
    PieceOf(s, i, s[i..j]);
    s[i..j]
  }

  /** The start of the run of `drop` characters that ends at `j`, not going below `i`. */
  function BackRun(s: string, i: nat, j: nat, drop: char -> bool): (k: nat)
    requires i <= j <= |s|
    ensures i <= k <= j
    ensures k > i ==> !drop(s[k - 1])
    ensures forall m :: k <= m < j ==> drop(s[m])
    decreases j
  {
    if j > i && drop(s[j - 1]) then BackRun(s, i, j - 1, drop) else j
  }

  /** A prefix of a suffix of `s` occurs in `s`, and its characters are characters of `s`. */
  lemma PieceOf(s: string, k: nat, r: string)
    requires k <= |s| && |r| <= |s| - k && r == s[k..k + |r|]
    ensures Occurs(s, r) && forall c :: c in r ==> c in s
  {
    assert StartsWith(s[k..], r);
    forall c | c in r ensures c in s {
      var i :| 0 <= i < |r| && r[i] == c;
      assert s[k + i] == c;
    }
  }

  /** A string without `drop` characters at either end is its own strip. */
  lemma StripNoop(s: string, drop: char -> bool)
    requires s != [] ==> !drop(s[0]) && !drop(s[|s| - 1])
    ensures Strip(s, drop) == s
  {
    assert s[0..|s|] == s;
  }

  /** A strip cuts a run of `drop` characters off each end and nothing else. */
  lemma StripParts(s: string, drop: char -> bool) returns (i: nat, j: nat)
    ensures i <= j <= |s| && Strip(s, drop) == s[i..j]
    ensures forall k :: 0 <= k < i ==> drop(s[k])
    ensures forall k :: j <= k < |s| ==> drop(s[k])
  {
    i := RunEnd(s, 0, drop);
    j := BackRun(s, i, |s|, drop);
  }

  /** Stripping characters a filter drops anyway does not change what the filter keeps. */
  lemma FilterStrip(s: string, drop: char -> bool, keep: char -> bool)
    requires forall c :: drop(c) ==> !keep(c)
    ensures Filter(Strip(s, drop), keep) == Filter(s, keep)
  {
    var i, j := StripParts(s, drop);
    FilterDropHead(s, i, keep);
    FilterDropTail(s[i..], j - i, keep);
    assert s[i..][..j - i] == s[i..j];
  }

  /** A head that `keep` rejects throughout does not count. */
  lemma FilterDropHead<T>(s: seq<T>, i: nat, keep: T -> bool)
    requires i <= |s| && forall k :: 0 <= k < i ==> !keep(s[k])
    ensures Filter(s, keep) == Filter(s[i..], keep)
  {
    assert s == s[..i] + s[i..];
    FilterAppend(s[..i], s[i..], keep);
    FilterNone(s[..i], keep);
  }

  /** A tail that `keep` rejects throughout does not count. */
  lemma FilterDropTail<T>(s: seq<T>, j: nat, keep: T -> bool)
    requires j <= |s| && forall k :: j <= k < |s| ==> !keep(s[k])
    ensures Filter(s, keep) == Filter(s[..j], keep)
  {
    var tail := s[j..];
    assert s == s[..j] + tail;
    assert forall k :: 0 <= k < |tail| ==> tail[k] == s[j + k];
    FilterAppend(s[..j], tail, keep);
    FilterNone(tail, keep);
  }

  /** A character outside `\s`. */
  predicate NotSpace(c: char) { !IsSpace(c) }

  /** `s.strip()` */
  function StripSpace(s: string): (r: string)
    ensures r != [] ==> !IsSpace(r[0]) && !IsSpace(r[|r| - 1])
    ensures |r| <= |s| && Occurs(s, r) && forall c :: c in r ==> c in s
  {
    Strip(s, IsSpace)
  }

  /**
   * `re.sub(r'[C]+', rep, s)` where the class `C` is `inClass`: every maximal
   * run of class characters becomes one copy of `rep`.
   */
  function ReplaceRuns(s: string, inClass: char -> bool, rep: string): (r: string)
    ensures forall c :: c in r ==> c in rep || (c in s && !inClass(c))
    ensures |rep| <= 1 ==> |r| <= |s|
    decreases |s|
  {
    if s == [] then []
    else if inClass(s[0]) then
      var rest := StripLeft(s[1..], inClass);
      assert forall c :: c in rest ==> c in s;
      rep + ReplaceRuns(rest, inClass, rep)
    else [s[0]] + ReplaceRuns(s[1..], inClass, rep)
  }

  /** No two neighbouring characters of `s` are both in the class. */
  predicate NoAdjacent(s: string, inClass: char -> bool) {
    forall i :: 0 <= i < |s| - 1 ==> !inClass(s[i]) || !inClass(s[i + 1])
  }

  lemma NoAdjacentCons(x: char, t: string, inClass: char -> bool)
    requires NoAdjacent(t, inClass) && (t == [] || !inClass(x) || !inClass(t[0]))
    ensures NoAdjacent([x] + t, inClass)
  {
    var s := [x] + t;
    forall i | 0 <= i < |s| - 1 ensures !inClass(s[i]) || !inClass(s[i + 1]) {
      if i > 0 {
        assert s[i] == t[i - 1] && s[i + 1] == t[i];
      }
    }
  }

  /**
   * Replacing runs by class characters keeps the characters outside the
   * class, all of them and in their order.
   */
  lemma {:induction false} ReplaceRunsKeeps(s: string, inClass: char -> bool, rep: string, keep: char -> bool)
    requires forall c :: keep(c) <==> !inClass(c)
    requires forall c :: c in rep ==> inClass(c)
    ensures Filter(ReplaceRuns(s, inClass, rep), keep) == Filter(s, keep)
    decreases |s|
  {
    if s != [] {
      assert s == [s[0]] + s[1..];
      FilterAppend([s[0]], s[1..], keep);
      if inClass(s[0]) {
        var rest := StripLeft(s[1..], inClass);
        FilterStripLeft(s[1..], inClass, keep);
        FilterNone([s[0]], keep);
        FilterAppend(rep, ReplaceRuns(rest, inClass, rep), keep);
        FilterNone(rep, keep);
        ReplaceRunsKeeps(rest, inClass, rep, keep);
      } else {
        FilterAppend([s[0]], ReplaceRuns(s[1..], inClass, rep), keep);
        ReplaceRunsKeeps(s[1..], inClass, rep, keep);
      }
    }
  }

  /** Dropping a leading run of characters `keep` rejects changes nothing that `keep` sees. */
  lemma FilterStripLeft(s: string, drop: char -> bool, keep: char -> bool)
    requires forall c :: drop(c) ==> !keep(c)
    ensures Filter(StripLeft(s, drop), keep) == Filter(s, keep)
  {
    var rest := StripLeft(s, drop);
    FilterDropHead(s, |s| - |rest|, keep);
  }

  /**
   * With a one-character replacement no two class characters end up side
   * by side, and a string that starts outside the class keeps its first
   * character.
   */
  lemma {:induction false} ReplaceRunsNoAdjacent(s: string, inClass: char -> bool, rep: string)
    requires |rep| == 1
    ensures NoAdjacent(ReplaceRuns(s, inClass, rep), inClass)
    ensures s != [] && !inClass(s[0]) ==> ReplaceRuns(s, inClass, rep) != [] && ReplaceRuns(s, inClass, rep)[0] == s[0]
    decreases |s|
  {
    if s != [] {
      if inClass(s[0]) {
        var rest := StripLeft(s[1..], inClass);
        ReplaceRunsNoAdjacent(rest, inClass, rep);
        assert rep == [rep[0]];
        NoAdjacentCons(rep[0], ReplaceRuns(rest, inClass, rep), inClass);
      } else {
        ReplaceRunsNoAdjacent(s[1..], inClass, rep);
        NoAdjacentCons(s[0], ReplaceRuns(s[1..], inClass, rep), inClass);
      }
    }
  }

  /** A string that ends outside the class keeps its last character. */
  lemma {:induction false} ReplaceRunsLast(s: string, inClass: char -> bool, rep: string)
    requires s != [] && !inClass(s[|s| - 1])
    ensures var r := ReplaceRuns(s, inClass, rep); r != [] && r[|r| - 1] == s[|s| - 1]
    decreases |s|
  {
    if inClass(s[0]) {
      var tail := s[1..];
      var rest := StripLeft(tail, inClass);
      assert tail[|tail| - 1] == s[|s| - 1];
      assert rest != [] && rest[|rest| - 1] == s[|s| - 1];
      ReplaceRunsLast(rest, inClass, rep);
    } else if |s| > 1 {
      ReplaceRunsLast(s[1..], inClass, rep);
    }
  }

  /** A string whose class characters are lone copies of the replacement is left as it is. */
  lemma {:induction false} ReplaceRunsNoop(s: string, inClass: char -> bool, rep: string)
    requires |rep| == 1 && NoAdjacent(s, inClass)
    requires forall k :: 0 <= k < |s| && inClass(s[k]) ==> s[k] == rep[0]
    ensures ReplaceRuns(s, inClass, rep) == s
    decreases |s|
  {
    if s != [] {
      var tail := s[1..];
      NoAdjacentTail(s, inClass);
      assert forall k :: 0 <= k < |tail| ==> tail[k] == s[k + 1];
      ReplaceRunsNoop(tail, inClass, rep);
      if inClass(s[0]) {
        StripLeftNoop(tail, inClass);
        assert rep == [s[0]];
      }
      assert s == [s[0]] + tail;
    }
  }

  lemma NoAdjacentTail(s: string, inClass: char -> bool)
    requires s != [] && NoAdjacent(s, inClass)
    ensures NoAdjacent(s[1..], inClass)
    ensures |s| > 1 && inClass(s[0]) ==> !inClass(s[1])
  {
    var tail := s[1..];
    forall i | 0 <= i < |tail| - 1 ensures !inClass(tail[i]) || !inClass(tail[i + 1]) {
      assert tail[i] == s[i + 1] && tail[i + 1] == s[i + 2];
    }
  }

  /** A string that does not start with a `drop` character is its own left strip. */
  lemma StripLeftNoop(s: string, drop: char -> bool)
    requires s != [] ==> !drop(s[0])
    ensures StripLeft(s, drop) == s
  {
  }

  /** The end of the run of `inClass` characters that starts at `i`. */
  function RunEnd(s: string, i: nat, inClass: char -> bool): (j: nat)
    requires i <= |s|
    ensures i <= j <= |s|
    ensures forall k :: i <= k < j ==> inClass(s[k])
    ensures j < |s| ==> !inClass(s[j])
    decreases |s| - i
  {
    if i < |s| && inClass(s[i]) then RunEnd(s, i + 1, inClass) else i
  }

  /**
   * The least `k` in `[i, n]` with `p(k)`: where a leftmost search that
   * tries the positions `i, i + 1, ..., n` in turn first succeeds.
   */
  function FirstFrom(n: nat, i: nat, p: nat -> bool): (r: Option<nat>)
    requires i <= n
    ensures r.None? <==> forall k :: i <= k <= n ==> !p(k)
    ensures r.Some? ==> i <= r.value <= n && p(r.value) && forall k :: i <= k < r.value ==> !p(k)
    decreases n - i
  {
    if p(i) then Some(i)
    else if i == n then None
    else FirstFrom(n, i + 1, p)
  }

  /** `RunEnd` stops at the first character outside the class. */
  lemma RunEndIsFirstMiss(s: string, i: nat, inClass: char -> bool, j: nat)
    requires i <= j < |s| && !inClass(s[j]) && forall k :: i <= k < j ==> inClass(s[k])
    ensures RunEnd(s, i, inClass) == j
  {
  }

  /** `a` can be obtained from `b` by deleting elements. */
  predicate IsSubsequence<T(==)>(a: seq<T>, b: seq<T>)
    decreases |b|
  {
    a == [] || (b != [] && if a[0] == b[0] then IsSubsequence(a[1..], b[1..]) else IsSubsequence(a, b[1..]))
  }

  /** The elements of `s` that satisfy `keep`, in their order (`[x for x in s if keep(x)]`). */
  function Filter<T(==)>(s: seq<T>, keep: T -> bool): (r: seq<T>)
    ensures forall x :: x in r ==> keep(x) && x in s
    ensures forall x :: x in s && keep(x) ==> x in r
    ensures IsSubsequence(r, s)
    ensures |r| <= |s|
  {
    if s == [] then []
    else if keep(s[0]) then [s[0]] + Filter(s[1..], keep)
    else Filter(s[1..], keep)
  }

  /** A filter that keeps no element gives the empty sequence. */
  lemma FilterNone<T>(s: seq<T>, keep: T -> bool)
    requires forall k :: 0 <= k < |s| ==> !keep(s[k])
    ensures Filter(s, keep) == []
  {
  }

  /** A filter that keeps every element keeps the whole sequence. */
  lemma {:induction false} FilterAll<T>(s: seq<T>, keep: T -> bool)
    requires forall x :: x in s ==> keep(x)
    ensures Filter(s, keep) == s
  {
    if s != [] {
      assert s[0] in s;
      FilterAll(s[1..], keep);
    }
  }

  /** Filtering distributes over concatenation. */
  lemma {:induction false} FilterAppend<T>(a: seq<T>, b: seq<T>, keep: T -> bool)
    ensures Filter(a + b, keep) == Filter(a, keep) + Filter(b, keep)
  {
    if a == [] {
      assert a + b == b;
    } else {
      var ab := a + b;
      assert ab[0] == a[0] && ab[1..] == a[1..] + b;
      FilterAppend(a[1..], b, keep);
      FilterCons(ab, keep);
      FilterCons(a, keep);
      if keep(a[0]) {
        AppendAssoc([a[0]], Filter(a[1..], keep), Filter(b, keep));
      }
    }
  }

  /** Concatenation regroups. */
  /** One element in front: kept when `keep` holds for it. */
  lemma FilterCons<T>(s: seq<T>, keep: T -> bool)
    requires s != []
    ensures Filter(s, keep) == if keep(s[0]) then [s[0]] + Filter(s[1..], keep) else Filter(s[1..], keep)
  {
  }

  /** A non-empty sequence is its head in front of its tail. */
  lemma HeadTail<T>(s: seq<T>)
    requires s != []
    ensures s == [s[0]] + s[1..]
  {
  }

  lemma AppendAssoc<T>(a: seq<T>, b: seq<T>, c: seq<T>)
    ensures a + (b + c) == a + b + c
  {
  }

  lemma AppendEmpty<T>(a: seq<T>, b: seq<T>)
    ensures a + [] + b == a + b
  {
  }

  /** Filtering a list grown by one keeps the filtered prefix and adds the new element when it is kept. */
  lemma FilterSnoc<T>(s: seq<T>, x: T, keep: T -> bool)
    ensures Filter(s + [x], keep) == Filter(s, keep) + if keep(x) then [x] else []
  {
    FilterAppend(s, [x], keep);
    assert [x][1..] == [];
  }

  /** `s.split(sep)` for a one-character separator. */
  function Split(s: string, sep: char): (parts: seq<string>)
    ensures |parts| >= 1
    ensures forall k :: 0 <= k < |parts| ==> sep !in parts[k]
  {
    if s == [] then [[]]
    else
      var rest := Split(s[1..], sep);
      if s[0] == sep then [[]] + rest else [[s[0]] + rest[0]] + rest[1..]
  }

  /** `sep.join(parts)` */
  function Join(parts: seq<string>, sep: char): string {
    if parts == [] then []
    else if |parts| == 1 then parts[0]
    else parts[0] + [sep] + Join(parts[1..], sep)
  }

  /** Joining the pieces of a split gives the string back. */
  lemma {:induction false} JoinSplit(s: string, sep: char)
    ensures Join(Split(s, sep), sep) == s
  {
    if s != [] {
      JoinSplit(s[1..], sep);
      var rest := Split(s[1..], sep);
      if s[0] != sep && |rest| > 1 {
        assert Join(rest, sep) == rest[0] + [sep] + Join(rest[1..], sep);
      }
    }
  }

  lemma {:induction false} SplitNoSeparator(p: string, sep: char)
    requires sep !in p
    ensures Split(p, sep) == [p]
  {
    if p != [] {
      SplitNoSeparator(p[1..], sep);
      assert [p[0]] + p[1..] == p;
    }
  }

  lemma {:induction false} SplitAtSeparator(p: string, sep: char, t: string)
    requires sep !in p
    ensures Split(p + [sep] + t, sep) == [p] + Split(t, sep)
  {
    if p == [] {
      assert p + [sep] + t == [sep] + t;
      assert ([sep] + t)[1..] == t;
    } else {
      SplitAtSeparator(p[1..], sep, t);
      assert (p + [sep] + t)[1..] == p[1..] + [sep] + t;
      assert [p[0]] + p[1..] == p;
    }
  }

  /** Splitting at a separator splits the two sides apart. */
  lemma {:induction false} SplitAround(a: string, sep: char, b: string)
    ensures Split(a + [sep] + b, sep) == Split(a, sep) + Split(b, sep)
  {
    if a == [] {
      assert a + [sep] + b == [sep] + b;
      SplitCons(sep, b, sep);
    } else {
      SplitAround(a[1..], sep, b);
      assert a + [sep] + b == [a[0]] + (a[1..] + [sep] + b);
      assert a == [a[0]] + a[1..];
      SplitCons(a[0], a[1..] + [sep] + b, sep);
      SplitCons(a[0], a[1..], sep);
      SplitHeadAppend(a[0], sep, Split(a[1..], sep), Split(b, sep));
    }
  }

  /** One character in front of a string: a new empty piece, or a longer first piece. */
  lemma SplitCons(x: char, t: string, sep: char)
    ensures Split([x] + t, sep) == if x == sep then [[]] + Split(t, sep) else [[x] + Split(t, sep)[0]] + Split(t, sep)[1..]
  {
    assert ([x] + t)[1..] == t;
  }

  lemma SplitHeadAppend(x: char, sep: char, p: seq<string>, q: seq<string>)
    requires |p| >= 1
    ensures (if x == sep then [[]] + (p + q) else [[x] + (p + q)[0]] + (p + q)[1..])
         == (if x == sep then [[]] + p else [[x] + p[0]] + p[1..]) + q
  {
    if x != sep {
      assert (p + q)[1..] == p[1..] + q;
    }
  }

  /** Splitting a join of separator-free pieces gives the pieces back. */
  lemma {:induction false} SplitJoin(parts: seq<string>, sep: char)
    requires |parts| >= 1
    requires forall k :: 0 <= k < |parts| ==> sep !in parts[k]
    ensures Split(Join(parts, sep), sep) == parts
  {
    if |parts| == 1 {
      SplitNoSeparator(parts[0], sep);
    } else {
      SplitJoin(parts[1..], sep);
      SplitAtSeparator(parts[0], sep, Join(parts[1..], sep));
      assert [parts[0]] + parts[1..] == parts;
    }
  }

  /** A join of pieces starts with the first piece and ends with the last. */
  lemma JoinEnds(parts: seq<string>, sep: char)
    requires |parts| >= 1 && parts[0] != [] && parts[|parts| - 1] != []
    ensures var s := Join(parts, sep);
      s != [] && s[0] == parts[0][0] && s[|s| - 1] == parts[|parts| - 1][|parts[|parts| - 1]| - 1]
  {
    if |parts| >= 2 {
      JoinLast(parts, sep);
    }
  }

  /** The last piece of a join is what follows the last separator. */
  lemma {:induction false} JoinLast(parts: seq<string>, sep: char)
    requires |parts| >= 2
    ensures Join(parts, sep) == Join(parts[..|parts| - 1], sep) + [sep] + parts[|parts| - 1]
  {
    if |parts| > 2 {
      JoinLast(parts[1..], sep);
      assert parts[1..][..|parts| - 2] == parts[..|parts| - 1][1..];
    } else {
      assert parts[..1] == [parts[0]];
    }
  }
}
