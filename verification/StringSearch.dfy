/**
 Substring search of utstring.h: Knuth-Morris-Pratt with the strong failure
 table, left to right and right to left.
 */
module StringSearch {

  // ----- occurrences -----

  ghost predicate Occurs(needle: string, hay: string, p: int) {
    0 <= p && p + |needle| <= |hay| && hay[p..p + |needle|] == needle
  }

  function Mirror(s: string): string {
    seq(|s|, i requires 0 <= i < |s| => s[|s| - 1 - i])
  }

  lemma MirrorSlice(s: string, from: nat, to: nat)
    requires from <= to <= |s|
    ensures Mirror(s)[from..to] == Mirror(s[|s| - to..|s| - from])
  {
  }

  lemma MirrorTwice(s: string)
    ensures Mirror(Mirror(s)) == s
  {
  }

  /** An occurrence read from the other end. */
  lemma MirrorOccurs(needle: string, hay: string, p: int)
    ensures Occurs(needle, hay, p) <==> Occurs(Mirror(needle), Mirror(hay), |hay| - |needle| - p)
  {
    var n, h := |needle|, |hay|;
    if 0 <= p <= h - n {
      MirrorSlice(hay, h - n - p, h - p);
      MirrorTwice(needle);
      MirrorTwice(hay[p..p + n]);
    }
  }

  // ----- borders and the failure table -----

  /** The first k characters of x[..m] are also its last k. */
  ghost predicate Border(x: string, m: int, k: int) {
    0 <= k < m <= |x| && x[..k] == x[m - k..m]
  }

  /** f is the longest border of x[..m] after which the next character may differ
      from x[m]; -1 when there is none.  At the end of x it is the longest border. */
  ghost predicate Failure(x: string, m: nat, f: int)
    requires m <= |x|
  {
    && -1 <= f < m
    && (f >= 0 ==> Border(x, m, f) && (m < |x| ==> x[f] != x[m]))
    && (forall k | f < k < m && Border(x, m, k) :: m < |x| && x[k] == x[m])
  }

  /** j is the longest border of x[..i]. */
  ghost predicate Longest(x: string, i: nat, j: int)
    requires i <= |x|
  {
    && -1 <= j < i
    && (j >= 0 ==> Border(x, i, j))
    && (forall k | j < k < i :: !Border(x, i, k))
  }

  /** While extending a border of x[..i]: j is one, and no longer one extends. */
  ghost predicate Candidate(x: string, i: nat, j: int)
    requires i < |x|
  {
    && -1 <= j < i
    && (j >= 0 ==> Border(x, i, j))
    && (forall k | j < k < i && Border(x, i, k) :: x[k] != x[i])
  }

  /** A failure is determined by the text: the table has one correct content. */
  lemma FailureUnique(x: string, m: nat, f: int, g: int)
    requires m <= |x| && Failure(x, m, f) && Failure(x, m, g)
    ensures f == g
  {
  }

  lemma BorderOfBorder(x: string, i: int, j: int, k: int)
    requires Border(x, i, j) && 0 <= k < j
    ensures Border(x, i, k) <==> Border(x, j, k)
  {
    assert x[j - k..j] == x[..j][j - k..];
    assert x[i - k..i] == x[i - j..i][j - k..];
  }

  lemma BorderExtends(x: string, i: int, k: int)
    requires 0 <= k < i < |x|
    ensures Border(x, i + 1, k + 1) <==> Border(x, i, k) && x[k] == x[i]
  {
    assert x[..k + 1] == x[..k] + [x[k]];
    assert x[i + 1 - (k + 1)..i + 1] == x[i - k..i] + [x[i]];
  }

  /** Falling back along the table skips no border that extends. */
  lemma FallBack(x: string, i: nat, j: int, f: int)
    requires i < |x| && 0 <= j && Candidate(x, i, j) && x[i] != x[j]
    requires Failure(x, j, f)
    ensures Candidate(x, i, f)
  {
    forall k | f <= k < j && 0 <= k
      ensures Border(x, i, k) <==> Border(x, j, k)
    {
      BorderOfBorder(x, i, j, k);
    }
  }

  lemma FallTo(x: string, entries: seq<int>, i: nat, j: nat)
    requires i < |x| && Candidate(x, i, j) && x[i] != x[j] && Filled(x, entries, i)
    ensures entries[j] < j && Candidate(x, i, entries[j])
  {
    FallBack(x, i, j, entries[j]);
  }

  lemma NextLongest(x: string, i: nat, j: int)
    requires i < |x| && Candidate(x, i, j) && (j >= 0 ==> x[i] == x[j])
    ensures Longest(x, i + 1, j + 1)
  {
    if j >= 0 {
      BorderExtends(x, i, j);
    }
    forall k {:trigger Border(x, i + 1, k)} | j + 1 < k < i + 1
      ensures !Border(x, i + 1, k)
    {
      BorderExtends(x, i, k - 1);
    }
  }

  /** The entry for i, from the longest border j of x[..i] and the entry for j. */
  lemma NextEntry(x: string, i: nat, j: int, f: int)
    requires 0 < i < |x| && Longest(x, i, j) && j >= 0
    requires Failure(x, j, f)
    ensures x[i] == x[j] ==> Failure(x, i, f)
    ensures x[i] != x[j] ==> Failure(x, i, j)
  {
    forall k | 0 <= k < j
      ensures Border(x, i, k) <==> Border(x, j, k)
    {
      BorderOfBorder(x, i, j, k);
    }
  }

  /** The entries 0 to n are right. */
  ghost predicate Filled(x: string, entries: seq<int>, n: nat) {
    n <= |x| < |entries| && forall m | 0 <= m <= n :: Failure(x, m, entries[m])
  }

  /** One more entry, as the loop computes it from the longest border j. */
  lemma FillNext(x: string, entries: seq<int>, i: nat, j: nat, f: int)
    requires 0 < i && Filled(x, entries, i - 1) && i <= |x| && Longest(x, i, j)
    requires f == if i < |x| && x[i] == x[j] then entries[j] else j
    ensures Filled(x, entries[i := f], i)
  {
    if i < |x| {
      NextEntry(x, i, j, entries[j]);
    }
    assert Failure(x, i, f);
  }

  /** _utstring_BuildTable */
  method BuildTable(needle: string, table: array<int>)
    requires |needle| < table.Length
    modifies table
    ensures Filled(needle, table[..], |needle|)
  {
    var i, j := 0, -1;
    table[i] := j;
    while i < |needle|
      invariant 0 <= i <= |needle|
      invariant Filled(needle, table[..], i)
      invariant Longest(needle, i, j)
    {
      ghost var entries := table[..];
      while j > -1 && needle[i] != needle[j]
        invariant Candidate(needle, i, j)
        decreases j
        modifies {}
      {
        FallTo(needle, entries, i, j);
        j := table[j];
      }
      NextLongest(needle, i, j);
      i := i + 1;
      j := j + 1;
      assert table[..] == entries;
      FillEntry(needle, table, i, j);
    }
  }

  /** The entry for i, from the longest border j. */
  method FillEntry(needle: string, table: array<int>, i: nat, j: nat)
    requires 0 < i <= |needle| < table.Length && Filled(needle, table[..], i - 1) && Longest(needle, i, j)
    modifies table
    ensures Filled(needle, table[..], i)
  {
    ghost var entries := table[..];
    if i < |needle| {
      if needle[i] == needle[j] {
        table[i] := table[j];
      } else {
        table[i] := j;
      }
    } else {
      table[i] := j;
    }
    assert table[..] == entries[i := table[i]];
    FillNext(needle, entries, i, j, table[i]);
  }

  // ----- left to right -----

  /** needle[..i] ends at hay[..j], and nothing occurs further left. */
  ghost predicate Aligned(needle: string, hay: string, i: int, j: int) {
    && i < |needle|
    && -1 <= i <= j <= |hay|
    && (i >= 0 ==> hay[j - i..j] == needle[..i])
    && (forall p | 0 <= p < j - i :: !Occurs(needle, hay, p))
  }

  /** An occurrence that starts inside the matched part is a border of it. */
  lemma OccursInside(needle: string, hay: string, i: nat, j: nat, k: nat)
    requires i < |needle| && k <= i <= j < |hay| && hay[j - i..j] == needle[..i]
    requires Occurs(needle, hay, j - k)
    ensures needle[k] == hay[j]
    ensures k < i ==> Border(needle, i, k)
  {
    var p := j - k;
    assert needle[k] == hay[p..p + |needle|][k];
    assert needle[..k] == hay[p..p + |needle|][..k] == hay[j - k..j];
    assert hay[j - k..j] == hay[j - i..j][i - k..] == needle[i - k..i];
  }

  lemma Shift(needle: string, hay: string, i: nat, j: nat, f: int)
    requires Aligned(needle, hay, i, j) && j < |hay| && needle[i] != hay[j]
    requires Failure(needle, i, f)
    ensures Aligned(needle, hay, f, j)
  {
    forall p | j - i <= p < j - f && Occurs(needle, hay, p)
      ensures false
    {
      OccursInside(needle, hay, i, j, j - p);
    }
    if f >= 0 {
      assert hay[j - f..j] == hay[j - i..j][i - f..] == needle[i - f..i];
    }
  }

  lemma ShiftTo(needle: string, hay: string, entries: seq<int>, i: nat, j: nat)
    requires Aligned(needle, hay, i, j) && j < |hay| && needle[i] != hay[j]
    requires Filled(needle, entries, |needle|)
    ensures entries[i] < i && Aligned(needle, hay, entries[i], j)
  {
    Shift(needle, hay, i, j, entries[i]);
  }

  /** One more character matches. */
  lemma Match(needle: string, hay: string, i: int, j: nat)
    requires Aligned(needle, hay, i, j) && j < |hay| && (i >= 0 ==> needle[i] == hay[j])
    ensures hay[j - i..j + 1] == needle[..i + 1]
    ensures i + 1 < |needle| ==> Aligned(needle, hay, i + 1, j + 1)
  {
    if i >= 0 {
      assert hay[j - i..j + 1] == hay[j - i..j] + [hay[j]];
      assert needle[..i + 1] == needle[..i] + [needle[i]];
    }
  }

  /** The whole needle matched. */
  lemma MatchedAll(needle: string, hay: string, j: int)
    requires needle != "" && Aligned(needle, hay, |needle| - 1, j) && j < |hay| && needle[|needle| - 1] == hay[j]
    ensures Occurs(needle, hay, j + 1 - |needle|)
    ensures forall p | 0 <= p < j + 1 - |needle| :: !Occurs(needle, hay, p)
  {
    Match(needle, hay, |needle| - 1, j);
    assert needle[..|needle|] == needle;
  }

  /** The rest of the text is shorter than the rest of the needle. */
  lemma NoRoom(needle: string, hay: string, i: nat, j: int)
    requires Aligned(needle, hay, i, j) && (j >= |hay| || |hay| - j + i < |needle|)
    ensures forall p | 0 <= p :: !Occurs(needle, hay, p)
  {
  }

  /** _utstring_find: the leftmost occurrence, or -1; `compared` counts the character
      comparisons. */
  method FindInTable(hay: string, needle: string, table: array<int>) returns (position: int, ghost compared: nat)
    requires 0 < |needle| && Filled(needle, table[..], |needle|)
    requires |hay| < 0x8000_0000 && |needle| < 0x8000_0000
    ensures if position >= 0 then Occurs(needle, hay, position) else position == -1
    ensures forall p | 0 <= p && (p < position || position == -1) :: !Occurs(needle, hay, p)
    ensures compared <= 2 * |hay|
  {
    position := -1;
    compared := 0;
    var i, j := 0, 0;
    while j < |hay| && |hay| - j + i >= |needle|
      invariant Aligned(needle, hay, i, j) && 0 <= i
      invariant compared <= 2 * j - i
      decreases |hay| - j
    {
      while i > -1 && needle[i] != hay[j]
        invariant Aligned(needle, hay, i, j)
        invariant compared <= 2 * j - i
        decreases i
      {
        ShiftTo(needle, hay, table[..], i, j);
        i := table[i];
        compared := compared + 1;
      }
      if i > -1 {
        compared := compared + 1;  // the comparison that ended the inner loop
      }
      Match(needle, hay, i, j);
      if i == |needle| - 1 {
        MatchedAll(needle, hay, j);
      }
      i := i + 1;
      j := j + 1;
      if i >= |needle| {
        position := j - i;
        return;
      }
    }
    NoRoom(needle, hay, i, j);
  }

  // ----- right to left: the same on mirrored strings -----

  /** A table read from the other end, with positions counted from the other end. */
  function MirrorEntries(entries: seq<int>, n: nat): seq<int>
    requires n < |entries|
  {
    seq(n + 1, m requires 0 <= m <= n => n - 1 - entries[n - m])
  }

  /** The right-to-left table mirrors the left-to-right one of the mirrored needle. */
  ghost predicate FilledR(x: string, entries: seq<int>, n: nat) {
    |x| < |entries| && Filled(Mirror(x), MirrorEntries(entries, |x|), n)
  }

  lemma EntryR(x: string, entries: seq<int>, n: nat, m: nat)
    requires FilledR(x, entries, n) && m <= n
    ensures Failure(Mirror(x), m, |x| - 1 - entries[|x| - m])
  {
    assert MirrorEntries(entries, |x|)[m] == |x| - 1 - entries[|x| - m];
  }

  lemma FillNextR(x: string, entries: seq<int>, i: int, j: int, f: int)
    requires -1 <= i < j < |x|
    requires FilledR(x, entries, |x| - 2 - i) && LongestR(x, i, j)
    requires f == if i >= 0 && x[i] == x[j] then entries[j + 1] else j
    ensures FilledR(x, entries[i + 1 := f], |x| - 1 - i)
  {
    var n := |x|;
    var mirrored := MirrorEntries(entries, n);
    assert mirrored[n - 1 - j] == n - 1 - entries[j + 1];
    FillNext(Mirror(x), mirrored, n - 1 - i, n - 1 - j, n - 1 - f);
    assert MirrorEntries(entries[i + 1 := f], n) == mirrored[n - 1 - i := n - 1 - f];
  }

  /** The leftmost occurrence in the mirrored text is the rightmost one. */
  lemma LeftmostIsRightmost(needle: string, hay: string, position: int)
    requires position >= -1
    requires position >= 0 ==> Occurs(Mirror(needle), Mirror(hay), |hay| - |needle| - position)
    requires forall q | 0 <= q && (position == -1 || q < |hay| - |needle| - position) ::
               !Occurs(Mirror(needle), Mirror(hay), q)
    ensures position >= 0 ==> Occurs(needle, hay, position)
    ensures forall p | p > position :: !Occurs(needle, hay, p)
  {
    MirrorOccurs(needle, hay, position);
    forall p | p > position
      ensures !Occurs(needle, hay, p)
    {
      MirrorOccurs(needle, hay, p);
    }
  }

  ghost predicate LongestR(x: string, i: int, j: int) {
    -1 <= i < |x| && Longest(Mirror(x), |x| - 1 - i, |x| - 1 - j)
  }

  ghost predicate CandidateR(x: string, i: int, j: int) {
    0 <= i < j <= |x| && Candidate(Mirror(x), |x| - 1 - i, |x| - 1 - j)
  }

  lemma FallBackR(x: string, entries: seq<int>, i: int, j: int)
    requires CandidateR(x, i, j) && j < |x| && x[i] != x[j]
    requires FilledR(x, entries, |x| - 1 - i)
    ensures j < entries[j + 1] && CandidateR(x, i, entries[j + 1])
  {
    EntryR(x, entries, |x| - 1 - i, |x| - 1 - j);
    FallBack(Mirror(x), |x| - 1 - i, |x| - 1 - j, |x| - 1 - entries[j + 1]);
  }

  lemma NextLongestR(x: string, i: int, j: int)
    requires CandidateR(x, i, j) && (j < |x| ==> x[i] == x[j])
    ensures LongestR(x, i - 1, j - 1)
  {
    NextLongest(Mirror(x), |x| - 1 - i, |x| - 1 - j);
  }

  /** _utstring_BuildTableR */
  method BuildTableR(needle: string, table: array<int>)
    requires |needle| < table.Length
    modifies table
    ensures FilledR(needle, table[..], |needle|)
  {
    var i := |needle| - 1;
    var j := i + 1;
    table[i + 1] := j;
    while i >= 0
      invariant -1 <= i < j <= |needle|
      invariant FilledR(needle, table[..], |needle| - 1 - i)
      invariant i >= 0 ==> LongestR(needle, i, j)
      decreases i
    {
      ghost var entries := table[..];
      while j < |needle| && needle[i] != needle[j]
        invariant CandidateR(needle, i, j)
        decreases |needle| - j
        modifies {}
      {
        FallBackR(needle, entries, i, j);
        j := table[j + 1];
      }
      NextLongestR(needle, i, j);
      i := i - 1;
      j := j - 1;
      assert table[..] == entries;
      FillEntryR(needle, table, i, j);
    }
  }

  method FillEntryR(needle: string, table: array<int>, i: int, j: int)
    requires -1 <= i < j < |needle| < table.Length
    requires FilledR(needle, table[..], |needle| - 2 - i) && LongestR(needle, i, j)
    modifies table
    ensures FilledR(needle, table[..], |needle| - 1 - i)
  {
    ghost var entries := table[..];
    if i >= 0 {
      if needle[i] == needle[j] {
        table[i + 1] := table[j + 1];
      } else {
        table[i + 1] := j;
      }
    } else {
      table[i + 1] := j;
    }
    assert table[..] == entries[i + 1 := table[i + 1]];
    FillNextR(needle, entries, i, j, table[i + 1]);
  }

  /** needle behind i starts at hay behind j, and nothing occurs further right. */
  ghost predicate AlignedR(needle: string, hay: string, i: int, j: int) {
    0 <= i <= |needle| && -1 <= j < |hay| && Aligned(Mirror(needle), Mirror(hay), |needle| - 1 - i, |hay| - 1 - j)
  }

  lemma ShiftR(needle: string, hay: string, entries: seq<int>, i: int, j: int)
    requires AlignedR(needle, hay, i, j) && 0 <= j && i < |needle| && needle[i] != hay[j]
    requires FilledR(needle, entries, |needle|)
    ensures i < entries[i + 1] && AlignedR(needle, hay, entries[i + 1], j)
  {
    var x, h, m, k := Mirror(needle), Mirror(hay), |needle| - 1 - i, |hay| - 1 - j;
    assert x[m] == needle[i] && h[k] == hay[j];
    EntryR(needle, entries, |needle|, m);
    Shift(x, h, m, k, |needle| - 1 - entries[i + 1]);
  }

  lemma MatchR(needle: string, hay: string, i: int, j: int)
    requires AlignedR(needle, hay, i, j) && 0 <= j && (i < |needle| ==> needle[i] == hay[j])
    ensures i > 0 ==> AlignedR(needle, hay, i - 1, j - 1)
    ensures i == 0 ==>
      && Occurs(Mirror(needle), Mirror(hay), |hay| - |needle| - j)
      && forall q | 0 <= q < |hay| - |needle| - j :: !Occurs(Mirror(needle), Mirror(hay), q)
  {
    Match(Mirror(needle), Mirror(hay), |needle| - 1 - i, |hay| - 1 - j);
  }

  /** _utstring_findR: the rightmost occurrence, or -1. */
  method FindInTableR(hay: string, needle: string, table: array<int>) returns (position: int, ghost compared: nat)
    requires 0 < |needle| && FilledR(needle, table[..], |needle|)
    requires |hay| < 0x8000_0000 && |needle| < 0x8000_0000
    ensures if position >= 0 then Occurs(needle, hay, position) else position == -1
    ensures forall p | p > position :: !Occurs(needle, hay, p)
    ensures compared <= 2 * |hay|
  {
    ghost var n, top := |needle|, |hay| - 1;
    position := -1;
    compared := 0;
    var j := |hay| - 1;
    var i := |needle| - 1;
    while j >= 0 && j >= i
      invariant i < n
      invariant AlignedR(needle, hay, i, j)
      invariant compared <= 2 * (top - j) - (n - 1 - i)
      decreases j
    {
      while i < |needle| && needle[i] != hay[j]
        invariant AlignedR(needle, hay, i, j)
        invariant compared <= 2 * (top - j) - (n - 1 - i)
        decreases n - i
      {
        ShiftR(needle, hay, table[..], i, j);
        i := table[i + 1];
        compared := compared + 1;
      }
      if i < |needle| {
        compared := compared + 1;  // the comparison that ended the inner loop
      }
      MatchR(needle, hay, i, j);
      i := i - 1;
      j := j - 1;
      if i < 0 {
        position := j + 1;
        break;
      }
    }
    LeftmostIsRightmost(needle, hay, position);
  }

  // ----- one time searches -----

  function StartIn(length: nat, start: int): int {
    if start < 0 then length + start else start
  }

  /** utstring_find: the leftmost occurrence at or after the start position. */
  method Find(s: string, start: int, needle: string) returns (position: int)
    requires |s| < 0x8000_0000 && |needle| < 0x8000_0000
    requires StartIn(|s|, start) >= 0
    ensures needle == "" ==> position == -1
    ensures position >= 0 ==> StartIn(|s|, start) <= position && Occurs(needle, s, position)
    ensures position < 0 ==> position == -1
    ensures needle != "" ==>
              forall p | StartIn(|s|, start) <= p && (p < position || position == -1) :: !Occurs(needle, s, p)
  {
    var from := if start < 0 then |s| + start else start;
    position := -1;
    var length := |s| - from;
    if length >= |needle| && |needle| > 0 {
      var table := new int[|needle| + 1];
      BuildTable(needle, table);
      ghost var compared;
      position, compared := FindInTable(s[from..], needle, table);
      forall p | 0 <= p <= length - |needle|
        ensures Occurs(needle, s[from..], p) <==> Occurs(needle, s, p + from)
      {
        assert s[from..][p..p + |needle|] == s[p + from..p + from + |needle|];
      }
      forall p | from <= p && (p < position + from || position == -1)
        ensures !Occurs(needle, s, p)
      {
        assert !Occurs(needle, s[from..], p - from);
      }
      if position >= 0 {
        position := position + from;
      }
    }
  }

  /** utstring_findR: the rightmost occurrence that ends at or before the start position. */
  method FindR(s: string, start: int, needle: string) returns (position: int)
    requires |s| < 0x8000_0000 && |needle| < 0x8000_0000
    requires start < |s|
    ensures needle == "" ==> position == -1
    ensures position >= 0 ==> position + |needle| <= StartIn(|s|, start) + 1 && Occurs(needle, s, position)
    ensures position < 0 ==> position == -1
    ensures needle != "" ==>
              forall p | position < p && p + |needle| <= StartIn(|s|, start) + 1 :: !Occurs(needle, s, p)
  {
    var from := if start < 0 then |s| + start else start;
    position := -1;
    var length := from + 1;
    if length >= |needle| && |needle| > 0 {
      var table := new int[|needle| + 1];
      BuildTableR(needle, table);
      ghost var compared;
      position, compared := FindInTableR(s[..length], needle, table);
      forall p | 0 <= p <= length - |needle|
        ensures Occurs(needle, s[..length], p) <==> Occurs(needle, s, p)
      {
        assert s[..length][p..p + |needle|] == s[p..p + |needle|];
      }
    }
  }
}
