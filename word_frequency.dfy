/**
 * `get_most_common_words`: `Counter(words).most_common(n)`.
 *
 * A Counter keeps its words in first-occurrence order, and `most_common(n)`
 * is documented as `sorted(items, key=count, reverse=True)[:n]`, a stable
 * sort, so words with equal counts stay in first-occurrence order.  Each
 * entry of the model's frequency table carries the position of its word's
 * first occurrence, which is what the stability argument is about; the result
 * drops it again and returns (word, count) pairs.
 */
module WordFrequency {

  /** One entry of the frequency table. */
  datatype Tally = Tally(word: string, count: nat, first: nat)

  /** Position of the first occurrence of `w` in `ws`. */
  function FirstIndex(ws: seq<string>, w: string): (i: nat)
    requires w in ws
    ensures i < |ws| && ws[i] == w && w !in ws[..i]
  {
    if ws[0] == w then 0
    else
      var i := FirstIndex(ws[1..], w);
      assert ws[..i + 1] == [ws[0]] + ws[1..][..i];
      i + 1
  }

  /** A position holding a word not seen before it is that word's first occurrence. */
  lemma FirstIndexAt(ws: seq<string>, i: nat)
    requires i < |ws| && ws[i] !in ws[..i]
    ensures FirstIndex(ws, ws[i]) == i
  {
  }

  /** The first occurrence of a word is no later than any of its occurrences. */
  lemma {:induction false} FirstIndexAtMost(ws: seq<string>, j: nat)
    requires j < |ws|
    ensures FirstIndex(ws, ws[j]) <= j
    decreases j
  {
    if ws[0] != ws[j] {
      assert ws[1..][j - 1] == ws[j];
      FirstIndexAtMost(ws[1..], j - 1);
    }
  }

  /** The entry records what the Counter holds for its word. */
  predicate Faithful(ws: seq<string>, t: Tally) {
    t.word in ws && t.count == multiset(ws)[t.word] && t.first == FirstIndex(ws, t.word)
  }

  /** The Counter's entries for the words whose first occurrence is at `i` or later, in that order. */
  function TalliesFrom(ws: seq<string>, i: nat): seq<Tally>
    requires i <= |ws|
    decreases |ws| - i
  {
    if i == |ws| then []
    else if ws[i] in ws[..i] then TalliesFrom(ws, i + 1)
    else [Tally(ws[i], multiset(ws)[ws[i]], i)] + TalliesFrom(ws, i + 1)
  }

  /** Every entry is faithful and its word is first seen at `i` or later. */
  lemma {:induction false} TalliesFaithful(ws: seq<string>, i: nat)
    requires i <= |ws|
    ensures forall t :: t in TalliesFrom(ws, i) ==> Faithful(ws, t) && i <= t.first
    decreases |ws| - i
  {
    if i < |ws| {
      TalliesFaithful(ws, i + 1);
      if ws[i] !in ws[..i] {
        FirstIndexAt(ws, i);
      }
    }
  }

  /** The entries are in first-occurrence order. */
  lemma {:induction false} TalliesOrdered(ws: seq<string>, i: nat)
    requires i <= |ws|
    ensures forall k, l :: 0 <= k < l < |TalliesFrom(ws, i)| ==> TalliesFrom(ws, i)[k].first < TalliesFrom(ws, i)[l].first
    decreases |ws| - i
  {
    if i < |ws| {
      TalliesOrdered(ws, i + 1);
      TalliesFaithful(ws, i + 1);
      var rest := TalliesFrom(ws, i + 1);
      if ws[i] !in ws[..i] {
        var ts := TalliesFrom(ws, i);
        assert ts == [Tally(ws[i], multiset(ws)[ws[i]], i)] + rest;
        forall k, l | 0 <= k < l < |ts| ensures ts[k].first < ts[l].first {
          assert ts[l] == rest[l - 1];
          assert ts[l] in rest;
        }
      }
    }
  }

  /** No word first seen at `i` or later is missing. */
  lemma {:induction false} TalliesComplete(ws: seq<string>, i: nat)
    requires i <= |ws|
    ensures forall w :: w in ws && FirstIndex(ws, w) >= i ==> w in Words(TalliesFrom(ws, i))
    decreases |ws| - i
  {
    if i < |ws| {
      TalliesComplete(ws, i + 1);
      var rest := TalliesFrom(ws, i + 1);
      if ws[i] in ws[..i] {
        var j :| 0 <= j < i && ws[j] == ws[i];
        FirstIndexAtMost(ws, j);
      } else {
        var t := Tally(ws[i], multiset(ws)[ws[i]], i);
        assert TalliesFrom(ws, i) == [t] + rest;
        assert Words([t] + rest) == {ws[i]} + Words(rest);
      }
    }
  }

  /** The words of a table. */
  function Words(ts: seq<Tally>): set<string> {
    set t | t in ts :: t.word
  }

  /** `Counter(words)`, items in first-occurrence order. */
  function Counter(ws: seq<string>): (ts: seq<Tally>)
    ensures forall k :: 0 <= k < |ts| ==> Faithful(ws, ts[k])
    ensures forall k, l :: 0 <= k < l < |ts| ==> ts[k].first < ts[l].first
    ensures forall w :: w in ws ==> exists k :: 0 <= k < |ts| && ts[k].word == w
  {
    TalliesFaithful(ws, 0);
    TalliesOrdered(ws, 0);
    TalliesComplete(ws, 0);
    var ts := TalliesFrom(ws, 0);
    forall w | w in ws ensures exists k :: 0 <= k < |ts| && ts[k].word == w {
      var t :| t in ts && t.word == w;
      var k :| 0 <= k < |ts| && ts[k] == t;
    }
    ts
  }

  // ---------------------------------------------------------------------
  // Stable sort by descending count

  /** `a` comes before `b`: a larger count, or the same count and an earlier first occurrence. */
  predicate Precedes(a: Tally, b: Tally) {
    a.count > b.count || (a.count == b.count && a.first < b.first)
  }

  predicate SortedByCount(ts: seq<Tally>) {
    forall k, l :: 0 <= k < l < |ts| ==> Precedes(ts[k], ts[l])
  }

  /** Insert `t` before the first entry whose count is not larger than its own. */
  function Insert(t: Tally, ts: seq<Tally>): (r: seq<Tally>)
    ensures multiset(r) == multiset(ts) + multiset{t}
  {
    if ts == [] || ts[0].count <= t.count then [t] + ts
    else
      assert ts == [ts[0]] + ts[1..];
      [ts[0]] + Insert(t, ts[1..])
  }

  /** Inserting an entry that occurs earlier than all others keeps the order. */
  lemma {:induction false} InsertSorted(t: Tally, ts: seq<Tally>)
    requires SortedByCount(ts)
    requires forall k :: 0 <= k < |ts| ==> t.first < ts[k].first
    ensures SortedByCount(Insert(t, ts))
    decreases |ts|
  {
    if ts != [] && ts[0].count > t.count {
      InsertSorted(t, ts[1..]);
      var r := Insert(t, ts[1..]);
      forall x | x in r ensures Precedes(ts[0], x) {
        assert x in multiset(r);
        if x != t {
          assert x in ts[1..];
        }
      }
    }
  }

  /** `sorted(items, key=count, reverse=True)`, as an insertion sort. */
  function SortByCount(ts: seq<Tally>): (r: seq<Tally>)
    ensures multiset(r) == multiset(ts)
  {
    if ts == [] then []
    else
      assert ts == [ts[0]] + ts[1..];
      Insert(ts[0], SortByCount(ts[1..]))
  }

  /** Entries listed in first-occurrence order come out largest count first, ties in that order. */
  lemma {:induction false} SortByCountSorted(ts: seq<Tally>)
    requires forall k, l :: 0 <= k < l < |ts| ==> ts[k].first < ts[l].first
    ensures SortedByCount(SortByCount(ts))
    decreases |ts|
  {
    if ts != [] {
      var tail := ts[1..];
      assert forall k :: 0 <= k < |tail| ==> tail[k] == ts[k + 1];
      SortByCountSorted(tail);
      var rest := SortByCount(tail);
      EarlierThanAll(ts[0], tail, rest);
      InsertSorted(ts[0], rest);
    }
  }

  /** An entry earlier than every entry of a list is earlier than every entry of its permutation. */
  lemma EarlierThanAll(t: Tally, ts: seq<Tally>, ps: seq<Tally>)
    requires multiset(ps) == multiset(ts)
    requires forall k :: 0 <= k < |ts| ==> t.first < ts[k].first
    ensures forall k :: 0 <= k < |ps| ==> t.first < ps[k].first
  {
    forall k | 0 <= k < |ps| ensures t.first < ps[k].first {
      assert ps[k] in multiset(ts);
    }
  }

  // ---------------------------------------------------------------------
  // most_common(n)

  function Pairs(ts: seq<Tally>): (ps: seq<(string, nat)>)
    ensures |ps| == |ts|
    ensures forall k :: 0 <= k < |ts| ==> ps[k] == (ts[k].word, ts[k].count)
  {
    seq(|ts|, k requires 0 <= k < |ts| => (ts[k].word, ts[k].count))
  }

  /** Every pair is a word of `ws` with its number of occurrences, and no word comes twice. */
  predicate CountedPairs(ws: seq<string>, r: seq<(string, nat)>) {
    && (forall k :: 0 <= k < |r| ==> r[k].0 in ws && r[k].1 == multiset(ws)[r[k].0])
    && (forall k, l :: 0 <= k < l < |r| ==> r[k].0 != r[l].0)
  }

  /**
   * Largest count first, equal counts in first-occurrence order, and no word
   * left out that occurs more often than one taken, or as often and earlier.
   */
  predicate Ranked(ws: seq<string>, r: seq<(string, nat)>)
    requires CountedPairs(ws, r)
  {
    && (forall k, l :: 0 <= k < l < |r| ==> r[k].1 >= r[l].1)
    && (forall k, l :: 0 <= k < l < |r| && r[k].1 == r[l].1 ==>
          FirstIndex(ws, r[k].0) < FirstIndex(ws, r[l].0))
    && (forall w, k :: w in ws && 0 <= k < |r| && (forall l :: 0 <= l < |r| ==> r[l].0 != w) ==>
          && multiset(ws)[w] <= r[k].1
          && (multiset(ws)[w] == r[k].1 ==> FirstIndex(ws, r[k].0) < FirstIndex(ws, w)))
  }

  /**
   * `Counter(words).most_common(n)`: `n` distinct words, or all of them when
   * there are fewer, with their exact counts, ranked; every word when `n`
   * reaches the number of distinct words.
   */
  function MostCommon(ws: seq<string>, n: int): (r: seq<(string, nat)>)
    ensures n <= 0 ==> r == []
    ensures n >= 0 ==> |r| == if n < |Distinct(ws)| then n else |Distinct(ws)|
    ensures CountedPairs(ws, r) && Ranked(ws, r)
    ensures n >= |Distinct(ws)| ==> forall w :: w in ws ==> exists k :: 0 <= k < |r| && r[k].0 == w
  {
    var table := Counter(ws);
    var sorted := SortByCount(table);
    SortByCountSorted(table);
    var m := if n <= 0 then 0 else if n < |sorted| then n else |sorted|;
    var r := Pairs(sorted[..m]);
    MostCommonFacts(ws, table, sorted, m, r);
    r
  }

  lemma MostCommonFacts(ws: seq<string>, table: seq<Tally>, sorted: seq<Tally>, m: nat, r: seq<(string, nat)>)
    requires table == Counter(ws)
    requires multiset(sorted) == multiset(table) && SortedByCount(sorted)
    requires m <= |sorted| && r == Pairs(sorted[..m])
    ensures CountedPairs(ws, r) && Ranked(ws, r)
    ensures m == |sorted| ==> forall w :: w in ws ==> exists k :: 0 <= k < |r| && r[k].0 == w
    ensures |sorted| == |Distinct(ws)|
  {
    SortedCounterFacts(ws, table, sorted);
    DistinctWordsBound(ws, sorted);
    TopOrder(ws, sorted, m, r);
    TopComplete(ws, sorted, m, r);
  }

  /** The taken prefix keeps the order of the sorted table. */
  lemma TopOrder(ws: seq<string>, sorted: seq<Tally>, m: nat, r: seq<(string, nat)>)
    requires forall k :: 0 <= k < |sorted| ==> Faithful(ws, sorted[k])
    requires SortedByCount(sorted)
    requires m <= |sorted| && |r| == m
    requires forall k :: 0 <= k < m ==> r[k] == (sorted[k].word, sorted[k].count)
    ensures forall k :: 0 <= k < |r| ==> r[k].0 in ws && r[k].1 == multiset(ws)[r[k].0]
    ensures forall k, l :: 0 <= k < l < |r| ==> r[k].1 >= r[l].1
    ensures forall k, l :: 0 <= k < l < |r| && r[k].1 == r[l].1 ==>
      FirstIndex(ws, r[k].0) < FirstIndex(ws, r[l].0)
  {
    forall k, l | 0 <= k < l < |r| && r[k].1 == r[l].1
      ensures FirstIndex(ws, r[k].0) < FirstIndex(ws, r[l].0)
    {
      assert Precedes(sorted[k], sorted[l]);
    }
  }

  /** No word left out occurs more often than a word taken; taking everything leaves nothing out. */
  lemma TopComplete(ws: seq<string>, sorted: seq<Tally>, m: nat, r: seq<(string, nat)>)
    requires forall k :: 0 <= k < |sorted| ==> Faithful(ws, sorted[k])
    requires forall w :: w in ws ==> exists k :: 0 <= k < |sorted| && sorted[k].word == w
    requires SortedByCount(sorted)
    requires m <= |sorted| && |r| == m
    requires forall k :: 0 <= k < m ==> r[k] == (sorted[k].word, sorted[k].count)
    requires forall k :: 0 <= k < |r| ==> r[k].0 in ws
    ensures forall w, k :: w in ws && 0 <= k < |r| && (forall l :: 0 <= l < |r| ==> r[l].0 != w) ==>
      && multiset(ws)[w] <= r[k].1
      && (multiset(ws)[w] == r[k].1 ==> FirstIndex(ws, r[k].0) < FirstIndex(ws, w))
    ensures m == |sorted| ==> forall w :: w in ws ==> exists k :: 0 <= k < |r| && r[k].0 == w
  {
    forall w, k | w in ws && 0 <= k < |r| && (forall l :: 0 <= l < |r| ==> r[l].0 != w)
      ensures multiset(ws)[w] <= r[k].1
      ensures multiset(ws)[w] == r[k].1 ==> FirstIndex(ws, r[k].0) < FirstIndex(ws, w)
    {
      var j :| 0 <= j < |sorted| && sorted[j].word == w;
      assert forall l :: 0 <= l < m ==> sorted[l].word != w;
      assert k < m <= j;
      assert Precedes(sorted[k], sorted[j]);
      assert Faithful(ws, sorted[k]) && Faithful(ws, sorted[j]);
    }
    if m == |sorted| {
      forall w | w in ws ensures exists k :: 0 <= k < |r| && r[k].0 == w {
        var j :| 0 <= j < |sorted| && sorted[j].word == w;
        assert r[j].0 == w;
      }
    }
  }

  /** Python's `set(words)`. */
  function Distinct(ws: seq<string>): (r: set<string>)
    ensures forall w :: w in r <==> w in ws
  {
    set w | w in ws
  }

  /** A list has no more distinct elements than elements, and at least one if it is not empty. */
  lemma {:induction false} DistinctBounds(ws: seq<string>)
    ensures |Distinct(ws)| <= |ws|
    ensures ws != [] ==> |Distinct(ws)| >= 1
    decreases |ws|
  {
    if ws != [] {
      DistinctBounds(ws[1..]);
      assert Distinct(ws) == {ws[0]} + Distinct(ws[1..]);
    }
  }

  /** What the sorted table holds: faithful entries, distinct words, every word of the list. */
  lemma SortedCounterFacts(ws: seq<string>, table: seq<Tally>, sorted: seq<Tally>)
    requires table == Counter(ws)
    requires multiset(sorted) == multiset(table) && SortedByCount(sorted)
    ensures forall k :: 0 <= k < |sorted| ==> Faithful(ws, sorted[k])
    ensures forall k, l :: 0 <= k < l < |sorted| ==> sorted[k].word != sorted[l].word
    ensures forall w :: w in ws ==> exists k :: 0 <= k < |sorted| && sorted[k].word == w
  {
    forall k | 0 <= k < |sorted| ensures Faithful(ws, sorted[k]) {
      assert sorted[k] in multiset(table);
    }
    forall w | w in ws ensures exists k :: 0 <= k < |sorted| && sorted[k].word == w {
      var j :| 0 <= j < |table| && table[j].word == w;
      assert table[j] in multiset(sorted);
    }
  }

  /** A table with one entry per distinct word has as many entries as there are distinct words. */
  lemma DistinctWordsBound(ws: seq<string>, sorted: seq<Tally>)
    requires forall k :: 0 <= k < |sorted| ==> sorted[k].word in ws
    requires forall k, l :: 0 <= k < l < |sorted| ==> sorted[k].word != sorted[l].word
    requires forall w :: w in ws ==> exists k :: 0 <= k < |sorted| && sorted[k].word == w
    ensures |sorted| == |Distinct(ws)|
  {
    var words := set k | 0 <= k < |sorted| :: sorted[k].word;
    assert words == Distinct(ws);
    InjectiveImage(sorted);
  }

  lemma {:induction false} InjectiveImage(ts: seq<Tally>)
    requires forall k, l :: 0 <= k < l < |ts| ==> ts[k].word != ts[l].word
    ensures |set k | 0 <= k < |ts| :: ts[k].word| == |ts|
    decreases |ts|
  {
    if ts != [] {
      var init := ts[..|ts| - 1];
      InjectiveImage(init);
      var last := ts[|ts| - 1].word;
      assert (set k | 0 <= k < |ts| :: ts[k].word) == (set k | 0 <= k < |init| :: init[k].word) + {last};
      assert last !in (set k | 0 <= k < |init| :: init[k].word);
    }
  }
}
