/**
 * The column order of `save_statistics_csv`: the four basic columns first,
 * then every other key of the first record, sorted.  Python compares
 * strings code point by code point, a proper prefix coming first.
 */
module CsvHeaders {
  import opened Records

  /** The columns that always come first, in this order. */
  const BasicHeaders: seq<string> := ["filename", "word_count", "unique_words", "ttr"]

  // ---------------------------------------------------------------------
  // Python's order on strings

  /** `a < b` on Python strings. */
  predicate Less(a: string, b: string)
    decreases |a|
  {
    if a == [] then b != []
    else if b == [] then false
    else if a[0] != b[0] then a[0] < b[0]
    else Less(a[1..], b[1..])
  }

  lemma {:induction false} LessIrreflexive(a: string)
    ensures !Less(a, a)
    decreases |a|
  {
    if a != [] {
      LessIrreflexive(a[1..]);
    }
  }

  lemma {:induction false} LessAsymmetric(a: string, b: string)
    ensures Less(a, b) ==> !Less(b, a)
    decreases |a|
  {
    if a != [] && b != [] && a[0] == b[0] {
      LessAsymmetric(a[1..], b[1..]);
    }
  }

  lemma {:induction false} LessTransitive(a: string, b: string, c: string)
    ensures Less(a, b) && Less(b, c) ==> Less(a, c)
    decreases |a|
  {
    if a != [] && b != [] && c != [] && a[0] == b[0] && b[0] == c[0] {
      LessTransitive(a[1..], b[1..], c[1..]);
    }
  }

  /** Two different strings are ordered one way or the other. */
  lemma {:induction false} LessTotal(a: string, b: string)
    requires a != b
    ensures Less(a, b) || Less(b, a)
    decreases |a|
  {
    if a != [] && b != [] && a[0] == b[0] {
      assert a == [a[0]] + a[1..] && b == [b[0]] + b[1..];
      LessTotal(a[1..], b[1..]);
    }
  }

  // ---------------------------------------------------------------------
  // list.sort()

  /** Strictly increasing, hence without repetitions. */
  predicate Sorted(xs: seq<string>) {
    forall k, l :: 0 <= k < l < |xs| ==> Less(xs[k], xs[l])
  }

  predicate NoRepeats(xs: seq<string>) {
    forall k, l :: 0 <= k < l < |xs| ==> xs[k] != xs[l]
  }

  /** Insert `x` in front of the first element it is smaller than. */
  function Insert(x: string, xs: seq<string>): (r: seq<string>)
    ensures multiset(r) == multiset(xs) + multiset{x}
  {
    if xs == [] || Less(x, xs[0]) then [x] + xs
    else
      assert xs == [xs[0]] + xs[1..];
      [xs[0]] + Insert(x, xs[1..])
  }

  lemma {:induction false} InsertSorted(x: string, xs: seq<string>)
    requires Sorted(xs) && x !in xs
    ensures Sorted(Insert(x, xs))
    decreases |xs|
  {
    if xs != [] && !Less(x, xs[0]) {
      LessTotal(x, xs[0]);
      InsertSorted(x, xs[1..]);
      var r := Insert(x, xs[1..]);
      forall y | y in r ensures Less(xs[0], y) {
        assert y in multiset(r);
        if y != x {
          assert y in xs[1..];
        }
      }
    } else if xs != [] {
      forall l | 0 <= l < |xs| ensures Less(x, xs[l]) {
        if l > 0 {
          LessTransitive(x, xs[0], xs[l]);
        }
      }
    }
  }

  /** `sorted(xs)`, as an insertion sort. */
  function SortStrings(xs: seq<string>): (r: seq<string>)
    ensures multiset(r) == multiset(xs)
  {
    if xs == [] then []
    else
      assert xs == [xs[0]] + xs[1..];
      Insert(xs[0], SortStrings(xs[1..]))
  }

  /** A list without repetitions sorts into a strictly increasing one. */
  lemma {:induction false} SortStringsSorted(xs: seq<string>)
    requires NoRepeats(xs)
    ensures Sorted(SortStrings(xs))
    decreases |xs|
  {
    if xs != [] {
      var tail := xs[1..];
      assert forall j :: 0 <= j < |tail| ==> tail[j] == xs[j + 1] != xs[0];
      SortStringsSorted(tail);
      var rest := SortStrings(tail);
      var x := xs[0];
      assert x !in multiset(rest);
      InsertSorted(x, rest);
    }
  }

  /** The head of a sorted list comes before every other element. */
  lemma SortedHead(xs: seq<string>, s: string)
    requires Sorted(xs) && xs != [] && s in xs
    ensures s == xs[0] || Less(xs[0], s)
  {
  }

  /** Two sorted lists with the same elements are the same list. */
  lemma {:induction false} SortedUnique(xs: seq<string>, ys: seq<string>)
    requires Sorted(xs) && Sorted(ys)
    requires forall s :: s in xs <==> s in ys
    ensures xs == ys
    decreases |xs|
  {
    assert xs != [] ==> xs[0] in ys;
    assert ys != [] ==> ys[0] in xs;
    if xs != [] && ys != [] {
      SortedHead(xs, ys[0]);
      SortedHead(ys, xs[0]);
      LessAsymmetric(xs[0], ys[0]);
      assert xs[0] == ys[0];
      LessIrreflexive(xs[0]);
      forall s ensures s in xs[1..] <==> s in ys[1..] {
        TailMember(xs, s);
        TailMember(ys, s);
      }
      SortedUnique(xs[1..], ys[1..]);
      assert xs == [xs[0]] + xs[1..] && ys == [ys[0]] + ys[1..];
    }
  }

  /** In a sorted list, the elements after the head are the elements other than it. */
  lemma TailMember(xs: seq<string>, s: string)
    requires Sorted(xs) && xs != []
    ensures s in xs[1..] <==> s in xs && s != xs[0]
  {
    LessIrreflexive(xs[0]);
    if s in xs && s != xs[0] {
      var i :| 0 <= i < |xs| && xs[i] == s;
      assert xs[1..][i - 1] == s;
    }
  }

  // ---------------------------------------------------------------------
  // save_statistics_csv

  /**
   * The header row of `save_statistics_csv`, or no headers (and `false`)
   * for an empty result list.  The basic columns come first even when the
   * first record lacks them, then the first record's other keys in sorted
   * order, each once.
   */
  method StatisticsHeaders(results: seq<Fields>) returns (ok: bool, headers: seq<string>)
    ensures ok <==> results != []
    ensures !ok ==> headers == []
    ensures ok ==> |headers| >= |BasicHeaders| && headers[..|BasicHeaders|] == BasicHeaders
    ensures ok ==> Sorted(headers[|BasicHeaders|..])
    ensures ok ==> forall h :: h in headers[|BasicHeaders|..] <==> h in results[0] && h !in BasicHeaders
    ensures ok ==> NoRepeats(headers)
  {
    if results == [] {
      return false, [];
    }
    var keys := results[0].Keys;
    var additional: seq<string> := [];
    var remaining := keys;
    while remaining != {}
      invariant remaining <= keys
      invariant forall h :: h in additional <==> h in keys - remaining && h !in BasicHeaders
      invariant NoRepeats(additional)
      decreases remaining
    {
      var key :| key in remaining;
      remaining := remaining - {key};
      if key !in BasicHeaders && key !in additional {
        additional := additional + [key];
      }
    }
    var sorted := SortStrings(additional);
    SortStringsSorted(additional);
    forall h ensures h in sorted <==> h in additional {
      assert h in sorted <==> h in multiset(sorted);
      assert h in additional <==> h in multiset(additional);
    }
    headers := BasicHeaders + sorted;
    ok := true;
    assert headers[|BasicHeaders|..] == sorted;
    BasicThenSortedDistinct(sorted);
  }

  /** The basic columns followed by a sorted list of other names repeat nothing. */
  lemma BasicThenSortedDistinct(sorted: seq<string>)
    requires Sorted(sorted)
    requires forall h :: h in sorted ==> h !in BasicHeaders
    ensures NoRepeats(BasicHeaders + sorted)
  {
    var headers := BasicHeaders + sorted;
    var n := |BasicHeaders|;
    forall k, l | 0 <= k < l < |headers| ensures headers[k] != headers[l] {
      if l >= n {
        assert headers[l] == sorted[l - n];
        if k >= n {
          LessIrreflexive(headers[k]);
          assert Less(sorted[k - n], sorted[l - n]);
        } else {
          assert headers[k] == BasicHeaders[k] && BasicHeaders[k] in BasicHeaders;
          assert sorted[l - n] in sorted;
        }
      } else {
        assert headers[k] == BasicHeaders[k] && headers[l] == BasicHeaders[l];
        assert BasicHeaders[k][0] != BasicHeaders[l][0];
      }
    }
  }
}
