/** Duplicate removal on a table of rows (`deduplicate_invoice_rows` and the
    `clean_duplicates` script): rows are ranked by the number of non-missing
    cells, sorted ascending by the key column and by that count descending, and
    the first row of every key is kept.

    The sort pandas uses for several columns is stable, so among rows with the
    same key and the same count the earliest one is kept. The model does not sort:
    it scans the rows once, keeping for every key the best row seen so far in a
    list ordered by key, which gives the same rows in the same order. */
module Dedup {
  import opened Wrappers
  import opened Values

  /** A table: its column names, in order, and its rows. A cell is `Get(row, column)`;
      a missing key in a row is a missing (NaN) cell. */
  datatype Frame = Frame(columns: seq<string>, rows: seq<Record>)

  /** `df.notna().sum(axis=1)`: the non-missing cells of a row. */
  function Completeness(columns: seq<string>, row: Record): (n: nat)
    ensures n <= |columns|
  {
    if |columns| == 0 then 0
    else (if Get(row, columns[0]) != Null then 1 else 0) + Completeness(columns[1..], row)
  }

  /** Filling missing cells never lowers a row's completeness. */
  lemma {:induction false} CompletenessMonotone(columns: seq<string>, a: Record, b: Record)
    requires forall c :: c in columns && Get(a, c) != Null ==> Get(b, c) != Null
    ensures Completeness(columns, a) <= Completeness(columns, b)
  {
    if |columns| > 0 {
      assert columns[0] in columns;
      CompletenessMonotone(columns[1..], a, b);
    }
  }

  /** A row with no missing cell is complete; one with a missing cell is not. */
  lemma {:induction false} CompletenessFull(columns: seq<string>, row: Record)
    ensures Completeness(columns, row) == |columns| <==>
      forall k :: 0 <= k < |columns| ==> Get(row, columns[k]) != Null
  {
    if |columns| > 0 {
      CompletenessFull(columns[1..], row);
      assert forall k :: 1 <= k < |columns| ==> columns[k] == columns[1..][k - 1];
    }
  }

  // ---------------------------------------------------------------------------
  // The sort order of key values

  /** Python's `<` on strings: code point by code point, a proper prefix first. */
  predicate LexLess(s: string, t: string) {
    if |s| == 0 then |t| > 0
    else if |t| == 0 then false
    else if s[0] != t[0] then s[0] < t[0]
    else LexLess(s[1..], t[1..])
  }

  lemma {:induction false} LexIrreflexive(s: string)
    ensures !LexLess(s, s)
  {
    if |s| > 0 {
      LexIrreflexive(s[1..]);
    }
  }

  lemma {:induction false} LexTransitive(s: string, t: string, u: string)
    requires LexLess(s, t) && LexLess(t, u)
    ensures LexLess(s, u)
  {
    if |s| > 0 && |t| > 0 && |u| > 0 && s[0] == t[0] == u[0] {
      LexTransitive(s[1..], t[1..], u[1..]);
    }
  }

  lemma {:induction false} LexTotal(s: string, t: string)
    requires s != t
    ensures LexLess(s, t) || LexLess(t, s)
  {
    if |s| > 0 && |t| > 0 && s[0] == t[0] {
      assert s == [s[0]] + s[1..] && t == [t[0]] + t[1..];
      LexTotal(s[1..], t[1..]);
    }
  }

  /** Ascending order of a key column: numbers by value, strings by code points,
      missing keys last. A column holding both numbers and strings puts every
      number before every string: the sort on several columns ranks each column
      through an ordered categorical, whose categories fall back to the mixed
      order numbers, strings, missing. */
  predicate KeyLess(a: Value, b: Value) {
    match (a, b)
    case (Num(x), Num(y)) => x < y
    case (Str(s), Str(t)) => LexLess(s, t)
    case (Num(_), Str(_)) => true
    case (Str(_), Num(_)) => false
    case (Null, _) => false
    case (_, Null) => true
  }

  lemma KeyIrreflexive(a: Value)
    ensures !KeyLess(a, a)
  {
    if a.Str? {
      LexIrreflexive(a.s);
    }
  }

  lemma KeyTransitive(a: Value, b: Value, c: Value)
    requires KeyLess(a, b) && KeyLess(b, c)
    ensures KeyLess(a, c)
  {
    if a.Str? && b.Str? && c.Str? {
      LexTransitive(a.s, b.s, c.s);
    }
  }

  lemma KeyTotal(a: Value, b: Value)
    requires a != b
    ensures KeyLess(a, b) || KeyLess(b, a)
  {
    if a.Str? && b.Str? {
      LexTotal(a.s, b.s);
    }
  }

  // ---------------------------------------------------------------------------
  // Keeping the best row of every key

  /** Row `x` ranks at least as high as row `j`: more complete, or as complete and
      not later. */
  predicate Better(comp: seq<nat>, x: nat, j: nat)
    requires x < |comp| && j < |comp|
  {
    comp[x] > comp[j] || (comp[x] == comp[j] && x <= j)
  }

  predicate InRange(kept: seq<nat>, n: nat) {
    forall a :: 0 <= a < |kept| ==> kept[a] < n
  }

  /** The kept rows are in strictly ascending key order (so no key twice). */
  predicate SortedByKey(keys: seq<Value>, kept: seq<nat>)
    requires InRange(kept, |keys|)
  {
    forall a, b :: 0 <= a < b < |kept| ==> KeyLess(keys[kept[a]], keys[kept[b]])
  }

  predicate HasKey(keys: seq<Value>, kept: seq<nat>, k: Value)
    requires InRange(kept, |keys|)
  {
    exists a :: 0 <= a < |kept| && keys[kept[a]] == k
  }

  /** The key of row `j` has a kept row. */
  predicate RowKeyKept(keys: seq<Value>, kept: seq<nat>, j: nat)
    requires InRange(kept, |keys|) && j < |keys|
  {
    HasKey(keys, kept, keys[j])
  }

  lemma SortedTail(keys: seq<Value>, kept: seq<nat>)
    requires |kept| > 0 && InRange(kept, |keys|) && SortedByKey(keys, kept)
    ensures InRange(kept[1..], |keys|) && SortedByKey(keys, kept[1..])
    ensures forall b :: 0 <= b < |kept[1..]| ==> KeyLess(keys[kept[0]], keys[kept[1..][b]])
  {
    assert forall b :: 0 <= b < |kept[1..]| ==> kept[1..][b] == kept[b + 1];
  }

  /** Adds row `i` to the kept rows of the rows before it: it replaces the kept row
      of its key only when strictly more complete, and otherwise is inserted in key
      order when its key is new. */
  function Insert(keys: seq<Value>, comp: seq<nat>, kept: seq<nat>, i: nat): (r: seq<nat>)
    requires |comp| == |keys| && i < |keys| && InRange(kept, i)
    ensures InRange(r, i + 1)
    decreases |kept|
  {
    if |kept| == 0 then [i]
    else if keys[kept[0]] == keys[i] then
      if comp[i] > comp[kept[0]] then [i] + kept[1..] else kept
    else if KeyLess(keys[i], keys[kept[0]]) then [i] + kept
    else [kept[0]] + Insert(keys, comp, kept[1..], i)
  }

  /** Every row of `r` other than `i` is a row of `kept`. */
  predicate OnlyAdds(r: seq<nat>, kept: seq<nat>, i: nat) {
    forall a :: 0 <= a < |r| && r[a] != i ==> r[a] in kept
  }

  /** Insertion adds no row other than `i`. */
  lemma {:induction false} InsertFrom(keys: seq<Value>, comp: seq<nat>, kept: seq<nat>, i: nat)
    requires |comp| == |keys| && i < |keys| && InRange(kept, i)
    ensures OnlyAdds(Insert(keys, comp, kept, i), kept, i)
    decreases |kept|
  {
    var r := Insert(keys, comp, kept, i);
    if |kept| == 0 {
    } else if keys[kept[0]] == keys[i] {
      if comp[i] > comp[kept[0]] {
        forall a | 1 <= a < |r| ensures r[a] in kept {
          assert r[a] == kept[a];
        }
      }
    } else if KeyLess(keys[i], keys[kept[0]]) {
      forall a | 1 <= a < |r| ensures r[a] in kept {
        assert r[a] == kept[a - 1];
      }
    } else {
      InsertFrom(keys, comp, kept[1..], i);
      var tail := Insert(keys, comp, kept[1..], i);
      assert r[0] == kept[0];
      forall a | 1 <= a < |r| && r[a] != i ensures r[a] in kept {
        assert r[a] == tail[a - 1];
        assert tail[a - 1] in kept[1..];
        var k :| 0 <= k < |kept[1..]| && kept[1..][k] == tail[a - 1];
        assert kept[k + 1] == r[a];
      }
    }
  }

  /** Insertion keeps the list in strictly ascending key order. */
  lemma {:induction false} InsertSorted(keys: seq<Value>, comp: seq<nat>, kept: seq<nat>, i: nat)
    requires |comp| == |keys| && i < |keys| && InRange(kept, i) && SortedByKey(keys, kept)
    ensures SortedByKey(keys, Insert(keys, comp, kept, i))
    decreases |kept|
  {
    var r := Insert(keys, comp, kept, i);
    if |kept| == 0 {
    } else if keys[kept[0]] == keys[i] {
      if comp[i] > comp[kept[0]] {
        assert forall a :: 1 <= a < |r| ==> r[a] == kept[a];
      }
    } else if KeyLess(keys[i], keys[kept[0]]) {
      forall a, b | 0 <= a < b < |r| ensures KeyLess(keys[r[a]], keys[r[b]]) {
        if a == 0 && b > 1 {
          KeyTransitive(keys[i], keys[kept[0]], keys[kept[b - 1]]);
        }
      }
    } else {
      KeyTotal(keys[i], keys[kept[0]]);
      SortedTail(keys, kept);
      InsertSorted(keys, comp, kept[1..], i);
      InsertFrom(keys, comp, kept[1..], i);
      var tail := Insert(keys, comp, kept[1..], i);
      forall a, b | 0 <= a < b < |r| ensures KeyLess(keys[r[a]], keys[r[b]]) {
        assert r[b] == tail[b - 1];
        if a == 0 && tail[b - 1] != i {
          assert OnlyAdds(tail, kept[1..], i);
          assert tail[b - 1] in kept[1..];
        }
      }
    }
  }

  /** After insertion the key of `i` and every key kept before are present. */
  lemma {:induction false} InsertCovers(keys: seq<Value>, comp: seq<nat>, kept: seq<nat>, i: nat)
    requires |comp| == |keys| && i < |keys| && InRange(kept, i)
    ensures var r := Insert(keys, comp, kept, i);
      && HasKey(keys, r, keys[i])
      && (forall b :: 0 <= b < |kept| ==> HasKey(keys, r, keys[kept[b]]))
    decreases |kept|
  {
    if |kept| == 0 {
      var r := Insert(keys, comp, kept, i);
      assert keys[r[0]] == keys[i];
    } else if keys[kept[0]] == keys[i] {
      CoversSameKey(keys, comp, kept, i);
    } else if KeyLess(keys[i], keys[kept[0]]) {
      CoversInFront(keys, comp, kept, i);
    } else {
      InsertCovers(keys, comp, kept[1..], i);
      CoversBehind(keys, comp, kept, i);
    }
  }

  lemma CoversSameKey(keys: seq<Value>, comp: seq<nat>, kept: seq<nat>, i: nat)
    requires |comp| == |keys| && i < |keys| && InRange(kept, i)
    requires |kept| > 0 && keys[kept[0]] == keys[i]
    ensures var r := Insert(keys, comp, kept, i);
      && HasKey(keys, r, keys[i])
      && (forall b :: 0 <= b < |kept| ==> HasKey(keys, r, keys[kept[b]]))
  {
    var r := Insert(keys, comp, kept, i);
    assert keys[r[0]] == keys[i];
    forall b | 0 <= b < |kept| ensures HasKey(keys, r, keys[kept[b]]) {
      if b > 0 {
        assert r[b] == kept[b];
      }
    }
  }

  lemma CoversInFront(keys: seq<Value>, comp: seq<nat>, kept: seq<nat>, i: nat)
    requires |comp| == |keys| && i < |keys| && InRange(kept, i)
    requires |kept| > 0 && keys[kept[0]] != keys[i] && KeyLess(keys[i], keys[kept[0]])
    ensures var r := Insert(keys, comp, kept, i);
      && HasKey(keys, r, keys[i])
      && (forall b :: 0 <= b < |kept| ==> HasKey(keys, r, keys[kept[b]]))
  {
    var r := Insert(keys, comp, kept, i);
    assert keys[r[0]] == keys[i];
    forall b | 0 <= b < |kept| ensures HasKey(keys, r, keys[kept[b]]) {
      assert r[b + 1] == kept[b];
    }
  }

  lemma CoversBehind(keys: seq<Value>, comp: seq<nat>, kept: seq<nat>, i: nat)
    requires |comp| == |keys| && i < |keys| && InRange(kept, i)
    requires |kept| > 0 && keys[kept[0]] != keys[i] && !KeyLess(keys[i], keys[kept[0]])
    requires var tail := Insert(keys, comp, kept[1..], i);
      && HasKey(keys, tail, keys[i])
      && (forall b :: 0 <= b < |kept[1..]| ==> HasKey(keys, tail, keys[kept[1..][b]]))
    ensures var r := Insert(keys, comp, kept, i);
      && HasKey(keys, r, keys[i])
      && (forall b :: 0 <= b < |kept| ==> HasKey(keys, r, keys[kept[b]]))
  {
    var r := Insert(keys, comp, kept, i);
    var tail := Insert(keys, comp, kept[1..], i);
    assert r == [kept[0]] + tail;
    var w :| 0 <= w < |tail| && keys[tail[w]] == keys[i];
    assert r[w + 1] == tail[w];
    forall b | 0 <= b < |kept| ensures HasKey(keys, r, keys[kept[b]]) {
      if b == 0 {
        assert r[0] == kept[0];
      } else {
        assert kept[b] == kept[1..][b - 1];
        assert HasKey(keys, tail, keys[kept[1..][b - 1]]);
        var a :| 0 <= a < |tail| && keys[tail[a]] == keys[kept[1..][b - 1]];
        assert r[a + 1] == tail[a];
      }
    }
  }

  /** The list grows by one exactly when the key of `i` is new. */
  predicate GrowsIfNew(keys: seq<Value>, kept: seq<nat>, len: nat, i: nat)
    requires i < |keys| && InRange(kept, |keys|)
  {
    (if HasKey(keys, kept, keys[i]) then len == |kept| else len == |kept| + 1)
  }

  lemma {:induction false} InsertLength(keys: seq<Value>, comp: seq<nat>, kept: seq<nat>, i: nat)
    requires |comp| == |keys| && i < |keys| && InRange(kept, i) && SortedByKey(keys, kept)
    ensures GrowsIfNew(keys, kept, |Insert(keys, comp, kept, i)|, i)
    decreases |kept|
  {
    if |kept| == 0 {
    } else if keys[kept[0]] == keys[i] {
      assert HasKey(keys, kept, keys[i]);
    } else if KeyLess(keys[i], keys[kept[0]]) {
      forall b | 0 <= b < |kept| ensures keys[kept[b]] != keys[i] {
        if b > 0 {
          KeyTransitive(keys[i], keys[kept[0]], keys[kept[b]]);
        }
        KeyIrreflexive(keys[i]);
      }
    } else {
      SortedTail(keys, kept);
      InsertLength(keys, comp, kept[1..], i);
      if HasKey(keys, kept, keys[i]) {
        var a :| 0 <= a < |kept| && keys[kept[a]] == keys[i];
        assert kept[1..][a - 1] == kept[a];
      }
      if HasKey(keys, kept[1..], keys[i]) {
        var a :| 0 <= a < |kept[1..]| && keys[kept[1..][a]] == keys[i];
        assert kept[a + 1] == kept[1..][a];
      }
    }
  }

  /** The row kept for the key of `i` ranks at least as high as `i`, and `i` is kept
      only when strictly more complete than the row it displaces. */
  predicate RanksNew(keys: seq<Value>, comp: seq<nat>, kept: seq<nat>, r: seq<nat>, i: nat)
    requires |comp| == |keys| && i < |keys| && InRange(kept, i) && InRange(r, i + 1)
  {
    && (forall a :: 0 <= a < |r| && keys[r[a]] == keys[i] ==> Better(comp, r[a], i))
    && (i in r ==> forall b :: 0 <= b < |kept| && keys[kept[b]] == keys[i] ==> comp[i] > comp[kept[b]])
  }

  lemma {:induction false} InsertRanks(keys: seq<Value>, comp: seq<nat>, kept: seq<nat>, i: nat)
    requires |comp| == |keys| && i < |keys| && InRange(kept, i) && SortedByKey(keys, kept)
    ensures RanksNew(keys, comp, kept, Insert(keys, comp, kept, i), i)
    decreases |kept|
  {
    var r := Insert(keys, comp, kept, i);
    if |kept| == 0 {
    } else if keys[kept[0]] == keys[i] {
      UniqueKey(keys, kept, 0);
      if comp[i] <= comp[kept[0]] {
        assert i !in kept;
      }
    } else if KeyLess(keys[i], keys[kept[0]]) {
      forall b | 0 <= b < |kept| ensures keys[kept[b]] != keys[i] {
        if b > 0 {
          KeyTransitive(keys[i], keys[kept[0]], keys[kept[b]]);
        }
        KeyIrreflexive(keys[i]);
      }
    } else {
      SortedTail(keys, kept);
      InsertRanks(keys, comp, kept[1..], i);
      var tail := Insert(keys, comp, kept[1..], i);
      assert forall a :: 1 <= a < |r| ==> r[a] == tail[a - 1];
      forall b | 1 <= b < |kept| ensures kept[b] == kept[1..][b - 1] {
      }
      assert i in r ==> i in tail;
    }
  }

  /** In a list sorted by key, a key occurs at one position only. */
  lemma UniqueKey(keys: seq<Value>, kept: seq<nat>, a: nat)
    requires InRange(kept, |keys|) && SortedByKey(keys, kept) && a < |kept|
    ensures forall b :: 0 <= b < |kept| && b != a ==> keys[kept[b]] != keys[kept[a]]
  {
    forall b | 0 <= b < |kept| && b != a ensures keys[kept[b]] != keys[kept[a]] {
      KeyIrreflexive(keys[kept[a]]);
    }
  }

  /** Keys occurring among the first `n` rows at two different positions. */
  predicate DuplicateBefore(keys: seq<Value>, n: nat)
    requires n <= |keys|
  {
    exists i, j :: 0 <= i < j < n && keys[i] == keys[j]
  }

  /** The kept rows of the first `n` rows: one per key, in key order, each the
      first of the most complete rows with its key. */
  function Scan(keys: seq<Value>, comp: seq<nat>, n: nat): (kept: seq<nat>)
    requires |comp| == |keys| && n <= |keys|
    ensures InRange(kept, n)
  {
    if n == 0 then [] else Insert(keys, comp, Scan(keys, comp, n - 1), n - 1)
  }

  /** The kept rows are in strictly ascending key order. */
  lemma {:induction false} ScanSorted(keys: seq<Value>, comp: seq<nat>, n: nat)
    requires |comp| == |keys| && n <= |keys|
    ensures SortedByKey(keys, Scan(keys, comp, n))
  {
    if n > 0 {
      ScanSorted(keys, comp, n - 1);
      InsertSorted(keys, comp, Scan(keys, comp, n - 1), n - 1);
    }
  }

  /** Every key among the first `n` rows has a kept row. */
  lemma {:induction false} ScanCovers(keys: seq<Value>, comp: seq<nat>, n: nat)
    requires |comp| == |keys| && n <= |keys|
    ensures forall j :: 0 <= j < n ==> RowKeyKept(keys, Scan(keys, comp, n), j)
  {
    if n > 0 {
      ScanCovers(keys, comp, n - 1);
      ScanCoversStep(keys, comp, n - 1, n);
    }
  }

  lemma ScanCoversStep(keys: seq<Value>, comp: seq<nat>, m: nat, n: nat)
    requires |comp| == |keys| && n == m + 1 && n <= |keys|
    requires forall j :: 0 <= j < m ==> RowKeyKept(keys, Scan(keys, comp, m), j)
    ensures forall j :: 0 <= j < n ==> RowKeyKept(keys, Scan(keys, comp, n), j)
  {
    var prev := Scan(keys, comp, m);
    InsertCovers(keys, comp, prev, n - 1);
    CoversStep(keys, n, prev, Insert(keys, comp, prev, n - 1));
  }

  lemma CoversStep(keys: seq<Value>, n: nat, prev: seq<nat>, r: seq<nat>)
    requires 0 < n <= |keys| && InRange(prev, n - 1) && InRange(r, n)
    requires forall j :: 0 <= j < n - 1 ==> RowKeyKept(keys, prev, j)
    requires forall b :: 0 <= b < |prev| ==> HasKey(keys, r, keys[prev[b]])
    requires HasKey(keys, r, keys[n - 1])
    ensures forall j :: 0 <= j < n ==> RowKeyKept(keys, r, j)
  {
    forall j | 0 <= j < n - 1 ensures RowKeyKept(keys, r, j) {
      assert RowKeyKept(keys, prev, j);
      var b :| 0 <= b < |prev| && keys[prev[b]] == keys[j];
      assert HasKey(keys, r, keys[prev[b]]);
    }
  }

  /** The kept row with the key of row `j`, if any, ranks at least as high as `j`. */
  predicate KeptBest(keys: seq<Value>, comp: seq<nat>, kept: seq<nat>, j: nat)
    requires |comp| == |keys| && InRange(kept, |keys|) && j < |keys|
  {
    forall a :: 0 <= a < |kept| && keys[kept[a]] == keys[j] ==> Better(comp, kept[a], j)
  }

  /** The row kept for a key ranks at least as high as every row with that key. */
  lemma {:induction false} ScanRanks(keys: seq<Value>, comp: seq<nat>, n: nat)
    requires |comp| == |keys| && n <= |keys|
    ensures forall j :: 0 <= j < n ==> KeptBest(keys, comp, Scan(keys, comp, n), j)
  {
    if n > 0 {
      ScanCovers(keys, comp, n - 1);
      ScanRanks(keys, comp, n - 1);
      ScanRanksStep(keys, comp, n - 1, n);
    }
  }

  lemma ScanRanksStep(keys: seq<Value>, comp: seq<nat>, m: nat, n: nat)
    requires |comp| == |keys| && n == m + 1 && n <= |keys|
    requires forall j :: 0 <= j < m ==> RowKeyKept(keys, Scan(keys, comp, m), j)
    requires forall j :: 0 <= j < m ==> KeptBest(keys, comp, Scan(keys, comp, m), j)
    ensures forall j :: 0 <= j < n ==> KeptBest(keys, comp, Scan(keys, comp, n), j)
  {
    var prev := Scan(keys, comp, m);
    ScanStep(keys, comp, n);
    RanksStep(keys, comp, n, prev, Insert(keys, comp, prev, n - 1));
  }

  /** One step of the scan adds only the new row, and ranks it against the rows
      kept for its key. */
  lemma ScanStep(keys: seq<Value>, comp: seq<nat>, n: nat)
    requires |comp| == |keys| && 0 < n <= |keys|
    ensures OnlyAdds(Insert(keys, comp, Scan(keys, comp, n - 1), n - 1), Scan(keys, comp, n - 1), n - 1)
    ensures RanksNew(keys, comp, Scan(keys, comp, n - 1),
                     Insert(keys, comp, Scan(keys, comp, n - 1), n - 1), n - 1)
  {
    var prev := Scan(keys, comp, n - 1);
    ScanSorted(keys, comp, n - 1);
    InsertFrom(keys, comp, prev, n - 1);
    InsertRanks(keys, comp, prev, n - 1);
  }

  lemma RanksStep(keys: seq<Value>, comp: seq<nat>, n: nat, prev: seq<nat>, r: seq<nat>)
    requires |comp| == |keys| && 0 < n <= |keys| && InRange(prev, n - 1) && InRange(r, n)
    requires forall j :: 0 <= j < n - 1 ==> RowKeyKept(keys, prev, j)
    requires forall j :: 0 <= j < n - 1 ==> KeptBest(keys, comp, prev, j)
    requires OnlyAdds(r, prev, n - 1)
    requires RanksNew(keys, comp, prev, r, n - 1)
    ensures forall j :: 0 <= j < n ==> KeptBest(keys, comp, r, j)
  {
    var i := n - 1;
    forall j | 0 <= j < n ensures KeptBest(keys, comp, r, j) {
      forall a | 0 <= a < |r| && keys[r[a]] == keys[j] ensures Better(comp, r[a], j) {
        if j < i {
          assert RowKeyKept(keys, prev, j);
          assert KeptBest(keys, comp, prev, j);
          var b :| 0 <= b < |prev| && keys[prev[b]] == keys[j];
          if r[a] == i {
            assert comp[i] > comp[prev[b]];
          } else {
            var b' :| 0 <= b' < |prev| && prev[b'] == r[a];
            assert Better(comp, prev[b'], j);
          }
        }
      }
    }
  }

  /** One row is kept per key: as many as rows exactly when no key repeats. */
  lemma {:induction false} ScanCount(keys: seq<Value>, comp: seq<nat>, n: nat)
    requires |comp| == |keys| && n <= |keys|
    ensures |Scan(keys, comp, n)| <= n
    ensures |Scan(keys, comp, n)| == n <==> !DuplicateBefore(keys, n)
  {
    if n > 0 {
      ScanCovers(keys, comp, n - 1);
      ScanCount(keys, comp, n - 1);
      ScanCountStep(keys, comp, n - 1, n);
    }
  }

  lemma ScanCountStep(keys: seq<Value>, comp: seq<nat>, m: nat, n: nat)
    requires |comp| == |keys| && n == m + 1 && n <= |keys|
    requires forall j :: 0 <= j < m ==> RowKeyKept(keys, Scan(keys, comp, m), j)
    requires |Scan(keys, comp, m)| <= m
    requires |Scan(keys, comp, m)| == m <==> !DuplicateBefore(keys, m)
    ensures |Scan(keys, comp, n)| <= n
    ensures |Scan(keys, comp, n)| == n <==> !DuplicateBefore(keys, n)
  {
    var prev := Scan(keys, comp, m);
    var r := Insert(keys, comp, prev, m);
    assert Scan(keys, comp, n) == r;
    ScanGrows(keys, comp, m);
    CountStep(keys, n, prev, |r|);
  }

  /** One step of the scan grows the list exactly when the row's key is new. */
  lemma ScanGrows(keys: seq<Value>, comp: seq<nat>, m: nat)
    requires |comp| == |keys| && m < |keys|
    ensures var prev := Scan(keys, comp, m);
      GrowsIfNew(keys, prev, |Insert(keys, comp, prev, m)|, m)
  {
    ScanSorted(keys, comp, m);
    InsertLength(keys, comp, Scan(keys, comp, m), m);
  }

  lemma CountStep(keys: seq<Value>, n: nat, prev: seq<nat>, len: nat)
    requires 0 < n <= |keys| && InRange(prev, n - 1)
    requires forall j :: 0 <= j < n - 1 ==> RowKeyKept(keys, prev, j)
    requires |prev| <= n - 1 && (|prev| == n - 1 <==> !DuplicateBefore(keys, n - 1))
    requires GrowsIfNew(keys, prev, len, n - 1)
    ensures len <= n
    ensures len == n <==> !DuplicateBefore(keys, n)
  {
    var i := n - 1;
    if HasKey(keys, prev, keys[i]) {
      var b :| 0 <= b < |prev| && keys[prev[b]] == keys[i];
      assert prev[b] < i && keys[prev[b]] == keys[i];
      assert DuplicateBefore(keys, n);
    } else {
      forall x | 0 <= x < i ensures keys[x] != keys[i] {
        assert RowKeyKept(keys, prev, x);
      }
      if DuplicateBefore(keys, n) {
        var x, y :| 0 <= x < y < n && keys[x] == keys[y];
        assert DuplicateBefore(keys, i);
      }
      if DuplicateBefore(keys, i) {
        var x, y :| 0 <= x < y < i && keys[x] == keys[y];
        assert DuplicateBefore(keys, n);
      }
    }
  }

  // ---------------------------------------------------------------------------
  // The frame operation

  function KeysOf(rows: seq<Record>, key: string): (ks: seq<Value>)
    ensures |ks| == |rows|
    ensures forall j :: 0 <= j < |rows| ==> ks[j] == Get(rows[j], key)
  {
    if |rows| == 0 then [] else [Get(rows[0], key)] + KeysOf(rows[1..], key)
  }

  function CompletenessOf(columns: seq<string>, rows: seq<Record>): (cs: seq<nat>)
    ensures |cs| == |rows|
    ensures forall j :: 0 <= j < |rows| ==> cs[j] == Completeness(columns, rows[j])
  {
    if |rows| == 0 then [] else [Completeness(columns, rows[0])] + CompletenessOf(columns, rows[1..])
  }

  function Pick(rows: seq<Record>, kept: seq<nat>): (out: seq<Record>)
    requires InRange(kept, |rows|)
    ensures |out| == |kept|
    ensures forall a :: 0 <= a < |kept| ==> out[a] == rows[kept[a]]
  {
    if |kept| == 0 then [] else [rows[kept[0]]] + Pick(rows, kept[1..])
  }

  /** The kept row positions, in output order. */
  function KeptRows(f: Frame, key: string): (kept: seq<nat>)
    ensures InRange(kept, |f.rows|)
  {
    Scan(KeysOf(f.rows, key), CompletenessOf(f.columns, f.rows), |f.rows|)
  }

  /** Output rows in strictly ascending key order. */
  predicate KeyOrdered(out: seq<Record>, key: string) {
    forall a, b :: 0 <= a < b < |out| ==> KeyLess(Get(out[a], key), Get(out[b], key))
  }

  /** Some output row has the key of `row`. */
  predicate KeyPresent(out: seq<Record>, key: string, row: Record) {
    exists a :: 0 <= a < |out| && Get(out[a], key) == Get(row, key)
  }

  /** Every output row with the key of `row` is at least as complete as `row`. */
  predicate AtLeastAsComplete(columns: seq<string>, out: seq<Record>, key: string, row: Record) {
    forall a :: 0 <= a < |out| && Get(out[a], key) == Get(row, key) ==>
      Completeness(columns, out[a]) >= Completeness(columns, row)
  }

  /** The row-level facts of a selection `kept` carried over to the picked rows. */
  lemma PickFacts(f: Frame, key: string, keys: seq<Value>, comp: seq<nat>, kept: seq<nat>, out: seq<Record>)
    requires |keys| == |f.rows| && |comp| == |f.rows|
    requires forall j :: 0 <= j < |f.rows| ==> keys[j] == Get(f.rows[j], key)
    requires forall j :: 0 <= j < |f.rows| ==> comp[j] == Completeness(f.columns, f.rows[j])
    requires InRange(kept, |f.rows|) && |out| == |kept|
    requires forall a :: 0 <= a < |kept| ==> out[a] == f.rows[kept[a]]
    requires SortedByKey(keys, kept)
    requires forall j :: 0 <= j < |f.rows| ==> RowKeyKept(keys, kept, j)
    requires forall j :: 0 <= j < |f.rows| ==> KeptBest(keys, comp, kept, j)
    ensures forall a :: 0 <= a < |out| ==> out[a] in f.rows
    ensures KeyOrdered(out, key)
    ensures forall j :: 0 <= j < |f.rows| ==> KeyPresent(out, key, f.rows[j])
    ensures forall j :: 0 <= j < |f.rows| ==> AtLeastAsComplete(f.columns, out, key, f.rows[j])
  {
    forall a | 0 <= a < |out| ensures out[a] in f.rows {
      assert out[a] == f.rows[kept[a]];
    }
    forall a, b | 0 <= a < b < |out| ensures KeyLess(Get(out[a], key), Get(out[b], key)) {
      assert KeyLess(keys[kept[a]], keys[kept[b]]);
    }
    forall j | 0 <= j < |f.rows| ensures KeyPresent(out, key, f.rows[j]) {
      assert RowKeyKept(keys, kept, j);
      var a :| 0 <= a < |kept| && keys[kept[a]] == keys[j];
      assert Get(out[a], key) == Get(f.rows[j], key);
    }
    forall j | 0 <= j < |f.rows| ensures AtLeastAsComplete(f.columns, out, key, f.rows[j]) {
      forall a | 0 <= a < |out| && Get(out[a], key) == Get(f.rows[j], key)
        ensures Completeness(f.columns, out[a]) >= Completeness(f.columns, f.rows[j])
      {
        assert keys[kept[a]] == keys[j];
        assert KeptBest(keys, comp, kept, j);
        assert Better(comp, kept[a], j);
      }
    }
  }

  /** Sort by key (missing keys last) and by completeness descending, then keep the
      first row of every key. */
  function DropDuplicates(f: Frame, key: string): (r: Frame)
    ensures r.columns == f.columns && |r.rows| <= |f.rows|
    ensures forall a :: 0 <= a < |r.rows| ==> r.rows[a] in f.rows
    ensures KeyOrdered(r.rows, key)
    ensures forall j :: 0 <= j < |f.rows| ==> KeyPresent(r.rows, key, f.rows[j])
    ensures forall j :: 0 <= j < |f.rows| ==> AtLeastAsComplete(f.columns, r.rows, key, f.rows[j])
    ensures |r.rows| == |f.rows| <==> !DuplicateBefore(KeysOf(f.rows, key), |f.rows|)
  {
    KeptRowsFacts(f, key);
    Frame(f.columns, Pick(f.rows, KeptRows(f, key)))
  }

  /** The rows the scan keeps are input rows in key order, one per key, each at
      least as complete as every row sharing its key. */
  lemma KeptRowsFacts(f: Frame, key: string)
    ensures var out := Pick(f.rows, KeptRows(f, key));
      && |out| <= |f.rows|
      && (forall a :: 0 <= a < |out| ==> out[a] in f.rows)
      && KeyOrdered(out, key)
      && (forall j :: 0 <= j < |f.rows| ==> KeyPresent(out, key, f.rows[j]))
      && (forall j :: 0 <= j < |f.rows| ==> AtLeastAsComplete(f.columns, out, key, f.rows[j]))
      && (|out| == |f.rows| <==> !DuplicateBefore(KeysOf(f.rows, key), |f.rows|))
  {
    var keys := KeysOf(f.rows, key);
    var comp := CompletenessOf(f.columns, f.rows);
    var kept := KeptRows(f, key);
    var out := Pick(f.rows, kept);
    assert SortedByKey(keys, kept) by {
      ScanSorted(keys, comp, |f.rows|);
    }
    assert forall j :: 0 <= j < |f.rows| ==> RowKeyKept(keys, kept, j) by {
      ScanCovers(keys, comp, |f.rows|);
    }
    assert forall j :: 0 <= j < |f.rows| ==> KeptBest(keys, comp, kept, j) by {
      ScanRanks(keys, comp, |f.rows|);
    }
    assert |kept| <= |f.rows| && (|kept| == |f.rows| <==> !DuplicateBefore(keys, |f.rows|)) by {
      ScanCount(keys, comp, |f.rows|);
    }
    PickFacts(f, key, keys, comp, kept, out);
  }

  /** Among rows with the same key, the kept one is the first of the most complete. */
  lemma KeptIsFirstBest(f: Frame, key: string, a: nat, j: nat)
    requires a < |KeptRows(f, key)| && j < |f.rows|
    requires Get(f.rows[j], key) == Get(f.rows[KeptRows(f, key)[a]], key)
    ensures var x := KeptRows(f, key)[a];
      Completeness(f.columns, f.rows[x]) > Completeness(f.columns, f.rows[j])
      || (Completeness(f.columns, f.rows[x]) == Completeness(f.columns, f.rows[j]) && x <= j)
  {
    var keys := KeysOf(f.rows, key);
    var comp := CompletenessOf(f.columns, f.rows);
    var kept := KeptRows(f, key);
    ScanRanks(keys, comp, |f.rows|);
    assert KeptBest(keys, comp, kept, j);
    assert keys[kept[a]] == keys[j];
    assert Better(comp, kept[a], j);
  }

  /** The column names other than `c`, in order. */
  function Without(columns: seq<string>, c: string): (r: seq<string>)
    ensures c !in r
    ensures forall x :: x in r <==> x in columns && x != c
    ensures c !in columns ==> r == columns
  {
    if |columns| == 0 then []
    else (if columns[0] == c then [] else [columns[0]]) + Without(columns[1..], c)
  }

  function DropCell(c: string): Record -> Record {
    (row: Record) => row - {c}
  }

  /** `df.drop(columns=[c])`: the column disappears from the header and from
      every row; nothing else changes. */
  function DropColumn(f: Frame, c: string): (r: Frame)
    ensures r.columns == Without(f.columns, c)
    ensures |r.rows| == |f.rows|
  {
    Frame(Without(f.columns, c), MapRows(f.rows, DropCell(c)))
  }

  /** Every cell of a row survives the drop except the dropped column's. */
  lemma DropColumnGet(f: Frame, c: string, a: nat, k: string)
    requires a < |f.rows|
    ensures Get(DropColumn(f, c).rows[a], k) == if k == c then Null else Get(f.rows[a], k)
  {
    MapRowsAt(f.rows, DropCell(c));
  }

  /** Duplicate removal with a helper ranking column `helper`, dropped at the end.
      The ranking is taken over the table's own columns, so a column of that name
      already present counts and then disappears. */
  function DropDuplicatesWith(f: Frame, key: string, helper: string): (r: Frame)
    ensures r.columns == Without(f.columns, helper)
    ensures |r.rows| <= |f.rows|
    ensures |r.rows| == |f.rows| <==> !DuplicateBefore(KeysOf(f.rows, key), |f.rows|)
  {
    DropColumn(DropDuplicates(f, key), helper)
  }

  /** Each output row is an input row without the helper column, and the output
      has the deduplication's key order, key coverage and ranking. */
  lemma DropDuplicatesWithRows(f: Frame, key: string, helper: string)
    requires key != helper
    ensures |DropDuplicatesWith(f, key, helper).rows| == |DropDuplicates(f, key).rows|
    ensures forall a :: 0 <= a < |DropDuplicatesWith(f, key, helper).rows| ==>
      DropDuplicatesWith(f, key, helper).rows[a] == DropDuplicates(f, key).rows[a] - {helper}
      && DropDuplicates(f, key).rows[a] in f.rows
    ensures KeyOrdered(DropDuplicatesWith(f, key, helper).rows, key)
    ensures forall j :: 0 <= j < |f.rows| ==> KeyPresent(DropDuplicatesWith(f, key, helper).rows, key, f.rows[j])
  {
    DropColumnRows(DropDuplicates(f, key), key, helper);
  }

  /** Dropping a column other than the key keeps every row's key. */
  lemma DropColumnRows(g: Frame, key: string, helper: string)
    requires key != helper
    ensures var r := DropColumn(g, helper);
      && (forall a :: 0 <= a < |r.rows| ==> r.rows[a] == g.rows[a] - {helper})
      && (KeyOrdered(r.rows, key) <==> KeyOrdered(g.rows, key))
      && (forall row :: KeyPresent(r.rows, key, row) <==> KeyPresent(g.rows, key, row))
  {
    var r := DropColumn(g, helper);
    MapRowsAt(g.rows, DropCell(helper));
    forall a | 0 <= a < |r.rows| ensures Get(r.rows[a], key) == Get(g.rows[a], key) {
      DropColumnGet(g, helper, a, key);
    }
    SameKeys(g.rows, r.rows, key);
  }

  /** After one pass no key occurs twice, so a second pass removes nothing. */
  lemma DropDuplicatesWithSettles(f: Frame, key: string, helper: string)
    requires key != helper
    ensures !DuplicateBefore(KeysOf(DropDuplicatesWith(f, key, helper).rows, key),
                             |DropDuplicatesWith(f, key, helper).rows|)
  {
    DropDuplicatesWithRows(f, key, helper);
    OrderedDistinct(DropDuplicatesWith(f, key, helper).rows, key);
  }

  /** Rows in strictly ascending key order hold no key twice. */
  lemma OrderedDistinct(out: seq<Record>, key: string)
    requires KeyOrdered(out, key)
    ensures !DuplicateBefore(KeysOf(out, key), |out|)
  {
    var ks := KeysOf(out, key);
    forall i, j | 0 <= i < j < |out| ensures ks[i] != ks[j] {
      assert KeyLess(Get(out[i], key), Get(out[j], key));
      KeyIrreflexive(ks[i]);
    }
  }

  /** Two row lists with the same keys, position by position, have the same key
      order and present the same keys. */
  lemma SameKeys(g: seq<Record>, r: seq<Record>, key: string)
    requires |r| == |g| && forall a :: 0 <= a < |r| ==> Get(r[a], key) == Get(g[a], key)
    ensures KeyOrdered(r, key) <==> KeyOrdered(g, key)
    ensures forall row :: KeyPresent(r, key, row) <==> KeyPresent(g, key, row)
  {
  }

  /** `deduplicate_invoice_rows`: an empty table, or one without the key column,
      comes back unchanged; otherwise duplicates are dropped with the helper
      column `_completeness`. */
  function DeduplicateInvoiceRows(f: Frame, key: string): (r: Frame)
    ensures |f.rows| == 0 || key !in f.columns ==> r == f
    ensures |f.rows| > 0 && key in f.columns ==> r == DropDuplicatesWith(f, key, "_completeness")
  {
    if |f.rows| == 0 || key !in f.columns then f else DropDuplicatesWith(f, key, "_completeness")
  }
}
