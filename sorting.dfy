/** The sort engine: `bubble_sort`, `insertion_sort` and `selection_sort`,
    each run in place on a copy (`a = arr[:]`) of the caller's list, and the
    `SORT_ALGS` table that names them. */
module Sorting {
  import opened Seqs
  import opened Records
  import opened SortSpec

  /** `s` with the neighbours at `j` and `j + 1` exchanged. */
  function Swap(s: seq<Record>, j: nat): seq<Record>
    requires j + 1 < |s|
  {
    s[j := s[j + 1]][j + 1 := s[j]]
  }

  /** `s` with the records at `i` and `sel` exchanged. */
  function Exchange(s: seq<Record>, i: nat, sel: nat): seq<Record>
    requires i < |s| && sel < |s|
  {
    s[i := s[sel]][sel := s[i]]
  }

  /** Exchanging two records permutes the list. */
  lemma ExchangeMultiset(s: seq<Record>, i: nat, sel: nat)
    requires i < |s| && sel < |s|
    ensures multiset(Exchange(s, i, sel)) == multiset(s)
  {
    var t1 := s[i := s[sel]];
    assert multiset(t1) == multiset(s) - multiset{s[i]} + multiset{s[sel]};
    assert t1[sel] == s[sel];
    assert multiset(t1[sel := s[i]]) == multiset(t1) - multiset{s[sel]} + multiset{s[i]};
  }

  /** Exchanging two neighbours with different keys keeps every tie group. */
  lemma SwapNeighbours(s: seq<Record>, j: nat, sk: SortKey)
    requires j + 1 < |s| && KeyOf(s[j], sk) != KeyOf(s[j + 1], sk)
    ensures KeepsTies(Swap(s, j), s, sk)
  {
    var t := Swap(s, j);
    assert s == s[..j] + [s[j]] + [s[j + 1]] + s[j + 2..];
    assert t == s[..j] + [s[j + 1]] + [s[j]] + s[j + 2..];
    forall v
      ensures WithKey(t, sk, v) == WithKey(s, sk, v)
    {
      WithKeyConcat(s[..j] + [s[j]] + [s[j + 1]], s[j + 2..], sk, v);
      WithKeyConcat(s[..j] + [s[j]], [s[j + 1]], sk, v);
      WithKeyConcat(s[..j], [s[j]], sk, v);
      WithKeyConcat(s[..j] + [s[j + 1]] + [s[j]], s[j + 2..], sk, v);
      WithKeyConcat(s[..j] + [s[j + 1]], [s[j]], sk, v);
      WithKeyConcat(s[..j], [s[j + 1]], sk, v);
      WithKeySingle(s[j], sk, v);
      WithKeySingle(s[j + 1], sk, v);
    }
  }

  /** `s[m..]` is sorted. */
  predicate SortedFrom(s: seq<Record>, m: nat, sk: SortKey, rev: bool) {
    forall p, q :: m <= p < q < |s| ==> !Inverted(s[p], s[q], sk, rev)
  }

  /** No record of `s[..m]` must go after one of `s[m..]`. */
  predicate Dominated(s: seq<Record>, m: nat, sk: SortKey, rev: bool) {
    forall p, q :: 0 <= p < m <= q < |s| ==> !Inverted(s[p], s[q], sk, rev)
  }

  /** No record before position `j` must go after `s[j]`. */
  predicate MaxAt(s: seq<Record>, j: nat, sk: SortKey, rev: bool)
    requires j < |s|
  {
    forall p :: 0 <= p < j ==> !Inverted(s[p], s[j], sk, rev)
  }

  /** A swap of a bubble pass over `s[..m]` moves the record that must go
      after the other to `j + 1` and leaves the sorted suffix alone. */
  lemma BubbleSwapStep(s: seq<Record>, j: nat, m: nat, sk: SortKey, rev: bool)
    requires j + 1 < m <= |s|
    requires SortedFrom(s, m, sk, rev) && Dominated(s, m, sk, rev) && MaxAt(s, j, sk, rev)
    requires Inverted(s[j], s[j + 1], sk, rev)
    ensures SortedFrom(Swap(s, j), m, sk, rev) && Dominated(Swap(s, j), m, sk, rev)
    ensures MaxAt(Swap(s, j), j + 1, sk, rev)
    ensures KeepsTies(Swap(s, j), s, sk)
  {
    InvertedAsymmetric(s[j], s[j + 1], sk, rev);
    SwapNeighbours(s, j, sk);
    var t := Swap(s, j);
    forall p, q | 0 <= p < m <= q < |t|
      ensures !Inverted(t[p], t[q], sk, rev)
    {
      if p == j { assert t[p] == s[j + 1]; }
      else if p == j + 1 { assert t[p] == s[j]; }
      else { assert t[p] == s[p]; }
    }
    forall p | 0 <= p < j + 1
      ensures !Inverted(t[p], t[j + 1], sk, rev)
    {
      assert t[j + 1] == s[j];
      if p < j { assert t[p] == s[p]; }
    }
  }

  /** A comparison of a bubble pass that does not swap: `s[j + 1]` already
      follows everything before it. */
  lemma BubbleKeepStep(s: seq<Record>, j: nat, sk: SortKey, rev: bool)
    requires j + 1 < |s| && MaxAt(s, j, sk, rev)
    requires !Inverted(s[j], s[j + 1], sk, rev)
    ensures MaxAt(s, j + 1, sk, rev)
  {
    forall p | 0 <= p < j + 1
      ensures !Inverted(s[p], s[j + 1], sk, rev)
    {
      if p < j {
        NotInvertedTransitive(s[p], s[j], s[j + 1], sk, rev);
      }
    }
  }

  /** One pass of the inner loop of `bubble_sort` over `a[..m]`: the record
      that must go last among them ends at `m - 1`, joining the sorted
      suffix; only neighbours with different keys were exchanged. */
  method BubblePass(a: array<Record>, m: nat, sk: SortKey, reverse: bool)
    requires 0 < m <= a.Length
    requires SortedFrom(a[..], m, sk, reverse) && Dominated(a[..], m, sk, reverse)
    modifies a
    ensures SortedFrom(a[..], m - 1, sk, reverse) && Dominated(a[..], m - 1, sk, reverse)
    ensures KeepsTies(a[..], old(a[..]), sk)
  {
    ghost var start := a[..];
    for j := 0 to m - 1
      invariant KeepsTies(a[..], start, sk)
      invariant SortedFrom(a[..], m, sk, reverse) && Dominated(a[..], m, sk, reverse)
      invariant MaxAt(a[..], j, sk, reverse)
    {
      ghost var s := a[..];
      if Inverted(a[j], a[j + 1], sk, reverse) {
        BubbleSwapStep(s, j, m, sk, reverse);
        a[j], a[j + 1] := a[j + 1], a[j];
        assert a[..] == Swap(s, j);
        KeepsTiesTrans(a[..], s, start, sk);
      } else {
        BubbleKeepStep(s, j, sk, reverse);
      }
    }
  }

  /** `bubble_sort`: adjacent swaps, only when the left record must go after
      the right one, so equal keys never pass each other. The result is the
      stable sort of the input. */
  method BubbleSort(arr: seq<Record>, f: Field, reverse: bool) returns (r: seq<Record>)
    ensures Sorted(r, ByField(f), reverse)
    ensures multiset(r) == multiset(arr)
    ensures KeepsTies(r, arr, ByField(f))
    ensures r == StableSort(arr, ByField(f), reverse)
  {
    var sk := ByField(f);
    var n := |arr|;
    var a := new Record[n](k requires 0 <= k < n => arr[k]);
    assert a[..] == arr;
    for i := 0 to n
      invariant KeepsTies(a[..], arr, sk)
      invariant SortedFrom(a[..], n - i, sk, reverse) && Dominated(a[..], n - i, sk, reverse)
    {
      ghost var before := a[..];
      BubblePass(a, n - i, sk, reverse);
      KeepsTiesTrans(a[..], before, arr, sk);
    }
    r := a[..];
    assert SortedFrom(r, 0, sk, reverse);
    KeepsTiesMultiset(r, arr, sk);
    StableSortCharacterized(r, arr, sk, reverse);
  }

  /** One step of the inner loop of `insertion_sort`: `prefix[j]` must go
      after `current`, so inserting `current` into `prefix[..j + 1]` puts
      `prefix[j]` last. */
  lemma InsertShiftStep(prefix: seq<Record>, j: nat, current: Record, sk: SortKey, rev: bool)
    requires j < |prefix| && Inverted(prefix[j], current, sk, rev)
    ensures InsertSorted(prefix[..j + 1], current, sk, rev) + prefix[j + 1..]
         == InsertSorted(prefix[..j], current, sk, rev) + prefix[j..]
  {
    assert prefix[..j + 1][..j] == prefix[..j];
    assert prefix[j..] == [prefix[j]] + prefix[j + 1..];
  }

  /** When every record after position `j` must go after `current`,
      inserting `current` into the whole prefix is inserting it into
      `prefix[..j + 1]` and keeping the rest behind it. */
  lemma {:induction false} InsertAfterRun(prefix: seq<Record>, j: int, current: Record, sk: SortKey, rev: bool)
    requires -1 <= j < |prefix|
    requires forall t :: j < t < |prefix| ==> Inverted(prefix[t], current, sk, rev)
    ensures InsertSorted(prefix, current, sk, rev)
         == InsertSorted(prefix[..j + 1], current, sk, rev) + prefix[j + 1..]
    decreases |prefix| - j
  {
    if j == |prefix| - 1 {
      assert prefix[..j + 1] == prefix && prefix[j + 1..] == [];
    } else {
      InsertAfterRun(prefix, j + 1, current, sk, rev);
      InsertShiftStep(prefix, j + 1, current, sk, rev);
    }
  }

  /** Where the inner loop of `insertion_sort` stops, `current` goes. */
  lemma InsertStop(prefix: seq<Record>, j: int, current: Record, sk: SortKey, rev: bool)
    requires -1 <= j < |prefix|
    requires j >= 0 ==> !Inverted(prefix[j], current, sk, rev)
    ensures InsertSorted(prefix[..j + 1], current, sk, rev) == prefix[..j + 1] + [current]
  {
  }

  /** After the shifts, `b` holds `prefix[..j + 1]`, then `current` in the
      gap, then the shifted `prefix[j + 1..]`. */
  lemma GapFilled(b: seq<Record>, prefix: seq<Record>, current: Record, j: int, i: nat)
    requires -1 <= j < i == |prefix| < |b| && b[j + 1] == current
    requires forall t :: 0 <= t <= j ==> b[t] == prefix[t]
    requires forall t :: j + 2 <= t <= i ==> b[t] == prefix[t - 1]
    ensures b[..i + 1] == prefix[..j + 1] + [current] + prefix[j + 1..]
  {
    var inserted := prefix[..j + 1] + [current] + prefix[j + 1..];
    forall t | 0 <= t <= i
      ensures b[t] == inserted[t]
    {
      if t <= j { assert inserted[t] == prefix[t]; }
      else if t > j + 1 { assert inserted[t] == prefix[t - 1]; }
    }
  }

  /** The inner loop of `insertion_sort`: takes `current = a[i]`, shifts
      right the records of `a[..i]` that must go after it, from the right,
      and writes `current` into the gap. Nothing from `i + 1` on moves. */
  method ShiftInsert(a: array<Record>, i: nat, sk: SortKey, reverse: bool)
    requires i < a.Length
    modifies a
    ensures a[..i + 1] == InsertSorted(old(a[..i]), old(a[i]), sk, reverse)
    ensures forall t :: i < t < a.Length ==> a[t] == old(a[t])
  {
    var current := a[i];
    ghost var prefix := a[..i];
    var j := ShiftRun(a, i, prefix, current, sk, reverse);
    InsertAfterRun(prefix, j, current, sk, reverse);
    InsertStop(prefix, j, current, sk, reverse);
    a[j + 1] := current;
    GapFilled(a[..], prefix, current, j, i);
  }

  /** The `while j >= 0` loop: moves each record of `a[..i]` (which is
      `prefix`) that must go after `current` one place right, stopping at
      the first that need not (or at the front). Returns where it stopped. */
  method ShiftRun(a: array<Record>, i: nat, ghost prefix: seq<Record>, current: Record, sk: SortKey, reverse: bool)
    returns (j: int)
    requires i < a.Length && prefix == a[..i]
    modifies a
    ensures -1 <= j <= i - 1
    ensures j >= 0 ==> !Inverted(prefix[j], current, sk, reverse)
    ensures forall t :: j < t < i ==> Inverted(prefix[t], current, sk, reverse)
    ensures forall t :: 0 <= t <= j ==> a[t] == prefix[t]
    ensures forall t :: j + 2 <= t <= i ==> a[t] == prefix[t - 1]
    ensures forall t :: i < t < a.Length ==> a[t] == old(a[t])
  {
    j := i - 1;
    while j >= 0 && Inverted(a[j], current, sk, reverse)
      invariant -1 <= j <= i - 1
      invariant forall t :: 0 <= t <= j ==> a[t] == prefix[t]
      invariant forall t :: j + 2 <= t <= i ==> a[t] == prefix[t - 1]
      invariant forall t :: i < t < a.Length ==> a[t] == old(a[t])
      invariant forall t :: j < t < i ==> Inverted(prefix[t], current, sk, reverse)
    {
      a[j + 1] := a[j];
      j := j - 1;
    }
  }

  /** The outer step of `insertion_sort`: the sorted prefix grows by
      inserting the next record. */
  lemma InsertionSortedStep(arr: seq<Record>, i: nat, sk: SortKey, rev: bool)
    requires i < |arr|
    ensures InsertionSorted(arr[..i + 1], sk, rev) == InsertSorted(InsertionSorted(arr[..i], sk, rev), arr[i], sk, rev)
  {
    assert arr[..i + 1][..i] == arr[..i];
  }

  /** `insertion_sort`: each record is inserted into the sorted prefix by
      shifting right the records that must go after it. The inner loop's
      `if ... else: break` is the second conjunct of its guard. The result
      is the stable sort of the input. */
  method InsertionSort(arr: seq<Record>, f: Field, reverse: bool) returns (r: seq<Record>)
    ensures r == StableSort(arr, ByField(f), reverse)
    ensures Sorted(r, ByField(f), reverse)
    ensures multiset(r) == multiset(arr)
    ensures KeepsTies(r, arr, ByField(f))
  {
    var sk := ByField(f);
    var n := |arr|;
    var a := new Record[n](k requires 0 <= k < n => arr[k]);
    var i := 1;
    while i < n
      invariant 1 <= i && (n > 0 ==> i <= n)
      invariant n > 0 ==> a[..i] == InsertionSorted(arr[..i], sk, reverse)
      invariant forall t :: i <= t < n ==> a[t] == arr[t]
    {
      ghost var sortedPrefix := a[..i];
      InsertionSortedStep(arr, i, sk, reverse);
      ShiftInsert(a, i, sk, reverse);
      assert a[..i + 1] == InsertSorted(sortedPrefix, arr[i], sk, reverse);
      i := i + 1;
    }
    r := a[..];
    assert n > 0 ==> arr[..n] == arr && r == a[..n];
    assert r == InsertionSorted(arr, sk, reverse);
  }

  /** `s[..i]` is sorted. */
  predicate SortedBelow(s: seq<Record>, i: nat, sk: SortKey, rev: bool) {
    forall p, q :: 0 <= p < q < i && q < |s| ==> !Inverted(s[p], s[q], sk, rev)
  }

  /** No record of `s[i..hi]` need go before the selected `s[sel]`. */
  predicate SelectedFirst(s: seq<Record>, i: nat, sel: nat, hi: nat, sk: SortKey, rev: bool)
    requires sel < |s|
  {
    forall q :: i <= q < hi && q < |s| ==> !Inverted(s[sel], s[q], sk, rev)
  }

  /** One comparison of the scan of `selection_sort`. */
  lemma SelectStep(s: seq<Record>, i: nat, sel: nat, j: nat, sk: SortKey, rev: bool)
    requires i <= sel < j < |s| && SelectedFirst(s, i, sel, j, sk, rev)
    ensures var sel' := if Inverted(s[sel], s[j], sk, rev) then j else sel;
      SelectedFirst(s, i, sel', j + 1, sk, rev)
  {
    KeyLtIrreflexive(KeyOf(s[j], sk));
    if Inverted(s[sel], s[j], sk, rev) {
      forall q | i <= q < j
        ensures !Inverted(s[j], s[q], sk, rev)
      {
        InvertedThenNot(s[sel], s[j], s[q], sk, rev);
      }
    }
  }

  /** Swapping the selected record into position `i` extends the sorted,
      dominating prefix by one. */
  lemma SelectSwap(s: seq<Record>, i: nat, sel: nat, sk: SortKey, rev: bool)
    requires i <= sel < |s|
    requires SortedBelow(s, i, sk, rev) && Dominated(s, i, sk, rev)
    requires SelectedFirst(s, i, sel, |s|, sk, rev)
    ensures SortedBelow(Exchange(s, i, sel), i + 1, sk, rev)
    ensures Dominated(Exchange(s, i, sel), i + 1, sk, rev)
  {
    var t := Exchange(s, i, sel);
    forall p, q | 0 <= p < i + 1 <= q < |t|
      ensures !Inverted(t[p], t[q], sk, rev)
    {
      assert t[p] == if p < i then s[p] else s[sel];
      assert t[q] == if q == sel then s[i] else s[q];
    }
    forall p, q | 0 <= p < q < i + 1
      ensures !Inverted(t[p], t[q], sk, rev)
    {
      assert t[p] == s[p];
      assert t[q] == if q < i then s[q] else s[sel];
    }
  }

  /** The inner loop of `selection_sort`: scans `a[i + 1..]` and moves the
      candidate only to a record that must go before it, so no record of
      `a[i..]` must go before the one selected. When `a[i]`
      already precedes the rest, it stays selected. */
  method ScanFirst(a: array<Record>, i: nat, sk: SortKey, reverse: bool) returns (sel: nat)
    requires i < a.Length
    ensures i <= sel < a.Length
    ensures SelectedFirst(a[..], i, sel, a.Length, sk, reverse)
    ensures (forall q :: i < q < a.Length ==> !Inverted(a[i], a[q], sk, reverse)) ==> sel == i
  {
    sel := i;
    KeyLtIrreflexive(KeyOf(a[i], sk));
    for j := i + 1 to a.Length
      invariant i <= sel < j
      invariant SelectedFirst(a[..], i, sel, j, sk, reverse)
      invariant (forall q :: i < q < a.Length ==> !Inverted(a[i], a[q], sk, reverse)) ==> sel == i
    {
      SelectStep(a[..], i, sel, j, sk, reverse);
      if Inverted(a[sel], a[j], sk, reverse) {
        sel := j;
      }
    }
  }

  /** One round of the outer loop of `selection_sort`: select by the scan,
      then exchange `a[i]` and `a[sel]`. The sorted, dominating prefix grows
      by one; when `a[i]` already precedes the rest nothing moves. */
  method SelectAndSwap(a: array<Record>, i: nat, sk: SortKey, reverse: bool)
    requires i < a.Length
    requires SortedBelow(a[..], i, sk, reverse) && Dominated(a[..], i, sk, reverse)
    modifies a
    ensures SortedBelow(a[..], i + 1, sk, reverse) && Dominated(a[..], i + 1, sk, reverse)
    ensures multiset(a[..]) == multiset(old(a[..]))
    ensures (forall q :: i < q < a.Length ==> !Inverted(old(a[i]), old(a[q]), sk, reverse)) ==> a[..] == old(a[..])
  {
    ghost var s := a[..];
    var sel := ScanFirst(a, i, sk, reverse);
    SelectSwap(s, i, sel, sk, reverse);
    ExchangeMultiset(s, i, sel);
    a[i], a[sel] := a[sel], a[i];
    assert a[..] == Exchange(s, i, sel);
  }

  /** `selection_sort`: for each position, scan for the record that must
      come first (the first one of them, by strict comparison) and swap it
      in. Not stable, but sorted, a permutation, and an already sorted input
      is left exactly as it is. */
  method SelectionSort(arr: seq<Record>, f: Field, reverse: bool) returns (r: seq<Record>)
    ensures Sorted(r, ByField(f), reverse)
    ensures multiset(r) == multiset(arr)
    ensures Sorted(arr, ByField(f), reverse) ==> r == arr
    ensures DistinctKeys(arr, ByField(f)) ==> r == StableSort(arr, ByField(f), reverse)
  {
    var sk := ByField(f);
    var n := |arr|;
    var a := new Record[n](k requires 0 <= k < n => arr[k]);
    assert a[..] == arr;
    for i := 0 to n
      invariant multiset(a[..]) == multiset(arr)
      invariant SortedBelow(a[..], i, sk, reverse) && Dominated(a[..], i, sk, reverse)
      invariant Sorted(arr, sk, reverse) ==> a[..] == arr
    {
      SelectAndSwap(a, i, sk, reverse);
    }
    r := a[..];
    assert SortedBelow(r, n, sk, reverse);
    if DistinctKeys(arr, sk) {
      DistinctSortedIsStable(r, arr, sk, reverse);
    }
  }

  /** The algorithm names the `SORT_ALGS` table knows. */
  datatype SortAlg = Bubble | Insertion | Selection

  /** `SORT_ALGS.get(name, None)`. */
  function LookupSortAlg(name: string): (alg: Option<SortAlg>)
    ensures alg.Some? <==> name in ["bubble", "insertion", "selection"]
  {
    if name == "bubble" then Some(Bubble)
    else if name == "insertion" then Some(Insertion)
    else if name == "selection" then Some(Selection)
    else None
  }

  /** Runs the named algorithm: a sorted permutation in every case, for
      bubble and insertion sort exactly the stable sort (for selection sort
      too when no two records share a key), and an already sorted input
      unchanged. */
  method RunSortAlg(alg: SortAlg, arr: seq<Record>, f: Field, reverse: bool) returns (r: seq<Record>)
    ensures Sorted(r, ByField(f), reverse)
    ensures multiset(r) == multiset(arr)
    ensures alg != Selection || DistinctKeys(arr, ByField(f)) ==> r == StableSort(arr, ByField(f), reverse)
    ensures Sorted(arr, ByField(f), reverse) ==> r == arr
  {
    match alg
    case Bubble =>
      r := BubbleSort(arr, f, reverse);
      if Sorted(arr, ByField(f), reverse) { StableSortSortedUnchanged(arr, ByField(f), reverse); }
    case Insertion =>
      r := InsertionSort(arr, f, reverse);
      if Sorted(arr, ByField(f), reverse) { StableSortSortedUnchanged(arr, ByField(f), reverse); }
    case Selection =>
      r := SelectionSort(arr, f, reverse);
  }
}
