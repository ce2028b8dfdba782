/** What it means for a list of records to be sorted by a key in a
    direction, what a stable sort promises, and the stable sort itself
    (the contract of Python's `sorted(data, key=..., reverse=...)`). */
module SortSpec {
  import opened Seqs
  import opened Records

  /** No record has to move behind a later one: non-decreasing keys, or
      non-increasing ones when `rev`. */
  predicate Sorted(s: seq<Record>, sk: SortKey, rev: bool) {
    forall i, j :: 0 <= i < j < |s| ==> !Inverted(s[i], s[j], sk, rev)
  }

  function HasKey(sk: SortKey, v: Key): Record -> bool {
    (r: Record) => KeyOf(r, sk) == v
  }

  /** The records of `s` whose key is `v`, in their order in `s`. */
  function WithKey(s: seq<Record>, sk: SortKey, v: Key): seq<Record> {
    Filter(s, HasKey(sk, v))
  }

  /** `r` keeps, for every key, the records of `s` with that key in the
      order `s` has them: the stability promise. It also makes `r` a
      permutation of `s`. */
  ghost predicate KeepsTies(r: seq<Record>, s: seq<Record>, sk: SortKey) {
    forall v :: WithKey(r, sk, v) == WithKey(s, sk, v)
  }

  /** Inserts `x` into a sorted `s`, walking left past the records that must
      go after `x` and stopping at the first that need not. */
  function InsertSorted(s: seq<Record>, x: Record, sk: SortKey, rev: bool): seq<Record>
    decreases |s|
  {
    if s == [] then [x]
    else if Inverted(s[|s| - 1], x, sk, rev) then InsertSorted(s[..|s| - 1], x, sk, rev) + [s[|s| - 1]]
    else s + [x]
  }

  /** Insertion sort as a function: insert each record, left to right, into
      the sorted result for the records before it. */
  function InsertionSorted(s: seq<Record>, sk: SortKey, rev: bool): seq<Record>
    decreases |s|
  {
    if s == [] then []
    else InsertSorted(InsertionSorted(s[..|s| - 1], sk, rev), s[|s| - 1], sk, rev)
  }

  lemma {:induction false} InsertionSortedCorrect(s: seq<Record>, sk: SortKey, rev: bool)
    ensures Sorted(InsertionSorted(s, sk, rev), sk, rev)
    ensures multiset(InsertionSorted(s, sk, rev)) == multiset(s)
    ensures KeepsTies(InsertionSorted(s, sk, rev), s, sk)
    decreases |s|
  {
    if s != [] {
      var init := s[..|s| - 1];
      InsertionSortedCorrect(init, sk, rev);
      InsertSortedCorrect(InsertionSorted(init, sk, rev), s[|s| - 1], sk, rev);
      assert s == init + [s[|s| - 1]];
      KeepsTiesAppend(InsertionSorted(init, sk, rev), init, s[|s| - 1], sk);
      KeepsTiesTrans(InsertionSorted(s, sk, rev), InsertionSorted(init, sk, rev) + [s[|s| - 1]], s, sk);
    }
  }

  /** The stable sort (Python's `sorted`): sorted, a permutation, ties in
      input order. `StableSortCharacterized` shows this contract fixes the
      result, so which stable algorithm computes it does not matter. */
  function StableSort(s: seq<Record>, sk: SortKey, rev: bool): (r: seq<Record>)
    ensures Sorted(r, sk, rev)
    ensures multiset(r) == multiset(s)
    ensures KeepsTies(r, s, sk)
  {
    InsertionSortedCorrect(s, sk, rev);
    InsertionSorted(s, sk, rev)
  }

  lemma WithKeySingle(x: Record, sk: SortKey, v: Key)
    ensures WithKey([x], sk, v) == if KeyOf(x, sk) == v then [x] else []
  {
    assert [x][1..] == [];
    assert HasKey(sk, v)(x) <==> KeyOf(x, sk) == v;
    assert WithKey([x], sk, v) == if HasKey(sk, v)(x) then [x] + Filter([x][1..], HasKey(sk, v)) else Filter([x][1..], HasKey(sk, v));
  }

  lemma WithKeyConcat(s: seq<Record>, t: seq<Record>, sk: SortKey, v: Key)
    ensures WithKey(s + t, sk, v) == WithKey(s, sk, v) + WithKey(t, sk, v)
  {
    FilterConcat(s, t, HasKey(sk, v));
  }

  lemma WithKeyMembership(s: seq<Record>, sk: SortKey, v: Key)
    ensures forall x :: x in WithKey(s, sk, v) <==> x in s && KeyOf(x, sk) == v
  {
    FilterMembership(s, HasKey(sk, v));
  }

  /** A non-empty list has a non-empty tie group: that of its first record. */
  lemma WithKeyHead(s: seq<Record>, sk: SortKey)
    ensures s != [] ==> WithKey(s, sk, KeyOf(s[0], sk)) != []
  {
  }

  /** Equal tie groups for every key make the lists permutations of each
      other. */
  lemma KeepsTiesMultiset(r: seq<Record>, s: seq<Record>, sk: SortKey)
    requires KeepsTies(r, s, sk)
    ensures multiset(r) == multiset(s)
  {
    forall x
      ensures multiset(r)[x] == multiset(s)[x]
    {
      var v := KeyOf(x, sk);
      FilterSpec(r, HasKey(sk, v));
      FilterSpec(s, HasKey(sk, v));
      assert WithKey(r, sk, v) == WithKey(s, sk, v);
      assert HasKey(sk, v)(x);
    }
  }

  lemma KeepsTiesTrans(r: seq<Record>, s: seq<Record>, t: seq<Record>, sk: SortKey)
    requires KeepsTies(r, s, sk) && KeepsTies(s, t, sk)
    ensures KeepsTies(r, t, sk)
  {
  }

  /** Appending the same record to two tie-equivalent lists keeps them so. */
  lemma KeepsTiesAppend(r: seq<Record>, s: seq<Record>, x: Record, sk: SortKey)
    requires KeepsTies(r, s, sk)
    ensures KeepsTies(r + [x], s + [x], sk)
  {
    forall v
      ensures WithKey(r + [x], sk, v) == WithKey(s + [x], sk, v)
    {
      WithKeyConcat(r, [x], sk, v);
      WithKeyConcat(s, [x], sk, v);
    }
  }

  /** A sorted list stays sorted when a record that need not precede any of
      its elements is appended. */
  lemma SortedAppend(q: seq<Record>, e: Record, sk: SortKey, rev: bool)
    requires Sorted(q, sk, rev)
    requires forall i :: 0 <= i < |q| ==> !Inverted(q[i], e, sk, rev)
    ensures Sorted(q + [e], sk, rev)
  {
  }

  lemma {:induction false} InsertSortedMultiset(s: seq<Record>, x: Record, sk: SortKey, rev: bool)
    ensures multiset(InsertSorted(s, x, sk, rev)) == multiset(s) + multiset{x}
    decreases |s|
  {
    if s != [] {
      var init, e := s[..|s| - 1], s[|s| - 1];
      assert s == init + [e];
      if Inverted(e, x, sk, rev) {
        InsertSortedMultiset(init, x, sk, rev);
      }
    }
  }

  lemma {:induction false} InsertSortedSorted(s: seq<Record>, x: Record, sk: SortKey, rev: bool)
    requires Sorted(s, sk, rev)
    ensures Sorted(InsertSorted(s, x, sk, rev), sk, rev)
    decreases |s|
  {
    if s != [] {
      var init, e := s[..|s| - 1], s[|s| - 1];
      assert s == init + [e];
      if Inverted(e, x, sk, rev) {
        var q := InsertSorted(init, x, sk, rev);
        assert Sorted(init, sk, rev);
        InsertSortedSorted(init, x, sk, rev);
        InsertSortedMultiset(init, x, sk, rev);
        InvertedAsymmetric(e, x, sk, rev);
        forall i | 0 <= i < |q|
          ensures !Inverted(q[i], e, sk, rev)
        {
          assert q[i] in multiset(q);
          if q[i] != x {
            assert q[i] in multiset(init);
            var k :| 0 <= k < |init| && init[k] == q[i];
            assert s[k] == q[i] && s[|s| - 1] == e;
          }
        }
        SortedAppend(q, e, sk, rev);
      } else {
        forall i | 0 <= i < |s|
          ensures !Inverted(s[i], x, sk, rev)
        {
          if i < |s| - 1 {
            NotInvertedTransitive(s[i], e, x, sk, rev);
          }
        }
        SortedAppend(s, x, sk, rev);
      }
    }
  }

  lemma {:induction false} InsertSortedKeepsTies(s: seq<Record>, x: Record, sk: SortKey, rev: bool)
    ensures KeepsTies(InsertSorted(s, x, sk, rev), s + [x], sk)
    decreases |s|
  {
    if s == [] {
      assert InsertSorted(s, x, sk, rev) == s + [x];
    } else {
      var init, e := s[..|s| - 1], s[|s| - 1];
      assert s == init + [e];
      if Inverted(e, x, sk, rev) {
        var q := InsertSorted(init, x, sk, rev);
        InsertSortedKeepsTies(init, x, sk, rev);
        InvertedAsymmetric(e, x, sk, rev);
        forall v
          ensures WithKey(q + [e], sk, v) == WithKey(s + [x], sk, v)
        {
          WithKeyConcat(q, [e], sk, v);
          WithKeyConcat(init, [x], sk, v);
          WithKeyConcat(init + [e], [x], sk, v);
          WithKeyConcat(init, [e], sk, v);
          WithKeySingle(e, sk, v);
          WithKeySingle(x, sk, v);
        }
      }
    }
  }

  lemma InsertSortedCorrect(s: seq<Record>, x: Record, sk: SortKey, rev: bool)
    ensures multiset(InsertSorted(s, x, sk, rev)) == multiset(s) + multiset{x}
    ensures Sorted(s, sk, rev) ==> Sorted(InsertSorted(s, x, sk, rev), sk, rev)
    ensures KeepsTies(InsertSorted(s, x, sk, rev), s + [x], sk)
  {
    InsertSortedMultiset(s, x, sk, rev);
    if Sorted(s, sk, rev) {
      InsertSortedSorted(s, x, sk, rev);
    }
    InsertSortedKeepsTies(s, x, sk, rev);
  }

  /** The tie group of a non-empty list: its head, if the key fits, then
      the tie group of the rest. */
  lemma WithKeyCons(x: seq<Record>, sk: SortKey, v: Key)
    requires x != []
    ensures WithKey(x, sk, v) ==
      if KeyOf(x[0], sk) == v then [x[0]] + WithKey(x[1..], sk, v) else WithKey(x[1..], sk, v)
  {
    assert HasKey(sk, v)(x[0]) <==> KeyOf(x[0], sk) == v;
  }

  /** Two sorted lists with the same tie groups start with the same record:
      neither head may go after the other, so both have one key, and each
      is the first of that key's group. */
  lemma SortedHeadsEqual(x: seq<Record>, y: seq<Record>, sk: SortKey, rev: bool)
    requires x != [] && y != []
    requires Sorted(x, sk, rev) && Sorted(y, sk, rev) && KeepsTies(x, y, sk)
    ensures x[0] == y[0]
  {
    var a, b := x[0], y[0];
    var ka, kb := KeyOf(a, sk), KeyOf(b, sk);
    WithKeyMembership(x, sk, ka);
    WithKeyMembership(y, sk, ka);
    WithKeyMembership(x, sk, kb);
    WithKeyMembership(y, sk, kb);
    assert a in WithKey(y, sk, ka) by { assert a in WithKey(x, sk, ka); }
    assert b in WithKey(x, sk, kb) by { assert b in WithKey(y, sk, kb); }
    var j :| 0 <= j < |y| && y[j] == a;
    var i :| 0 <= i < |x| && x[i] == b;
    KeyLtIrreflexive(ka);
    KeyLtIrreflexive(kb);
    assert !Inverted(b, a, sk, rev) by { if j > 0 { assert !Inverted(y[0], y[j], sk, rev); } }
    assert !Inverted(a, b, sk, rev) by { if i > 0 { assert !Inverted(x[0], x[i], sk, rev); } }
    NeitherInverted(a, b, sk, rev);
    WithKeyCons(x, sk, ka);
    WithKeyCons(y, sk, ka);
    assert WithKey(x, sk, ka)[0] == a && WithKey(y, sk, ka)[0] == b;
  }

  /** Dropping a common head keeps the tie groups equal. */
  lemma TailsKeepTies(x: seq<Record>, y: seq<Record>, sk: SortKey)
    requires x != [] && y != [] && x[0] == y[0] && KeepsTies(x, y, sk)
    ensures KeepsTies(x[1..], y[1..], sk)
  {
    forall v
      ensures WithKey(x[1..], sk, v) == WithKey(y[1..], sk, v)
    {
      WithKeyCons(x, sk, v);
      WithKeyCons(y, sk, v);
      if KeyOf(x[0], sk) == v {
        assert WithKey(x[1..], sk, v) == WithKey(x, sk, v)[1..];
        assert WithKey(y[1..], sk, v) == WithKey(y, sk, v)[1..];
      }
    }
  }

  lemma SortedTail(x: seq<Record>, sk: SortKey, rev: bool)
    requires x != [] && Sorted(x, sk, rev)
    ensures Sorted(x[1..], sk, rev)
  {
    forall i, j | 0 <= i < j < |x| - 1
      ensures !Inverted(x[1..][i], x[1..][j], sk, rev)
    {
      assert x[1..][i] == x[i + 1] && x[1..][j] == x[j + 1];
    }
  }

  /** The stable sort is the only sorted list that keeps every tie in input
      order, so its contract determines its result. */
  lemma {:induction false} SortedKeepsTiesUnique(x: seq<Record>, y: seq<Record>, sk: SortKey, rev: bool)
    requires Sorted(x, sk, rev) && Sorted(y, sk, rev)
    requires KeepsTies(x, y, sk)
    ensures x == y
    decreases |x|
  {
    if x == [] || y == [] {
      WithKeyHead(x, sk);
      WithKeyHead(y, sk);
      if x != y {
        assert false;
      }
    } else {
      SortedHeadsEqual(x, y, sk, rev);
      TailsKeepTies(x, y, sk);
      SortedTail(x, sk, rev);
      SortedTail(y, sk, rev);
      SortedKeepsTiesUnique(x[1..], y[1..], sk, rev);
      assert x == [x[0]] + x[1..] && y == [y[0]] + y[1..];
    }
  }

  /** An already sorted list comes back unchanged, so sorting is idempotent. */
  lemma StableSortSortedUnchanged(s: seq<Record>, sk: SortKey, rev: bool)
    requires Sorted(s, sk, rev)
    ensures StableSort(s, sk, rev) == s
  {
    SortedKeepsTiesUnique(StableSort(s, sk, rev), s, sk, rev);
  }

  lemma StableSortIdempotent(s: seq<Record>, sk: SortKey, rev: bool)
    ensures StableSort(StableSort(s, sk, rev), sk, rev) == StableSort(s, sk, rev)
  {
    StableSortSortedUnchanged(StableSort(s, sk, rev), sk, rev);
  }

  /** Any sorted list that keeps ties in input order is the stable sort. */
  lemma StableSortCharacterized(r: seq<Record>, s: seq<Record>, sk: SortKey, rev: bool)
    requires Sorted(r, sk, rev) && KeepsTies(r, s, sk)
    ensures r == StableSort(s, sk, rev)
  {
    SortedKeepsTiesUnique(r, StableSort(s, sk, rev), sk, rev);
  }

  /** No two records of `s` share a key. */
  predicate DistinctKeys(s: seq<Record>, sk: SortKey) {
    forall i, j :: 0 <= i < j < |s| ==> KeyOf(s[i], sk) != KeyOf(s[j], sk)
  }

  /** With distinct keys no later record shares the first record's key. */
  lemma DistinctHeadAlone(s: seq<Record>, sk: SortKey)
    requires s != [] && DistinctKeys(s, sk)
    ensures WithKey(s[1..], sk, KeyOf(s[0], sk)) == []
  {
    var t, v := s[1..], KeyOf(s[0], sk);
    forall x | x in t
      ensures KeyOf(x, sk) != v
    {
      var j :| 0 <= j < |t| && t[j] == x;
      assert t[j] == s[j + 1];
    }
    FilterSpec(t, HasKey(sk, v));
    assert multiset(WithKey(t, sk, v)) == multiset{};
  }

  /** With distinct keys every tie group has at most one record. */
  lemma {:induction false} DistinctKeysSingletons(s: seq<Record>, sk: SortKey, v: Key)
    requires DistinctKeys(s, sk)
    ensures |WithKey(s, sk, v)| <= 1
    decreases |s|
  {
    if s != [] {
      var t := s[1..];
      WithKeyCons(s, sk, v);
      assert DistinctKeys(t, sk) by {
        forall i, j | 0 <= i < j < |t|
          ensures KeyOf(t[i], sk) != KeyOf(t[j], sk)
        {
          assert t[i] == s[i + 1] && t[j] == s[j + 1];
        }
      }
      DistinctKeysSingletons(t, sk, v);
      if KeyOf(s[0], sk) == v {
        DistinctHeadAlone(s, sk);
      }
    }
  }

  /** With distinct keys there are no ties to keep: every permutation keeps
      them. */
  lemma DistinctKeepsTies(r: seq<Record>, s: seq<Record>, sk: SortKey)
    requires multiset(r) == multiset(s) && DistinctKeys(s, sk)
    ensures KeepsTies(r, s, sk)
  {
    forall v
      ensures WithKey(r, sk, v) == WithKey(s, sk, v)
    {
      WithKeyPermuted(r, s, sk, v);
      DistinctKeysSingletons(s, sk, v);
      ShortPermutationEqual(WithKey(r, sk, v), WithKey(s, sk, v));
    }
  }

  /** Permuted lists have permuted tie groups. */
  lemma WithKeyPermuted(r: seq<Record>, s: seq<Record>, sk: SortKey, v: Key)
    requires multiset(r) == multiset(s)
    ensures multiset(WithKey(r, sk, v)) == multiset(WithKey(s, sk, v))
  {
    FilterSpec(r, HasKey(sk, v));
    FilterSpec(s, HasKey(sk, v));
  }

  /** With distinct keys the order is fully determined: every sorted
      permutation is the stable sort. */
  lemma DistinctSortedIsStable(r: seq<Record>, s: seq<Record>, sk: SortKey, rev: bool)
    requires Sorted(r, sk, rev) && multiset(r) == multiset(s) && DistinctKeys(s, sk)
    ensures r == StableSort(s, sk, rev)
  {
    DistinctKeepsTies(r, s, sk);
    StableSortCharacterized(r, s, sk, rev);
  }

  /** A list sorted one way is, read backwards, sorted the other way. */
  lemma SortedReversed(x: seq<Record>, sk: SortKey, rev: bool)
    requires Sorted(x, sk, rev)
    ensures Sorted(Reverse(x), sk, !rev)
  {
    var y := Reverse(x);
    ReverseMultiset(x);
    forall i, j | 0 <= i < j < |y|
      ensures !Inverted(y[i], y[j], sk, !rev)
    {
      ReverseIndex(x, i);
      ReverseIndex(x, j);
      assert !Inverted(x[|x| - 1 - j], x[|x| - 1 - i], sk, rev);
    }
  }

  /** Without duplicate keys, the descending sort is the ascending sort
      reversed (and vice versa). */
  lemma StableSortMirror(s: seq<Record>, sk: SortKey, rev: bool)
    requires DistinctKeys(s, sk)
    ensures Reverse(StableSort(s, sk, rev)) == StableSort(s, sk, !rev)
  {
    var r := StableSort(s, sk, rev);
    SortedReversed(r, sk, rev);
    ReverseMultiset(r);
    DistinctSortedIsStable(Reverse(r), s, sk, !rev);
  }
}
