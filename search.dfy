/** The search engine: the linear keyword search `search_students` and the
    approximate `binary_search` with neighbour expansion. */
module Search {
  import opened Strings
  import opened Seqs
  import opened Records
  import opened SortSpec

  /** A record matches a lowercased keyword when the keyword occurs in its
      lowercased NIM, name or department (never its class or IPK). */
  predicate Matches(m: Record, k: string) {
    Contains(Lower(m.nim), k) || Contains(Lower(m.nama), k) || Contains(Lower(m.jurusan), k)
  }

  /** The test as `binary_search` writes it, the name first. */
  predicate MatchesNameFirst(m: Record, k: string) {
    Contains(Lower(m.nama), k) || Contains(Lower(m.nim), k) || Contains(Lower(m.jurusan), k)
  }

  lemma NameFirstMatches(m: Record, k: string)
    ensures Matches(m, k) <==> MatchesNameFirst(m, k)
  {
  }

  function Matcher(k: string): Record -> bool {
    (m: Record) => Matches(m, k)
  }

  /** `search_students`: the records matching the lowercased keyword, in
      their original relative order. */
  function SearchStudents(arr: seq<Record>, keyword: string): (r: seq<Record>)
    ensures forall m :: m in r <==> m in arr && Matches(m, Lower(keyword))
    ensures forall m :: multiset(r)[m] == if Matches(m, Lower(keyword)) then multiset(arr)[m] else 0
    ensures IsSubseq(r, arr)
    decreases |arr|
  {
    if arr == [] then []
    else
      assert arr == [arr[0]] + arr[1..];
      if Matches(arr[0], Lower(keyword)) then [arr[0]] + SearchStudents(arr[1..], keyword)
      else SearchStudents(arr[1..], keyword)
  }

  /** The linear search is the comprehension that the pipeline's
      "sequential" method writes out, so the two methods agree; with
      `FilterSpec` this also says each match is kept as often as it occurs. */
  lemma {:induction false} SequentialIsLinear(arr: seq<Record>, keyword: string)
    ensures Filter(arr, Matcher(Lower(keyword))) == SearchStudents(arr, keyword)
    decreases |arr|
  {
    if arr != [] {
      SequentialIsLinear(arr[1..], keyword);
    }
  }

  /** The search ignores the keyword's case: searching for the lowered
      keyword finds exactly what searching for the keyword finds. */
  lemma {:induction false} SearchIgnoresKeywordCase(arr: seq<Record>, keyword: string)
    ensures SearchStudents(arr, Lower(keyword)) == SearchStudents(arr, keyword)
    decreases |arr|
  {
    LowerIdempotent(keyword);
    if arr != [] {
      SearchIgnoresKeywordCase(arr[1..], keyword);
    }
  }

  /** The copy `binary_search` works on: sorted by lowercased name, stably. */
  function NameSorted(arr: seq<Record>): (r: seq<Record>)
    ensures Sorted(r, ByLowerName, false)
    ensures multiset(r) == multiset(arr)
    ensures KeepsTies(r, arr, ByLowerName)
  {
    StableSort(arr, ByLowerName, false)
  }

  /** The probe loop `while left <= right`: the first probed index whose
      record matches, or `None` when the window closes first. A miss moves
      left when the keyword sorts before the probed name, else right. */
  function Probe(a: seq<Record>, k: string, left: int, right: int): (r: Option<nat>)
    requires 0 <= left <= |a| && -1 <= right < |a|
    ensures r.Some? ==> left <= r.value <= right && Matches(a[r.value], k)
    ensures left > right ==> r.None?
    decreases right - left + 1
  {
    if left > right then None
    else
      var mid := (left + right) / 2;
      if Matches(a[mid], k) then Some(mid)
      else if StrLt(k, Lower(a[mid].nama)) then Probe(a, k, left, mid - 1)
      else Probe(a, k, mid + 1, right)
  }

  /** Where the walk left from `i` stops: the run of matches ending at `i`
      starts at the result, and the record before it (if any) does not match. */
  function RunStart(a: seq<Record>, k: string, i: int): (lo: int)
    requires -1 <= i < |a|
    ensures 0 <= lo <= i + 1
    ensures forall t :: lo <= t <= i ==> Matches(a[t], k)
    ensures lo == 0 || !Matches(a[lo - 1], k)
    decreases i + 1
  {
    if i < 0 || !Matches(a[i], k) then i + 1 else RunStart(a, k, i - 1)
  }

  /** Where the walk right from `i` stops: all of `a[i..hi]` match, and the
      record at `hi` (if any) does not. */
  function RunEnd(a: seq<Record>, k: string, i: int): (hi: int)
    requires 0 <= i <= |a|
    ensures i <= hi <= |a|
    ensures forall t :: i <= t < hi ==> Matches(a[t], k)
    ensures hi == |a| || !Matches(a[hi], k)
    decreases |a| - i
  {
    if i == |a| || !Matches(a[i], k) then i else RunEnd(a, k, i + 1)
  }

  /** What the probing and neighbour walks of `binary_search` collect from
      the sorted copy `a`: nothing when no probe matches; otherwise the
      maximal run of matches around the first matching probe `mid`, as
      `a[mid], a[mid-1], ...` then `a[mid+1], ...`. */
  function Collected(a: seq<Record>, k: string): seq<Record> {
    match Probe(a, k, 0, |a| - 1)
    case None => []
    case Some(mid) => RunAround(a, k, mid)
  }

  /** The two arms around a matching probe `mid`: the left arm read
      downwards from `mid`, then the right arm read upwards from `mid + 1`. */
  function RunAround(a: seq<Record>, k: string, mid: nat): seq<Record>
    requires mid < |a|
  {
    Reverse(a[RunStart(a, k, mid)..mid + 1]) + a[mid + 1..RunEnd(a, k, mid + 1)]
  }

  /** The run collected once the first matching probe is `mid`. */
  lemma CollectedAt(a: seq<Record>, k: string, mid: nat)
    requires mid < |a| && Probe(a, k, 0, |a| - 1) == Some(mid)
    ensures Collected(a, k) == RunAround(a, k, mid)
  {
  }

  /** A matching probe whose neighbours both miss is collected alone. */
  lemma CollectedSingle(a: seq<Record>, k: string, mid: nat)
    requires mid < |a| && Probe(a, k, 0, |a| - 1) == Some(mid)
    requires RunStart(a, k, mid) == mid && RunEnd(a, k, mid + 1) == mid + 1
    ensures Collected(a, k) == [a[mid]]
  {
    CollectedAt(a, k, mid);
    assert a[mid..mid + 1] == [a[mid]] && a[mid + 1..mid + 1] == [];
    assert Reverse([a[mid]]) == [a[mid]] by {
      assert [a[mid]][1..] == [];
    }
  }

  lemma CollectedNone(a: seq<Record>, k: string)
    requires Probe(a, k, 0, |a| - 1).None?
    ensures Collected(a, k) == []
  {
  }

  /** Every collected record matches and comes from `a`, none more often
      than it occurs there. */
  lemma CollectedFacts(a: seq<Record>, k: string)
    ensures forall x :: x in Collected(a, k) ==> x in a && Matches(x, k)
    ensures multiset(Collected(a, k)) <= multiset(a)
    ensures |Collected(a, k)| <= |a|
  {
    match Probe(a, k, 0, |a| - 1)
    case None =>
    case Some(mid) =>
      BinaryResultFromRun(a, a, k, RunStart(a, k, mid), mid, RunEnd(a, k, mid + 1));
  }

  /** What `binary_search` returns: the run collected from the copy sorted by
      lowercased name. Every returned record matches and comes from the
      input, and none is returned more often than it occurs there. */
  function BinaryResult(arr: seq<Record>, keyword: string): (r: seq<Record>)
    ensures forall x :: x in r ==> x in arr && Matches(x, Lower(keyword))
    ensures multiset(r) <= multiset(arr)
    ensures |r| <= |arr|
    ensures arr == [] ==> r == []
  {
    var a := NameSorted(arr);
    CollectedFacts(a, Lower(keyword));
    var r := Collected(a, Lower(keyword));
    assert forall x :: x in r ==> x in multiset(a);
    r
  }

  lemma BinaryResultFromRun(a: seq<Record>, arr: seq<Record>, k: string, lo: int, mid: int, hi: int)
    requires multiset(a) == multiset(arr)
    requires 0 <= lo <= mid < hi <= |a|
    requires forall t :: lo <= t < hi ==> Matches(a[t], k)
    ensures forall x :: x in Reverse(a[lo..mid + 1]) + a[mid + 1..hi] ==> x in arr && Matches(x, k)
    ensures multiset(Reverse(a[lo..mid + 1]) + a[mid + 1..hi]) <= multiset(arr)
    ensures |Reverse(a[lo..mid + 1]) + a[mid + 1..hi]| <= |arr|
  {
    var r := Reverse(a[lo..mid + 1]) + a[mid + 1..hi];
    ReverseMultiset(a[lo..mid + 1]);
    assert a[lo..hi] == a[lo..mid + 1] + a[mid + 1..hi];
    assert multiset(r) == multiset(a[lo..hi]);
    SliceMultiset(a, lo, hi);
    forall x | x in r
      ensures x in arr && Matches(x, k)
    {
      assert x in multiset(a[lo..hi]);
      var t :| 0 <= t < hi - lo && a[lo..hi][t] == x;
      assert a[lo + t] == x;
      assert x in multiset(arr);
    }
    assert |r| == |multiset(r)| <= |multiset(arr)| == |arr| by {
      assert multiset(arr) == multiset(r) + (multiset(arr) - multiset(r));
    }
  }

  /** The left neighbour walk of `binary_search` from a matching probe
      `mid`: while records match, append `a[mid], a[mid-1], ...`. */
  method WalkLeft(a: seq<Record>, k: string, mid: nat) returns (result: seq<Record>)
    requires mid < |a|
    ensures result == Reverse(a[RunStart(a, k, mid)..mid + 1])
  {
    result := [];
    var i: int := mid;
    while i >= 0 && MatchesNameFirst(a[i], k)
      invariant -1 <= i <= mid
      invariant RunStart(a, k, i) == RunStart(a, k, mid)
      invariant result == Reverse(a[i + 1..mid + 1])
    {
      NameFirstMatches(a[i], k);
      assert a[i..mid + 1][1..] == a[i + 1..mid + 1];
      result := result + [a[i]];
      i := i - 1;
    }
    if i >= 0 {
      NameFirstMatches(a[i], k);
    }
  }

  /** The right neighbour walk: from `start`, while records match, append
      `a[start], a[start+1], ...` to what the left walk collected. */
  method WalkRight(a: seq<Record>, k: string, start: nat, collected: seq<Record>) returns (result: seq<Record>)
    requires start <= |a|
    ensures result == collected + a[start..RunEnd(a, k, start)]
  {
    result := collected;
    var i := start;
    while i < |a| && MatchesNameFirst(a[i], k)
      invariant start <= i <= |a|
      invariant RunEnd(a, k, i) == RunEnd(a, k, start)
      invariant result == collected + a[start..i]
    {
      NameFirstMatches(a[i], k);
      assert a[start..i + 1] == a[start..i] + [a[i]];
      result := result + [a[i]];
      i := i + 1;
    }
    if i < |a| {
      NameFirstMatches(a[i], k);
    }
  }

  /** `binary_search`: works on a copy sorted by lowercased name, so the
      caller's list is a value and is never reordered. */
  method BinarySearch(arr: seq<Record>, keyword: string) returns (result: seq<Record>)
    ensures result == BinaryResult(arr, keyword)
  {
    var k := Lower(keyword);
    var arrSorted := NameSorted(arr);
    result := ProbeAndCollect(arrSorted, k);
  }

  /** The loop of `binary_search`: find the first matching probe by
      bisection, then walk left collecting matches, then right from the next
      index. The walks end with `break`, so no probing follows them. */
  method ProbeAndCollect(a: seq<Record>, k: string) returns (result: seq<Record>)
    ensures result == Collected(a, k)
  {
    var found := Bisect(a, k);
    match found
    case None =>
      CollectedNone(a, k);
      result := [];
    case Some(mid) =>
      CollectedAt(a, k, mid);
      result := WalkLeft(a, k, mid);
      result := WalkRight(a, k, mid + 1, result);
  }

  /** The probing of `while left <= right`: the midpoint by floor division,
      a match tested name first, and on a miss the half chosen by
      `keyword < midval`. */
  method Bisect(a: seq<Record>, k: string) returns (found: Option<nat>)
    ensures found == Probe(a, k, 0, |a| - 1)
    ensures found.Some? ==> found.value < |a|
  {
    var left, right := 0, |a| - 1;
    while left <= right
      invariant 0 <= left <= |a| && -1 <= right < |a|
      invariant Probe(a, k, left, right) == Probe(a, k, 0, |a| - 1)
      decreases right - left + 1
    {
      var mid := (left + right) / 2;
      var midval := Lower(a[mid].nama);
      NameFirstMatches(a[mid], k);
      if MatchesNameFirst(a[mid], k) {
        return Some(mid);
      } else if StrLt(k, midval) {
        right := mid - 1;
      } else {
        left := mid + 1;
      }
    }
    found := None;
  }

  /** The binary search is approximate: it finds at most what the linear
      search finds, each record no more often. */
  lemma BinaryWithinLinear(arr: seq<Record>, keyword: string)
    ensures multiset(BinaryResult(arr, keyword)) <= multiset(SearchStudents(arr, keyword))
  {
    var k := Lower(keyword);
    var r := BinaryResult(arr, keyword);
    SequentialIsLinear(arr, keyword);
    FilterSpec(arr, Matcher(k));
    forall x
      ensures multiset(r)[x] <= multiset(SearchStudents(arr, keyword))[x]
    {
      if !Matches(x, k) {
        assert x !in r;
      }
    }
  }

  /** Two students for the example below. */
  const Amir := Record("220000000001", "Amir", "A1", 3.0, "Hukum")
  const Bala := Record("220000000002", "Bala", "A1", 3.5, "Hukum")

  lemma AmirBalaNameSorted()
    ensures NameSorted([Amir, Bala]) == [Amir, Bala]
  {
    assert Lower(Amir.nama) == "amir" && Lower(Bala.nama) == "bala";
    assert StrLt("amir", "bala");
    StrLtAsymmetric("amir", "bala");
    assert Sorted([Amir, Bala], ByLowerName, false);
    StableSortSortedUnchanged([Amir, Bala], ByLowerName, false);
  }

  /** A record misses a keyword one of whose characters none of its
      searched fields contains. */
  lemma MissesWithoutChar(m: Record, k: string, j: nat)
    requires j < |k|
    requires k[j] !in Lower(m.nim) && k[j] !in Lower(m.nama) && k[j] !in Lower(m.jurusan)
    ensures !Matches(m, k)
  {
    MissingCharNotContained(Lower(m.nim), k, j);
    MissingCharNotContained(Lower(m.nama), k, j);
    MissingCharNotContained(Lower(m.jurusan), k, j);
  }

  lemma AmirMissesAla()
    ensures !Matches(Amir, "ala")
  {
    assert 'l' !in Lower(Amir.nim) by { assert Lower(Amir.nim) == "220000000001"; }
    assert 'l' !in Lower(Amir.nama) by { assert Lower(Amir.nama) == "amir"; }
    assert 'l' !in Lower(Amir.jurusan) by { assert Lower(Amir.jurusan) == "hukum"; }
    MissesWithoutChar(Amir, "ala", 1);
  }

  lemma BalaMatchesAla()
    ensures Matches(Bala, "ala")
  {
    assert Lower(Bala.nama) == "bala";
    ContainsAt("bala", "ala", 1);
  }

  /** ... and may find less: with names "Amir" and "Bala" the keyword "ala"
      sorts before the first probe "amir", so the probe window closes on
      the left and nothing is found ... */
  lemma BinaryMissesBala(arr: seq<Record>, keyword: string)
    requires arr == [Amir, Bala] && keyword == "ala"
    ensures BinaryResult(arr, keyword) == []
  {
    AmirBalaNameSorted();
    AmirMissesAla();
    assert Lower(keyword) == keyword;
    assert StrLt(keyword, Lower(Amir.nama)) by {
      assert Lower(Amir.nama) == "amir";
    }
    assert Probe(arr, keyword, 0, 1) == None;
  }

  /** ... while the linear search finds "Bala". */
  lemma LinearFindsBala(arr: seq<Record>, keyword: string)
    requires arr == [Amir, Bala] && keyword == "ala"
    ensures SearchStudents(arr, keyword) == [Bala]
  {
    AmirMissesAla();
    BalaMatchesAla();
    assert Lower(keyword) == keyword;
    assert arr[1..] == [Bala];
  }

  const Cinta := Record("220000000003", "Cinta", "A1", 3.2, "Hukum")
  const Dara := Record("220000000004", "Dara", "A1", 3.8, "Hukum")

  lemma FourNamesSorted(arr: seq<Record>)
    requires arr == [Amir, Bala, Cinta, Dara]
    ensures NameSorted(arr) == arr
  {
    assert Lower(Amir.nama) == "amir" && Lower(Bala.nama) == "bala";
    assert Lower(Cinta.nama) == "cinta" && Lower(Dara.nama) == "dara";
    assert Sorted(arr, ByLowerName, false) by {
      forall i, j | 0 <= i < j < 4
        ensures !Inverted(arr[i], arr[j], ByLowerName, false)
      {
        assert Lower(arr[i].nama)[0] < Lower(arr[j].nama)[0];
      }
    }
    StableSortSortedUnchanged(arr, ByLowerName, false);
  }

  lemma MissesDara(m: Record)
    requires m in [Amir, Bala, Cinta]
    ensures !Matches(m, "dara")
  {
    assert 'd' !in Lower(m.nim) by { assert Lower(m.nim) == m.nim; }
    assert 'd' !in Lower(m.nama) by {
      if m == Amir {
        assert Lower(m.nama) == "amir";
      } else if m == Bala {
        assert Lower(m.nama) == "bala";
      } else {
        assert Lower(m.nama) == "cinta";
      }
    }
    assert 'd' !in Lower(m.jurusan) by { assert Lower(m.jurusan) == "hukum"; }
    MissesWithoutChar(m, "dara", 0);
  }

  lemma DaraMatchesDara()
    ensures Matches(Dara, "dara")
  {
    assert Lower(Dara.nama) == "dara";
    ContainsAt("dara", "dara", 0);
  }

  /** The probe sequence for "dara": "bala" (the keyword sorts after it, go
      right), "cinta" (after it again), then "dara", which matches. */
  lemma ProbeReachesDara(arr: seq<Record>, k: string)
    requires arr == [Amir, Bala, Cinta, Dara] && k == "dara"
    ensures Probe(arr, k, 0, |arr| - 1) == Some(3)
  {
    MissesDara(Bala);
    MissesDara(Cinta);
    DaraMatchesDara();
    assert Lower(Bala.nama) == "bala" && Lower(Cinta.nama) == "cinta";
    assert !StrLt(k, "bala") && !StrLt(k, "cinta");
    assert Probe(arr, k, 3, 3) == Some(3);
    assert Probe(arr, k, 2, 3) == Some(3);
  }

  /** Around "Dara" nothing else matches: the walk left stops at "Cinta",
      the walk right at the end. */
  lemma DaraRun(arr: seq<Record>, k: string)
    requires arr == [Amir, Bala, Cinta, Dara] && k == "dara"
    ensures RunStart(arr, k, 3) == 3 && RunEnd(arr, k, 4) == 4
  {
    MissesDara(Cinta);
    DaraMatchesDara();
    assert RunStart(arr, k, 2) == 3;
  }

  /** The lowered keyword "dara" is anchored at index 3 and nothing around
      it matches. */
  lemma DaraAnchor(arr: seq<Record>, keyword: string)
    requires arr == [Amir, Bala, Cinta, Dara] && keyword == "dara"
    ensures Lower(keyword) == keyword
    ensures Probe(arr, Lower(keyword), 0, |arr| - 1) == Some(3)
    ensures RunStart(arr, Lower(keyword), 3) == 3 && RunEnd(arr, Lower(keyword), 4) == 4
  {
    LowerDara(keyword);
    ProbeReachesDara(arr, keyword);
    DaraRun(arr, keyword);
  }

  lemma LowerDara(k: string)
    requires k == "dara"
    ensures Lower(k) == k
  {
  }

  /** `binary_search` collects from its name-sorted copy, with the keyword
      lowered. */
  lemma BinaryResultIsCollected(arr: seq<Record>, keyword: string)
    ensures BinaryResult(arr, keyword) == Collected(NameSorted(arr), Lower(keyword))
  {
  }

  /** On an input already in name order, a matching probe whose neighbours
      both miss is the whole result. */
  lemma BinaryOfSingle(arr: seq<Record>, keyword: string, mid: nat)
    requires NameSorted(arr) == arr && mid < |arr|
    requires Probe(arr, Lower(keyword), 0, |arr| - 1) == Some(mid)
    requires RunStart(arr, Lower(keyword), mid) == mid && RunEnd(arr, Lower(keyword), mid + 1) == mid + 1
    ensures BinaryResult(arr, keyword) == [arr[mid]]
  {
    BinaryResultIsCollected(arr, keyword);
    CollectedSingle(arr, Lower(keyword), mid);
  }

  /** A found anchor with non-matching neighbours is all that is returned:
      with names "Amir", "Bala", "Cinta", "Dara" and keyword "dara", the
      search probes its way to "Dara" and expands to nothing more. */
  lemma BinaryFindsDara(arr: seq<Record>, keyword: string)
    requires arr == [Amir, Bala, Cinta, Dara] && keyword == "dara"
    ensures BinaryResult(arr, keyword) == [Dara]
  {
    FourNamesSorted(arr);
    DaraAnchor(arr, keyword);
    BinaryOfSingle(arr, keyword, 3);
  }
}
