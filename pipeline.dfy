/** The query pipeline of the listing page (`index`): department filter,
    then keyword search by the chosen method, then sort by the chosen
    algorithm, field and direction. */
module Pipeline {
  import opened Strings
  import opened Seqs
  import opened Records
  import opened SortSpec
  import opened Search
  import opened Sorting

  function InDept(jurusan: string): Record -> bool {
    (m: Record) => m.jurusan == jurusan
  }

  /** The department filter: an empty filter keeps every record; otherwise
      exactly the records of that department, each as often as it occurs,
      in their original order. */
  function FilterDept(data: seq<Record>, jurusan: string): (r: seq<Record>)
    ensures jurusan == "" ==> r == data
    ensures forall m :: multiset(r)[m] == if jurusan == "" || m.jurusan == jurusan then multiset(data)[m] else 0
    ensures IsSubseq(r, data)
  {
    if jurusan == "" then
      IsSubseqReflexive(data);
      data
    else
      FilterSpec(data, InDept(jurusan));
      Filter(data, InDept(jurusan))
  }

  /** The search stage: skipped for an empty keyword, and for a method name
      other than "linear", "sequential" and "binary". Every method returns
      only input records, none more often than it occurs. */
  function Searched(data: seq<Record>, q: string, searchMethod: string): (r: seq<Record>)
    ensures q == "" || searchMethod !in ["linear", "sequential", "binary"] ==> r == data
    ensures q != "" && searchMethod in ["linear", "sequential"] ==> r == SearchStudents(data, q)
    ensures q != "" && searchMethod == "binary" ==> r == BinaryResult(data, q)
    ensures multiset(r) <= multiset(data)
  {
    if q == "" then data
    else if searchMethod == "linear" then
      SearchBounded(data, q);
      SearchStudents(data, q)
    else if searchMethod == "sequential" then
      SequentialIsLinear(data, q);
      SearchBounded(data, q);
      Filter(data, Matcher(Lower(q)))
    else if searchMethod == "binary" then BinaryResult(data, q)
    else data
  }

  lemma SearchBounded(data: seq<Record>, q: string)
    ensures multiset(SearchStudents(data, q)) <= multiset(data)
  {
    SequentialIsLinear(data, q);
    FilterSpec(data, Matcher(Lower(q)));
  }

  /** What the filter and search stages leave for the sort. */
  function Found(data: seq<Record>, q: string, jurusan: string, searchMethod: string): seq<Record> {
    Searched(FilterDept(data, jurusan), q, searchMethod)
  }

  /** The page's rows, or the `AttributeError` that `getattr` raises for a
      `sort_field` no record has. */
  datatype Listing = Rows(rows: seq<Record>) | NoAttribute(name: string)

  /** A sort algorithm is used only when `sort_alg` and `sort_field` are both
      non-empty; otherwise the stable `sorted`. */
  predicate AlgChosen(sortAlg: string, sortField: string) {
    sortAlg != "" && sortField != ""
  }

  /** The body of `index` after the data is loaded. `q` is the keyword after
      `strip()`. */
  method Index(data: seq<Record>, q: string, jurusan: string, searchMethod: string,
               sortAlg: string, sortField: string, order: string) returns (r: Listing)
    ensures var found := Found(data, q, jurusan, searchMethod);
      r.NoAttribute? <==>
        ParseField(sortField).None? &&
        (if AlgChosen(sortAlg, sortField) then LookupSortAlg(sortAlg).Some? && |found| >= 2 else |found| >= 1)
    ensures r.NoAttribute? ==> r.name == sortField
    ensures var found := Found(data, q, jurusan, searchMethod);
      r.Rows? ==> multiset(r.rows) == multiset(found)
    ensures var found := Found(data, q, jurusan, searchMethod);
      (r.Rows? && (ParseField(sortField).None? || (AlgChosen(sortAlg, sortField) && LookupSortAlg(sortAlg).None?)))
      ==> r.rows == found
    ensures var found := Found(data, q, jurusan, searchMethod);
      !AlgChosen(sortAlg, sortField) && ParseField(sortField).Some? ==>
        r == Rows(StableSort(found, ByField(ParseField(sortField).value), order == "desc"))
    ensures var found := Found(data, q, jurusan, searchMethod);
      AlgChosen(sortAlg, sortField) && LookupSortAlg(sortAlg).Some? && ParseField(sortField).Some? ==>
        && r.Rows?
        && Sorted(r.rows, ByField(ParseField(sortField).value), order == "desc")
        && (LookupSortAlg(sortAlg) != Some(Selection) || DistinctKeys(found, ByField(ParseField(sortField).value)) ==>
              r.rows == StableSort(found, ByField(ParseField(sortField).value), order == "desc"))
        && (Sorted(found, ByField(ParseField(sortField).value), order == "desc") ==> r.rows == found)
  {
    var rows := FilterDept(data, jurusan);
    if q != "" {
      if searchMethod == "linear" {
        rows := SearchStudents(rows, q);
      } else if searchMethod == "sequential" {
        rows := Filter(rows, Matcher(Lower(q)));
        SequentialIsLinear(FilterDept(data, jurusan), q);
      } else if searchMethod == "binary" {
        rows := BinarySearch(rows, q);
      }
    }
    assert rows == Found(data, q, jurusan, searchMethod);
    var reverse := order == "desc";
    if sortAlg != "" && sortField != "" {
      var alg := LookupSortAlg(sortAlg);
      if alg.Some? {
        var f := ParseField(sortField);
        if f.None? {
          if |rows| >= 2 {
            return NoAttribute(sortField);
          }
        } else {
          rows := RunSortAlg(alg.value, rows, f.value, reverse);
        }
      }
    } else {
      var f := ParseField(sortField);
      if f.None? {
        if |rows| >= 1 {
          return NoAttribute(sortField);
        }
      } else {
        rows := StableSort(rows, ByField(f.value), reverse);
      }
    }
    r := Rows(rows);
  }

  /** Whatever the stages, the page lists only stored records of the
      requested department that match the keyword (when one is given and
      the method is linear or sequential). */
  lemma FoundRecords(data: seq<Record>, q: string, jurusan: string, searchMethod: string, m: Record)
    requires m in Found(data, q, jurusan, searchMethod)
    ensures m in data
    ensures jurusan != "" ==> m.jurusan == jurusan
    ensures q != "" && searchMethod in ["linear", "sequential", "binary"] ==> Matches(m, Lower(q))
  {
    var d := FilterDept(data, jurusan);
    var f := Found(data, q, jurusan, searchMethod);
    assert multiset(f)[m] > 0;
    assert multiset(d)[m] > 0;
  }
}
