# Student records query engine, in Dafny

A model of the record engine behind a small web application for student
records (`Mahasiswa`, app.py:25-31). A record has a NIM (student number),
name (`nama`), class (`kelas`), grade-point average (`ipk`) and department
(`jurusan`). The model covers:

- the admission rules `validate_input`, checked in order, first failure wins;
- the linear keyword search `search_students` and its "sequential" twin;
- the approximate `binary_search`. It probes a name-sorted copy by
  bisection and expands around the first matching probe;
- the three quadratic sorts `bubble_sort`, `insertion_sort` and
  `selection_sort`, the `SORT_ALGS` table, and the stable `sorted` default;
- the listing pipeline of `index`: department filter, then search, then sort;
- the list rules of `tambah` (add), `delete` and `edit`.

Modules, one per concern:

- `Strings`: ASCII case mapping, `k in s` and Python's `str` order.
- `Seqs`: comprehension filters, subsequences and reversal.
- `Records`: the record, the field enumeration and the key order.
- `SortSpec`: what sorted and stable mean, and the stable sort itself.
- `Sorting`: the three quadratic sorts and the `SORT_ALGS` dispatch.
- `Search`: the linear and binary searches.
- `Validation`: `validate_input`.
- `Pipeline`: the body of `index`.
- `Roster`: the stored list with add, delete and edit.

The sorts and the binary search loop are imperative in the source, and the
model keeps that form:

- each sort copies its input into an array, as `a = arr[:]` does, and
  swaps or shifts entries in place;
- each inner loop is a method on that array. `ShiftInsert` is proved equal
  to a function of the array's old contents (`InsertSorted`). `BubblePass`
  and `SelectAndSwap` are proved to keep and extend predicates on the array
  (`SortedFrom`, `Dominated`, `KeepsTies`). `ScanFirst` only reads the array
  and returns an index characterised by its contract;
- the binary search loop is a method. It is proved equal to the function
  `Collected`, which states the run it gathers.

The roster is a class over a `seq` of records that `Tambah`, `Delete` and
`Edit` update.

The stable sort (`SortSpec.StableSort`) is defined by a functional
insertion sort. Its contract is: sorted, a permutation, and ties kept in
input order. `SortedKeepsTiesUnique` shows that this contract allows only
one result, so it is Python's `sorted`, whichever algorithm computes it.
`BubbleSort` and `InsertionSort` are proved to return exactly that list.
`SelectionSort` is proved sorted and a permutation, and equal to it
whenever no two records share a key.

Where the project's own prose and the code differ, the model follows the
code:

- A `sort_field` that is not a record attribute is not silently replaced
  by a default. `getattr` raises `AttributeError` (app.py:140, 253), which
  the model reports as `NoAttribute`. The default `sorted` computes the key
  of every record first, so it raises for a single record. The three
  quadratic sorts call `getattr` only when they compare, so they raise only
  for two or more records.
- An unknown `method` applies no search (app.py:235-241).
- An unknown non-empty `sort_alg` with a non-empty `sort_field` leaves the
  order as it is (app.py:245-250). With an empty `sort_field` the test at
  app.py:245 fails whatever `sort_alg` is, so the default `sorted` runs
  with `getattr(x, "")` and raises for any non-empty list.

## Model

| member | source | states |
|---|---|---|
| Validation.Satisfies | app.py:44-56 | Rule `e` holds of the candidate: the NIM, name and class patterns, `float(ipk)` parsing, `0.0 <= ipk <= 4.0`, and the department being one of the seven names of `JURUSAN_LIST` (app.py:12-20, the constant `Validation.JURUSAN_LIST`). |
| Validation.Validate | app.py:43-58 | Accepts exactly when all six rules hold. A rejection names a rule that fails, and every rule checked before it holds, so the first failing rule in the order NIM, name, class, IPK parse, IPK range, department is reported. |
| Validation.MessageIdentifiesRule | app.py:44-57 | The six error messages are pairwise different, so the flashed message identifies the failed rule. |
| Validation.UpperKeepsKelasFormat | app.py:48 | With ASCII upper-casing, upper-casing the class label before validation (app.py:277) never changes whether it passes `^[A-Za-z0-9]+$`. |
| Validation.Message | app.py:44-57 | The message each rule raises, the source's text verbatim. |
| Validation.Anchored | app.py:44 | The text a `^...$` pattern must cover: the input without one final newline, since Python's `$` also matches before it. |
| Validation.NimFormat | app.py:44 | The test `re.match(r'^\d{12}$', nim)`. |
| Validation.NimFormatMeaning | app.py:44 | The NIM rule accepts exactly twelve ASCII digits, optionally followed by a single newline. |
| Validation.NamaFormat | app.py:46 | The test `re.match(r'^[A-Za-z ]+$', nama)`. |
| Validation.NamaFormatMeaning | app.py:46 | The name rule accepts exactly a non-empty run of ASCII letters and spaces, optionally followed by a single newline. |
| Validation.KelasFormat | app.py:48 | The test `re.match(r'^[A-Za-z0-9]+$', kelas)`. |
| Validation.KelasFormatMeaning | app.py:48 | The class rule accepts exactly a non-empty run of ASCII letters and digits, optionally followed by a single newline. |
| Validation.ValidationExamples | app.py:43-58 | Too short a NIM, a name with digits, an IPK of 4.5 and the department "Biology" are each rejected by their own rule. The reference record is accepted, also with a NIM followed by one newline, which Python's `$` admits. |
| Strings.Lower | app.py:107 | `s.lower()`: each ASCII capital letter mapped to its small letter, every other character kept, the length unchanged. |
| Strings.Upper | app.py:277 | `s.upper()`: each ASCII small letter mapped to its capital, every other character kept, the length unchanged. |
| Strings.LowerIdempotent | app.py:106 | Lowering an already lowered keyword changes nothing. |
| Strings.Contains | app.py:108 | `k in s`: `k` occurs in `s` as a contiguous substring at some index. |
| Strings.ContainsAt | app.py:108 | An occurrence of the keyword at some index makes `k in s` true. |
| Strings.ContainsChars | app.py:108 | Every character of a contained keyword occurs in the string. |
| Strings.MissingCharNotContained | app.py:108 | A keyword with a character absent from the string is not contained in it. |
| Strings.StrLt | app.py:128 | `keyword < midval`: lexicographic by code point at the first differing position, a proper prefix sorting first. |
| Strings.StrLtIrreflexive | app.py:128 | No string sorts before itself under Python's `str` order. |
| Strings.StrLtTransitive | app.py:128 | Python's `str` order is transitive. |
| Strings.StrLtTotal | app.py:128 | Any two different strings are ordered one way or the other. |
| Strings.StrLtAsymmetric | app.py:128 | Two strings are never each before the other. |
| Records.ParseField | app.py:140-141 | `getattr` finds exactly the five attribute names `nim`, `nama`, `kelas`, `ipk`, `jurusan`, each mapping back to its own name. |
| Records.KeyOf | app.py:140-141 | `getattr(x, key)` for one of the five fields (text for `nim`, `nama`, `kelas`, `jurusan`, a number for `ipk`), and the lowered name `x.nama.lower()` that the binary search sorts by (app.py:113). |
| Records.Inverted | app.py:142 | The swap test `(v1 > v2 and not reverse) or (v1 < v2 and reverse)` for `x` before `y`: with `rev` false, `x`'s key is greater than `y`'s; with `rev` true, it is smaller. `Inverted(a[j], a[j+1])` is bubble sort's test, `Inverted(a[j], current)` the insertion shift test at app.py:154, and `Inverted(a[sel], a[j])` selection sort's test at app.py:170. |
| Records.KeyLtTotal | app.py:142 | Two different sort keys are ordered one way or the other. |
| Records.NotInvertedTransitive | app.py:142 | If x need not go after y, and y need not go after z, then x need not go after z. |
| Search.Matches | app.py:108 | The match test: the lowered keyword occurs in the lowered NIM, name or department. |
| Search.SearchStudents | app.py:106-108 | A record is in the result exactly when it is in the input and the lowered keyword occurs in its lowered NIM, name or department. Each matching record occurs as often as in the input, the others not at all. The result is a subsequence of the input, so the original order is kept. |
| Search.SearchIgnoresKeywordCase | app.py:106 | Searching for the lowered keyword finds exactly what searching for the keyword finds. |
| Search.SequentialIsLinear | app.py:239 | The "sequential" comprehension of `index` returns exactly the list `search_students` returns. |
| Search.MatchesNameFirst | app.py:119 | The test as `binary_search` writes it at app.py:119, 122 and 125: the keyword in the lowered name, NIM or department, the name first. |
| Search.NameFirstMatches | app.py:119-125 | The name-first match test of `binary_search` accepts the same records as the NIM-first test of `search_students`. |
| Search.NameSorted | app.py:113 | The copy the binary search probes is sorted by lowered name, is a permutation of the input, and keeps records with equal lowered names in input order. |
| Search.Probe | app.py:114-131 | A found probe lies in the window and its record matches. An empty window finds nothing. |
| Search.RunStart | app.py:121-123 | The left walk from a match stops at a start index. Every record from there to the match matches, and the record just before it, if any, does not. |
| Search.RunEnd | app.py:124-126 | The right walk stops at an end index. Every record from the start up to it matches, and the record at it, if any, does not. |
| Search.Collected | app.py:116-127 | What the probe-and-walk loop gathers: nothing when no probe matches, otherwise `RunAround` of the first matching probe. |
| Search.RunAround | app.py:119-127 | The left arm `a[mid], a[mid-1], ...` down to the first non-match, then the right arm `a[mid+1], ...` up to the first non-match. |
| Search.CollectedFacts | app.py:116-127 | Everything the probe-and-walk collects from the sorted copy matches and comes from it. No record is collected more often than it occurs, so the result is at most as long as the copy. |
| Search.BinaryResult | app.py:111-132 | Every returned record matches the lowered keyword and occurs in the input, no more often than there. The result is no longer than the input, and an empty input gives an empty result. |
| Search.WalkLeft | app.py:121-123 | The left walk returns `a[mid], a[mid-1], ...` down to the first record that does not match. |
| Search.WalkRight | app.py:124-126 | The right walk appends `a[mid+1], a[mid+2], ...` up to the first record that does not match. |
| Search.Bisect | app.py:114-131 | The bisection loop returns the first probed index whose record matches, as `Probe` defines it. |
| Search.ProbeAndCollect | app.py:114-132 | On the sorted copy, the loop returns nothing if no probe matches. Otherwise it returns the left arm in descending index order, then the right arm in ascending order. |
| Search.BinarySearch | app.py:111-132 | `binary_search` returns exactly `BinaryResult`, computed on a sorted copy; the caller's list is a value and is not reordered. |
| Search.BinaryWithinLinear | app.py:106-132 | The binary search finds at most what the linear search finds, each record no more often. |
| Search.AmirBalaNameSorted | app.py:113 | "Amir", "Bala" is already in name order, so the sorted copy equals the input. |
| Search.MissesWithoutChar | app.py:108 | A record misses a keyword if some character of the keyword is in none of its searched fields. |
| Search.CollectedAt | app.py:119-127 | Once the first matching probe is `mid`, the collected run is the reversed left arm followed by the right arm. |
| Search.CollectedSingle | app.py:119-127 | A matching probe whose two neighbours miss is collected alone. |
| Search.BinaryOfSingle | app.py:111-132 | On an input already in name order, such a probe is the whole result of `binary_search`. |
| Search.BinaryMissesBala | app.py:116-131 | With "Amir" and "Bala", the keyword "ala" sorts before the first probe "amir". The window closes on the left and the binary search returns nothing. |
| Search.LinearFindsBala | app.py:106-108 | For the same input, the linear search returns `[Bala]`. |
| Search.FourNamesSorted | app.py:113 | "Amir", "Bala", "Cinta", "Dara" is already in name order. |
| Search.MissesDara | app.py:108 | "Amir", "Bala" and "Cinta" do not match "dara". |
| Search.ProbeReachesDara | app.py:116-131 | With those four records, bisection for "dara" goes right twice and anchors at index 3. |
| Search.DaraRun | app.py:121-126 | The walks around "Dara" stop at once on both sides. |
| Search.BinaryFindsDara | app.py:111-132 | The binary search for "dara" over the four records returns just `[Dara]`. |
| SortSpec.InsertionSortedCorrect | app.py:253 | The reference insertion sort returns a sorted permutation that keeps ties in input order. |
| SortSpec.InsertSorted | app.py:149-159 | Inserting `x` into a list by walking left past the records that must go after `x` and stopping at the first that need not; the function that one `insertion_sort` step is proved equal to. |
| SortSpec.InsertSortedCorrect | app.py:148-159 | Inserting into a sorted list adds exactly the new record, keeps the list sorted, and places it after all records with the same key. |
| SortSpec.StableSort | app.py:253 | `sorted(..., reverse=...)` returns a list ordered by the key (descending when `reverse`), a permutation of the input, with equal keys in input order. |
| SortSpec.KeepsTiesMultiset | app.py:253 | Keeping every tie group means the lists are permutations of each other. |
| SortSpec.SortedKeepsTiesUnique | app.py:253 | Two sorted lists with the same tie groups are equal, so the stable sort's contract determines its result. |
| SortSpec.StableSortCharacterized | app.py:253 | Any sorted list that keeps every tie of the input is the stable sort. |
| SortSpec.StableSortSortedUnchanged | app.py:253 | An already sorted input comes back unchanged. |
| SortSpec.StableSortIdempotent | app.py:253 | Sorting twice equals sorting once. |
| SortSpec.DistinctKeysSingletons | app.py:253 | With no repeated key, every tie group holds at most one record. |
| SortSpec.DistinctKeepsTies | app.py:253 | With no repeated key, every permutation keeps the ties. |
| SortSpec.DistinctSortedIsStable | app.py:162-173 | With no repeated key, every sorted permutation is the stable sort. |
| SortSpec.SortedReversed | app.py:253 | A list sorted ascending, read backwards, is sorted descending, and vice versa. |
| SortSpec.StableSortMirror | app.py:244-253 | With no repeated key, the descending sort is the ascending sort reversed. |
| Sorting.Swap | app.py:143 | `a[j], a[j+1] = a[j+1], a[j]`: the neighbours at `j` and `j + 1` exchanged, all else unchanged. |
| Sorting.Exchange | app.py:172 | `a[i], a[sel] = a[sel], a[i]`: the records at `i` and `sel` exchanged, all else unchanged. |
| Sorting.ExchangeMultiset | app.py:172 | Swapping `a[i]` and `a[sel]` permutes the list. |
| Sorting.SwapNeighbours | app.py:142-143 | Swapping adjacent records with different keys keeps every tie group. |
| Sorting.BubblePass | app.py:139-143 | One pass bubbles the record that must go last to position `m-1`. The sorted, dominating suffix grows by one and ties keep their order. |
| Sorting.BubbleSort | app.py:135-144 | `bubble_sort` returns a sorted permutation, keeps ties in input order, and equals the stable sort. |
| Sorting.ShiftInsert | app.py:149-159 | One insertion step turns `a[..i+1]` into the insertion of the old `a[i]` into the old sorted `a[..i]`, leaving the rest of the array untouched. |
| Sorting.ShiftRun | app.py:151-158 | The `while j >= 0` loop stops at the front or at the first record that need not go after `current`. Every record it passed must go after `current` and is now one place to the right. Records before the stop and after `i` are unchanged. |
| Sorting.InsertAfterRun | app.py:151-158 | When every record after position `j` must go after `current`, inserting `current` into the prefix is inserting it into `prefix[..j+1]` and keeping the rest behind it. |
| Sorting.InsertionSort | app.py:146-160 | `insertion_sort` returns exactly the stable sort: sorted, a permutation, ties in input order. |
| Sorting.ScanFirst | app.py:166-171 | The scan selects a record of `a[i..]` that no other record of `a[i..]` must go before. It keeps `i` when `a[i]` already precedes the rest. |
| Sorting.SelectAndSwap | app.py:165-172 | One outer round extends the sorted, dominating prefix by one and permutes the array. It moves nothing when `a[i]` already precedes the rest. |
| Sorting.SelectionSort | app.py:162-173 | `selection_sort` returns a sorted permutation, returns an already sorted input unchanged, and equals the stable sort when no two records share a key. |
| Sorting.LookupSortAlg | app.py:176-180 | `SORT_ALGS.get` finds exactly the names "bubble", "insertion" and "selection". |
| Sorting.RunSortAlg | app.py:247-250 | Every dispatched algorithm returns a sorted permutation, and an already sorted input unchanged. Bubble and insertion sort, and selection sort without repeated keys, return the stable sort. |
| Pipeline.FilterDept | app.py:230-231 | An empty filter keeps everything. Otherwise the result holds exactly the records of that department, each as often as in the input, as a subsequence. |
| Pipeline.Found | app.py:229-241 | The list the sort receives: the department filter, then the search stage. |
| Pipeline.AlgChosen | app.py:245 | `sort_alg and sort_field`: both strings non-empty. |
| Pipeline.Searched | app.py:234-241 | An empty `q` or an unknown method leaves the data as it is. "linear" and "sequential" both give `search_students`, and "binary" gives `binary_search`. The result never adds records. |
| Pipeline.SearchBounded | app.py:236 | The linear search returns a sub-multiset of its input. |
| Pipeline.Index | app.py:229-253 | See the list after this table. |
| Pipeline.FoundRecords | app.py:229-241 | Every listed record is stored, belongs to the requested department, and matches the lowered keyword whenever a keyword and a known method are given. |
| Roster.HasNim | app.py:283 | The duplicate test `any(m.nim == nim for m in data)`. |
| Roster.WithoutNim | app.py:297-298 | `delete`'s list keeps exactly the records with another NIM, each as often as in the input, in order. Its length is unchanged exactly when no record had the NIM. |
| Roster.WithoutNimIdempotent | app.py:297 | Deleting a NIM twice removes nothing more. |
| Roster.FirstWithNim | app.py:309-310 | `next(...)` finds nothing exactly when no record has the NIM. Otherwise it finds the lowest index holding it. |
| Roster.FirstWithNimUnique | app.py:309 | When NIMs are unique, the record found is the only one with that NIM. |
| Roster.AppendKeepsUnique | app.py:283-287 | Appending a record with a new NIM keeps NIMs unique. |
| Roster.Roster.constructor | app.py:281 | The roster starts as the loaded list. |
| Roster.Roster.Tambah | app.py:273-290 | The fields are validated with the class upper-cased, and a failure leaves the list unchanged. An already stored NIM is refused. Otherwise exactly the new record is appended at the end, and unique NIMs stay unique. |
| Roster.Roster.Delete | app.py:295-303 | The new list is `WithoutNim` of the old one. "Not found" is reported exactly when no record had the NIM. |
| Roster.Roster.Edit | app.py:307-329 | A missing NIM changes nothing. Validation runs with the class upper-cased, and a failure changes nothing. Otherwise only the first record with the NIM gets the new name, class, IPK and department. The length, every NIM and every other record stay as they were. |

`Pipeline.Index` states that:

- the result is an `AttributeError` exactly when the field is unknown and
  the sort that runs calls `getattr` at all. That sort is the default
  `sorted` whenever `sort_alg` or `sort_field` is empty, and it calls its
  key for one or more records. A known quadratic sort compares only for
  two or more records. An unknown non-empty `sort_alg` with a non-empty
  `sort_field` runs no sort;
- the rows are a permutation of the filtered, searched list;
- when no `AttributeError` is raised, an unknown field leaves the list as
  it is, and so does an unknown non-empty algorithm with a non-empty
  `sort_field`;
- when `sort_alg` or `sort_field` is empty and the field is known, the rows
  are the stable sort, descending exactly when `order == "desc"`;
- with a known algorithm, the rows are sorted. They are the stable sort
  except for selection sort with repeated keys, and an already sorted list
  comes back unchanged whichever algorithm runs.

## Left out

- Flask routing, sessions, `login_required`, `flash`, redirects and templates: web plumbing. The model returns outcome values instead of pages and messages.
- Loading and saving the JSON files (`load_data`, `save_data`, users), including the "corrupt file gives an empty list" fallback. The stored list is a value passed in, or the `Roster.data` field.
- Login, registration, password hashing and the default admin: they depend on `werkzeug` and file I/O.
- The dashboard: its average needs float division and `round`.
- The `/api/search` route and the GET branches of the forms: the same operations without new logic.
- `float(ipk)`: IPK is an exact `real`. Parsing is an input `Option<real>`, where `None` means `float()` raised. NaN and infinities are not represented, and float rounding is not modelled.
- Python's regular expression engine: the three patterns are character predicates over ASCII. `\d` is taken as the ASCII digits, and `$` also accepts one final newline.
- `lower()` and `upper()` cover ASCII letters only; Unicode case mapping is not modelled. Python's `upper()` maps, for example, 'ſ' to 'S' and 'ı' to 'I', so in the source upper-casing can turn a rejected class label into an accepted one; `UpperKeepsKelasFormat` holds for the ASCII mapping only.
- `strip()`: every text input is taken as already stripped.
- `getattr` with an attribute name that is not one of the five fields (a method name, say): such a name is reported as `NoAttribute` even where Python would find a non-field attribute.
- Roster.Roster.Tambah: the `ValidationError` that `tambah` does not catch, which becomes a server error, is reported as the `AddRejected` outcome with the list unchanged.
- Roster.Roster.Edit: the in-place assignment to the shared `Mahasiswa` object is modelled as replacing that list element, so aliasing is not represented.
- Sorting.SelectionSort: not proved stable, because it is not. Exchanging `a[i]` with a later record can carry `a[i]` past an equal key.
- Python's `sorted` internals (Timsort): only its contract is modelled, through the unique list that `SortSpec.StableSort` defines.
