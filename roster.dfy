/** The stored list of students and the list rules of the add, delete and
    edit pages (`tambah`, `delete`, `edit`): a record is added only with a
    fresh NIM, deleted by NIM, and edited in every field but its NIM. */
module Roster {
  import opened Strings
  import opened Seqs
  import opened Records
  import opened Validation

  /** Some stored record has this NIM. */
  predicate HasNim(data: seq<Record>, nim: string) {
    exists i :: 0 <= i < |data| && data[i].nim == nim
  }

  /** No two stored records share a NIM. */
  predicate UniqueNims(data: seq<Record>) {
    forall i, j :: 0 <= i < j < |data| ==> data[i].nim != data[j].nim
  }

  function NimIsNot(nim: string): Record -> bool {
    (m: Record) => m.nim != nim
  }

  /** The list `delete` saves: every record with another NIM, each as often
      as it occurs, in order. The length is unchanged exactly when no record
      had the NIM. */
  function WithoutNim(data: seq<Record>, nim: string): (r: seq<Record>)
    ensures forall m :: m in r <==> m in data && m.nim != nim
    ensures forall m :: multiset(r)[m] == if m.nim != nim then multiset(data)[m] else 0
    ensures IsSubseq(r, data)
    ensures |r| == |data| <==> !HasNim(data, nim)
  {
    FilterMembership(data, NimIsNot(nim));
    FilterSpec(data, NimIsNot(nim));
    FilterLength(data, NimIsNot(nim));
    Filter(data, NimIsNot(nim))
  }

  /** Deleting twice removes nothing more. */
  lemma WithoutNimIdempotent(data: seq<Record>, nim: string)
    ensures WithoutNim(WithoutNim(data, nim), nim) == WithoutNim(data, nim)
  {
    var r := WithoutNim(data, nim);
    assert forall i :: 0 <= i < |r| ==> r[i] in r;
    FilterAll(r, NimIsNot(nim));
  }

  /** `next((m for m in data if m.nim == nim), None)`, as an index: the
      first record with the NIM, if any. */
  function FirstWithNim(data: seq<Record>, nim: string): (r: Option<nat>)
    ensures r.None? <==> !HasNim(data, nim)
    ensures r.Some? ==> r.value < |data| && data[r.value].nim == nim
    ensures r.Some? ==> forall k :: 0 <= k < r.value ==> data[k].nim != nim
    decreases |data|
  {
    if data == [] then None
    else if data[0].nim == nim then Some(0)
    else
      match FirstWithNim(data[1..], nim)
      case None => None
      case Some(i) => assert data[i + 1] == data[1..][i]; Some(i + 1)
  }

  /** With unique NIMs the first record with a NIM is the only one. */
  lemma FirstWithNimUnique(data: seq<Record>, nim: string, i: nat)
    requires UniqueNims(data) && i < |data| && data[i].nim == nim
    ensures FirstWithNim(data, nim) == Some(i)
  {
  }

  /** Appending a record whose NIM is new keeps NIMs unique. */
  lemma AppendKeepsUnique(data: seq<Record>, m: Record)
    requires UniqueNims(data) && !HasNim(data, m.nim)
    ensures UniqueNims(data + [m])
  {
    var d := data + [m];
    forall i, j | 0 <= i < j < |d|
      ensures d[i].nim != d[j].nim
    {
      if j == |data| {
        assert d[i] == data[i];
      }
    }
  }

  /** Outcome of the add page's POST: validation failed (the request fails
      with the rule's error), the NIM is taken, or the record was added. */
  datatype AddOutcome = AddRejected(error: ValidationError) | DuplicateNim | Added

  /** Outcome of the edit page's POST: no record has the NIM, validation
      failed (its message is flashed), or the record was updated. */
  datatype EditOutcome = EditNotFound | EditRejected(error: ValidationError) | Edited

  /** The stored roster: the list that `load_data` reads and `save_data`
      writes back. */
  class Roster {
    var data: seq<Record>

    constructor(stored: seq<Record>)
      ensures data == stored
    {
      data := stored;
    }

    /** `tambah`: validates the submitted fields, the class label upper-cased,
        then refuses a NIM already stored, else appends the new record. */
    method Tambah(nim: string, nama: string, kelas: string, ipk: Option<real>, jurusan: string)
      returns (outcome: AddOutcome)
      modifies this
      ensures var c := Candidate(nim, nama, Upper(kelas), ipk, jurusan);
        match Validate(c)
        case Rejected(e) => outcome == AddRejected(e) && data == old(data)
        case Accepted =>
          if HasNim(old(data), nim) then outcome == DuplicateNim && data == old(data)
          else outcome == Added && data == old(data) + [Record(nim, nama, Upper(kelas), c.ipk.value, jurusan)]
      ensures UniqueNims(old(data)) ==> UniqueNims(data)
    {
      var upperKelas := Upper(kelas);
      var verdict := Validate(Candidate(nim, nama, upperKelas, ipk, jurusan));
      if verdict.Rejected? {
        return AddRejected(verdict.error);
      }
      if HasNim(data, nim) {
        return DuplicateNim;
      }
      var m := Record(nim, nama, upperKelas, ipk.value, jurusan);
      if UniqueNims(data) {
        AppendKeepsUnique(data, m);
      }
      data := data + [m];
      outcome := Added;
    }

    /** `delete`: keeps every record with another NIM; reports and saves
        nothing when the length is unchanged, i.e. when no record had it. */
    method Delete(nim: string) returns (found: bool)
      modifies this
      ensures data == WithoutNim(old(data), nim)
      ensures found <==> HasNim(old(data), nim)
    {
      var newData := WithoutNim(data, nim);
      if |newData| == |data| {
        found := false;
        FilterAll(data, NimIsNot(nim));
      } else {
        data := newData;
        found := true;
      }
    }

    /** `edit`: finds the first record with the NIM; validates the submitted
        fields (the class label upper-cased, the NIM the one looked up); on
        success overwrites that record's name, class, IPK and department and
        nothing else. */
    method Edit(nim: string, nama: string, kelas: string, ipk: Option<real>, jurusan: string)
      returns (outcome: EditOutcome)
      modifies this
      ensures FirstWithNim(old(data), nim).None? ==> outcome == EditNotFound && data == old(data)
      ensures FirstWithNim(old(data), nim).Some? ==>
        var i := FirstWithNim(old(data), nim).value;
        var c := Candidate(nim, nama, Upper(kelas), ipk, jurusan);
        match Validate(c)
        case Rejected(e) => outcome == EditRejected(e) && data == old(data)
        case Accepted =>
          outcome == Edited &&
          data == old(data)[i := old(data)[i].(nama := nama, kelas := Upper(kelas), ipk := c.ipk.value, jurusan := jurusan)]
      ensures |data| == |old(data)|
      ensures forall k :: 0 <= k < |data| ==> data[k].nim == old(data)[k].nim
      ensures UniqueNims(old(data)) ==> UniqueNims(data)
    {
      var idx := FirstWithNim(data, nim);
      if idx.None? {
        return EditNotFound;
      }
      var upperKelas := Upper(kelas);
      var verdict := Validate(Candidate(nim, nama, upperKelas, ipk, jurusan));
      if verdict.Rejected? {
        return EditRejected(verdict.error);
      }
      var i := idx.value;
      data := data[i := data[i].(nama := nama, kelas := upperKelas, ipk := ipk.value, jurusan := jurusan)];
      outcome := Edited;
    }
  }
}
