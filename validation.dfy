/** `validate_input`: the admission rules a student record must pass, checked
    in a fixed order with the first failing rule reported. */
module Validation {
  import opened Strings
  import opened Seqs

  /** The seven departments a record may belong to (`JURUSAN_LIST`). */
  const JURUSAN_LIST: seq<string> := [
    "Teknik Informatika",
    "Manajemen",
    "Hukum",
    "Sastra Inggris",
    "PJOK",
    "PGSD",
    "Ilmu Komunikasi"
  ]

  /** The rules, in the order they are checked. */
  datatype ValidationError =
    | NimNotTwelveDigits
    | NamaNotLetters
    | KelasNotAlphanumeric
    | IpkNotDecimal
    | IpkOutOfRange
    | JurusanUnknown

  /** The message each failing rule raises, shown to the user verbatim. */
  function Message(e: ValidationError): string {
    match e
    case NimNotTwelveDigits => "NIM harus 12 digit angka."
    case NamaNotLetters => "Nama hanya boleh huruf dan spasi."
    case KelasNotAlphanumeric => "Kelas hanya boleh huruf dan angka tanpa spasi."
    case IpkNotDecimal => "IPK harus angka desimal."
    case IpkOutOfRange => "IPK harus antara 0.0 \U{2013} 4.0."
    case JurusanUnknown => "Jurusan tidak valid."
  }

  /** Position of a rule in the checking order. */
  function Rank(e: ValidationError): nat {
    match e
    case NimNotTwelveDigits => 0
    case NamaNotLetters => 1
    case KelasNotAlphanumeric => 2
    case IpkNotDecimal => 3
    case IpkOutOfRange => 4
    case JurusanUnknown => 5
  }

  /** The submitted fields. `ipk` is the outcome of `float(ipk)`: `None` when
      the text does not parse as a number. */
  datatype Candidate = Candidate(nim: string, nama: string, kelas: string, ipk: Option<real>, jurusan: string)

  /** Python's `\d` restricted to ASCII. */
  predicate IsDigit(c: char) {
    '0' <= c <= '9'
  }

  predicate IsLetter(c: char) {
    'A' <= c <= 'Z' || 'a' <= c <= 'z'
  }

  /** The part of `s` that a pattern `^...$` must cover: Python's `$` matches
      at the very end and also just before one final newline. */
  function Anchored(s: string): string {
    if |s| > 0 && s[|s| - 1] == '\n' then s[..|s| - 1] else s
  }

  /** `^\d{12}$`: twelve ASCII digits, optionally followed by one newline. */
  predicate NimFormat(s: string) {
    var b := Anchored(s);
    |b| == 12 && forall i :: 0 <= i < |b| ==> IsDigit(b[i])
  }

  /** `^[A-Za-z ]+$`: at least one letter or space, and nothing else but
      one final newline. */
  predicate NamaFormat(s: string) {
    var b := Anchored(s);
    |b| > 0 && forall i :: 0 <= i < |b| ==> IsLetter(b[i]) || b[i] == ' '
  }

  /** `^[A-Za-z0-9]+$`: at least one letter or digit, and nothing else but
      one final newline. */
  predicate KelasFormat(s: string) {
    var b := Anchored(s);
    |b| > 0 && forall i :: 0 <= i < |b| ==> IsLetter(b[i]) || IsDigit(b[i])
  }

  /** What `^\d{12}$` accepts, stated on the raw text. */
  lemma NimFormatMeaning(s: string)
    ensures NimFormat(s) <==>
      (|s| == 12 || (|s| == 13 && s[12] == '\n')) && forall i :: 0 <= i < 12 ==> IsDigit(s[i])
  {
    var b := Anchored(s);
    if |b| == 12 { assert forall i :: 0 <= i < 12 ==> b[i] == s[i]; }
  }

  /** What `^[A-Za-z ]+$` accepts, stated on the raw text. */
  lemma NamaFormatMeaning(s: string)
    ensures NamaFormat(s) <==>
      (s != "\n" && |s| > 0 &&
       forall i :: 0 <= i < |s| ==> IsLetter(s[i]) || s[i] == ' ' || (i == |s| - 1 && s[i] == '\n'))
  {
    var b := Anchored(s);
    assert forall i :: 0 <= i < |b| ==> b[i] == s[i];
  }

  /** What `^[A-Za-z0-9]+$` accepts, stated on the raw text. */
  lemma KelasFormatMeaning(s: string)
    ensures KelasFormat(s) <==>
      (s != "\n" && |s| > 0 &&
       forall i :: 0 <= i < |s| ==> IsLetter(s[i]) || IsDigit(s[i]) || (i == |s| - 1 && s[i] == '\n'))
  {
    var b := Anchored(s);
    assert forall i :: 0 <= i < |b| ==> b[i] == s[i];
  }

  /** Rule `e` holds of candidate `c`. */
  predicate Satisfies(c: Candidate, e: ValidationError) {
    match e
    case NimNotTwelveDigits => NimFormat(c.nim)
    case NamaNotLetters => NamaFormat(c.nama)
    case KelasNotAlphanumeric => KelasFormat(c.kelas)
    case IpkNotDecimal => c.ipk.Some?
    case IpkOutOfRange => c.ipk.Some? && 0.0 <= c.ipk.value <= 4.0
    case JurusanUnknown => c.jurusan in JURUSAN_LIST
  }

  datatype Verdict = Accepted | Rejected(error: ValidationError)

  /** `validate_input`: accepts exactly when every rule holds; otherwise
      reports the first rule, in checking order, that fails. */
  function Validate(c: Candidate): (r: Verdict)
    ensures r.Rejected? ==> !Satisfies(c, r.error)
    ensures r.Accepted? <==> forall e :: Satisfies(c, e)
    ensures r.Rejected? ==> forall e :: Rank(e) < Rank(r.error) ==> Satisfies(c, e)
  {
    if !NimFormat(c.nim) then Rejected(NimNotTwelveDigits)
    else if !NamaFormat(c.nama) then Rejected(NamaNotLetters)
    else if !KelasFormat(c.kelas) then Rejected(KelasNotAlphanumeric)
    else if c.ipk.None? then Rejected(IpkNotDecimal)
    else if !(0.0 <= c.ipk.value <= 4.0) then Rejected(IpkOutOfRange)
    else if c.jurusan !in JURUSAN_LIST then Rejected(JurusanUnknown)
    else Accepted
  }

  /** Different failing rules raise different messages, so the message
      identifies the rule. */
  lemma MessageIdentifiesRule(e1: ValidationError, e2: ValidationError)
    requires Message(e1) == Message(e2)
    ensures e1 == e2
  {
  }

  /** The class label is upper-cased before validation; that never changes
      whether it passes. */
  lemma UpperKeepsKelasFormat(s: string)
    ensures KelasFormat(Upper(s)) <==> KelasFormat(s)
  {
    var b := Anchored(s);
    assert Anchored(Upper(s)) == Upper(b);
    forall i | 0 <= i < |b|
      ensures (IsLetter(Upper(b)[i]) || IsDigit(Upper(b)[i])) <==> (IsLetter(b[i]) || IsDigit(b[i]))
    {
    }
  }

  /** The worked examples: a too-short NIM, a name with digits, an IPK above
      4.0 and an unknown department are rejected by their own rule; the
      reference record is accepted; a NIM followed by one newline passes the
      NIM rule, as Python's `$` allows. */
  lemma ValidationExamples()
    ensures Validate(Candidate("12345", "Jane Doe", "3A", Some(3.75), "Manajemen")) == Rejected(NimNotTwelveDigits)
    ensures Validate(Candidate("123456789012", "Jane99", "3A", Some(3.75), "Manajemen")) == Rejected(NamaNotLetters)
    ensures Validate(Candidate("123456789012", "Jane Doe", "3A", Some(4.5), "Manajemen")) == Rejected(IpkOutOfRange)
    ensures Validate(Candidate("123456789012", "Jane Doe", "3A", Some(3.75), "Biology")) == Rejected(JurusanUnknown)
    ensures Validate(Candidate("123456789012", "Jane Doe", "3A", Some(3.75), "Manajemen")) == Accepted
    ensures Validate(Candidate("123456789012\n", "Jane Doe", "3A", Some(3.75), "Manajemen")) == Accepted
  {
    assert !IsDigit('J');
  }
}
