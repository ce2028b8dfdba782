/** The student record (`Mahasiswa`) and the field selectors and sort keys
    that the search and sort engines compare it by. */
module Records {
  import opened Strings
  import opened Seqs

  /** One student. `ipk` is the grade-point average, kept exact. */
  datatype Record = Record(nim: string, nama: string, kelas: string, ipk: real, jurusan: string)

  /** The attributes a sort may be asked for by name (the `getattr` key). */
  datatype Field = Nim | Nama | Kelas | Ipk | Jurusan

  /** Resolves a request's `sort_field` to a record attribute; any other name
      is one `getattr` cannot find. */
  function ParseField(name: string): (f: Option<Field>)
    ensures f.Some? <==> name in ["nim", "nama", "kelas", "ipk", "jurusan"]
    ensures f.Some? ==> FieldName(f.value) == name
  {
    if name == "nim" then Some(Nim)
    else if name == "nama" then Some(Nama)
    else if name == "kelas" then Some(Kelas)
    else if name == "ipk" then Some(Ipk)
    else if name == "jurusan" then Some(Jurusan)
    else None
  }

  function FieldName(f: Field): string {
    match f
    case Nim => "nim"
    case Nama => "nama"
    case Kelas => "kelas"
    case Ipk => "ipk"
    case Jurusan => "jurusan"
  }

  /** A value compared by a sort: the text fields compare as Python `str`,
      `ipk` as a number. */
  datatype Key = Text(s: string) | Num(x: real)

  /** What a sort orders by: a record attribute, or the lowercased name that
      the binary search sorts its copy by. */
  datatype SortKey = ByField(f: Field) | ByLowerName

  function KeyOf(r: Record, sk: SortKey): Key {
    match sk
    case ByLowerName => Text(Lower(r.nama))
    case ByField(f) =>
      match f
      case Nim => Text(r.nim)
      case Nama => Text(r.nama)
      case Kelas => Text(r.kelas)
      case Ipk => Num(r.ipk)
      case Jurusan => Text(r.jurusan)
  }

  /** Python's `<` on keys. All keys of one sort key have the same kind, so
      the order chosen between a number and a text is never consulted; it is
      fixed only to make `KeyLt` a total order. */
  predicate KeyLt(a: Key, b: Key) {
    match (a, b)
    case (Text(s), Text(t)) => StrLt(s, t)
    case (Num(x), Num(y)) => x < y
    case (Num(_), Text(_)) => true
    case (Text(_), Num(_)) => false
  }

  lemma KeyLtIrreflexive(a: Key)
    ensures !KeyLt(a, a)
  {
    if a.Text? {
      StrLtIrreflexive(a.s);
    }
  }

  lemma KeyLtTransitive(a: Key, b: Key, c: Key)
    requires KeyLt(a, b) && KeyLt(b, c)
    ensures KeyLt(a, c)
  {
    if a.Text? && b.Text? && c.Text? {
      StrLtTransitive(a.s, b.s, c.s);
    }
  }

  lemma KeyLtTotal(a: Key, b: Key)
    requires a != b
    ensures KeyLt(a, b) || KeyLt(b, a)
  {
    if a.Text? && b.Text? {
      StrLtTotal(a.s, b.s);
    }
  }

  /** The comparison every quadratic sort makes before it moves a record:
      `(v1 > v2 and not reverse) or (v1 < v2 and reverse)` with `v1` the key
      of `x` and `v2` the key of `y`, i.e. `x` must go after `y`. */
  predicate Inverted(x: Record, y: Record, sk: SortKey, rev: bool) {
    if rev then KeyLt(KeyOf(x, sk), KeyOf(y, sk)) else KeyLt(KeyOf(y, sk), KeyOf(x, sk))
  }

  lemma InvertedAsymmetric(x: Record, y: Record, sk: SortKey, rev: bool)
    requires Inverted(x, y, sk, rev)
    ensures !Inverted(y, x, sk, rev)
    ensures KeyOf(x, sk) != KeyOf(y, sk)
  {
    KeyLtIrreflexive(KeyOf(x, sk));
    if Inverted(y, x, sk, rev) {
      KeyLtTransitive(KeyOf(x, sk), KeyOf(y, sk), KeyOf(x, sk));
    }
  }

  /** "Not after" chains: if `x` may precede `y` and `y` may precede `z`, then
      `x` may precede `z`. */
  lemma NotInvertedTransitive(x: Record, y: Record, z: Record, sk: SortKey, rev: bool)
    requires !Inverted(x, y, sk, rev) && !Inverted(y, z, sk, rev)
    ensures !Inverted(x, z, sk, rev)
  {
    var kx, ky, kz := KeyOf(x, sk), KeyOf(y, sk), KeyOf(z, sk);
    if kx != ky { KeyLtTotal(kx, ky); }
    if ky != kz { KeyLtTotal(ky, kz); }
    if kx != ky && ky != kz {
      if rev { KeyLtTransitive(kz, ky, kx); } else { KeyLtTransitive(kx, ky, kz); }
    }
    if Inverted(x, z, sk, rev) {
      InvertedAsymmetric(x, z, sk, rev);
    }
  }

  /** If `y` must precede `x` and `z` need not precede `x`, then `z` need not
      precede `y`. */
  lemma InvertedThenNot(x: Record, y: Record, z: Record, sk: SortKey, rev: bool)
    requires Inverted(x, y, sk, rev) && !Inverted(x, z, sk, rev)
    ensures !Inverted(y, z, sk, rev)
  {
    InvertedAsymmetric(x, y, sk, rev);
    NotInvertedTransitive(y, x, z, sk, rev);
  }

  /** Records that need not be swapped either way have equal keys. */
  lemma NeitherInverted(x: Record, y: Record, sk: SortKey, rev: bool)
    requires !Inverted(x, y, sk, rev) && !Inverted(y, x, sk, rev)
    ensures KeyOf(x, sk) == KeyOf(y, sk)
  {
    if KeyOf(x, sk) != KeyOf(y, sk) {
      KeyLtTotal(KeyOf(x, sk), KeyOf(y, sk));
    }
  }
}
