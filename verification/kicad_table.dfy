/** The project's library tables (`sym-lib-table`, `fp-lib-table`): a root
    list holding a `(version 7)` entry and one `(lib (name ...) (type ...)
    (uri ...) (options ...) (descr ...))` entry per library. The edits are
    functions from the old tree to the new one. */
module KicadTable {
  import opened Outcomes
  import opened Seqs
  import opened Strings
  import opened Paths
  import opened Sexps
  import opened SexpParser
  import opened SexpPrinter
  import opened RoundTrip
  import KicadSym
  import Importer

  datatype TableKind = SymbolTable | FootprintTable

  datatype TableError =
    | Parse(cause: KicadSym.SymError)  // the text is not exactly one well-formed form
    | WrongTableRoot                   // the form is not headed by the table's root name
    | NotAList                         // the table is an atom

  const VersionKey: string := "version"
  const TableVersion: string := "7"
  const LibKey: string := "lib"
  const NameKey: string := "name"
  const TypeKey: string := "type"
  const UriKey: string := "uri"
  const OptionsKey: string := "options"
  const DescrKey: string := "descr"
  const LibType: string := "KiCad"
  const ProjectDir: string := "${KIPRJMOD}/"

  function RootName(kind: TableKind): string {
    match kind
    case SymbolTable => "sym_lib_table"
    case FootprintTable => "fp_lib_table"
  }

  /** A list whose first element is the atom `root`. */
  predicate MatchesRoot(t: Sexp, root: string)
    ensures MatchesRoot(t, root) <==> t.List? && |t.items| > 0 && t.items[0].Atom? && t.items[0].value == root
  {
    t.List? && HeadedBy(t.items, root)
  }

  /** A child list of at least two elements headed by the atom `key`. */
  predicate IsKeyed(t: Sexp, key: string) {
    t.List? && |t.items| >= 2 && AtomValue(t.items[0]) == Some(key)
  }

  /** `j` is the first child after the head that is keyed `key`. */
  predicate FirstKeyedAt(items: seq<Sexp>, key: string, j: int) {
    1 <= j < |items| && IsKeyed(items[j], key) && forall i :: 1 <= i < j ==> !IsKeyed(items[i], key)
  }

  /** The position of the first child after the head keyed `key`. */
  function KeyIndex(items: seq<Sexp>, key: string): (r: Option<nat>)
    ensures r.Some? ==> FirstKeyedAt(items, key, r.value)
    ensures r.None? <==> forall j :: 1 <= j < |items| ==> !IsKeyed(items[j], key)
  {
    FirstMatch(items, (t: Sexp) => IsKeyed(t, key), 1)
  }

  lemma KeyIndexAt(items: seq<Sexp>, key: string, j: nat)
    requires FirstKeyedAt(items, key, j)
    ensures KeyIndex(items, key) == Some(j)
  {
  }

  /** The second element of the first child after the head keyed `key`. */
  function ChildValue(items: seq<Sexp>, key: string): Option<Sexp> {
    match KeyIndex(items, key)
    case None => None
    case Some(j) => Some(items[j].items[1])
  }

  /** A key's value is the second element of the first child after the
      head that is keyed by it, and there is none when no child is. */
  lemma ChildValueFirst(items: seq<Sexp>, key: string)
    ensures ChildValue(items, key).None? <==> forall j :: 1 <= j < |items| ==> !IsKeyed(items[j], key)
    ensures ChildValue(items, key).Some? ==>
      exists j :: FirstKeyedAt(items, key, j) && ChildValue(items, key).value == items[j].items[1]
  {
  }

  /** The version entry a table starts with. */
  function VersionEntry(): Sexp {
    List([Bare(VersionKey), Bare(TableVersion)])
  }

  predicate HasVersion(t: Sexp) {
    t.List? && exists i :: 1 <= i < |t.items| && IsKeyed(t.items[i], VersionKey)
  }

  /** The table written for a project that has none: `(<root> (version 7))`. */
  function DefaultTable(kind: TableKind): (r: Sexp)
    ensures MatchesRoot(r, RootName(kind)) && HasVersion(r)
    ensures |r.items| == 2 && r.items[1] == VersionEntry()
  {
    var r := List([Bare(RootName(kind)), VersionEntry()]);
    assert IsKeyed(r.items[1], VersionKey);
    r
  }

  /** Reads an existing table, which must be one form headed by the
      table's root name. */
  function ParseTable(input: string, kind: TableKind): (r: Result<Sexp, TableError>)
    ensures r.Ok? <==> KicadSym.ParseOne(input).Ok? && MatchesRoot(KicadSym.ParseOne(input).value, RootName(kind))
    ensures r.Ok? ==> r.value == KicadSym.ParseOne(input).value
    ensures KicadSym.ParseOne(input).Err? ==> r == Err(Parse(KicadSym.ParseOne(input).error))
    ensures KicadSym.ParseOne(input).Ok? && !r.Ok? ==> r == Err(WrongTableRoot)
  {
    match KicadSym.ParseOne(input)
    case Err(e) => Err(Parse(e))
    case Ok(t) => if MatchesRoot(t, RootName(kind)) then Ok(t) else Err(WrongTableRoot)
  }

  /** Inserts `(version 7)` right after the head unless some child after
      the head is already a version entry. */
  function EnsureVersion(t: Sexp): (r: Result<Sexp, TableError>)
    requires !IsEmptyList(t)  // the insertion after the head needs a head
    ensures r.Err? <==> t.Atom?
    ensures r.Err? ==> r.error == NotAList
    ensures r.Ok? ==> HasVersion(r.value)
    ensures HasVersion(t) ==> r == Ok(t)
    ensures t.List? && !HasVersion(t) ==> r == Ok(List([t.items[0], VersionEntry()] + t.items[1..]))
  {
    if t.Atom? then Err(NotAList)
    else
      match FirstMatch(t.items, (x: Sexp) => IsKeyed(x, VersionKey), 1)
      case Some(_) => Ok(t)
      case None =>
        var r := List([t.items[0], VersionEntry()] + t.items[1..]);
        assert IsKeyed(r.items[1], VersionKey);
        Ok(r)
  }

  /** The name a `(lib ...)` entry declares: the second element of its first
      `(name ...)` child, when that is an atom. Reading the head of `()`
      is not defined. */
  function LibName(t: Sexp): (r: Option<string>)
    requires !IsEmptyList(t)
    ensures r.Some? <==> t.List? && HeadedBy(t.items, LibKey)
                         && ChildValue(t.items, NameKey).Some? && ChildValue(t.items, NameKey).value.Atom?
    ensures r.Some? ==> r.value == ChildValue(t.items, NameKey).value.value
  {
    if t.Atom? || AtomValue(t.items[0]) != Some(LibKey) then None
    else
      match ChildValue(t.items, NameKey)
      case None => None
      case Some(v) => AtomValue(v)
  }

  /** A child the entry search stops at: a `lib` entry named `name`. */
  predicate IsLibFor(t: Sexp, name: string) {
    !IsEmptyList(t) && LibName(t) == Some(name)
  }

  predicate FirstLibAt(items: seq<Sexp>, name: string, i: int) {
    0 <= i < |items| && IsLibFor(items[i], name) && forall j :: 0 <= j < i ==> !IsLibFor(items[j], name)
  }

  /** The entry search never reads the head of `()`: every child it looks
      at, up to the first entry named `name`, is not the empty list. */
  predicate SearchDefined(items: seq<Sexp>, name: string)
    decreases |items|
  {
    |items| == 0 || (!IsEmptyList(items[0]) && (LibName(items[0]) == Some(name) || SearchDefined(items[1..], name)))
  }

  /** Sets the second element of the first `(key ...)` child after the head
      to the quoted `value`, or appends `(key "value")` when there is none. */
  function SetChildValue(items: seq<Sexp>, key: string, value: string): (r: seq<Sexp>)
    ensures |items| <= |r| <= |items| + 1
    ensures |items| > 0 ==> r[0] == items[0]
    ensures match KeyIndex(items, key)
      case Some(j) => r == items[j := List(items[j].items[1 := Quoted(value)])]
      case None => r == items + [Field(key, value)]
  {
    match KeyIndex(items, key)
    case Some(j) => items[j := List(items[j].items[1 := Quoted(value)])]
    case None => items + [Field(key, value)]
  }

  /** After setting, the key reads back as the value. */
  lemma SetChildValueReads(items: seq<Sexp>, key: string, value: string)
    requires |items| > 0
    ensures ChildValue(SetChildValue(items, key, value), key) == Some(Quoted(value))
  {
    var r := SetChildValue(items, key, value);
    var j := if KeyIndex(items, key).Some? then KeyIndex(items, key).value else |items|;
    assert forall i :: 1 <= i < j ==> r[i] == items[i];
    KeyIndexAt(r, key, j);
  }

  /** Setting one key leaves what every other key reads unchanged. */
  lemma SetChildValueOthers(items: seq<Sexp>, key: string, value: string, other: string)
    requires other != key
    ensures ChildValue(SetChildValue(items, key, value), other) == ChildValue(items, other)
  {
    var r := SetChildValue(items, key, value);
    var j := if KeyIndex(items, key).Some? then KeyIndex(items, key).value else |items|;
    if j >= 1 {
      OtherKeyUnchanged(items, r, other, j);
    } else {
      assert KeyIndex(r, other) == KeyIndex(items, other);
    }
  }

  /** A change confined to one child after the head that is not keyed
      `other` (and stays so) does not move the first `other` child. */
  lemma OtherKeyUnchanged(items: seq<Sexp>, r: seq<Sexp>, other: string, j: nat)
    requires 1 <= j && |items| <= |r| <= |items| + 1 && j < |r|
    requires |r| == |items| + 1 ==> j == |items|
    requires forall i :: 0 <= i < |items| && i != j ==> r[i] == items[i]
    requires !IsKeyed(r[j], other) && (j < |items| ==> !IsKeyed(items[j], other))
    ensures ChildValue(r, other) == ChildValue(items, other)
  {
    match KeyIndex(items, other)
    case Some(k) =>
      assert FirstKeyedAt(r, other, k);
      KeyIndexAt(r, other, k);
    case None =>
      assert forall i :: 1 <= i < |r| ==> !IsKeyed(r[i], other);
  }

  /** Setting a key that already reads as the value changes nothing. */
  lemma SetChildValueFixed(items: seq<Sexp>, key: string, value: string)
    requires ChildValue(items, key) == Some(Quoted(value))
    ensures SetChildValue(items, key, value) == items
  {
    var j := KeyIndex(items, key).value;
    assert items[j].items[1 := Quoted(value)] == items[j].items;
  }

  /** The five fields of a `lib` entry hold the given name and uri, type
      `KiCad`, and empty options and description. */
  predicate FieldsSet(items: seq<Sexp>, name: string, uri: string) {
    && ChildValue(items, NameKey) == Some(Quoted(name))
    && ChildValue(items, TypeKey) == Some(Quoted(LibType))
    && ChildValue(items, UriKey) == Some(Quoted(uri))
    && ChildValue(items, OptionsKey) == Some(Quoted(""))
    && ChildValue(items, DescrKey) == Some(Quoted(""))
  }

  /** Normalises the five fields of an existing `lib` entry in place. */
  function UpdateLib(t: Sexp, name: string, uri: string): (r: Sexp)
    ensures t.Atom? ==> r == t
    ensures t.List? ==> r.List? && |t.items| <= |r.items| <= |t.items| + 5
    ensures t.List? && |t.items| > 0 ==> r.items[0] == t.items[0]
  {
    if t.Atom? then t
    else
      var a := SetChildValue(t.items, NameKey, name);
      var b := SetChildValue(a, TypeKey, LibType);
      var c := SetChildValue(b, UriKey, uri);
      var d := SetChildValue(c, OptionsKey, "");
      List(SetChildValue(d, DescrKey, ""))
  }

  /** After the update the entry's five fields are normal. */
  lemma UpdateLibSetsFields(t: Sexp, name: string, uri: string)
    requires t.List? && |t.items| > 0
    ensures FieldsSet(UpdateLib(t, name, uri).items, name, uri)
  {
    var a := SetChildValue(t.items, NameKey, name);
    var b := SetChildValue(a, TypeKey, LibType);
    var c := SetChildValue(b, UriKey, uri);
    var d := SetChildValue(c, OptionsKey, "");
    var e := SetChildValue(d, DescrKey, "");
    SetChildValueReads(t.items, NameKey, name);
    SetChildValueOthers(a, TypeKey, LibType, NameKey);
    SetChildValueOthers(b, UriKey, uri, NameKey);
    SetChildValueOthers(c, OptionsKey, "", NameKey);
    SetChildValueOthers(d, DescrKey, "", NameKey);
    SetChildValueReads(a, TypeKey, LibType);
    SetChildValueOthers(b, UriKey, uri, TypeKey);
    SetChildValueOthers(c, OptionsKey, "", TypeKey);
    SetChildValueOthers(d, DescrKey, "", TypeKey);
    SetChildValueReads(b, UriKey, uri);
    SetChildValueOthers(c, OptionsKey, "", UriKey);
    SetChildValueOthers(d, DescrKey, "", UriKey);
    SetChildValueReads(c, OptionsKey, "");
    SetChildValueOthers(d, DescrKey, "", OptionsKey);
    SetChildValueReads(d, DescrKey, "");
  }

  /** An entry whose fields are already normal is left as it is. */
  lemma UpdateLibFixed(t: Sexp, name: string, uri: string)
    requires t.List? && FieldsSet(t.items, name, uri)
    ensures UpdateLib(t, name, uri) == t
  {
    SetChildValueFixed(t.items, NameKey, name);
    SetChildValueFixed(t.items, TypeKey, LibType);
    SetChildValueFixed(t.items, UriKey, uri);
    SetChildValueFixed(t.items, OptionsKey, "");
    SetChildValueFixed(t.items, DescrKey, "");
  }

  function Field(key: string, value: string): Sexp {
    List([Bare(key), Quoted(value)])
  }

  /** A new entry: `(lib (name "n") (type "KiCad") (uri "u") (options "") (descr ""))`. */
  function BuildLibEntry(name: string, uri: string): (r: Sexp)
    ensures r.List? && |r.items| == 6 && r.items[0] == Bare(LibKey)
    ensures forall k :: 1 <= k < 6 ==> r.items[k].List? && |r.items[k].items| == 2 && r.items[k].items[1].Atom? && r.items[k].items[1].quoted
  {
    List([Bare(LibKey), Field(NameKey, name), Field(TypeKey, LibType), Field(UriKey, uri),
          Field(OptionsKey, ""), Field(DescrKey, "")])
  }

  /** A built entry holds its five fields, in the order name, type, uri,
      options, descr, and is named `name`. */
  lemma BuildLibEntryFields(name: string, uri: string)
    ensures var items := BuildLibEntry(name, uri).items;
      && IsKeyed(items[1], NameKey) && IsKeyed(items[2], TypeKey) && IsKeyed(items[3], UriKey)
      && IsKeyed(items[4], OptionsKey) && IsKeyed(items[5], DescrKey)
      && FieldsSet(items, name, uri)
      && LibName(BuildLibEntry(name, uri)) == Some(name)
  {
    var items := BuildLibEntry(name, uri).items;
    KeyIndexAt(items, NameKey, 1);
    KeyIndexAt(items, TypeKey, 2);
    KeyIndexAt(items, UriKey, 3);
    KeyIndexAt(items, OptionsKey, 4);
    KeyIndexAt(items, DescrKey, 5);
  }

  /** The position of the first `lib` entry named `name`, head included. */
  function LibIndex(items: seq<Sexp>, name: string): (r: Option<nat>)
    ensures r.Some? ==> FirstLibAt(items, name, r.value)
    ensures r.None? <==> forall i :: 0 <= i < |items| ==> !IsLibFor(items[i], name)
  {
    FirstMatch(items, (x: Sexp) => IsLibFor(x, name), 0)
  }

  /** Finds the first `lib` entry named `name` anywhere in the table and
      normalises it, or appends a new entry when there is none; an atom
      table is left alone. */
  function EnsureLibEntry(t: Sexp, name: string, uri: string): (r: Sexp)
    requires t.List? ==> SearchDefined(t.items, name)
    ensures t.Atom? ==> r == t
    ensures t.List? ==> r.List? && match LibIndex(t.items, name)
      case Some(i) => r.items == t.items[i := UpdateLib(t.items[i], name, uri)]
      case None => r.items == t.items + [BuildLibEntry(name, uri)]
  {
    if t.Atom? then t
    else
      match LibIndex(t.items, name)
      case Some(i) => List(t.items[i := UpdateLib(t.items[i], name, uri)])
      case None => List(t.items + [BuildLibEntry(name, uri)])
  }

  lemma LibIndexAt(items: seq<Sexp>, name: string, i: nat)
    requires FirstLibAt(items, name, i)
    ensures LibIndex(items, name) == Some(i)
  {
  }

  /** The table edit as one step: make sure there is a version entry, then
      make sure there is a normal entry for the library. */
  function UpdateTable(t: Sexp, name: string, uri: string): (r: Result<Sexp, TableError>)
    requires !IsEmptyList(t)
    requires t.List? ==> SearchDefined(t.items, name)
    ensures r.Err? <==> t.Atom?
    ensures r.Err? ==> r.error == NotAList
  {
    match EnsureVersion(t)
    case Err(e) => Err(e)
    case Ok(v) =>
      SearchDefinedAfterVersion(t, name);
      Ok(EnsureLibEntry(v, name, uri))
  }

  /** Inserting the version entry after the head does not change whether
      the entry search is defined: the version entry is never `()` and never
      a `lib` entry. */
  lemma SearchDefinedAfterVersion(t: Sexp, name: string)
    requires t.List? && |t.items| > 0
    ensures EnsureVersion(t).Ok? && EnsureVersion(t).value.List?
    ensures SearchDefined(EnsureVersion(t).value.items, name) <==> SearchDefined(t.items, name)
  {
    if !HasVersion(t) {
      var items := EnsureVersion(t).value.items;
      assert items[1..][0] == VersionEntry();
      assert items[1..][1..] == t.items[1..];
      assert LibName(VersionEntry()) == None;
    }
  }

  /** The update of a `lib` entry keeps it a `lib` entry, now named `name`. */
  lemma UpdatedLibNamed(x: Sexp, name: string, uri: string)
    requires x.List? && HeadedBy(x.items, LibKey)
    ensures IsLibFor(UpdateLib(x, name, uri), name)
    ensures FieldsSet(UpdateLib(x, name, uri).items, name, uri)
  {
    UpdateLibSetsFields(x, name, uri);
  }

  /** The search stays defined on a table that agrees with a searchable one
      up to a `lib` entry named `name`. */
  lemma {:induction false} SearchDefinedUpTo(a: seq<Sexp>, b: seq<Sexp>, name: string, i: nat)
    requires SearchDefined(a, name) && i <= |a| && i < |b| && a[..i] == b[..i] && IsLibFor(b[i], name)
    ensures SearchDefined(b, name)
    decreases i
  {
    if i > 0 {
      assert a[0] == b[0];
      if LibName(a[0]) != Some(name) {
        assert a[1..][..i - 1] == b[1..][..i - 1];
        SearchDefinedUpTo(a[1..], b[1..], name, i - 1);
      }
    }
  }

  /** After the edit the first entry named `name` holds the five normal
      fields; it is the entry that was found, updated in place, or a new
      entry at the end. */
  lemma EnsureLibEntryEffect(t: Sexp, name: string, uri: string)
    requires t.List? && SearchDefined(t.items, name)
    ensures var r := EnsureLibEntry(t, name, uri);
      && |t.items| <= |r.items| <= |t.items| + 1
      && LibIndex(r.items, name).Some?
      && FieldsSet(r.items[LibIndex(r.items, name).value].items, name, uri)
      && (LibIndex(t.items, name).Some? ==> LibIndex(r.items, name) == LibIndex(t.items, name))
      && (LibIndex(t.items, name).None? ==> LibIndex(r.items, name) == Some(|t.items|))
      && SearchDefined(r.items, name)
  {
    match LibIndex(t.items, name)
    case Some(i) => FoundEntryEffect(t, name, uri, i);
    case None => NewEntryEffect(t, name, uri);
  }

  lemma FoundEntryEffect(t: Sexp, name: string, uri: string, i: nat)
    requires t.List? && SearchDefined(t.items, name) && LibIndex(t.items, name) == Some(i)
    ensures var r := EnsureLibEntry(t, name, uri);
      && LibIndex(r.items, name) == Some(i)
      && FieldsSet(r.items[i].items, name, uri)
      && SearchDefined(r.items, name)
  {
    var r := EnsureLibEntry(t, name, uri);
    UpdatedLibNamed(t.items[i], name, uri);
    assert FirstLibAt(r.items, name, i);
    LibIndexAt(r.items, name, i);
    assert t.items[..i] == r.items[..i];
    SearchDefinedUpTo(t.items, r.items, name, i);
  }

  lemma NewEntryEffect(t: Sexp, name: string, uri: string)
    requires t.List? && SearchDefined(t.items, name) && LibIndex(t.items, name).None?
    ensures var r := EnsureLibEntry(t, name, uri);
      && LibIndex(r.items, name) == Some(|t.items|)
      && FieldsSet(r.items[|t.items|].items, name, uri)
      && SearchDefined(r.items, name)
  {
    var r := EnsureLibEntry(t, name, uri);
    BuildLibEntryFields(name, uri);
    assert FirstLibAt(r.items, name, |t.items|);
    LibIndexAt(r.items, name, |t.items|);
    assert t.items[..|t.items|] == r.items[..|t.items|];
    SearchDefinedUpTo(t.items, r.items, name, |t.items|);
  }

  /** The entry edit never touches the version entry. */
  lemma VersionKept(v: Sexp, name: string, uri: string)
    requires v.List? && SearchDefined(v.items, name) && HasVersion(v)
    ensures HasVersion(EnsureLibEntry(v, name, uri))
  {
    var k :| 1 <= k < |v.items| && IsKeyed(v.items[k], VersionKey);
    var r := EnsureLibEntry(v, name, uri);
    assert r.items[k] == v.items[k];
  }

  /** The edit leaves a table that holds a version entry and a normal entry
      named `name`, and that can be searched again. */
  lemma UpdateTableEffect(t: Sexp, name: string, uri: string)
    requires t.List? && |t.items| > 0 && SearchDefined(t.items, name)
    ensures var r := UpdateTable(t, name, uri);
      && r.Ok? && r.value.List? && |r.value.items| > 0
      && HasVersion(r.value)
      && SearchDefined(r.value.items, name)
      && LibIndex(r.value.items, name).Some?
      && FieldsSet(r.value.items[LibIndex(r.value.items, name).value].items, name, uri)
  {
    var v := EnsureVersion(t).value;
    SearchDefinedAfterVersion(t, name);
    EnsureLibEntryEffect(v, name, uri);
    VersionKept(v, name, uri);
  }

  /** A table whose first entry named `name` is already normal is left as
      it is. */
  lemma EnsureLibEntryFixed(t: Sexp, name: string, uri: string)
    requires t.List? && SearchDefined(t.items, name) && LibIndex(t.items, name).Some?
    requires FieldsSet(t.items[LibIndex(t.items, name).value].items, name, uri)
    ensures EnsureLibEntry(t, name, uri) == t
  {
    var i := LibIndex(t.items, name).value;
    UpdateLibFixed(t.items[i], name, uri);
    assert t.items[i := t.items[i]] == t.items;
  }

  /** Running the edit on its own output with the same name and uri gives
      the same tree. */
  lemma UpdateTableIdempotent(t: Sexp, name: string, uri: string)
    requires t.List? && |t.items| > 0 && SearchDefined(t.items, name)
    ensures UpdateTable(t, name, uri).Ok?
    ensures var once := UpdateTable(t, name, uri).value;
      !IsEmptyList(once) && (once.List? ==> SearchDefined(once.items, name))
    ensures UpdateTable(UpdateTable(t, name, uri).value, name, uri) == UpdateTable(t, name, uri)
  {
    UpdateTableEffect(t, name, uri);
    var once := UpdateTable(t, name, uri).value;
    assert EnsureVersion(once) == Ok(once);
    EnsureLibEntryFixed(once, name, uri);
  }

  /** The name a library is listed under: the file stem of a symbol
      library, the directory name of a footprint library with `.pretty`
      stripped (which may leave the empty name). */
  function LibNameFromPath(kind: TableKind, fileName: string): (r: string)
    ensures kind == SymbolTable ==> r == FileStem(fileName)
    ensures kind == FootprintTable && EndsWith(fileName, Importer.PrettySuffix) ==> r + Importer.PrettySuffix == fileName
    ensures kind == FootprintTable && !EndsWith(fileName, Importer.PrettySuffix) ==> r == fileName
  {
    match kind
    case SymbolTable => FileStem(fileName)
    case FootprintTable =>
      match StripSuffix(fileName, Importer.PrettySuffix)
      case Some(stripped) => stripped
      case None => fileName
  }

  /** The table names a footprint library as the importer does, except that
      a directory called just `.pretty` is listed under the empty name where
      the importer refuses it. */
  lemma FootprintNamesAgree(fileName: string)
    ensures Importer.FootprintLibName(fileName)
         == if fileName == Importer.PrettySuffix then Err(Importer.InvalidSource)
            else Ok(LibNameFromPath(FootprintTable, fileName))
    ensures LibNameFromPath(FootprintTable, Importer.PrettySuffix) == ""
  {
  }

  /** A symbol library file `<stem>.kicad_sym` is listed as `<stem>`. */
  lemma SymbolLibNamedByStem(stem: string)
    requires |stem| > 0 && '.' !in stem
    ensures LibNameFromPath(SymbolTable, stem + ".kicad_sym") == stem
  {
    StemOfExtended(stem, "kicad_sym");
  }

  /** The uri written for a library: relative to the project directory when
      the path is relative or lies under the project root, with every
      leading `./` dropped; any other absolute path as it is. */
  function MakeUri(path: string, root: string): (r: string)
    ensures StartsWith(r, ProjectDir) <==> !IsAbsolute(path) || StripPathPrefix(path, root).Some?
    ensures !IsAbsolute(path) ==>
      (!StartsWith(r[|ProjectDir|..], "./") && exists k: nat :: path == Repeat("./", k) + r[|ProjectDir|..])
    ensures IsAbsolute(path) && StripPathPrefix(path, root).Some? ==>
      r == ProjectDir + TrimDotSlash(StripPathPrefix(path, root).value)
    ensures IsAbsolute(path) && StripPathPrefix(path, root).Some? ==>
      (!StartsWith(r[|ProjectDir|..], "./")
       && exists k: nat :: path == root + Repeat("./", k) + r[|ProjectDir|..]
                         || path == root + "/" + Repeat("./", k) + r[|ProjectDir|..])
    ensures IsAbsolute(path) && StripPathPrefix(path, root).None? ==> r == path
  {
    var relative := if IsAbsolute(path) then StripPathPrefix(path, root) else Some(path);
    match relative
    case Some(rel) =>
      var r := ProjectDir + TrimDotSlash(rel);
      assert r[|ProjectDir|..] == TrimDotSlash(rel);
      r
    case None =>
      assert !StartsWith(path, ProjectDir) by { assert path[0] != ProjectDir[0]; }
      path
  }

  /** A relative library path is listed under the project directory
      without its leading `./`. */
  lemma MakeUriRelative()
    ensures MakeUri("./lib.pretty", "/p") == ProjectDir + "lib.pretty"
  {
    assert !IsAbsolute("./lib.pretty");
    DotSlashDropped();
  }

  lemma DotSlashDropped()
    ensures TrimDotSlash("./lib.pretty") == "lib.pretty"
  {
    assert StartsWith("./lib.pretty", "./");
    assert "./lib.pretty"[2..] == "lib.pretty";
    DiffersAt("lib.pretty", "./", 0);
    assert TrimDotSlash("lib.pretty") == "lib.pretty";
  }

  /** An absolute path under the project root is listed relative to it. */
  lemma MakeUriUnderRoot()
    ensures MakeUri("/p/lib.pretty", "/p") == ProjectDir + "lib.pretty"
  {
    assert IsAbsolute("/p/lib.pretty");
    StripUnderRoot();
    DiffersAt("lib.pretty", "./", 0);
    assert TrimDotSlash("lib.pretty") == "lib.pretty";
  }

  lemma StripUnderRoot()
    ensures StripPathPrefix("/p/lib.pretty", "/p") == Some("lib.pretty")
  {
    assert "/p/lib.pretty" != "/p";
    assert "/p"[1] != '/';
    assert StartsWith("/p/lib.pretty", "/p" + "/");
    assert "/p/lib.pretty"[3..] == "lib.pretty";
  }

  /** An absolute path outside the project root is kept verbatim. */
  lemma MakeUriElsewhere()
    ensures MakeUri("/q/lib.pretty", "/p") == "/q/lib.pretty"
  {
    assert IsAbsolute("/q/lib.pretty");
    DiffersAt("/q/lib.pretty", "/p/", 1);
    assert StripPathPrefix("/q/lib.pretty", "/p") == None;
  }

  /** A lower-case word with digits and underscores is written bare. */
  lemma WordIsBare(v: string)
    requires |v| > 0 && forall i :: 0 <= i < |v| ==> 'a' <= v[i] <= 'z' || '0' <= v[i] <= '9' || v[i] == '_'
    ensures !NeedsQuotes(v)
  {
  }

  /** Every atom of the default table is written bare. */
  lemma DefaultTableCanon(kind: TableKind)
    ensures Canon(DefaultTable(kind)) == DefaultTable(kind)
  {
    WordIsBare(RootName(kind));
    WordIsBare(VersionKey);
    WordIsBare(TableVersion);
    assert Canon(VersionEntry()) == VersionEntry();
  }

  /** The default table printed with two-space indentation reads back as
      itself. */
  lemma DefaultTableRoundTrip(kind: TableKind)
    ensures ParseAll(Pretty(DefaultTable(kind), "  ")) == Ok([DefaultTable(kind)])
  {
    assert AllWhitespace("  ");
    PrettyRoundTrip(DefaultTable(kind), "  ");
    DefaultTableCanon(kind);
  }
}
