/** Choosing a footprint for each imported symbol and naming the footprint
    library the footprints are copied into. */
module Importer {
  import opened Outcomes
  import opened Seqs
  import opened Strings
  import opened Paths
  import opened Sexps
  import opened KicadSym

  datatype ImportError =
    | InvalidSource        // a file or library name that cannot be used
    | Association(symbol: string)  // no footprint could be chosen for this symbol

  /** A discovered footprint file: its stem names the footprint. */
  datatype FootprintInfo = FootprintInfo(name: string, path: string)

  const FootprintKey: string := "Footprint"
  const PrettySuffix: string := ".pretty"

  /** One footprint per discovered `.kicad_mod` file, in the order found,
      each named by its file stem. */
  function CollectFootprints(fileNames: seq<string>): (r: seq<FootprintInfo>)
    ensures |r| == |fileNames|
    ensures forall k :: 0 <= k < |r| ==> r[k].path == fileNames[k] && r[k].name == FileStem(fileNames[k])
  {
    seq(|fileNames|, k requires 0 <= k < |fileNames| => FootprintInfo(FileStem(fileNames[k]), fileNames[k]))
  }

  /** The names of the discovered footprints, as the lookup table keys them. */
  function FootprintNames(footprints: seq<FootprintInfo>): set<string> {
    set f | f in footprints :: f.name
  }

  /** The footprint a `Footprint` property value refers to: the text after
      its last `:`, or the whole value when it has no `:`. */
  function FootprintNameFromValue(value: string): (r: Option<string>)
    ensures r.None? <==> value == ""
    ensures r.Some? ==> EndsWith(value, r.value) && ':' !in r.value
    ensures r.Some? && ':' in value ==> |r.value| < |value| && value[|value| - |r.value| - 1] == ':'
    ensures ':' !in value ==> r == (if value == "" then None else Some(value))
  {
    if value == "" then None
    else match LastIndexOf(value, ':')
      case Some(i) => Some(value[i + 1..])
      case None => Some(value)
  }

  /** A qualified `lib:name` value names `name` whatever the library part. */
  lemma NameOfQualified(lib: string, name: string)
    requires ':' !in name
    ensures FootprintNameFromValue(lib + ":" + name) == Some(name)
  {
    var v := lib + ":" + name;
    assert v[|lib|] == ':';
    assert v[|lib| + 1..] == name;
  }

  /** The footprint the symbol's own `Footprint` property names, when the
      trimmed value is not empty and names a discovered footprint. */
  function DeclaredFootprint(sym: Symbol, names: set<string>): (r: Option<string>)
    ensures r.Some? ==> r.value in names
    ensures r.Some? <==> PropertyValue(sym, FootprintKey).Some?
                         && Trim(PropertyValue(sym, FootprintKey).value) != ""
                         && FootprintNameFromValue(Trim(PropertyValue(sym, FootprintKey).value)).value in names
    ensures r.Some? ==> r == FootprintNameFromValue(Trim(PropertyValue(sym, FootprintKey).value))
  {
    match PropertyValue(sym, FootprintKey)
    case None => None
    case Some(value) =>
      var trimmed := Trim(value);
      if trimmed == "" then None
      else
        var name := FootprintNameFromValue(trimmed).value;
        if name in names then Some(name) else None
  }

  /** Picks the footprint for a symbol, in priority order: the footprint its
      property declares, the only discovered footprint when exactly one
      file was found, a footprint named like the symbol; otherwise an
      association error naming the symbol. */
  function SelectFootprint(sym: Symbol, footprints: seq<FootprintInfo>): (r: Result<string, ImportError>)
    ensures r.Ok? ==> r.value in FootprintNames(footprints)
    ensures DeclaredFootprint(sym, FootprintNames(footprints)).Some? ==>
      r == Ok(DeclaredFootprint(sym, FootprintNames(footprints)).value)
    ensures DeclaredFootprint(sym, FootprintNames(footprints)).None? && |footprints| == 1 ==>
      r == Ok(footprints[0].name)
    ensures DeclaredFootprint(sym, FootprintNames(footprints)).None? && |footprints| != 1 ==>
      r == if sym.name in FootprintNames(footprints) then Ok(sym.name) else Err(Association(sym.name))
  {
    var names := FootprintNames(footprints);
    match DeclaredFootprint(sym, names)
    case Some(name) => Ok(name)
    case None =>
      if |footprints| == 1 then
        assert footprints[0] in footprints;
        Ok(footprints[0].name)
      else if sym.name in names then Ok(sym.name)
      else Err(Association(sym.name))
  }

  /** The `Footprint` value written into an associated symbol. */
  function QualifiedName(libName: string, footprint: string): string {
    libName + ":" + footprint
  }

  /** Records the footprint chosen for one symbol as `lib:footprint`. */
  function AssociateOne(sym: Symbol, footprints: seq<FootprintInfo>, libName: string): (r: Result<Symbol, ImportError>)
    ensures r.Ok? <==> SelectFootprint(sym, footprints).Ok?
    ensures r.Err? ==> r.error == SelectFootprint(sym, footprints).error
    ensures r.Ok? ==> r.value.name == sym.name
  {
    match SelectFootprint(sym, footprints)
    case Err(e) => Err(e)
    case Ok(name) => Ok(SetOrAddProperty(sym, FootprintKey, QualifiedName(libName, name)))
  }

  /** Associates every symbol, in order; the first symbol without a choice
      fails the whole call. */
  function AssociateFootprints(symbols: seq<Symbol>, footprints: seq<FootprintInfo>, libName: string)
    : (r: Result<seq<Symbol>, ImportError>)
    ensures r.Ok? <==> forall k :: 0 <= k < |symbols| ==> AssociateOne(symbols[k], footprints, libName).Ok?
    ensures r.Ok? ==> |r.value| == |symbols|
                      && forall k :: 0 <= k < |symbols| ==> r.value[k] == AssociateOne(symbols[k], footprints, libName).value
    ensures r.Err? ==> exists k :: 0 <= k < |symbols| && AssociateOne(symbols[k], footprints, libName) == Err(r.error)
                                  && forall j :: 0 <= j < k ==> AssociateOne(symbols[j], footprints, libName).Ok?
  {
    TryMap(symbols, (sym: Symbol) => AssociateOne(sym, footprints, libName))
  }

  /** Every associated symbol keeps its name and reads back the footprint
      chosen for it, qualified by the library name. */
  lemma AssociatedFootprintRead(sym: Symbol, footprints: seq<FootprintInfo>, libName: string)
    requires AssociateOne(sym, footprints, libName).Ok? && sym.sexp.List?
    ensures var out := AssociateOne(sym, footprints, libName).value;
      && out.name == sym.name
      && PropertyValue(out, FootprintKey) == Some(QualifiedName(libName, SelectFootprint(sym, footprints).value))
      && (Valid(sym) ==> Valid(out))
  {
    SetOrAddThenGet(sym, FootprintKey, QualifiedName(libName, SelectFootprint(sym, footprints).value));
  }

  /** A `lib:name` value without padding declares `name` when that is a
      discovered footprint. */
  lemma DeclaredQualified(sym: Symbol, names: set<string>, libName: string, chosen: string)
    requires PropertyValue(sym, FootprintKey) == Some(QualifiedName(libName, chosen))
    requires chosen in names && ':' !in chosen && |chosen| > 0 && !IsWhitespace(chosen[|chosen| - 1])
    requires |libName| > 0 ==> !IsWhitespace(libName[0])
    ensures DeclaredFootprint(sym, names) == Some(chosen)
  {
    var value := QualifiedName(libName, chosen);
    if |libName| == 0 {
      assert value[0] == ':';
    } else {
      assert value[0] == libName[0];
    }
    assert value[|value| - 1] == chosen[|chosen| - 1];
    TrimUnpadded(value);
    NameOfQualified(libName, chosen);
  }

  /** Choosing again after association picks the same footprint, as long as
      the recorded value is not padded and the footprint name has no `:`. */
  lemma ReselectStable(sym: Symbol, footprints: seq<FootprintInfo>, libName: string)
    requires sym.sexp.List? && SelectFootprint(sym, footprints).Ok?
    requires var chosen := SelectFootprint(sym, footprints).value;
      ':' !in chosen && |chosen| > 0 && !IsWhitespace(chosen[|chosen| - 1])
      && (|libName| > 0 ==> !IsWhitespace(libName[0]))
    ensures AssociateOne(AssociateOne(sym, footprints, libName).value, footprints, libName)
         == AssociateOne(sym, footprints, libName)
  {
    var chosen := SelectFootprint(sym, footprints).value;
    var value := QualifiedName(libName, chosen);
    var once := AssociateOne(sym, footprints, libName).value;
    AssociatedFootprintRead(sym, footprints, libName);
    DeclaredQualified(once, FootprintNames(footprints), libName, chosen);
    assert SelectFootprint(once, footprints) == Ok(chosen);
    SetOrAddIdempotent(sym, FootprintKey, value);
  }

  /** The single-footprint shortcut counts files, not distinct names: two
      files that both yield the stem `A` leave a symbol `B` without a
      footprint, while one such file would be chosen. */
  lemma ShortcutCountsFiles()
    ensures var sym := Symbol("B", List([Bare("symbol"), Quoted("B")]));
      && SelectFootprint(sym, [FootprintInfo("A", "A.kicad_mod")]) == Ok("A")
      && SelectFootprint(sym, [FootprintInfo("A", "x/A.kicad_mod"), FootprintInfo("A", "y/A.kicad_mod")])
         == Err(Association("B"))
  {
    var sym := Symbol("B", List([Bare("symbol"), Quoted("B")]));
    assert PropertyValue(sym, FootprintKey) == None by {
      assert forall i :: 0 <= i < |sym.sexp.items| ==> sym.sexp.items[i].Atom?;
    }
    var two := [FootprintInfo("A", "x/A.kicad_mod"), FootprintInfo("A", "y/A.kicad_mod")];
    assert FootprintNames(two) == {"A"};
  }

  /** The destination library's name: its directory name without a
      trailing `.pretty`, which must leave something behind. */
  function FootprintLibName(fileName: string): (r: Result<string, ImportError>)
    ensures r.Err? <==> fileName == PrettySuffix
    ensures r.Err? ==> r.error == InvalidSource
    ensures r.Ok? && EndsWith(fileName, PrettySuffix) ==> r.value + PrettySuffix == fileName
    ensures !EndsWith(fileName, PrettySuffix) ==> r == Ok(fileName)
  {
    match StripSuffix(fileName, PrettySuffix)
    case Some(stripped) => if stripped == "" then Err(InvalidSource) else Ok(stripped)
    case None => Ok(fileName)
  }

  /** Naming a library `<name>.pretty` gives back `<name>`. */
  lemma FootprintLibNameOfPretty(name: string)
    requires name != ""
    ensures FootprintLibName(name + PrettySuffix) == Ok(name)
  {
    assert (name + PrettySuffix)[..|name|] == name;
  }
}
