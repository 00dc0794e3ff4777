/** Symbols and symbol libraries viewed through their S-expression trees:
    a symbol is `(symbol <name> ...)` whose properties are child lists
    `(property <key> <value> ...)`, and a library is
    `(kicad_symbol_lib ...)` whose symbols are its child lists after the
    head. */
module KicadSym {
  import opened Outcomes
  import opened Seqs
  import opened Sexps
  import opened SexpParser
  import opened Strings
  import opened SexpPrinter
  import opened RoundTrip

  datatype SymError =
    | Syntax(cause: ParseError)  // the text is not well-formed
    | NotSingleForm              // not exactly one top-level form
    | NotSymbol                  // not a `(symbol <name> ...)` list
    | RootNotList                // the library root is an atom
    | RootEmpty                  // the library root is `()`
    | WrongRoot                  // the library root is not headed `kicad_symbol_lib`
    | SymbolExists(name: string) // a same-named symbol blocks the merge

  /** What `AddSymbol` does when the library already holds a symbol of the same name. */
  datatype AddPolicy = ErrorOnConflict | ReplaceExisting | SkipExisting

  /** A symbol keeps its name next to its tree; `Valid` ties the two together. */
  datatype Symbol = Symbol(name: string, sexp: Sexp)

  datatype SymbolLib = SymbolLib(root: Sexp)

  const LibKeyword: string := "kicad_symbol_lib"

  // ---------------------------------------------------------------------
  // Recognising symbols and properties

  /** The name of a `(symbol <atom> ...)` list. */
  function SymbolName(t: Sexp): (r: Option<string>)
    ensures r.Some? <==> t.List? && |t.items| >= 2 && t.items[0].Atom? && t.items[0].value == "symbol" && t.items[1].Atom?
    ensures r.Some? ==> r.value == t.items[1].value
  {
    if t.List? && |t.items| >= 2 && AtomValue(t.items[0]) == Some("symbol") then AtomValue(t.items[1])
    else None
  }

  predicate Valid(sym: Symbol) {
    SymbolName(sym.sexp) == Some(sym.name)
  }

  predicate IsPropertyList(items: seq<Sexp>) {
    HeadedBy(items, "property")
  }

  /** A child list the property editor may overwrite for `key`: at least
      three elements, headed `property`, with the atom `key` second. */
  predicate IsPropertyEntry(t: Sexp, key: string) {
    t.List? && |t.items| >= 3 && IsPropertyList(t.items) && AtomValue(t.items[1]) == Some(key)
  }

  /** The value a property entry for `key` holds, when that value is an atom. */
  function PropertyValueIn(t: Sexp, key: string): (r: Option<string>)
    ensures r.Some? <==> IsPropertyEntry(t, key) && t.items[2].Atom?
    ensures r.Some? ==> r.value == t.items[2].value
  {
    if t.List? && |t.items| >= 3 && AtomValue(t.items[0]) == Some("property") && AtomValue(t.items[1]) == Some(key)
    then AtomValue(t.items[2])
    else None
  }

  /** `i` is the first child that is a property entry for `key`. */
  predicate FirstEntryAt(items: seq<Sexp>, key: string, i: int) {
    0 <= i < |items| && IsPropertyEntry(items[i], key)
    && forall j :: 0 <= j < i ==> !IsPropertyEntry(items[j], key)
  }

  // ---------------------------------------------------------------------
  // Symbols

  /** Views a tree as a symbol; fails unless it is `(symbol <atom> ...)`. */
  function FromSexp(t: Sexp): (r: Result<Symbol, SymError>)
    ensures r.Ok? <==> SymbolName(t).Some?
    ensures r.Ok? ==> Valid(r.value) && r.value.sexp == t
    ensures r.Err? ==> r.error == NotSymbol
  {
    match SymbolName(t)
    case None => Err(NotSymbol)
    case Some(name) => Ok(Symbol(name, t))
  }

  /** The only top-level form of a text. */
  function ParseOne(input: string): (r: Result<Sexp, SymError>)
    ensures r.Ok? <==> ParseAll(input).Ok? && |ParseAll(input).value| == 1
    ensures r.Ok? ==> ParseAll(input).value == [r.value]
    ensures ParseAll(input).Err? ==> r == Err(Syntax(ParseAll(input).error))
  {
    match ParseAll(input)
    case Err(e) => Err(Syntax(e))
    case Ok(forms) => if |forms| != 1 then Err(NotSingleForm) else Ok(forms[0])
  }

  /** Reads a text holding exactly one symbol. */
  function ParseSymbol(input: string): (r: Result<Symbol, SymError>)
    ensures r.Ok? <==> ParseAll(input).Ok? && |ParseAll(input).value| == 1 && SymbolName(ParseAll(input).value[0]).Some?
    ensures r.Ok? ==> Valid(r.value) && ParseAll(input) == Ok([r.value.sexp])
  {
    match ParseOne(input)
    case Err(e) => Err(e)
    case Ok(t) => FromSexp(t)
  }

  /** The value of the first child that is a property entry for `key` with
      an atom value; children that fail any test are passed over. */
  function PropertyValue(sym: Symbol, key: string): (r: Option<string>)
    ensures r.None? <==> !sym.sexp.List? || forall i :: 0 <= i < |sym.sexp.items| ==> PropertyValueIn(sym.sexp.items[i], key).None?
    ensures r.Some? ==> exists i :: 0 <= i < |sym.sexp.items| && PropertyValueIn(sym.sexp.items[i], key) == r
                                   && forall j :: 0 <= j < i ==> PropertyValueIn(sym.sexp.items[j], key).None?
  {
    if !sym.sexp.List? then None
    else
      var items := sym.sexp.items;
      match FirstMatch(items, (t: Sexp) => PropertyValueIn(t, key).Some?, 0)
      case None => None
      case Some(i) => PropertyValueIn(items[i], key)
  }

  /** The entry with its third element replaced by the bare atom `value`. */
  function WithValue(t: Sexp, value: string): Sexp
    requires t.List? && |t.items| >= 3
  {
    List(t.items[2 := Bare(value)])
  }

  /** Overwrites the value of the first property entry for `key` with the
      bare atom `value`, reporting whether there was one to overwrite. */
  function SetPropertyValue(sym: Symbol, key: string, value: string): (r: (bool, Symbol))
    ensures r.1.name == sym.name
    ensures r.0 <==> sym.sexp.List? && exists i :: 0 <= i < |sym.sexp.items| && IsPropertyEntry(sym.sexp.items[i], key)
    ensures !r.0 ==> r.1 == sym
    ensures r.0 ==> exists i :: FirstEntryAt(sym.sexp.items, key, i)
                               && r.1.sexp == List(sym.sexp.items[i := WithValue(sym.sexp.items[i], value)])
  {
    if !sym.sexp.List? then (false, sym)
    else
      var items := sym.sexp.items;
      match FirstMatch(items, (t: Sexp) => IsPropertyEntry(t, key), 0)
      case None => (false, sym)
      case Some(i) => (true, Symbol(sym.name, List(items[i := WithValue(items[i], value)])))
  }

  /** A copy of a property template naming `key` and holding `value`: the
      second element becomes the quoted key and the third the bare value,
      each appended when the template is too short. */
  function FillTemplate(tpl: seq<Sexp>, key: string, value: string): (r: seq<Sexp>)
    requires |tpl| >= 1
    ensures |r| == if |tpl| >= 3 then |tpl| else 3
    ensures r[0] == tpl[0] && r[1] == Quoted(key) && r[2] == Bare(value)
    ensures forall k :: 3 <= k < |r| ==> r[k] == tpl[k]
  {
    var named := if |tpl| >= 2 then tpl[1 := Quoted(key)] else tpl + [Quoted(key)];
    if |named| >= 3 then named[2 := Bare(value)] else named + [Bare(value)]
  }

  /** The entry appended when no property for the key exists: a copy of the
      first property-headed child list, or a fresh `(property key value)`. */
  function NewProperty(items: seq<Sexp>, key: string, value: string): (r: Sexp)
    ensures IsPropertyEntry(r, key) && r.items[2] == Bare(value)
  {
    match FirstMatch(items, (t: Sexp) => t.List? && IsPropertyList(t.items), 0)
    case Some(i) => List(FillTemplate(items[i].items, key, value))
    case None => List([Bare("property"), Quoted(key), Bare(value)])
  }

  /** Sets the property `key` to `value`, appending a new entry when the
      symbol has none to overwrite. */
  function SetOrAddProperty(sym: Symbol, key: string, value: string): (r: Symbol)
    ensures r.name == sym.name
    ensures !sym.sexp.List? ==> r == sym
    ensures sym.sexp.List? ==> r.sexp.List? && |sym.sexp.items| <= |r.sexp.items| <= |sym.sexp.items| + 1
    ensures sym.sexp.List? && (exists i :: 0 <= i < |sym.sexp.items| && IsPropertyEntry(sym.sexp.items[i], key)) ==>
      exists i :: FirstEntryAt(sym.sexp.items, key, i)
                  && r.sexp == List(sym.sexp.items[i := WithValue(sym.sexp.items[i], value)])
    ensures sym.sexp.List? && !(exists i :: 0 <= i < |sym.sexp.items| && IsPropertyEntry(sym.sexp.items[i], key)) ==>
      r.sexp == List(sym.sexp.items + [NewProperty(sym.sexp.items, key, value)])
  {
    var (done, updated) := SetPropertyValue(sym, key, value);
    if done then updated
    else if !sym.sexp.List? then sym
    else Symbol(sym.name, List(sym.sexp.items + [NewProperty(sym.sexp.items, key, value)]))
  }

  /** After a successful overwrite, reading the property gives the new value. */
  lemma SetThenGet(sym: Symbol, key: string, value: string)
    requires SetPropertyValue(sym, key, value).0
    ensures PropertyValue(SetPropertyValue(sym, key, value).1, key) == Some(value)
  {
    var items := sym.sexp.items;
    var i :| FirstEntryAt(items, key, i)
             && SetPropertyValue(sym, key, value).1.sexp == List(items[i := WithValue(items[i], value)]);
    var updated := items[i := WithValue(items[i], value)];
    assert PropertyValueIn(updated[i], key) == Some(value);
    assert forall j :: 0 <= j < i ==> PropertyValueIn(updated[j], key).None? by {
      forall j | 0 <= j < i
        ensures PropertyValueIn(updated[j], key).None?
      {
        assert updated[j] == items[j];
      }
    }
  }

  /** Overwriting a property keeps the symbol's own name in its tree. */
  lemma SetKeepsValid(sym: Symbol, key: string, value: string)
    requires Valid(sym)
    ensures Valid(SetPropertyValue(sym, key, value).1)
  {
    if SetPropertyValue(sym, key, value).0 {
      var items := sym.sexp.items;
      var i :| FirstEntryAt(items, key, i)
               && SetPropertyValue(sym, key, value).1.sexp == List(items[i := WithValue(items[i], value)]);
      assert i >= 2;
    }
  }

  /** After setting or adding, the property reads back as the new value and
      the tree still names the same symbol. */
  lemma SetOrAddThenGet(sym: Symbol, key: string, value: string)
    requires sym.sexp.List?
    ensures PropertyValue(SetOrAddProperty(sym, key, value), key) == Some(value)
    ensures Valid(sym) ==> Valid(SetOrAddProperty(sym, key, value))
  {
    if SetPropertyValue(sym, key, value).0 {
      SetThenGet(sym, key, value);
      if Valid(sym) {
        SetKeepsValid(sym, key, value);
      }
    } else {
      var items := sym.sexp.items;
      var grown := items + [NewProperty(items, key, value)];
      assert PropertyValueIn(grown[|items|], key) == Some(value);
      assert forall j :: 0 <= j < |items| ==> PropertyValueIn(grown[j], key).None? by {
        forall j | 0 <= j < |items|
          ensures PropertyValueIn(grown[j], key).None?
        {
          assert grown[j] == items[j];
          assert !IsPropertyEntry(items[j], key);
        }
      }
      if Valid(sym) {
        assert grown[0] == items[0] && grown[1] == items[1];
      }
    }
  }

  /** Overwriting the first entry a second time with the same value changes nothing. */
  lemma SetEntryAgain(items: seq<Sexp>, key: string, value: string, i: nat)
    requires FirstEntryAt(items, key, i) && items[i].items[2] == Bare(value)
    ensures SetPropertyValue(Symbol("", List(items)), key, value) == (true, Symbol("", List(items)))
  {
    assert items[i := WithValue(items[i], value)] == items by {
      assert WithValue(items[i], value) == items[i] by {
        assert items[i].items[2 := Bare(value)] == items[i].items;
      }
    }
  }

  /** Setting or adding the same property twice is the same as doing it once. */
  lemma SetOrAddIdempotent(sym: Symbol, key: string, value: string)
    ensures var once := SetOrAddProperty(sym, key, value);
      SetOrAddProperty(once, key, value) == once
  {
    var once := SetOrAddProperty(sym, key, value);
    if sym.sexp.List? {
      var items := sym.sexp.items;
      var after := once.sexp.items;
      var i: nat;
      if SetPropertyValue(sym, key, value).0 {
        i :| FirstEntryAt(items, key, i)
             && SetPropertyValue(sym, key, value).1.sexp == List(items[i := WithValue(items[i], value)]);
        assert forall j :: 0 <= j < i ==> after[j] == items[j];
      } else {
        i := |items|;
        assert forall j :: 0 <= j < i ==> after[j] == items[j];
      }
      assert FirstEntryAt(after, key, i);
      SetEntryAgain(after, key, value, i);
      assert SetPropertyValue(once, key, value) == (true, once)
        by { assert SetPropertyValue(once, key, value).1.sexp == SetPropertyValue(Symbol("", List(after)), key, value).1.sexp; }
    }
  }

  // ---------------------------------------------------------------------
  // Libraries

  predicate IsLibRoot(t: Sexp) {
    t.List? && HeadedBy(t.items, LibKeyword)
  }

  /** Checks the root is a non-empty list headed by the atom `kicad_symbol_lib`. */
  function EnsureRoot(t: Sexp): (r: Result<(), SymError>)
    ensures r.Ok? <==> IsLibRoot(t)
    ensures t.Atom? ==> r == Err(RootNotList)
    ensures t == List([]) ==> r == Err(RootEmpty)
    ensures t.List? && |t.items| > 0 && !IsLibRoot(t) ==> r == Err(WrongRoot)
  {
    if !t.List? then Err(RootNotList)
    else if |t.items| == 0 then Err(RootEmpty)
    else if AtomValue(t.items[0]) != Some(LibKeyword) then Err(WrongRoot)
    else Ok(())
  }

  /** Reads a library: exactly one top-level form, and that a library root. */
  function ParseLib(input: string): (r: Result<SymbolLib, SymError>)
    ensures r.Ok? <==> ParseAll(input).Ok? && |ParseAll(input).value| == 1 && IsLibRoot(ParseAll(input).value[0])
    ensures r.Ok? ==> ParseAll(input) == Ok([r.value.root])
  {
    match ParseOne(input)
    case Err(e) => Err(e)
    case Ok(t) =>
      match EnsureRoot(t)
      case Err(e) => Err(e)
      case Ok(_) => Ok(SymbolLib(t))
  }

  /** The positions, from `from` on and in increasing order, of the
      children that are `(symbol <atom> ...)` lists. */
  function SymbolIndices(items: seq<Sexp>, from: nat): (r: seq<nat>)
    ensures forall k :: 0 <= k < |r| ==> from <= r[k] < |items| && SymbolName(items[r[k]]).Some?
    ensures forall k, l :: 0 <= k < l < |r| ==> r[k] < r[l]
    ensures forall i :: from <= i < |items| && SymbolName(items[i]).Some? ==> i in r
    decreases |items| - from
  {
    if from >= |items| then []
    else if SymbolName(items[from]).Some? then [from] + SymbolIndices(items, from + 1)
    else SymbolIndices(items, from + 1)
  }

  /** The symbols of a library, in order; children after the head that are
      not symbols are passed over. */
  function Symbols(lib: SymbolLib): (r: Result<seq<Symbol>, SymError>)
    ensures r.Ok? <==> lib.root.List?
    ensures r.Err? ==> r.error == RootNotList
    ensures r.Ok? ==>
      var idx := SymbolIndices(lib.root.items, 1);
      |r.value| == |idx|
      && forall k :: 0 <= k < |idx| ==> Valid(r.value[k]) && r.value[k].sexp == lib.root.items[idx[k]]
  {
    if !lib.root.List? then Err(RootNotList)
    else
      var items := lib.root.items;
      var idx := SymbolIndices(items, 1);
      Ok(seq(|idx|, k requires 0 <= k < |idx| => Symbol(SymbolName(items[idx[k]]).value, items[idx[k]])))
  }

  function Names(syms: seq<Symbol>): (r: seq<string>)
    ensures |r| == |syms| && forall k :: 0 <= k < |syms| ==> r[k] == syms[k].name
  {
    seq(|syms|, k requires 0 <= k < |syms| => syms[k].name)
  }

  predicate SymbolAt(items: seq<Sexp>, name: string, i: int) {
    1 <= i < |items| && SymbolName(items[i]) == Some(name)
  }

  /** Merges a symbol into a library. Only the first child after the head
      whose symbol name equals the new symbol's name is considered; with
      no such child the symbol is appended whatever the policy. */
  function AddSymbol(lib: SymbolLib, sym: Symbol, policy: AddPolicy): (r: (Result<(), SymError>, SymbolLib))
    ensures r.0.Err? ==> r.1 == lib
    ensures !IsLibRoot(lib.root) ==> r == (Err(EnsureRoot(lib.root).error), lib)
    ensures IsLibRoot(lib.root) && !(exists i :: SymbolAt(lib.root.items, sym.name, i)) ==>
      r == (Ok(()), SymbolLib(List(lib.root.items + [sym.sexp])))
    ensures IsLibRoot(lib.root) && (exists i :: SymbolAt(lib.root.items, sym.name, i)) ==>
      match policy
      case SkipExisting => r == (Ok(()), lib)
      case ErrorOnConflict => r == (Err(SymbolExists(sym.name)), lib)
      case ReplaceExisting =>
        r.0 == Ok(()) &&
        exists i :: SymbolAt(lib.root.items, sym.name, i)
                    && (forall j :: 1 <= j < i ==> !SymbolAt(lib.root.items, sym.name, j))
                    && r.1 == SymbolLib(List(lib.root.items[i := sym.sexp]))
  {
    match EnsureRoot(lib.root)
    case Err(e) => (Err(e), lib)
    case Ok(_) =>
      var items := lib.root.items;
      match FirstMatch(items, (t: Sexp) => SymbolName(t) == Some(sym.name), 1)
      case None => (Ok(()), SymbolLib(List(items + [sym.sexp])))
      case Some(i) =>
        assert SymbolAt(items, sym.name, i);
        match policy
        case SkipExisting => (Ok(()), lib)
        case ErrorOnConflict => (Err(SymbolExists(sym.name)), lib)
        case ReplaceExisting => (Ok(()), SymbolLib(List(items[i := sym.sexp])))
  }

  /** A child at a symbol position is one of the listed symbols. */
  lemma ListedAt(lib: SymbolLib, i: nat)
    requires lib.root.List? && 1 <= i < |lib.root.items| && SymbolName(lib.root.items[i]).Some?
    ensures exists k :: 0 <= k < |Symbols(lib).value| && Symbols(lib).value[k].sexp == lib.root.items[i]
  {
    var idx := SymbolIndices(lib.root.items, 1);
    var k :| 0 <= k < |idx| && idx[k] == i;
    assert Symbols(lib).value[k].sexp == lib.root.items[i];
  }

  /** After a successful merge the library is still a library and lists a
      symbol of the merged name: the new one, or under `SkipExisting` the
      one that was already there. */
  lemma AddedSymbolListed(lib: SymbolLib, sym: Symbol, policy: AddPolicy)
    requires IsLibRoot(lib.root) && Valid(sym)
    requires AddSymbol(lib, sym, policy).0.Ok?
    ensures IsLibRoot(AddSymbol(lib, sym, policy).1.root)
    ensures sym.name in Names(Symbols(AddSymbol(lib, sym, policy).1).value)
  {
    var items := lib.root.items;
    var after := AddSymbol(lib, sym, policy).1;
    var i: nat;
    if exists j :: SymbolAt(items, sym.name, j) {
      i :| SymbolAt(items, sym.name, i)
           && (policy == ReplaceExisting ==> after == SymbolLib(List(items[i := sym.sexp])));
    } else {
      i := |items|;
    }
    assert after.root.items[0] == items[0];
    assert SymbolName(after.root.items[i]) == Some(sym.name);
    ListedAt(after, i);
    var k :| 0 <= k < |Symbols(after).value| && Symbols(after).value[k].sexp == after.root.items[i];
    assert Names(Symbols(after).value)[k] == sym.name;
  }

  /** Appending grows the library by one child; replacing keeps its size. */
  lemma AddSymbolSize(lib: SymbolLib, sym: Symbol, policy: AddPolicy)
    requires IsLibRoot(lib.root)
    ensures var after := AddSymbol(lib, sym, policy).1;
      |after.root.items| == |lib.root.items| + (if exists i :: SymbolAt(lib.root.items, sym.name, i) then 0 else 1)
  {
  }

  // ---------------------------------------------------------------------
  // Writing a library and reading it back

  lemma CanonSymbolName(t: Sexp)
    ensures SymbolName(Canon(t)) == SymbolName(t)
  {
  }

  lemma {:induction false} CanonSymbolIndices(items: seq<Sexp>, from: nat)
    ensures SymbolIndices(CanonSeq(items), from) == SymbolIndices(items, from)
    decreases |items| - from
  {
    if from < |items| {
      CanonSymbolName(items[from]);
      CanonSymbolIndices(items, from + 1);
    }
  }

  /** A library written with tab indentation reads back as a library with
      the same symbol names in the same order. */
  lemma LibRoundTrip(lib: SymbolLib)
    requires IsLibRoot(lib.root)
    ensures ParseLib(PrettyDefault(lib.root)).Ok?
    ensures Names(Symbols(ParseLib(PrettyDefault(lib.root)).value).value) == Names(Symbols(lib).value)
  {
    assert AllWhitespace("\t");
    PrettyRoundTrip(lib.root, "\t");
    var again := SymbolLib(Canon(lib.root));
    var items := lib.root.items;
    assert again.root.items[0] == Canon(items[0]);
    assert ParseLib(PrettyDefault(lib.root)) == Ok(again);
    CanonSymbolIndices(items, 1);
    var a := Symbols(again).value;
    var b := Symbols(lib).value;
    assert |a| == |b|;
    forall k | 0 <= k < |a|
      ensures a[k].name == b[k].name
    {
      CanonSymbolName(items[SymbolIndices(items, 1)[k]]);
    }
  }
}
