/** Printing a tree and parsing the text back yields the same tree, except
    that atoms the printer had to quote come back marked as quoted. */
module RoundTrip {
  import opened Outcomes
  import opened Strings
  import opened Sexps
  import opened SexpPrinter
  import opened SexpParser

  /** The tree the parser reads back from the printer's output. */
  function Canon(t: Sexp): Sexp
    decreases t
  {
    match t
    case Atom(v, q) => Atom(v, q || NeedsQuotes(v))
    case List(items) => List(CanonSeq(items))
  }

  function CanonSeq(items: seq<Sexp>): (r: seq<Sexp>)
    ensures |r| == |items|
    ensures forall i :: 0 <= i < |items| ==> r[i] == Canon(items[i])
    decreases items
  {
    if |items| == 0 then [] else [Canon(items[0])] + CanonSeq(items[1..])
  }

  /** `b` has the list structure and atom values of `a`; only quoted flags
      may have been switched on. */
  predicate SameUpToQuoting(a: Sexp, b: Sexp)
    decreases a
  {
    match a
    case Atom(v, q) => b.Atom? && b.value == v && (q ==> b.quoted)
    case List(xs) =>
      && b.List? && |b.items| == |xs|
      && forall i :: 0 <= i < |xs| ==> SameUpToQuoting(xs[i], b.items[i])
  }

  lemma {:induction false} CanonSameUpToQuoting(t: Sexp)
    ensures SameUpToQuoting(t, Canon(t))
    decreases t
  {
    match t
    case Atom(_, _) =>
    case List(xs) =>
      forall i | 0 <= i < |xs|
        ensures SameUpToQuoting(xs[i], Canon(t).items[i])
      {
        CanonSameUpToQuoting(xs[i]);
      }
  }

  /** Text after a bare atom that ends it. */
  predicate Stops(rest: string) {
    |rest| == 0 || IsDelimiter(rest[0])
  }

  /** A character the tokenizer reads as the start of a value. */
  predicate StartsValue(c: char) {
    !IsWhitespace(c) && !IsCommentStart(c) && c != ')'
  }

  lemma RenderStartsValue(t: Sexp, depth: nat, unit: string)
    ensures |Render(t, depth, unit)| > 0 && StartsValue(Render(t, depth, unit)[0])
  {
    match t
    case Atom(v, q) =>
      if !(q || NeedsQuotes(v)) {
        assert !IsDelimiter(v[0]);
      }
    case List(_) =>
  }

  lemma RenderTailStart(items: seq<Sexp>, depth: nat, unit: string)
    ensures |RenderTail(items, depth, unit)| == 0 || RenderTail(items, depth, unit)[0] == '\n'
  {
  }

  lemma LineBreakWhitespace(unit: string, depth: nat)
    requires AllWhitespace(unit)
    ensures |LineBreak(unit, depth)| > 0 && LineBreak(unit, depth)[0] == '\n'
    ensures AllWhitespace(LineBreak(unit, depth))
  {
    var p := LineBreak(unit, depth);
    RepeatWhitespace(unit, depth);
    assert forall i :: 1 <= i < |p| ==> p[i] == Repeat(unit, depth)[i - 1];
  }

  /** The text after a child that is followed by more children or by the closing line. */
  lemma ClosingStops(more: string, w: string, rest: string)
    requires |more| == 0 || more[0] == '\n'
    requires |w| > 0 && w[0] == '\n'
    ensures Stops(more + w + ")" + rest)
  {
    if |more| == 0 {
      assert (more + w + ")" + rest)[0] == w[0];
    } else {
      assert (more + w + ")" + rest)[0] == more[0];
    }
  }

  lemma SkipWsAtValue(s: string)
    requires |s| > 0 && StartsValue(s[0])
    ensures SkipWs(s) == s
  {
  }

  lemma {:induction false} SkipWhitespacePrefix(w: string, s: string)
    requires AllWhitespace(w)
    ensures SkipWs(w + s) == SkipWs(s)
  {
    if |w| == 0 {
      assert w + s == s;
    } else {
      assert (w + s)[1..] == w[1..] + s;
      SkipWhitespacePrefix(w[1..], s);
    }
  }

  lemma ListItemsWhitespacePrefix(w: string, s: string)
    requires AllWhitespace(w)
    ensures ParseListItems(w + s) == ParseListItems(s)
  {
    SkipWhitespacePrefix(w, s);
  }

  /** Lifts a parse of the rest of a quoted body over an already decoded prefix. */
  function PrependDecoded(v: string, r: Result<(string, string), ParseError>): Result<(string, string), ParseError> {
    match r
    case Ok((x, rest)) => Ok((v + x, rest))
    case Err(e) => Err(e)
  }

  /** One escaped character decodes back to itself. */
  lemma QuotedBodyStep(c: char, after: string)
    ensures ParseQuotedBody(EscapeChar(c) + after) == PrependDecoded([c], ParseQuotedBody(after))
  {
    var s := EscapeChar(c) + after;
    if c == '\\' || c == '\"' || c == '\n' || c == '\r' || c == '\t' {
      assert s[0] == '\\' && s[2..] == after;
    } else {
      assert s[0] == c && s[1..] == after;
    }
  }

  lemma PrependDecodedNothing(r: Result<(string, string), ParseError>)
    ensures PrependDecoded([], r) == r
  {
    match r
    case Ok((x, rest)) => assert [] + x == x;
    case Err(_) =>
  }

  lemma PrependDecodedTwice(a: string, b: string, r: Result<(string, string), ParseError>)
    ensures PrependDecoded(a, PrependDecoded(b, r)) == PrependDecoded(a + b, r)
  {
    match r
    case Ok((x, rest)) => assert a + (b + x) == (a + b) + x;
    case Err(_) =>
  }

  /** The escaped text of `v` decodes back to `v`, whatever follows it. */
  lemma {:induction false} EscapeDecodes(v: string, tail: string)
    ensures ParseQuotedBody(Escape(v) + tail) == PrependDecoded(v, ParseQuotedBody(tail))
  {
    if |v| == 0 {
      assert Escape(v) + tail == tail;
      PrependDecodedNothing(ParseQuotedBody(tail));
    } else {
      EscapeDecodes(v[1..], tail);
      assert Escape(v) + tail == EscapeChar(v[0]) + (Escape(v[1..]) + tail);
      QuotedBodyStep(v[0], Escape(v[1..]) + tail);
      PrependDecodedTwice([v[0]], v[1..], ParseQuotedBody(tail));
      assert [v[0]] + v[1..] == v;
    }
  }

  lemma QuotedAtomRoundTrip(v: string, rest: string)
    ensures ParseSexp("\"" + Escape(v) + "\"" + rest) == Ok((Quoted(v), rest))
  {
    var s := "\"" + Escape(v) + "\"" + rest;
    SkipWsAtValue(s);
    assert s[1..] == Escape(v) + ("\"" + rest);
    EscapeDecodes(v, "\"" + rest);
    assert ParseQuotedBody("\"" + rest) == Ok(([], rest));
    assert v + [] == v;
  }

  lemma BareLengthOfAtom(v: string, rest: string)
    requires |v| > 0 && !NeedsQuotes(v) && Stops(rest)
    ensures BareLength(v + rest) == |v|
  {
    var s := v + rest;
    assert forall i :: 0 <= i < |v| ==> s[i] == v[i];
    if |rest| > 0 {
      assert s[|v|] == rest[0];
    }
  }

  lemma BareAtomRoundTrip(v: string, rest: string)
    requires !NeedsQuotes(v) && Stops(rest)
    ensures ParseSexp(v + rest) == Ok((Bare(v), rest))
  {
    var s := v + rest;
    assert !IsDelimiter(v[0]) && s[0] == v[0];
    SkipWsAtValue(s);
    BareLengthOfAtom(v, rest);
    assert s[..|v|] == v && s[|v|..] == rest;
  }

  lemma AtomRoundTrip(v: string, q: bool, rest: string)
    requires Stops(rest)
    ensures ParseSexp(RenderAtom(v, q) + rest) == Ok((Atom(v, q || NeedsQuotes(v)), rest))
  {
    if q || NeedsQuotes(v) {
      QuotedAtomRoundTrip(v, rest);
    } else {
      BareAtomRoundTrip(v, rest);
    }
  }

  function PrependItem(x: Sexp, r: Result<(seq<Sexp>, string), ParseError>): Result<(seq<Sexp>, string), ParseError> {
    match r
    case Ok((xs, rest)) => Ok(([x] + xs, rest))
    case Err(e) => Err(e)
  }

  /** One step of the list loop: a value, then the remaining children. */
  lemma ListItemsStep(s: string, x: Sexp, tail: string)
    requires |s| > 0 && StartsValue(s[0])
    requires ParseSexp(s) == Ok((x, tail))
    ensures ParseListItems(s) == PrependItem(x, ParseListItems(tail))
  {
    SkipWsAtValue(s);
  }

  /** A value followed by the rest of a list parses as that list's children. */
  lemma ListItemsCons(a: string, tail: string, x: Sexp, xs: seq<Sexp>, rest: string)
    requires |a| > 0 && StartsValue(a[0])
    requires ParseSexp(a + tail) == Ok((x, tail))
    requires ParseListItems(tail) == Ok((xs, rest))
    ensures ParseListItems(a + tail) == Ok(([x] + xs, rest))
  {
    assert (a + tail)[0] == a[0];
    ListItemsStep(a + tail, x, tail);
  }

  lemma ListItemsClose(rest: string)
    ensures ParseListItems(")" + rest) == Ok(([], rest))
  {
    var s := ")" + rest;
    assert SkipWs(s) == s;
    assert s[1..] == rest;
  }

  lemma CanonSeqCons(items: seq<Sexp>)
    requires |items| > 0
    ensures CanonSeq(items) == [Canon(items[0])] + CanonSeq(items[1..])
  {
  }

  function WrapList(r: Result<(seq<Sexp>, string), ParseError>): Result<(Sexp, string), ParseError> {
    match r
    case Ok((xs, rest)) => Ok((List(xs), rest))
    case Err(e) => Err(e)
  }

  /** A `(` opens a list whose children the list loop reads. */
  lemma ParseSexpOpen(body: string)
    ensures ParseSexp("(" + body) == WrapList(ParseListItems(body))
  {
    var s := "(" + body;
    SkipWsAtValue(s);
    assert s[1..] == body;
  }

  lemma FlatSingleRoundTrip(items: seq<Sexp>, rest: string)
    requires AllAtoms(items) && |items| == 1
    ensures ParseListItems(RenderFlat(items) + ")" + rest) == Ok((CanonSeq(items), rest))
  {
    var a := RenderAtom(items[0].value, items[0].quoted);
    RenderStartsValue(items[0], 0, "");
    CanonSeqCons(items);
    assert RenderFlat(items) + ")" + rest == a + (")" + rest);
    AtomRoundTrip(items[0].value, items[0].quoted, ")" + rest);
    ListItemsClose(rest);
    ListItemsCons(a, ")" + rest, Canon(items[0]), [], rest);
  }

  lemma RegroupFlat(a: string, b: string, c: string, d: string, e: string)
    ensures a + b + c + d + e == a + (b + (c + d + e))
  {
  }

  lemma FlatConsRoundTrip(items: seq<Sexp>, rest: string)
    requires AllAtoms(items) && |items| > 1
    requires ParseListItems(RenderFlat(items[1..]) + ")" + rest) == Ok((CanonSeq(items[1..]), rest))
    ensures ParseListItems(RenderFlat(items) + ")" + rest) == Ok((CanonSeq(items), rest))
  {
    var a := RenderAtom(items[0].value, items[0].quoted);
    RenderStartsValue(items[0], 0, "");
    CanonSeqCons(items);
    var more := RenderFlat(items[1..]) + ")" + rest;
    var tail := " " + more;
    RegroupFlat(a, " ", RenderFlat(items[1..]), ")", rest);
    AtomRoundTrip(items[0].value, items[0].quoted, tail);
    ListItemsWhitespacePrefix(" ", more);
    ListItemsCons(a, tail, Canon(items[0]), CanonSeq(items[1..]), rest);
  }

  /** A list of atoms written on one line parses back to its canonical children. */
  lemma {:induction false} FlatRoundTrip(items: seq<Sexp>, rest: string)
    requires AllAtoms(items) && |items| > 0
    ensures ParseListItems(RenderFlat(items) + ")" + rest) == Ok((CanonSeq(items), rest))
    decreases items
  {
    if |items| == 1 {
      FlatSingleRoundTrip(items, rest);
    } else {
      FlatRoundTrip(items[1..], rest);
      FlatConsRoundTrip(items, rest);
    }
  }

  /** Children written one per line, followed by whitespace and `)`, parse back. */
  lemma {:induction false} TailRoundTrip(items: seq<Sexp>, depth: nat, unit: string, w: string, rest: string)
    requires AllWhitespace(unit) && AllWhitespace(w) && |w| > 0 && w[0] == '\n'
    ensures ParseListItems(RenderTail(items, depth, unit) + w + ")" + rest) == Ok((CanonSeq(items), rest))
    decreases items, 0
  {
    if |items| == 0 {
      assert RenderTail(items, depth, unit) + w + ")" + rest == w + (")" + rest);
      ListItemsWhitespacePrefix(w, ")" + rest);
      ListItemsClose(rest);
    } else {
      var p := LineBreak(unit, depth);
      var a := Render(items[0], depth, unit);
      var more := RenderTail(items[1..], depth, unit);
      var tail := more + w + ")" + rest;
      assert RenderTail(items, depth, unit) + w + ")" + rest == p + (a + tail);
      LineBreakWhitespace(unit, depth);
      ListItemsWhitespacePrefix(p, a + tail);
      RenderTailStart(items[1..], depth, unit);
      ClosingStops(more, w, rest);
      RenderStartsValue(items[0], depth, unit);
      RenderRoundTrip(items[0], depth, unit, tail);
      TailRoundTrip(items[1..], depth, unit, w, rest);
      ListItemsCons(a, tail, Canon(items[0]), CanonSeq(items[1..]), rest);
      CanonSeqCons(items);
    }
  }

  /** The children of a list with a nested list: the first child, the others
      one per line, then `)` on a line of its own at the list's depth. */
  lemma {:induction false} NestedItemsRoundTrip(items: seq<Sexp>, depth: nat, unit: string, rest: string)
    requires AllWhitespace(unit) && |items| > 0
    ensures ParseListItems(Render(items[0], depth, unit)
                           + (RenderTail(items[1..], depth + 1, unit) + LineBreak(unit, depth) + ")" + rest))
            == Ok((CanonSeq(items), rest))
    decreases items, 1
  {
    var w := LineBreak(unit, depth);
    var a := Render(items[0], depth, unit);
    var more := RenderTail(items[1..], depth + 1, unit);
    var tail := more + w + ")" + rest;
    LineBreakWhitespace(unit, depth);
    RenderTailStart(items[1..], depth + 1, unit);
    ClosingStops(more, w, rest);
    RenderStartsValue(items[0], depth, unit);
    RenderRoundTrip(items[0], depth, unit, tail);
    TailRoundTrip(items[1..], depth + 1, unit, w, rest);
    ListItemsCons(a, tail, Canon(items[0]), CanonSeq(items[1..]), rest);
    CanonSeqCons(items);
  }

  lemma EmptyListText(depth: nat, unit: string, rest: string)
    ensures Render(List([]), depth, unit) + rest == "(" + (")" + rest)
  {
  }

  lemma EmptyListRoundTrip(t: Sexp, depth: nat, unit: string, rest: string)
    requires t == List([])
    ensures ParseSexp(Render(t, depth, unit) + rest) == Ok((Canon(t), rest))
  {
    EmptyListText(depth, unit, rest);
    ParseSexpOpen(")" + rest);
    ListItemsClose(rest);
  }

  lemma FlatListRoundTrip(t: Sexp, depth: nat, unit: string, rest: string)
    requires t.List? && |t.items| > 0 && AllAtoms(t.items)
    ensures ParseSexp(Render(t, depth, unit) + rest) == Ok((Canon(t), rest))
  {
    assert Render(t, depth, unit) + rest == "(" + (RenderFlat(t.items) + ")" + rest);
    ParseSexpOpen(RenderFlat(t.items) + ")" + rest);
    FlatRoundTrip(t.items, rest);
  }

  lemma {:induction false} NestedListRoundTrip(t: Sexp, depth: nat, unit: string, rest: string)
    requires AllWhitespace(unit)
    requires t.List? && |t.items| > 0 && !AllAtoms(t.items)
    ensures ParseSexp(Render(t, depth, unit) + rest) == Ok((Canon(t), rest))
    decreases t, 1
  {
    var items := t.items;
    var body := Render(items[0], depth, unit)
                + (RenderTail(items[1..], depth + 1, unit) + LineBreak(unit, depth) + ")" + rest);
    assert Render(t, depth, unit) + rest == "(" + body;
    ParseSexpOpen(body);
    NestedItemsRoundTrip(items, depth, unit, rest);
  }

  /** Any tree, written at any depth and followed by a delimiter, parses back to `Canon(t)`. */
  lemma {:induction false} RenderRoundTrip(t: Sexp, depth: nat, unit: string, rest: string)
    requires AllWhitespace(unit) && Stops(rest)
    ensures ParseSexp(Render(t, depth, unit) + rest) == Ok((Canon(t), rest))
    decreases t, 2
  {
    match t
    case Atom(v, q) =>
      AtomRoundTrip(v, q, rest);
    case List(items) =>
      if |items| == 0 {
        EmptyListRoundTrip(t, depth, unit, rest);
      } else if AllAtoms(items) {
        FlatListRoundTrip(t, depth, unit, rest);
      } else {
        NestedListRoundTrip(t, depth, unit, rest);
      }
  }

  /** One step of the top-level loop: a form, then the remaining forms. */
  lemma ParseAllCons(s: string, x: Sexp, rest: string, xs: seq<Sexp>)
    requires |s| > 0 && StartsValue(s[0])
    requires ParseSexp(s) == Ok((x, rest))
    requires ParseAll(rest) == Ok(xs)
    ensures ParseAll(s) == Ok([x] + xs)
  {
    SkipWsAtValue(s);
  }

  /** A single form followed by the final newline is the whole input. */
  lemma ParseAllSingle(r: string, x: Sexp)
    requires |r| > 0 && StartsValue(r[0])
    requires ParseSexp(r + "\n") == Ok((x, "\n"))
    ensures ParseAll(r + "\n") == Ok([x])
  {
    assert (r + "\n")[0] == r[0];
    assert ParseAll("\n") == Ok([]) by {
      assert SkipWs("\n") == [];
    }
    ParseAllCons(r + "\n", x, "\n", []);
    assert [x] + [] == [x];
  }

  /** The printed text of a tree parses back to exactly one form, `Canon(t)`. */
  lemma PrettyRoundTrip(t: Sexp, unit: string)
    requires AllWhitespace(unit)
    ensures ParseAll(Pretty(t, unit)) == Ok([Canon(t)])
  {
    RenderRoundTrip(t, 0, unit, "\n");
    RenderStartsValue(t, 0, unit);
    ParseAllSingle(Render(t, 0, unit), Canon(t));
  }
}
