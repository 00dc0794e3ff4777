/** Facts about the concrete syntax: how atoms are quoted and escaped, how
    the printer lays lists out, what the tokenizer skips, and which inputs
    the parser rejects and why. */
module SyntaxFacts {
  import opened Outcomes
  import opened Strings
  import opened Sexps
  import opened SexpPrinter
  import opened SexpParser
  import opened RoundTrip

  // ---------------------------------------------------------------------
  // Atoms

  predicate Delimited(r: string) {
    |r| >= 2 && r[0] == '\"' && r[|r| - 1] == '\"'
  }

  /** An atom is written between quotes exactly when it is flagged quoted,
      is empty, or holds whitespace or one of `( ) " ; #`; otherwise it is
      written as its value. */
  lemma AtomQuotedIff(v: string, q: bool)
    ensures Delimited(RenderAtom(v, q)) <==> q || NeedsQuotes(v)
    ensures !(q || NeedsQuotes(v)) ==> RenderAtom(v, q) == v
  {
    if !(q || NeedsQuotes(v)) {
      assert !IsDelimiter(v[0]);
    }
  }

  /** Escaped text never holds a raw newline or carriage return. */
  lemma {:induction false} EscapeHasNoLineBreak(v: string)
    ensures '\n' !in Escape(v) && '\r' !in Escape(v)
    decreases |v|
  {
    if |v| > 0 {
      EscapeHasNoLineBreak(v[1..]);
      assert Escape(v) == EscapeChar(v[0]) + Escape(v[1..]);
    }
  }

  /** Each two-character escape is undone by the decoder's table. */
  lemma EscapeUndone(c: char)
    ensures |EscapeChar(c)| == 2 ==> Unescape(EscapeChar(c)[1]) == c
    ensures ParseQuotedBody(EscapeChar(c)) == Err(UnterminatedString)
  {
    QuotedBodyStep(c, "");
    assert EscapeChar(c) + "" == EscapeChar(c);
  }

  /** Inside a quoted atom, `\c` stands for newline, return or tab when `c`
      is `n`, `r` or `t`, and for `c` itself otherwise (so `\"` and `\\`
      give a quote and a backslash). */
  lemma QuotedEscapeDecodes(c: char, after: string)
    ensures ParseQuotedBody(['\\', c] + after) == PrependDecoded([Unescape(c)], ParseQuotedBody(after))
    ensures Unescape(c) == (if c == 'n' then '\n' else if c == 'r' then '\r' else if c == 't' then '\t' else c)
  {
    var s := ['\\', c] + after;
    assert s[2..] == after;
  }

  // ---------------------------------------------------------------------
  // Layout

  lemma AtomOneLine(v: string, q: bool)
    ensures '\n' !in RenderAtom(v, q)
  {
    if q || NeedsQuotes(v) {
      EscapeHasNoLineBreak(v);
      assert RenderAtom(v, q) == "\"" + Escape(v) + "\"";
    } else {
      assert forall i :: 0 <= i < |v| ==> v[i] != '\n' by {
        assert !NeedsQuotes(v);
      }
    }
  }

  /** A list of atoms is written on a single line. */
  lemma {:induction false} FlatOneLine(items: seq<Sexp>)
    requires AllAtoms(items)
    ensures '\n' !in RenderFlat(items)
    decreases |items|
  {
    if |items| > 0 {
      AtomOneLine(items[0].value, items[0].quoted);
      if |items| > 1 {
        FlatOneLine(items[1..]);
      }
    }
  }

  /** The renderings of `items`, each at `depth`. */
  function Renders(items: seq<Sexp>, depth: nat, unit: string): seq<string> {
    seq(|items|, k requires 0 <= k < |items| => Render(items[k], depth, unit))
  }

  /** The renderings of `items`, each on a fresh line indented to `depth`. */
  function Lines(items: seq<Sexp>, depth: nat, unit: string): seq<string> {
    seq(|items|, k requires 0 <= k < |items| => LineBreak(unit, depth) + Render(items[k], depth, unit))
  }

  /** Atoms are written one after another with a single space between them. */
  lemma {:induction false} FlatJoined(items: seq<Sexp>, depth: nat, unit: string)
    requires AllAtoms(items)
    ensures RenderFlat(items) == Join(" ", Renders(items, depth, unit))
    decreases |items|
  {
    var parts := Renders(items, depth, unit);
    if |items| == 1 {
      assert Render(items[0], depth, unit) == RenderAtom(items[0].value, items[0].quoted);
    } else if |items| > 1 {
      FlatJoined(items[1..], depth, unit);
      assert parts == [parts[0]] + Renders(items[1..], depth, unit);
      JoinCons(" ", parts[0], Renders(items[1..], depth, unit));
    }
  }

  /** The tail of a nested list is each child on a line of its own. */
  lemma {:induction false} TailLines(items: seq<Sexp>, depth: nat, unit: string)
    ensures RenderTail(items, depth, unit) == Concat(Lines(items, depth, unit))
    decreases |items|
  {
    if |items| > 0 {
      var lines := Lines(items, depth, unit);
      TailLines(items[1..], depth, unit);
      assert lines == [lines[0]] + Lines(items[1..], depth, unit);
      ConcatCons(lines[0], Lines(items[1..], depth, unit));
    } else {
      assert Lines(items, depth, unit) == [];
    }
  }

  /** The empty list prints as `()` and a list of atoms as `(a b c)`: one
      line, the atoms' renderings joined by single spaces. */
  lemma ListLayout(items: seq<Sexp>, depth: nat, unit: string)
    ensures items == [] ==> Render(List(items), depth, unit) == "()"
    ensures |items| > 0 && AllAtoms(items) ==>
      Render(List(items), depth, unit) == "(" + Join(" ", Renders(items, depth, unit)) + ")"
    ensures |items| > 0 && AllAtoms(items) ==> '\n' !in Render(List(items), depth, unit)
  {
    if |items| > 0 && AllAtoms(items) {
      FlatOneLine(items);
      FlatJoined(items, depth, unit);
      var r := Render(List(items), depth, unit);
      assert r == "(" + RenderFlat(items) + ")";
    }
  }

  /** A list holding a list writes its first child after `(`, then every
      further child on a fresh line indented one level deeper, then its `)`
      on a fresh line at its own depth. */
  lemma NestedLayout(items: seq<Sexp>, depth: nat, unit: string)
    requires |items| > 0 && !AllAtoms(items)
    ensures Render(List(items), depth, unit)
         == "(" + Render(items[0], depth, unit)
            + Concat(Lines(items[1..], depth + 1, unit))
            + LineBreak(unit, depth) + ")"
    ensures forall k :: 1 <= k < |items| ==>
      Render(List(items), depth, unit)
      == "(" + Render(items[0], depth, unit)
         + (Concat(Lines(items[1..k], depth + 1, unit))
            + LineBreak(unit, depth + 1) + Render(items[k], depth + 1, unit)
            + Concat(Lines(items[k + 1..], depth + 1, unit)))
         + LineBreak(unit, depth) + ")"
  {
    NestedFrame(items, depth, unit);
    forall k | 1 <= k < |items| {
      ChildLineAt(items, depth, unit, k);
    }
  }

  lemma NestedFrame(items: seq<Sexp>, depth: nat, unit: string)
    requires |items| > 0 && !AllAtoms(items)
    ensures Render(List(items), depth, unit)
         == "(" + Render(items[0], depth, unit) + Concat(Lines(items[1..], depth + 1, unit)) + LineBreak(unit, depth) + ")"
  {
    TailLines(items[1..], depth + 1, unit);
  }

  lemma ChildLineAt(items: seq<Sexp>, depth: nat, unit: string, k: nat)
    requires 1 <= k < |items|
    requires Render(List(items), depth, unit)
          == "(" + Render(items[0], depth, unit) + Concat(Lines(items[1..], depth + 1, unit)) + LineBreak(unit, depth) + ")"
    ensures Render(List(items), depth, unit)
         == "(" + Render(items[0], depth, unit)
            + (Concat(Lines(items[1..k], depth + 1, unit))
               + LineBreak(unit, depth + 1) + Render(items[k], depth + 1, unit)
               + Concat(Lines(items[k + 1..], depth + 1, unit)))
            + LineBreak(unit, depth) + ")"
  {
    LinesAround(items, depth + 1, unit, k);
  }

  /** The lines after the first child, taken apart around child `k`. */
  lemma LinesAround(items: seq<Sexp>, depth: nat, unit: string, k: nat)
    requires 1 <= k < |items|
    ensures Concat(Lines(items[1..], depth, unit))
         == Concat(Lines(items[1..k], depth, unit)) + LineBreak(unit, depth) + Render(items[k], depth, unit)
            + Concat(Lines(items[k + 1..], depth, unit))
  {
    var lines := Lines(items[1..], depth, unit);
    LinesBefore(items, depth, unit, k);
    LinesAfter(items, depth, unit, k);
    LineOf(items, depth, unit, k);
    ConcatAround(lines, k - 1, Lines(items[1..k], depth, unit), LineBreak(unit, depth) + Render(items[k], depth, unit),
                 Lines(items[k + 1..], depth, unit));
  }

  lemma LinesBefore(items: seq<Sexp>, depth: nat, unit: string, k: nat)
    requires 1 <= k < |items|
    ensures Lines(items[1..], depth, unit)[..k - 1] == Lines(items[1..k], depth, unit)
  {
    var rest := items[1..];
    LinesSlice(rest, depth, unit, 0, k - 1);
    assert rest[0..k - 1] == items[1..k];
    assert Lines(rest, depth, unit)[..k - 1] == Lines(rest, depth, unit)[0..k - 1];
  }

  lemma LinesAfter(items: seq<Sexp>, depth: nat, unit: string, k: nat)
    requires 1 <= k < |items|
    ensures Lines(items[1..], depth, unit)[k..] == Lines(items[k + 1..], depth, unit)
  {
    var rest := items[1..];
    LinesSlice(rest, depth, unit, k, |rest|);
    assert rest[k..|rest|] == items[k + 1..];
    assert Lines(rest, depth, unit)[k..] == Lines(rest, depth, unit)[k..|rest|];
  }

  lemma LineOf(items: seq<Sexp>, depth: nat, unit: string, k: nat)
    requires 1 <= k < |items|
    ensures Lines(items[1..], depth, unit)[k - 1] == LineBreak(unit, depth) + Render(items[k], depth, unit)
  {
    assert items[1..][k - 1] == items[k];
  }

  lemma ConcatAround(parts: seq<string>, k: nat, before: seq<string>, part: string, after: seq<string>)
    requires k < |parts| && parts[..k] == before && parts[k] == part && parts[k + 1..] == after
    ensures Concat(parts) == Concat(before) + part + Concat(after)
  {
    ConcatSplit(parts, k);
  }

  /** A slice of the lines is the lines of the slice. */
  lemma LinesSlice(items: seq<Sexp>, depth: nat, unit: string, a: nat, b: nat)
    requires a <= b <= |items|
    ensures Lines(items, depth, unit)[a..b] == Lines(items[a..b], depth, unit)
  {
    var lhs := Lines(items, depth, unit)[a..b];
    var rhs := Lines(items[a..b], depth, unit);
    assert |lhs| == |rhs|;
    forall i | 0 <= i < |lhs|
      ensures lhs[i] == rhs[i]
    {
      assert items[a..b][i] == items[a + i];
    }
  }

  // ---------------------------------------------------------------------
  // Tokenizer

  /** A `;` or `#` comment runs through the end of its line and is skipped
      together with the whitespace around it. */
  lemma CommentSkipped(m: char, body: string, s: string)
    requires IsCommentStart(m) && '\n' !in body
    ensures SkipWs([m] + body + "\n" + s) == SkipWs(s)
  {
    var t := [m] + body + "\n" + s;
    assert t[1..] == body + "\n" + s;
    CommentBodySkipped(body, s);
  }

  lemma {:induction false} CommentBodySkipped(body: string, s: string)
    requires '\n' !in body
    ensures SkipComment(body + "\n" + s) == s
    decreases |body|
  {
    if |body| == 0 {
      assert body + "\n" + s == "\n" + s;
      assert ("\n" + s)[1..] == s;
    } else {
      assert (body + "\n" + s)[1..] == body[1..] + "\n" + s;
      CommentBodySkipped(body[1..], s);
    }
  }

  /** A comment that never ends runs to the end of the input. */
  lemma CommentToEnd(m: char, body: string)
    requires IsCommentStart(m) && '\n' !in body
    ensures SkipWs([m] + body) == []
  {
    assert ([m] + body)[1..] == body;
  }

  // ---------------------------------------------------------------------
  // Rejected inputs

  /** A `)` where a value is expected is an error. */
  lemma StrayCloseFails(w: string, s: string)
    requires AllWhitespace(w)
    ensures ParseAll(w + ")" + s) == Err(UnexpectedClose)
  {
    SkipWhitespacePrefix(w, ")" + s);
    assert w + ")" + s == w + (")" + s);
    assert SkipWs(")" + s) == ")" + s;
  }

  /** A list whose `)` is missing fails at the end of the input. */
  lemma UnclosedListFails(t: Sexp, unit: string)
    requires AllWhitespace(unit)
    ensures ParseAll("(" + Render(t, 0, unit)) == Err(UnterminatedList)
  {
    var r := Render(t, 0, unit);
    RenderRoundTrip(t, 0, unit, "");
    assert r + "" == r;
    RenderStartsValue(t, 0, unit);
    ListItemsStep(r, Canon(t), "");
    ParseSexpOpen(r);
    SkipWsAtValue("(" + r);
  }

  /** A quoted atom whose closing quote is missing fails at the end of the input. */
  lemma UnterminatedQuoteFails(v: string)
    ensures ParseAll("\"" + Escape(v)) == Err(UnterminatedString)
  {
    var s := "\"" + Escape(v);
    EscapeDecodes(v, "");
    assert Escape(v) + "" == Escape(v);
    SkipWsAtValue(s);
    assert s[1..] == Escape(v);
  }

  /** A backslash as the last character of the input fails as an unterminated escape. */
  lemma DanglingEscapeFails(v: string)
    ensures ParseAll("\"" + Escape(v) + "\\") == Err(UnterminatedEscape)
  {
    var s := "\"" + Escape(v) + "\\";
    EscapeDecodes(v, "\\");
    SkipWsAtValue(s);
    assert s[1..] == Escape(v) + "\\";
  }
}
