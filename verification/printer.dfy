/** Canonical pretty printer: atoms bare unless they must be quoted, lists of
    atoms on one line, any other list with one child per line. */
module SexpPrinter {
  import opened Strings
  import opened Sexps

  /** An atom value that cannot be written bare: it is empty or contains a
      delimiter (whitespace, parenthesis, quote or comment character). */
  predicate NeedsQuotes(value: string)
    ensures !NeedsQuotes(value) ==>
      |value| > 0 && '(' !in value && ')' !in value && '\"' !in value && ';' !in value && '#' !in value
      && '\n' !in value && ' ' !in value
  {
    |value| == 0 || exists i :: 0 <= i < |value| && IsDelimiter(value[i])
  }

  /** The escape sequence written for one character inside quotes. */
  function EscapeChar(c: char): (r: string)
    ensures 1 <= |r| <= 2
    ensures |r| == 1 <==> r == [c]
    ensures |r| == 2 ==> r[0] == '\\'
    ensures c == '\\' || c == '\"' || c == '\n' || c == '\r' || c == '\t' <==> |r| == 2
  {
    match c
    case '\\' => "\\\\"
    case '\"' => "\\\""
    case '\n' => "\\n"
    case '\r' => "\\r"
    case '\t' => "\\t"
    case _ => [c]
  }

  /** Quoted-string body: backslash, quote, newline, carriage return and tab escaped. */
  function Escape(value: string): (r: string)
    ensures |r| >= |value|
    ensures '\t' !in r
    ensures (forall i :: 0 <= i < |value| ==> |EscapeChar(value[i])| == 1) ==> r == value
  {
    if |value| == 0 then "" else EscapeChar(value[0]) + Escape(value[1..])
  }

  /** An atom as written: between quotes and escaped when it is flagged
      quoted or cannot stand bare, otherwise its value as it is. */
  function RenderAtom(value: string, quoted: bool): (r: string)
    ensures |r| > 0
    ensures quoted || NeedsQuotes(value) ==> |r| >= |value| + 2 && r[0] == '\"' && r[|r| - 1] == '\"'
    ensures !(quoted || NeedsQuotes(value)) ==> r == value
  {
    if quoted || NeedsQuotes(value) then "\"" + Escape(value) + "\"" else value
  }

  predicate AllAtoms(items: seq<Sexp>) {
    forall i :: 0 <= i < |items| ==> items[i].Atom?
  }

  /** Atoms separated by single spaces. */
  function RenderFlat(items: seq<Sexp>): (r: string)
    requires AllAtoms(items)
    ensures |items| > 0 ==> |r| >= 2 * |items| - 1
    ensures |items| == 0 <==> r == ""
  {
    if |items| == 0 then ""
    else if |items| == 1 then RenderAtom(items[0].value, items[0].quoted)
    else RenderAtom(items[0].value, items[0].quoted) + " " + RenderFlat(items[1..])
  }

  /** `t` written at nesting depth `depth`, indenting with `unit` per level. */
  function Render(t: Sexp, depth: nat, unit: string): (r: string)
    ensures |r| > 0
    ensures t.List? ==> |r| >= 2 && r[0] == '(' && r[|r| - 1] == ')'
    ensures t.Atom? ==> r == RenderAtom(t.value, t.quoted)
    decreases t
  {
    match t
    case Atom(v, q) => RenderAtom(v, q)
    case List(items) =>
      if |items| == 0 then "()"
      else if AllAtoms(items) then "(" + RenderFlat(items) + ")"
      else
        "(" + Render(items[0], depth, unit) + RenderTail(items[1..], depth + 1, unit)
        + LineBreak(unit, depth) + ")"
  }

  /** A newline followed by the indentation of nesting depth `depth`. */
  function LineBreak(unit: string, depth: nat): (r: string)
    ensures |r| == 1 + depth * |unit| && r[0] == '\n'
  {
    "\n" + Repeat(unit, depth)
  }

  /** Each child on a line of its own, indented to `depth`. */
  function RenderTail(items: seq<Sexp>, depth: nat, unit: string): (r: string)
    ensures |items| == 0 <==> r == ""
    ensures |items| > 0 ==> r[0] == '\n' && |r| >= 2 * |items|
    decreases items
  {
    if |items| == 0 then ""
    else LineBreak(unit, depth) + Render(items[0], depth, unit) + RenderTail(items[1..], depth, unit)
  }

  /** The whole text of a tree: rendered at depth 0 and ended by a newline. */
  function Pretty(t: Sexp, unit: string): (r: string)
    ensures |r| > 0 && r[|r| - 1] == '\n'
  {
    Render(t, 0, unit) + "\n"
  }

  /** The default indentation unit, one tab. */
  function PrettyDefault(t: Sexp): string {
    Pretty(t, "\t")
  }
}
