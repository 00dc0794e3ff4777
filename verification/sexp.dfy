/** The S-expression tree shared by symbol libraries and library tables. */
module Sexps {
  import opened Outcomes
  import opened Strings

  /** A leaf carries its text and whether it was read from, or is to be
      written as, a quoted string; a list owns its children in order. */
  datatype Sexp = Atom(value: string, quoted: bool) | List(items: seq<Sexp>)

  function Bare(value: string): Sexp { Atom(value, false) }

  function Quoted(value: string): Sexp { Atom(value, true) }

  /** The text of an atom; `None` for a list. */
  function AtomValue(s: Sexp): Option<string> {
    if s.Atom? then Some(s.value) else None
  }

  /** A non-empty child list whose first element is the atom `keyword`. */
  predicate HeadedBy(items: seq<Sexp>, keyword: string) {
    |items| > 0 && AtomValue(items[0]) == Some(keyword)
  }

  predicate IsEmptyList(s: Sexp) {
    s.List? && |s.items| == 0
  }

  /** The characters that end a bare atom. */
  predicate IsDelimiter(c: char) {
    IsWhitespace(c) || c == '(' || c == ')' || c == '\"' || c == ';' || c == '#'
  }

  /** Characters that open a comment running to the end of the line. */
  predicate IsCommentStart(c: char) {
    c == ';' || c == '#'
  }
}
