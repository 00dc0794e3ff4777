/** Recursive-descent S-expression parser over the remaining input. Each
    function takes the unread text and returns what it read together with
    the text left after it. */
module SexpParser {
  import opened Outcomes
  import opened Strings
  import opened Sexps

  /** Why a parse failed. Line and column are not modelled. */
  datatype ParseError =
    | UnexpectedClose     // a `)` where a value is expected
    | UnexpectedEof       // end of input where a value is expected
    | UnterminatedList    // end of input inside a list
    | UnterminatedString  // end of input inside a quoted atom
    | UnterminatedEscape  // end of input right after a backslash
    | ExpectedAtom        // a bare atom of length zero
    | Expected(c: char)   // the opening character of a list or string is missing

  predicate IsSuffix(r: string, s: string) {
    |r| <= |s| && r == s[|s| - |r|..]
  }

  /** Drops a comment body: everything up to and including the next newline. */
  function SkipComment(s: string): (r: string)
    ensures IsSuffix(r, s)
    ensures '\n' in s ==> |r| < |s| && s[|s| - |r| - 1] == '\n' && '\n' !in s[..|s| - |r| - 1]
    ensures '\n' !in s ==> r == []
  {
    if |s| == 0 then s
    else if s[0] == '\n' then s[1..]
    else
      var r := SkipComment(s[1..]);
      assert |r| < |s| - 1 ==> s[..|s| - |r| - 1] == [s[0]] + s[1..][..|s[1..]| - |r| - 1];
      r
  }

  /** Skips whitespace and `;`/`#` comments; what is left is empty or starts a token. */
  function SkipWs(s: string): (r: string)
    ensures IsSuffix(r, s)
    ensures |r| > 0 ==> !IsWhitespace(r[0]) && !IsCommentStart(r[0])
    decreases |s|
  {
    if |s| == 0 then s
    else if IsWhitespace(s[0]) then SkipWs(s[1..])
    else if IsCommentStart(s[0]) then SkipWs(SkipComment(s[1..]))
    else s
  }

  /** Length of the longest prefix free of delimiters. */
  function BareLength(s: string): (n: nat)
    ensures n <= |s|
    ensures forall i :: 0 <= i < n ==> !IsDelimiter(s[i])
    ensures n < |s| ==> IsDelimiter(s[n])
  {
    if |s| == 0 || IsDelimiter(s[0]) then 0 else 1 + BareLength(s[1..])
  }

  /** A bare atom: the maximal run of non-delimiters, which must not be empty. */
  function ParseBareAtom(s: string): (r: Result<(Sexp, string), ParseError>)
    ensures r.Ok? <==> |s| > 0 && !IsDelimiter(s[0])
    ensures r.Ok? ==> IsSuffix(r.value.1, s) && r.value.0 == Bare(s[..|s| - |r.value.1|])
    ensures r.Ok? ==> |r.value.1| < |s| && (|r.value.1| == 0 || IsDelimiter(r.value.1[0]))
    ensures r.Err? ==> r.error == ExpectedAtom
  {
    var n := BareLength(s);
    if n == 0 then Err(ExpectedAtom) else Ok((Bare(s[..n]), s[n..]))
  }

  /** The character an escape sequence `\c` stands for. */
  function Unescape(c: char): char {
    match c
    case 'n' => '\n'
    case 'r' => '\r'
    case 't' => '\t'
    case _ => c
  }

  /** The body of a quoted atom after its opening quote, through the closing quote. */
  function ParseQuotedBody(s: string): (r: Result<(string, string), ParseError>)
    ensures r.Ok? ==> IsSuffix(r.value.1, s) && |r.value.1| < |s|
    ensures r.Err? ==> r.error == UnterminatedString || r.error == UnterminatedEscape
    ensures '\"' !in s ==> r.Err?
    decreases |s|
  {
    if |s| == 0 then Err(UnterminatedString)
    else if s[0] == '\"' then Ok(([], s[1..]))
    else if s[0] == '\\' then
      if |s| == 1 then Err(UnterminatedEscape)
      else
        match ParseQuotedBody(s[2..])
        case Err(e) => Err(e)
        case Ok((v, rest)) => Ok(([Unescape(s[1])] + v, rest))
    else
      match ParseQuotedBody(s[1..])
      case Err(e) => Err(e)
      case Ok((v, rest)) => Ok(([s[0]] + v, rest))
  }

  function ParseQuotedAtom(s: string): (r: Result<(Sexp, string), ParseError>)
    ensures r.Ok? ==> r.value.0.Atom? && r.value.0.quoted && IsSuffix(r.value.1, s) && |r.value.1| < |s|
    ensures |s| == 0 || s[0] != '\"' ==> r == Err(Expected('\"'))
  {
    if |s| == 0 || s[0] != '\"' then Err(Expected('\"'))
    else
      match ParseQuotedBody(s[1..])
      case Err(e) => Err(e)
      case Ok((v, rest)) => Ok((Quoted(v), rest))
  }

  /** One value, after skipping whitespace and comments. */
  function ParseSexp(s: string): (r: Result<(Sexp, string), ParseError>)
    ensures r.Ok? ==> |r.value.1| < |s|
    ensures r == Err(UnexpectedEof) <==> SkipWs(s) == []
    ensures SkipWs(s) != [] && SkipWs(s)[0] == ')' ==> r == Err(UnexpectedClose)
    decreases |s|, 0
  {
    var t := SkipWs(s);
    if |t| == 0 then Err(UnexpectedEof)
    else if t[0] == '(' then
      match ParseListItems(t[1..])
      case Err(e) => Err(e)
      case Ok((items, rest)) => Ok((List(items), rest))
    else if t[0] == '\"' then ParseQuotedAtom(t)
    else if t[0] == ')' then Err(UnexpectedClose)
    else ParseBareAtom(t)
  }

  /** The children of a list after its `(`, through the matching `)`. */
  function ParseListItems(s: string): (r: Result<(seq<Sexp>, string), ParseError>)
    ensures r.Ok? ==> |r.value.1| < |s|
    ensures SkipWs(s) == [] ==> r == Err(UnterminatedList)
    ensures r != Err(UnexpectedEof)
    decreases |s|, 1
  {
    var t := SkipWs(s);
    if |t| == 0 then Err(UnterminatedList)
    else if t[0] == ')' then Ok(([], t[1..]))
    else
      match ParseSexp(t)
      case Err(e) => Err(e)
      case Ok((x, rest)) =>
        match ParseListItems(rest)
        case Err(e) => Err(e)
        case Ok((xs, rest')) => Ok(([x] + xs, rest'))
  }

  /** Every top-level form of the input, in order. */
  function ParseAll(s: string): (r: Result<seq<Sexp>, ParseError>)
    ensures SkipWs(s) == [] ==> r == Ok([])
    ensures r != Err(UnexpectedEof)
    decreases |s|
  {
    var t := SkipWs(s);
    if |t| == 0 then Ok([])
    else
      match ParseSexp(t)
      case Err(e) => Err(e)
      case Ok((x, rest)) =>
        match ParseAll(rest)
        case Err(e) => Err(e)
        case Ok(xs) => Ok([x] + xs)
  }
}
