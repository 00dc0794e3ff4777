# KiCad library import core, modelled in Dafny

This project models the core of a tool that imports vendor packages into a KiCad project. It covers four parts:

- **The S-expression engine** of `src/kicad_sym.rs`. This is a tree of atoms and lists, with a parser and a pretty printer.
- **The symbol and library views on that engine.** This includes reading and setting a symbol's properties and merging a symbol into a `kicad_symbol_lib` under one of three add policies.
- **Footprint choice and naming** in `src/importer.rs`. The tool picks a footprint for each imported symbol and names the destination footprint library.
- **The project library tables** of `src/kicad_table.rs` (`sym-lib-table`, `fp-lib-table`). It builds and updates the table entry for a library and derives that library's name and uri.

Every mutation of the Rust code becomes a pure function from the old tree to the new one. Errors are `Result` values with an error kind per failure.

Layout, one module per file:

- `outcomes.dfy`: `Option` and `Result`.
- `seqs.dfy`: first-match search and the stop-at-first-error map that `?` in a loop performs.
- `strings.dfy`: Rust's whitespace class, `trim`, `rsplit_once` and related helpers.
- `paths.dfy`: file stems, suffix stripping, `strip_prefix` on paths, and `trim_start_matches("./")`.
- `sexp.dfy`: the tree.
- `printer.dfy`: quoting, escaping and layout.
- `parser.dfy`: the tokenizer and parser over the remaining input.
- `roundtrip.dfy`: the proof that printed text parses back.
- `syntax_facts.dfy`: quoting, layout, comment and error facts about the concrete syntax.
- `kicad_sym.dfy`: symbols, properties and libraries.
- `importer.dfy`: footprint association and the footprint library name.
- `kicad_table.dfy`: the library tables.

The single-footprint shortcut of the association counts discovered footprint *files*, not distinct footprint names. So two files with the same stem disable it (`Importer.ShortcutCountsFiles`).

## Model

| member | source | states |
|---|---|---|
| RoundTrip.PrettyRoundTrip | src/kicad_sym.rs:41-82 | Printing any tree with a whitespace indentation unit and parsing the text back gives exactly one form. That form is the tree with every atom that needed quotes marked quoted. |
| RoundTrip.RenderRoundTrip | src/kicad_sym.rs:48-82 | At any depth, the rendering of a tree followed by a closing parenthesis, whitespace or end of input parses back to the canonical tree and leaves that rest untouched. |
| RoundTrip.CanonSameUpToQuoting | src/kicad_sym.rs:555-561 | The read-back tree differs from the printed one only in quoted flags switched on. Values and list structure are kept. |
| RoundTrip.EscapeDecodes | src/kicad_sym.rs:383-405 | The quoted-atom reader decodes the escaped text of any value back to that value, whatever follows. |
| RoundTrip.AtomRoundTrip | src/kicad_sym.rs:555-568 | A rendered atom reads back as an atom with the same value, quoted exactly when it was quoted or needed quotes. |
| RoundTrip.BareAtomRoundTrip | src/kicad_sym.rs:368-381 | A value that needs no quotes, followed by a delimiter or end of input, reads back as that bare atom. |
| RoundTrip.QuotedAtomRoundTrip | src/kicad_sym.rs:383-405 | `"` + escaped value + `"` reads back as the quoted atom holding the value. |
| SexpPrinter.EscapeChar | src/kicad_sym.rs:570-585 | Exactly backslash, quote, newline, return and tab become two-character escapes starting with `\`. Every other character is written as itself. |
| SexpPrinter.Escape | src/kicad_sym.rs:570-583 | The escaped text is never shorter than the value and holds no raw tab. A value with nothing to escape is written as it is. |
| SexpPrinter.NeedsQuotes | src/kicad_sym.rs:563-568 | A value that may stand bare is non-empty and holds no parenthesis, quote, `;`, `#`, newline or space. |
| SexpPrinter.RenderAtom | src/kicad_sym.rs:555-561 | An atom's text is never empty. A quoted or quote-needing atom is written between `"` and is at least two characters longer than its value. Any other atom is written as its value. |
| SexpPrinter.RenderFlat | src/kicad_sym.rs:57-66 | A flat list of n atoms takes at least 2n-1 characters, one per atom and one space between neighbours, and is empty exactly when there are no atoms. |
| SexpPrinter.LineBreak | src/kicad_sym.rs:69-72 | A line break is a newline followed by `depth` copies of the indentation unit. |
| SexpPrinter.RenderTail | src/kicad_sym.rs:67-74 | The later children's text is empty exactly when there are none. Otherwise it starts with a newline and has at least two characters per child. |
| SexpPrinter.Render | src/kicad_sym.rs:48-82 | The text of a tree is never empty. A list is written between `(` and `)`. An atom is written as `render_atom` writes it. |
| SexpPrinter.Pretty | src/kicad_sym.rs:41-46 | The pretty text of any tree is non-empty and ends with a newline. |
| SyntaxFacts.AtomQuotedIff | src/kicad_sym.rs:555-568 | An atom is written between quotes if and only if it is flagged quoted, is empty, or holds whitespace or one of `( ) " ; #`. Otherwise it is written as its bare value. |
| SyntaxFacts.EscapeHasNoLineBreak | src/kicad_sym.rs:570-585 | Escaped text never holds a raw newline or carriage return. |
| SyntaxFacts.EscapeUndone | src/kicad_sym.rs:570-585 | Each two-character escape is undone by the reader's escape table. |
| SyntaxFacts.QuotedEscapeDecodes | src/kicad_sym.rs:391-400 | Inside quotes, `\n`, `\r` and `\t` give newline, return and tab. Any other escaped character stands for itself. |
| SyntaxFacts.AtomOneLine | src/kicad_sym.rs:50 | A rendered atom holds no line break. |
| SyntaxFacts.FlatOneLine | src/kicad_sym.rs:58-66 | A list of atoms renders on one line. |
| SyntaxFacts.FlatJoined | src/kicad_sym.rs:58-66 | The atoms of a flat list are written in order with exactly one space between neighbours, as a left-to-right join of their renderings. |
| SyntaxFacts.TailLines | src/kicad_sym.rs:68-74 | The children after the first are each written on a line of their own: a newline, the indentation of their depth, then their rendering, in order. |
| SyntaxFacts.ListLayout | src/kicad_sym.rs:52-67 | The empty list prints as `()`. A list of atoms prints as `(` + the atoms joined by single spaces + `)`, on one line. |
| SyntaxFacts.NestedLayout | src/kicad_sym.rs:68-80 | In a list holding a list, the first child follows `(` directly. Every child k after the first sits in the output, between the lines of the children before and after it, as a newline, the indentation of depth+1 and its rendering at depth+1. The closing `)` sits on its own line at the list's depth. |
| SyntaxFacts.CommentSkipped | src/kicad_sym.rs:407-432 | A `;` or `#` comment is skipped through the end of its line, together with the whitespace around it. |
| SyntaxFacts.CommentToEnd | src/kicad_sym.rs:426-432 | A comment without a newline runs to the end of the input. |
| SyntaxFacts.StrayCloseFails | src/kicad_sym.rs:340-349 | A `)` where a value is expected fails with an unexpected-close error. |
| SyntaxFacts.UnclosedListFails | src/kicad_sym.rs:351-366 | A list whose `)` is missing fails as an unterminated list. |
| SyntaxFacts.UnterminatedQuoteFails | src/kicad_sym.rs:386 | A quoted atom without its closing quote fails as an unterminated string. |
| SyntaxFacts.DanglingEscapeFails | src/kicad_sym.rs:390 | A backslash at the end of the input fails as an unterminated escape. |
| SexpParser.SkipWs | src/kicad_sym.rs:407-424 | Skipping whitespace and comments leaves a suffix that starts with neither whitespace nor a comment character. |
| SexpParser.SkipComment | src/kicad_sym.rs:426-432 | A comment ends just after the first newline, or at the end of the input if there is none. |
| SexpParser.ParseBareAtom | src/kicad_sym.rs:368-381 | A bare atom is the maximal run of non-delimiters. It fails with "expected atom" exactly when that run is empty. |
| SexpParser.ParseQuotedBody | src/kicad_sym.rs:383-405 | The quoted-atom loop leaves a proper suffix of its input as the rest. It fails only as an unterminated string or escape. Input with no `"` at all always fails. |
| SexpParser.ParseQuotedAtom | src/kicad_sym.rs:383-405 | The result is a quoted atom that consumes input. Input that does not start with `"` fails the `expect`. |
| SexpParser.ParseSexp | src/kicad_sym.rs:340-349 | It fails with unexpected end of input exactly when only whitespace and comments remain. A `)` fails with unexpected close. Every success consumes input. |
| SexpParser.ParseListItems | src/kicad_sym.rs:351-366 | When the input ends before the closing `)`, the error is an unterminated list. It is never an unexpected end of input. |
| SexpParser.ParseAll | src/kicad_sym.rs:328-338 | Input that holds only whitespace and comments gives no forms. Any error is a specific syntax error, never an unexpected end of input. |
| KicadSym.ParseOne | src/kicad_sym.rs:263-272 | It succeeds exactly when the input parses to one form, and returns that form. Syntax errors pass through, and any other count is an error. |
| KicadSym.SymbolName | src/kicad_sym.rs:493-505 | A tree names a symbol exactly when it is a list of at least two items whose first is the atom `symbol` and whose second is an atom. The name is that second atom's value. |
| KicadSym.FromSexp | src/kicad_sym.rs:103-111 | A tree becomes a symbol exactly when it is `(symbol <atom> …)`, named by that atom. |
| KicadSym.ParseSymbol | src/kicad_sym.rs:92-101 | A symbol is read from text that parses to exactly one `(symbol <atom> …)` form. |
| KicadSym.PropertyValueIn | src/kicad_sym.rs:514-529 | An entry yields a value exactly when it is `(property <key> <atom> …)`. |
| KicadSym.PropertyValue | src/kicad_sym.rs:117-128 | A symbol's property is the value from the first child that yields one. There is none exactly when no child does. |
| KicadSym.SetPropertyValue | src/kicad_sym.rs:130-144 | It reports success if and only if some child is a property entry for the key. Only the first such entry gets the new bare value. On failure nothing changes, and the name is always kept. |
| KicadSym.SetThenGet | src/kicad_sym.rs:130-144 | After a successful set, the property reads back as the new value. |
| KicadSym.SetKeepsValid | src/kicad_sym.rs:130-144 | Setting a property keeps the tree a well-formed symbol. |
| KicadSym.FillTemplate | src/kicad_sym.rs:158-168 | A copied template gets the quoted key second and the bare value third, appending each if missing. Its other elements are kept. |
| KicadSym.NewProperty | src/kicad_sym.rs:152-176 | The appended entry is a property entry for the key whose third element is the bare value. |
| KicadSym.SetOrAddThenGet | src/kicad_sym.rs:146-177 | After set-or-add, the property reads back as the value, and a well-formed symbol stays well-formed. |
| KicadSym.SetOrAddProperty | src/kicad_sym.rs:146-177 | The name is kept. An atom tree is left alone. When the symbol has a property entry for the key, only the first one changes, and only its value, which becomes the bare new value. Otherwise every existing child is kept in place and one new property entry is appended after them. |
| KicadSym.SetOrAddIdempotent | src/kicad_sym.rs:146-177 | Setting or adding the same property twice is the same as doing it once. |
| KicadSym.EnsureRoot | src/kicad_sym.rs:480-491 | The root is accepted exactly when it is a list headed by `kicad_symbol_lib`. Otherwise the error says it is not a list, is empty, or has the wrong head. |
| KicadSym.ParseLib | src/kicad_sym.rs:197-208 | A library is read from text that parses to exactly one form whose root is accepted. |
| KicadSym.SymbolIndices | src/kicad_sym.rs:210-219 | The positions after the head holding a `(symbol <atom> …)` child are listed in increasing order, all of them and only them. |
| KicadSym.Symbols | src/kicad_sym.rs:210-219 | The library's symbols are its symbol children in order. The call fails only when the root is an atom. |
| KicadSym.AddSymbol | src/kicad_sym.rs:221-251 | Only the first child after the head with the same symbol name matters. With none, the symbol is appended under every policy. Otherwise skip keeps the library, conflict errors with the library unchanged, and replace overwrites that one child in place. |
| KicadSym.AddedSymbolListed | src/kicad_sym.rs:221-251 | After a successful merge the library is still valid and lists the symbol's name. |
| KicadSym.AddSymbolSize | src/kicad_sym.rs:221-251 | Appending grows the library by one child. Skipping, replacing or refusing keeps its size. |
| KicadSym.LibRoundTrip | src/kicad_sym.rs:253-255 | A library written with tabs reads back as a library listing the same symbol names in the same order. |
| Importer.CollectFootprints | src/importer.rs:273-292 | There is one footprint per file, in order, named by the file stem. |
| Paths.FileStem | src/importer.rs:277 | The stem is the name before its last dot. A name with no dot, with its only dot in front, or equal to `..` is its own stem. |
| Paths.StemOfExtended | src/importer.rs:277 | `<stem>.<ext>` has stem `<stem>` when the extension has no dot. |
| Importer.FootprintNameFromValue | src/importer.rs:344-352 | The empty value names nothing. Otherwise the result is the text after the last `:`, or the whole value when it has no `:`. |
| Importer.NameOfQualified | src/importer.rs:344-352 | `lib:name` names `name` whatever `lib` is. |
| Strings.Trim | src/importer.rs:321 | The trimmed text is a slice of the input with only whitespace outside it, and starts and ends with non-whitespace. |
| Importer.DeclaredFootprint | src/importer.rs:320-329 | The declared footprint is present exactly when the trimmed `Footprint` value is non-empty and names a discovered footprint. |
| Importer.SelectFootprint | src/importer.rs:315-342 | Priority order: the declared footprint; then the only footprint when exactly one file was found; then a footprint named like the symbol; otherwise an association error naming the symbol. Any choice is a discovered footprint. |
| Importer.ShortcutCountsFiles | src/importer.rs:330-334 | The single-footprint shortcut counts files. Two files with stem `A` leave a symbol `B` unassociated, where one such file would be chosen. |
| Importer.AssociateOne | src/importer.rs:306-309 | A symbol is associated exactly when a footprint is chosen, and it keeps its name. The error is the selection error. |
| Importer.AssociateFootprints | src/importer.rs:294-313 | Success means every symbol is associated, in order. Otherwise the error is the first failing symbol's error. |
| Importer.AssociatedFootprintRead | src/importer.rs:306-309 | An associated symbol reads back `Footprint = <lib>:<chosen>` and stays well-formed. |
| Importer.ReselectStable | src/importer.rs:306-342 | Associating an already associated symbol again picks the same footprint and changes nothing. This needs the footprint name to have no `:` and the value to have no padding. |
| Importer.FootprintLibName | src/importer.rs:354-368 | A trailing `.pretty` is stripped, and a directory named just `.pretty` is refused. Any other name is kept. |
| Importer.FootprintLibNameOfPretty | src/importer.rs:354-368 | `<name>.pretty` names the library `<name>`. |
| KicadTable.DefaultTable | src/kicad_table.rs:103-111 | The skeleton table is headed by the table's root name and holds the version entry. |
| KicadTable.DefaultTableRoundTrip | src/kicad_table.rs:87 | The skeleton written with two-space indentation reads back as itself. |
| KicadTable.ParseTable | src/kicad_table.rs:92-101 | A table is read exactly when the text is one form headed by the root name. Parse errors pass through. Any other root is an invalid-table error. |
| KicadTable.MatchesRoot | src/kicad_table.rs:219-228 | A tree has the table's root exactly when it is a non-empty list whose first item is an atom with the root name. |
| KicadTable.EnsureVersion | src/kicad_table.rs:113-130 | An atom table is an error. A table that already has a version child after the head is unchanged. Otherwise `(version 7)` is inserted right after the head. |
| KicadTable.LibName | src/kicad_table.rs:201-217 | An entry has a name exactly when it is headed by `lib` and its first `(name …)` child holds an atom. The name is that atom's value. |
| KicadTable.KeyIndex | src/kicad_table.rs:184-194 | The child-field search finds the first child after the head that is a list of two or more headed by the key. There is none exactly when no such child exists. |
| KicadTable.ChildValueFirst | src/kicad_table.rs:209-215 | The value read for a key is the second element of the first child after the head that is keyed by it. It is absent exactly when no child after the head is keyed by it. |
| KicadTable.SetChildValue | src/kicad_table.rs:184-199 | Only that first keyed child gets the quoted value, or `(key "value")` is appended. The head is kept, and the list grows by at most one. |
| KicadTable.SetChildValueReads | src/kicad_table.rs:184-199 | After setting, the key reads back as the quoted value. |
| KicadTable.SetChildValueOthers | src/kicad_table.rs:184-199 | Setting one key leaves what every other key reads unchanged. |
| KicadTable.SetChildValueFixed | src/kicad_table.rs:184-199 | Setting a key to what it already reads changes nothing. |
| KicadTable.UpdateLibSetsFields | src/kicad_table.rs:172-182 | After the update, `name`, `type`, `uri`, `options` and `descr` read as the name, `KiCad`, the uri, `""` and `""`. |
| KicadTable.UpdateLibFixed | src/kicad_table.rs:172-182 | An entry whose five fields are already normal is left as it is. |
| KicadTable.UpdateLib | src/kicad_table.rs:172-182 | An atom is left alone. A list keeps its head and grows by at most five fields. |
| KicadTable.BuildLibEntry | src/kicad_table.rs:146-170 | A new entry is a six-element list headed by `lib`. Each of the five elements after the head is a two-element list whose value is a quoted atom. |
| KicadTable.BuildLibEntryFields | src/kicad_table.rs:146-170 | A new entry holds the five normal fields, in order, and is named by the library name. |
| KicadTable.LibIndex | src/kicad_table.rs:132-144 | The entry search finds the first child, head included, that is a `lib` entry with that name. There is none exactly when no child is one. |
| KicadTable.EnsureLibEntry | src/kicad_table.rs:132-144 | An atom table is left alone. The first matching entry is updated in place and nothing else changes. Without a match a new entry is appended. |
| KicadTable.FoundEntryEffect | src/kicad_table.rs:137-141 | An entry that was found stays the first match and now holds the normal fields. |
| KicadTable.NewEntryEffect | src/kicad_table.rs:143 | An appended entry becomes the first match and holds the normal fields. |
| KicadTable.EnsureLibEntryEffect | src/kicad_table.rs:132-144 | After the edit, the first entry named like the library holds the normal fields. The table grows by at most one entry. |
| KicadTable.VersionKept | src/kicad_table.rs:132-144 | The entry edit never removes the version entry. |
| KicadTable.UpdateTable | src/kicad_table.rs:84-85 | The version step then the entry step fail exactly when the table is an atom. |
| KicadTable.UpdateTableEffect | src/kicad_table.rs:84-85 | The edited table has a version entry and a normal entry for the library, and can be searched again. |
| KicadTable.UpdateTableIdempotent | src/kicad_table.rs:84-85 | Running the version and entry steps again with the same name and uri gives the identical tree. |
| KicadTable.LibNameFromPath | src/kicad_table.rs:244-264 | A symbol library is named by its file stem. A footprint library is named by its directory name with `.pretty` stripped, or the whole name if it has no such suffix. |
| KicadTable.FootprintNamesAgree | src/kicad_table.rs:255-260 | The table names footprint libraries as the importer does. The one difference: a directory named just `.pretty` gets the empty name here, where the importer refuses it. |
| KicadTable.SymbolLibNamedByStem | src/kicad_table.rs:246-250 | `<stem>.kicad_sym` is listed as `<stem>`. |
| Paths.StripPathPrefix | src/kicad_table.rs:268 | A path is relative to a root only by whole leading components. The path equal to the root leaves the empty rest. Under a root that ends in `/`, the rest is everything after the root. Under any other root, the path is the root, a `/`, then the rest. It fails exactly when the path is neither the root nor under it. |
| Paths.TrimDotSlash | src/kicad_table.rs:275 | Every leading `./` is dropped: the result does not start with `./`, and the input is some number of `./` followed by it. |
| KicadTable.MakeUri | src/kicad_table.rs:266-280 | The uri starts with `${KIPRJMOD}/` if and only if the path is relative or lies under the project root. The rest then has no leading `./`. For a path under the root it is exactly the path after the root with every leading `./` removed. Any other absolute path is kept verbatim. |
| KicadTable.MakeUriRelative | src/kicad_table.rs:266-280 | `./lib.pretty` becomes `${KIPRJMOD}/lib.pretty`. |
| KicadTable.MakeUriUnderRoot | src/kicad_table.rs:266-280 | `/p/lib.pretty` under root `/p` becomes `${KIPRJMOD}/lib.pretty`. |
| KicadTable.MakeUriElsewhere | src/kicad_table.rs:266-280 | `/q/lib.pretty` outside root `/p` is kept verbatim. |

## Left out

- File and archive I/O is not modelled: reading and writing the library and table files, zip extraction, the directory walk, and copying footprint and 3D-model files. The same goes for `import_source`'s sequencing of these steps and the command line in `src/cli.rs` and `src/main.rs`. These are effects on the outside world. The model starts from the file names and texts they produce.
- Error messages and the line and column of parse errors are not modelled. Errors are kinds; positions are bookkeeping that no other operation reads.
- `Path::file_name`, `Path::file_stem` and `to_str` are not modelled as such. The final file name is an input string, so their failures are not modelled either.
- Importer.CollectFootprints: cannot fail. A path without a UTF-8 file stem is outside the string model.
- KicadTable.MakeUri: works on `/`-separated strings in normal form, with no repeated or trailing separators. `to_string_lossy` is the identity on strings. `Path::strip_prefix` also normalises other spellings of the same path, and the model does not.
- Paths.StripPathPrefix: matches whole components of normal-form strings only, for the same reason. An empty root is not treated as Rust treats it: Rust keeps an absolute path's leading `/` there, while the model drops it. The project root is never empty.
- KicadTable.EnsureVersion: requires that the table is not the empty list. On `()` the Rust code inserts at index 1 of an empty vector and panics. Parsed tables never reach this case, because a read table is headed by its root name.
- KicadTable.LibName: requires that the entry is not the empty list. On `()` the Rust code indexes the first element and panics.
- KicadTable.EnsureLibEntry: requires that no `()` child comes before the first entry with the library's name. That is exactly when the Rust search does not panic.
- KicadTable.UpdateTable: requires both of these conditions.
- The footprint lookup by name, a `HashMap` in the source, is modelled as the set of discovered names. Membership is read from it. The file count comes from the list of discovered footprints (`src/importer.rs:307`). The single-footprint shortcut also reads the map's one entry (`src/importer.rs:331`). The model takes the first discovered footprint instead. When exactly one file was found, this is the same footprint.
- KicadSym.LibRoundTrip: states that the re-read library lists the same symbol names in order, not that it equals the original tree. The re-read tree is the original with quoting made explicit (`RoundTrip.PrettyRoundTrip`).
- An unexpected end of input is an error that `ParseAll` never returns. It can only come from calling `ParseSexp` directly, as the Rust `parse_sexp` allows.
- `Symbol::into_sexp` and the accessors are field reads. They are not separate members.
