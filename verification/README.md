# Verified models of librouting's ABI tooling and Go bindings

librouting is a routing library in Rust with a C ABI, a C++ wrapper header, and Python and Go
bindings. This project models the parts of its repository that keep those surfaces consistent and
that carry resources across the language border, and proves what they promise. Everything is in
Dafny 4.11; `dafny verify dfyconfig.toml` checks the whole project.

* **The ABI freeze gate** (`scripts/abi_freeze_check.py`): `Text`, `Braces`, `Comments`,
  `Namespaces`, `Blocks`, `Reflow`, `Surface`, `Gate`, `Words`, `Promises`, `Forms`, `Kinds`, `Entries`,
  `Headers`.
  Each stage is a method with the loop of the source, proved to compute a specification function;
  the promises of the gate are proved about those functions, for whole headers: editing comments,
  reflowing lines and rewriting inline bodies keep the surface, additions pass, a changed or removed
  declaration is reported exactly when the entry of its name is lost or changes, and acceptance
  chains over releases. Which declarations have an entry is an equivalence for each kind; some of
  the two headers' own have none. What counts as a wrapper, a keyword or a readable return type is
  spelled out in the statements, down to whole headers with their entries.
* **The ABI parser and the printers of the Python generator** (`scripts/abi_parse.py`,
  `scripts/gen_python.py`): `TopLevel`, `Params`, `Decl`, `Header`, `ValueStructs`, `Fields`,
  `Aliases`, `Typedefs`. Printing and parsing undo each other, for parameters, functions, lists of functions,
  fields, structures, lists of structures and their aliases, with the exact conditions where they
  do not; what is read from any other layout, and which lines are read at all, is stated without
  the parser; and on any text the table of structures holds the last standing definition of each
  handle.
* **The generated region of the C++ header** (`scripts/gen_cpp.py`): `Splice`, `Calls`. Regeneration is
  idempotent, and keeps hand-written text, exactly when the cut header is settled.
* **Go-side handles, callbacks and wire buffers** (`bindings/lr-go`, with the C functions of
  `crates/lr-ffi` they call): `Handles` and `Wrappers`, `Registry`, `Wire`. Ownership and the
  callback registry are state machines over arbitrary runs and interleavings, with what every run
  keeps, which step ends a handle how, and that every iteration can be completed; the wrappers, the
  registry and the buffer loops are classes and array methods tied to them.

Regular expressions are modelled by what they match, branch by branch. Python's blank characters
and line breaks are modelled in full; word characters, digits and identifiers are ASCII.

Where the code and its own documentation disagree, the model follows the code:

* New structure fields are documented as silent (`scripts/abi_freeze_check.py:53`). They are
  reported: `Promises.AggregateEdit`, `Promises.NewFieldIsReported`.
* Every changed or removed function is documented as reported (`scripts/abi_freeze_check.py:54-55`).
  The function pattern reads return types of words, blanks and stars that do not start with the
  keyword of another kind, and nothing behind the parameters. Any other function has no entry and
  can be changed or removed unnoticed, such as many functions of the two headers that return a
  `std::` type or a structure or are `noexcept`: `Forms.FunctionEntry`, `Forms.InlineIsDeclaration`,
  `Forms.FunctionRemovalIsReported`, `Forms.UnseenFunctions`, `Forms.SidHeaderIsEmpty`.
  The same holds of an alias whose text does not end in its name, such as the callback type at
  `include/lr_ffi.h:2213`: `Kinds.AliasIff`, `Kinds.CallbackAliasIsUnseen`.
* The function pattern asks for a return type but takes the shortest: a call such as a macro use has
  an entry under its name without its first letter: `Entries.CallIsFunction`.
* The parser is documented to find every function declaration (`scripts/abi_parse.py:11`). A
  directive line has no semicolon, so it becomes the start of the next statement and hides it:
  `Header.CollectedIff`, `Header.DirectiveHidesDeclaration`.
* The comment deleter of the parser and the scanner of the gate agree on tame text, where block
  comments close and do not run over the end of a line comment; they can differ on other text:
  `Comments.OnePassAgreesWithTwo`, `Comments.SecondSlashOpensBlock`.
* Splitting the rejoined parts of a split need not return them (`TopLevel.ResplitReturnsParts`),
  and a single unnamed `void` parameter does not survive printing (`Decl.ArgsRoundTrip`).
* Regeneration of the C++ header is not idempotent when a begin marker survives the cut:
  `Splice.IdempotentIffSettled`, `Splice.UnclosedMarkerIsLost`.
* The calls that take a handle are documented as consuming it. With a freed receiver the C functions
  return an error before they take it, and Go has already let go of it:
  `Handles.RefusedIffStranded`, `Handles.PushOnFreedStackLosesLabel`.
* `bindings/lr-go/bgp_path.go` names RFC 8097 for large communities; the format is that of RFC 8092.

## Model

| member | source | states |
|---|---|---|
| `Text.NormaliseIsWritten` | scripts/abi_freeze_check.py:267-270 | collapsing blanks and trimming equals a three-state writer that owes at most one space, on every text |
| `Words.NormaliseWords` | scripts/abi_freeze_check.py:267-270 | words with any of Python's 29 blanks, given by code point, before, between and behind them are normalised to the words with one space between them |
| `Words.BreaksAre` | scripts/abi_freeze_check.py:299-299 | lines end at exactly ten characters, given by code point |
| `Comments.StripComments` | scripts/abi_freeze_check.py:173-197 | the index-driven loop computes the five-state scanner on every text, unterminated comments included |
| `Comments.SkipBlock` | scripts/abi_freeze_check.py:179-186 | from an opener, the scan resumes after the first closer with one space, or drops the rest |
| `Comments.SkipLine` | scripts/abi_freeze_check.py:187-193 | from a double slash, the scan resumes at the newline with one newline, or drops the rest |
| `Comments.ScanConcat` | scripts/abi_freeze_check.py:173-197 | scanning distributes over concatenation from the state the first part leaves |
| `Comments.StripIdempotent` | scripts/abi_freeze_check.py:173-197 | stripped text holds no comment opener and is left alone by another stripping |
| `Comments.BlockCommentIsSpace` | scripts/abi_freeze_check.py:179-186 | a block comment met in code is worth one space whatever it says |
| `Comments.LineCommentIsNewline` | scripts/abi_freeze_check.py:187-193 | a line comment met in code is worth one extra newline whatever it says |
| `Comments.UnclosedBlockComment` | scripts/abi_freeze_check.py:180-184 | a block comment that never closes takes the rest of the text with it |
| `Comments.LastLineComment` | scripts/abi_freeze_check.py:187-190 | a line comment on the last line leaves nothing |
| `Comments.EndsInCode` | scripts/abi_freeze_check.py:173-197 | behind text without comments that does not end in a slash the scanner is in code, so the first comment of any text is met in code |
| `Comments.OnePassAgreesWithTwo` | scripts/abi_parse.py:56-62 | the one-pass scanner and the two-pass deleter leave the same characters, blanks aside, when block comments close and those inside a line comment close on its line |
| `Comments.SecondSlashOpensBlock` | scripts/abi_parse.py:59-61 | outside tame text they can differ: a concrete input |
| `Comments.BlockCommentDeleted` | scripts/abi_parse.py:59-60 | when no block comment runs over the seams, the first pass leaves of a block comment exactly its newlines, between what it leaves of the text before and behind |
| `Comments.DeletedAroundBlock` | scripts/abi_parse.py:56-62 | behind text without comments both passes leave that text, one newline for each of the block comment and no space, and what they leave of the rest |
| `Comments.DeletedAroundLine` | scripts/abi_parse.py:56-62 | of a line comment behind such text they leave nothing, and its newline stays, when no block comment that opens in it runs over its end |
| `Comments.DeletedKeepsLines` | scripts/abi_parse.py:56-62 | deleting comments keeps every newline, on any text |
| `Comments.UnclosedOpenerStays` | scripts/abi_parse.py:59-61 | without a closer the deleter leaves block openers alone |
| `Namespaces.UnwrapNamespaces` | scripts/abi_freeze_check.py:200-264 | the nested loops compute the single-pass unwrapper on every text |
| `Namespaces.CopyWrapper` | scripts/abi_freeze_check.py:228-260 | one wrapper: its head is blanked and the scan resumes after its closing brace |
| `Namespaces.CopyBody` | scripts/abi_freeze_check.py:240-260 | the inner walk copies to the matching brace, which becomes a newline, or to the end |
| `Namespaces.WrapperAtStart` | scripts/abi_freeze_check.py:228-260 | `namespace`, any text, a brace, balanced contents and a brace become blanks, the contents and a newline, at the start of a text |
| `Namespaces.WrapperBehind` | scripts/abi_freeze_check.py:228-260 | the same behind a space, a tab or a newline, with the text before it kept |
| `Namespaces.UnwrappedWithoutHead` | scripts/abi_freeze_check.py:228-264 | a text where `namespace` stands nowhere at the start or behind a space, a tab or a newline is left alone |
| `Namespaces.HeadWithoutBrace` | scripts/abi_freeze_check.py:228-239 | a `namespace` without a brace behind it leaves the rest of the text alone |
| `Namespaces.WrapperUnclosed` | scripts/abi_freeze_check.py:240-264 | of a wrapper that never closes the head is blanked and the rest kept |
| `Namespaces.UnwrapKeepsOrBlanks` | scripts/abi_freeze_check.py:234-264 | the length is kept and every character is kept or blanked |
| `Namespaces.LevelShift` | scripts/abi_freeze_check.py:200-264 | at every position the brace level drops by one inside a removed wrapper and is kept elsewhere |
| `Namespaces.UnwrappedIsBalanced` | scripts/abi_freeze_check.py:200-264 | balanced text whose wrapper heads hold no closing brace stays balanced, one level shallower inside wrappers only |
| `Namespaces.UnwrapConcat` | scripts/abi_freeze_check.py:224-264 | whole lines are unwrapped one after the other from the state the earlier ones leave |
| `Namespaces.UnwrapBroken` | scripts/abi_freeze_check.py:224-264 | a line broken at a blank is broken there after unwrapping, or the blank was in a removed head |
| `Namespaces.UnwrapOneMore` | scripts/abi_freeze_check.py:224-264 | one more blank before a blank is one more blank before a blank after unwrapping |
| `Blocks.JoinLogicalBlocks` | scripts/abi_freeze_check.py:273-326 | the line loop computes the block joiner on every text, with Python's line breaks |
| `Blocks.TakeLine` | scripts/abi_freeze_check.py:299-323 | one line: blank, directive with its flush, or pending line that may complete a block |
| `Blocks.SplitLinesAgrees` | scripts/abi_freeze_check.py:299-302 | a carriage return with its newline may be taken as two breaks without changing the blocks |
| `Blocks.EmittedConcat` | scripts/abi_freeze_check.py:296-326 | joining distributes over whole lines from the pending state the earlier ones leave |
| `Blocks.BlocksConserveLines` | scripts/abi_freeze_check.py:296-326 | every non-blank line lands in exactly one block, directives in their order and the others in theirs |
| `Blocks.DepthIsNet` | scripts/abi_freeze_check.py:311-323 | the counter equals the net braces of the pending lines and only brace-neutral groups are completed |
| `Reflow.NormalsAreNormalised` | scripts/abi_freeze_check.py:267-326 | a machine that never keeps lines computes exactly the normalised blocks |
| `Reflow.ReflowKeepsBlocks` | scripts/abi_freeze_check.py:267-326 | breaking a line at a blank keeps the normalised blocks, unless it ends a block early or starts a directive |
| `Reflow.SpareKeepsBlocks` | scripts/abi_freeze_check.py:267-326 | a space before a space or a break, or an empty line, can be taken out without changing the normalised blocks |
| `Reflow.ChunkMakesOneBlock` | scripts/abi_freeze_check.py:299-323 | text over any number of lines that returns to depth zero only at its final brace or semicolon is one block |
| `Surface.StripInlineBody` | scripts/abi_freeze_check.py:329-380 | the loop cuts a block at its first brace at depth zero |
| `Surface.RecordBlock` | scripts/abi_freeze_check.py:394-459 | one block is entered under its kind and name as the classifier says, or not at all |
| `Surface.ExtractSurface` | scripts/abi_freeze_check.py:383-463 | the extraction loop computes the surface as a fold over the line-free normalised blocks |
| `Headers.LinesAreBlocks` | scripts/abi_freeze_check.py:273-326 | a header with one directive, declaration or definition a line, without comments or wrappers, has one block a line, in order |
| `Headers.LinesJoin` | scripts/abi_freeze_check.py:311-326 | a line that does not end a block is joined with the next one by a space |
| `Headers.LeftoverIsBlock` | scripts/abi_freeze_check.py:324-325 | what is pending at the end is a block, finished or not |
| `Headers.DirectiveFlushes` | scripts/abi_freeze_check.py:303-310 | a directive ends a declaration that is pending outside braces |
| `Headers.DirectiveInBraces` | scripts/abi_freeze_check.py:303-310 | between braces a directive stands for itself and the declaration goes on behind it |
| `Headers.NamespaceIsTransparent` | scripts/abi_freeze_check.py:387-392 | such lines with balanced braces have inside a `namespace` the entries they have outside |
| `Headers.ConstantHeader` | scripts/abi_freeze_check.py:397-402 | a header of one constant has exactly its entry |
| `Headers.AliasHeader` | scripts/abi_freeze_check.py:416-424 | a header of one alias has exactly its entry |
| `Headers.AggregateHeader` | scripts/abi_freeze_check.py:403-415 | a header of one structure, union, class or enumeration, over any number of lines and with any bases, has exactly its entry: keyword and tag with the normalised text |
| `Headers.AggregateHeaderEdit` | scripts/abi_freeze_check.py:403-415 | between two such headers of one tag the gate accepts iff they are the same but for blanks |
| `Headers.FunctionHeader` | scripts/abi_freeze_check.py:445-459 | a header of one readable function has exactly its entry: name, return type, parameters |
| `Headers.TypeNameHeader` | include/lr_ffi.h:7005-7005 | the header of this declaration, which returns a pointer, has exactly its entry |
| `Gate.DiffSurface` | scripts/abi_freeze_check.py:485-497 | removed and changed are exactly the lost names and the names with another signature, each in increasing order; both empty iff head extends baseline |
| `Gate.Sorted` | scripts/abi_freeze_check.py:492-494 | the names of a set in strictly increasing order |
| `Words.BeforeIff` | scripts/abi_freeze_check.py:492-494 | a name comes before another iff it is a proper beginning of it or has the smaller character where they first differ |
| `Gate.Verdict` | scripts/abi_freeze_check.py:507-543 | exit code 0 iff the baseline is empty or all four tables are extended |
| `Gate.AcceptsChain` | scripts/abi_freeze_check.py:507-543 | acceptance holds end to end over any chain of accepted releases |
| `Gate.InsertedBlocks` | scripts/abi_freeze_check.py:393-463 | blocks with new names put anywhere only add to the surface |
| `Gate.EntryStands` | scripts/abi_freeze_check.py:393-463 | a block's entry stands in the surface unless a later block of its kind overrides it |
| `Gate.RemovalIsReported` | scripts/abi_freeze_check.py:53-55 | a symbol of any kind that is gone from the head is rejected |
| `Gate.ChangeIsReported` | scripts/abi_freeze_check.py:53-55 | a block replaced by one of the same kind and name is accepted iff the signature did not change |
| `Promises.BlockCommentEdit` | scripts/abi_freeze_check.py:15-27 | rewriting a block comment, or replacing it by a space, keeps the surface of the header |
| `Promises.BlockCommentRemoval` | scripts/abi_freeze_check.py:15-27 | removing a block comment that has a space beside it or ends its line keeps the surface |
| `Promises.LineCommentEdit` | scripts/abi_freeze_check.py:15-27 | rewriting or removing a line comment keeps the surface of the header, with and without a newline behind it |
| `Promises.SpareBlankKeepsSurface` | scripts/abi_freeze_check.py:15-35 | taking out a space before a space or a newline, or an empty line, keeps the surface, through comments and namespaces |
| `Promises.ReflowKeepsSurface` | scripts/abi_freeze_check.py:15-35 | breaking a header line at a blank in code keeps the surface, through comments and namespaces |
| `Promises.AdditionsPass` | scripts/abi_freeze_check.py:50-55 | whole lines with new names inserted where a block may start, inside a namespace too, only add, and the gate accepts |
| `Promises.BlockRemoval` | scripts/abi_freeze_check.py:393-543 | for whole headers: removing a block is accepted iff it has no entry or its name is still answered as before |
| `Promises.BlockRewrite` | scripts/abi_freeze_check.py:393-543 | for whole headers: rewriting a block is accepted iff its old and its new name are answered as before |
| `Promises.BlockAddition` | scripts/abi_freeze_check.py:393-543 | for whole headers: adding a block is accepted iff its name was not answered or is answered as before |
| `Promises.InlineBodyEdit` | scripts/abi_freeze_check.py:329-458 | replacing a balanced inline body by another keeps block boundary, signature and surface |
| `Promises.AggregateEdit` | scripts/abi_freeze_check.py:403-415 | for whole headers: an edited aggregate is accepted iff its normalised text did not change |
| `Promises.FieldEdit` | scripts/abi_freeze_check.py:403-415 | in a header of one structure the gate accepts an edit of the fields iff nothing changed |
| `Promises.NewFieldIsReported` | scripts/abi_freeze_check.py:53-53 | a new field, documented as silent, is rejected: a concrete pair of headers |
| `Promises.Collect` | scripts/abi_freeze_check.py:466-482 | the surface of both headers, the second overriding the first, an absent one counting as empty |
| `Promises.LaterHeaderWins` | scripts/abi_freeze_check.py:469-481 | a name of both headers has the entry of the second one |
| `Promises.AdditionToEitherHeaderPasses` | scripts/abi_freeze_check.py:466-543 | an addition to one header passes the gate over both when its names are new in both |
| `Forms.DefineEntry` | scripts/abi_freeze_check.py:84-84 | a constant is entered under its name with its value |
| `Forms.TypedefEntry` | scripts/abi_freeze_check.py:91-91 | an alias is entered under its last word with its whole text |
| `Forms.AggregateEntry` | scripts/abi_freeze_check.py:108-112 | a structure, union, class or enumeration is entered under keyword and tag with its whole text, base lists included |
| `Forms.MatchFunctionIff` | scripts/abi_freeze_check.py:119-124 | on any layout, with blanks before the name, the parenthesis and the semicolon, the function pattern reads the entry iff the return type is letters, digits, underscores, stars and blanks led by an identifier that is none of the five keywords, and only blanks follow the parameters |
| `Forms.ScopedEnumEntry` | scripts/abi_freeze_check.py:101-112 | a scoped enumeration is entered under its tag, not under its second keyword |
| `Forms.KeywordIsTag` | scripts/abi_freeze_check.py:101-112 | a second keyword without a tag behind it is itself the tag |
| `Forms.FunctionEntry` | scripts/abi_freeze_check.py:119-124 | every function declaration in normal form is entered under its name with return type and parameters iff the return type is readable and only blanks follow the parameters, and otherwise has no entry |
| `Forms.InlineIsDeclaration` | scripts/abi_freeze_check.py:425-458 | an inline definition with any body has the entry of the plain declaration, under the same condition |
| `Forms.InlineDeclarationEntry` | scripts/abi_freeze_check.py:425-458 | an inline declaration without a body has it too |
| `Forms.PlainDefinitionEntry` | scripts/abi_freeze_check.py:425-458 | a definition without `inline` has it too, unless it opens like an aggregate |
| `Forms.SignatureShowsBoth` | scripts/abi_freeze_check.py:456-458 | equal signatures have return type and parameters in common |
| `Forms.FunctionChange` | scripts/abi_freeze_check.py:50-55 | for whole headers: a rewritten function is accepted iff its name was not answered before or is answered the same |
| `Forms.FunctionChangeIsReported` | scripts/abi_freeze_check.py:50-55 | for whole headers: a rewritten function that is seen before and after is accepted iff return type and parameters are the same, blanks aside; with no other declaration of the name, accepted iff it was not seen or is unchanged |
| `Forms.FunctionRemovalIsReported` | scripts/abi_freeze_check.py:50-55 | for whole headers: a removed function is accepted iff it was not seen or its name is still answered as before |
| `Forms.LostFunctionIsReported` | scripts/abi_freeze_check.py:50-55 | whatever else changes, a seen function whose name is no longer answered is rejected |
| `Forms.UnseenFunctions` | include/librouting.hpp:806-806 | three functions of the headers, returning a `std::` type, `noexcept`, and returning a structure pointer, can be removed from any header without changing its surface |
| `Forms.SidHeaderIsEmpty` | include/lr_ffi.h:20676-20676 | a header with only this declaration has an empty surface |
| `Kinds.DefineIff` | scripts/abi_freeze_check.py:84-84 | a constant has an entry iff its name is followed by a blank and a value; a bare name and a macro with parameters have none |
| `Kinds.AliasIff` | scripts/abi_freeze_check.py:91-91 | an alias has an entry iff its text ends in an identifier, and then under that name |
| `Kinds.CallbackAliasIsUnseen` | include/lr_ffi.h:2213-2213 | an alias of an array or a function pointer can be removed from any header without changing its surface |
| `Kinds.AggregateIff` | scripts/abi_freeze_check.py:108-112 | an aggregate has an entry iff it has a tag, and then under keyword and tag |
| `Kinds.AggregatesAre` | scripts/abi_freeze_check.py:108-112 | only blocks that start with `struct`, `enum`, `union` or `class` and a blank are aggregates |
| `Kinds.KeywordIsNoFunction` | scripts/abi_freeze_check.py:119-124 | a block that starts with the keyword of another kind is never entered as a function, whatever its body |
| `Entries.EntryTextIff` | scripts/abi_freeze_check.py:84-91 | on any block with single spaces: a constant iff it is `#define`, name and value; an alias iff it is `typedef`, text that does not end in a word, name, perhaps a space, and a semicolon |
| `Entries.FunctionTextIff` | scripts/abi_freeze_check.py:119-124 | on any text: a function iff it is a return type and name of letters, digits, blanks and stars, not on a keyword, parameters without a semicolon in parentheses, blanks and a semicolon; the return type is the shortest that leaves a name |
| `Entries.FunctionEntryIff` | scripts/abi_freeze_check.py:394-459 | a block has the entry of a function iff it is of no other kind and its declaration form is that text |
| `Entries.CallIsFunction` | scripts/abi_freeze_check.py:119-124 | a call without a return type is read as a function whose type is its first letter |
| `TopLevel.SplitTopLevel` | scripts/abi_parse.py:65-82 | the loop computes the bracket-depth splitter |
| `TopLevel.PiecesRejoin` | scripts/abi_parse.py:65-82 | the pieces rejoined with separators are the text |
| `TopLevel.PiecesAreWellSplit` | scripts/abi_parse.py:70-79 | every piece but the last is balanced and separators left inside pieces are at nonzero depth |
| `TopLevel.PiecesOfJoin` | scripts/abi_parse.py:70-79 | well-split pieces are recovered from their concatenation, so they are unique |
| `TopLevel.CommaSplits` | scripts/abi_parse.py:70-79 | a comma outside brackets separates |
| `TopLevel.BracketsHoldCommas` | scripts/abi_parse.py:70-79 | commas between `()`, `[]`, `{}` or `<>` do not separate |
| `TopLevel.SplitLosesOnlyBlankTail` | scripts/abi_parse.py:65-82 | parts and at most one blank tail rejoin to the text |
| `TopLevel.ResplitReturnsParts` | scripts/abi_parse.py:65-82 | re-splitting the rejoined parts returns them iff the last part is not blank |
| `TopLevel.ResplitDropsBlankPart` | scripts/abi_parse.py:80-82 | the smallest input where it does not |
| `Params.ParamRoundTrip` | scripts/abi_parse.py:85-109 | a printed parameter inside any blanks is parsed back |
| `Params.LayoutParsed` | scripts/abi_parse.py:85-109 | a type and a name in any layout on one line, inside any blanks, are read as such; a pointer needs no blank before its name |
| `Params.ParamIff` | scripts/abi_parse.py:85-109 | on any text: a parameter is read iff the text is that parameter, nothing for blanks, a type on one line, blanks and a name inside blanks, or text that does not end in such a name |
| `Params.ParseParamIff` | scripts/abi_parse.py:85-109 | nothing is read from blanks only, a name exactly when the last word is an identifier behind text on one line, the text itself otherwise |
| `Params.ParsedIsParam` | scripts/abi_parse.py:85-109 | whatever is parsed is empty, exactly for blank text, or could be printed and parsed again |
| `Params.ParamsRoundTrip` | scripts/abi_parse.py:133-137 | a printed parameter list is parsed back in order |
| `Params.ParsedIsParamList` | scripts/abi_parse.py:133-137 | every parsed list without empty parameters could be printed and parsed again |
| `Params.ListParsed` | scripts/abi_parse.py:133-137 | a list is read parameter by parameter, whatever their layout |
| `Decl.RenderFunction` | scripts/gen_python.py:104-117 | the printer loop produces the declaration text in its three layouts |
| `Decl.PrintedWithout` | scripts/gen_python.py:113-114 | a function without parameters is printed with `(void);` |
| `Decl.PrintedOnOneLine` | scripts/gen_python.py:115-116 | one or two parameters stand on the line of the name, after a comma and a space |
| `Decl.PrintedOnLines` | scripts/gen_python.py:117-117 | more parameters stand on lines of their own, indented by four spaces |
| `Decl.ArgsRoundTrip` | scripts/abi_parse.py:133-137 | arguments survive printing and parsing iff they are not a single unnamed void |
| `Decl.ArgsIff` | scripts/abi_parse.py:133-137 | on any text: arguments are read iff they are blank or `void` and there are none, or they are the texts of the parameters in order, between the commas outside brackets, on any number of lines; a blank part behind the last comma counts for nothing |
| `Decl.RoundTripIff` | scripts/abi_parse.py:112-142 | printing a record and parsing it returns it iff the record is well formed: name, return type at the first word-boundary head, handle resolution, parameters |
| `Decl.ParsedIsParsable` | scripts/abi_parse.py:112-142 | every parsed record without empty parameters has the parsable form |
| `Decl.ParseDeclared` | scripts/abi_parse.py:112-142 | a declaration in any layout, with any blanks and semicolons behind it, is read as its name, its return type up to the name, and the parameters its arguments are the text of |
| `Decl.HeadIff` | scripts/abi_parse.py:114-115 | a head is, at a word boundary behind some text, `lr_`, more word characters, blanks and an opening parenthesis |
| `Decl.ParseIff` | scripts/abi_parse.py:112-117 | a declaration is parsed iff it has a head and ends with a closing parenthesis |
| `Decl.DeclarationIff` | scripts/abi_parse.py:112-142 | on any text: a record is parsed iff the text declares it, in any layout: blanks, return type without a head, name, arguments that are the text of its parameters, semicolons; an error iff it declares none |
| `Decl.ResolveOpaque` | scripts/abi_parse.py:119-131 | a return type `struct Opaque... *`, with any blanks, becomes the first handle of that structure, and stays when there is none |
| `Decl.ResolveOther` | scripts/abi_parse.py:124-131 | every other return type stays as it is written |
| `Header.CollectFunctionDecls` | scripts/abi_parse.py:151-196 | the character loop computes statement splitting, filtering and first-name-wins collection |
| `Header.TakeStatement` | scripts/abi_parse.py:170-193 | one statement: skipped, unparsable, already seen, or added with its name |
| `Header.AcceptIff` | scripts/abi_parse.py:170-193 | a declaration is taken iff its statement does not start as a directive, an alias or an enumeration |
| `Header.AcceptIsParse` | scripts/abi_parse.py:172-190 | on any statement: the filters only keep out statements that start as a directive, an alias or an enumeration; any other is taken iff it parses |
| `Header.BracesHoldStatements` | scripts/abi_parse.py:158-169 | no statement ends between braces; what stands there belongs to the text around it |
| `Header.NamesAreDistinct` | scripts/abi_parse.py:151-196 | on any text the collected names are pairwise distinct |
| `Header.CollectedIff` | scripts/abi_parse.py:11-11 | a declaration joins the list iff the text since the last statement does not start as a directive, an alias or an enumeration; that text is its return type |
| `Header.CollectedStays` | scripts/abi_parse.py:151-196 | what has been collected stays, in order, whatever follows |
| `Header.DirectiveHidesDeclaration` | scripts/abi_parse.py:174-175 | any directive line hides the declaration behind it |
| `Header.ListRoundTrip` | scripts/abi_parse.py:151-196 | the printed form of any list of distinctly named well-formed functions is collected as exactly that list |
| `Header.SidParsed` | include/lr_ffi.h:20676-20676 | this declaration is parsed with the handle of its structure, not the first handle of the table, and its pointer parameter by name |
| `ValueStructs.FieldRoundTripIff` | scripts/abi_parse.py:237-249 | a printed field is parsed back, array size included, iff it could have been parsed |
| `ValueStructs.ParsedIsField` | scripts/abi_parse.py:237-249 | whatever is parsed as a field could be printed and parsed again |
| `Fields.FieldIff` | scripts/abi_parse.py:237-249 | a line is read as a field iff it is the text of that field: type, blanks, name and size in brackets, with the alphabet of types spelled out; a pointer needs no blank before its name |
| `Fields.DecimalValue` | scripts/abi_parse.py:248-248 | the size is the decimal value of its digits |
| `Fields.FieldsOfParts` | scripts/abi_parse.py:232-249 | the fields of a body are those of its parts between semicolons, in order |
| `Fields.BlockCommentInBody` | scripts/abi_parse.py:230-230 | a block comment in a body is worth a space |
| `Fields.LineCommentInBody` | scripts/abi_parse.py:230-231 | a line comment in a body is worth a space and its newline stays, when no block comment that opens in it runs over its end |
| `ValueStructs.CollectValueStructs` | scripts/abi_parse.py:223-263 | the two loops compute the table of structures and aliases on every text |
| `ValueStructs.AliasesOnlyRename` | scripts/abi_parse.py:254-262 | on any text aliases override nothing and stand for structures that were found |
| `Aliases.AliasTextIff` | scripts/abi_parse.py:37-40 | a text is matched as an alias iff it starts with `typedef struct lr_..._t lr_...;` with any blanks; target, alias and length are those |
| `Aliases.AliasIsEntered` | scripts/abi_parse.py:254-262 | on any text, the first alias line of a name that is no structure enters it with the structure of its target |
| `Aliases.AliasLineEnters` | scripts/abi_parse.py:254-262 | on any text an alias line names its target once more when the target is known by then, an earlier alias included, and the name is new; otherwise it changes nothing |
| `Aliases.StructureIsKept` | scripts/abi_parse.py:257-257 | an alias changes no structure of the header |
| `Aliases.AliasesRoundTrip` | scripts/gen_python.py:91-93 | printed structures followed by printed alias lines are collected as the structures and their aliases |
| `Aliases.AfiSafiAlias` | include/lr_ffi.h:68-68 | this alias is answered with the fields of the structure it names |
| `ValueStructs.FindIter` | scripts/abi_parse.py:225-253 | left-to-right, non-overlapping matches at line starts, folded in order |
| `ValueStructs.RenderStruct` | scripts/gen_python.py:91-101 | the printer loop produces the structure text |
| `Fields.StructPrinted` | scripts/gen_python.py:91-101 | a structure is printed as a line for its tag, an indented line for each field in order, and a line for its handle |
| `ValueStructs.BodyRoundTrip` | scripts/abi_parse.py:230-249 | the fields of a printed body are the printed fields in order |
| `ValueStructs.MarkerIff` | scripts/abi_parse.py:218-220 | a printed body reads as the opaque marker iff its field list is the marker's |
| `ValueStructs.StructRead` | scripts/abi_parse.py:41-44 | a printed structure is matched whole, with tag, body and handle, whatever follows |
| `Fields.StructIff` | scripts/abi_parse.py:41-44 | a text is matched as a structure iff it starts with `typedef struct`, tag, body without closing brace, blanks and `lr_..._t;`; tag, body, handle and length are those |
| `Typedefs.EntryIff` | scripts/abi_parse.py:223-253 | on any text a handle has an entry of its own iff a structure typedef at the start of a line, outside every earlier one and with another body than that of an opaque marker, defines it |
| `Typedefs.LastStructCounts` | scripts/abi_parse.py:223-253 | on any text its entry is the tag and the fields of the last such structure, aliases or not |
| `Typedefs.StructureIsEntered` | scripts/abi_parse.py:223-253 | a structure typedef written at the start of a line, outside earlier ones, is entered unless it is an opaque marker or a later one of its handle overrides it |
| `Fields.MarkerTextIff` | scripts/abi_parse.py:218-220 | on any text: a body is an opaque marker iff it is `uint8_t _private[N]`, with blanks between its words, inside blanks and with its semicolon or without |
| `ValueStructs.StructsRoundTrip` | scripts/abi_parse.py:223-263 | the printed form of any list of structures is collected as the table of that list, markers excepted |
| `ValueStructs.TableAnswers` | scripts/abi_parse.py:223-253 | with distinct handles every structure is answered with itself and the marker with nothing |
| `Splice.HeaderMarks` | scripts/gen_cpp.py:26-27 | the header's own markers, spelled out, have the properties the theorems ask of markers |
| `Splice.CleanShrinks` | scripts/gen_cpp.py:260-261 | cutting never adds ink and loses some exactly when there is a whole block |
| `Calls.CleanBlock` | scripts/gen_cpp.py:260-261 | text before the first begin marker is kept; the block to the first end marker behind it goes, with the blanks that follow; the rest is treated in turn |
| `Calls.NothingToCut` | scripts/gen_cpp.py:260-261 | a begin marker with no end marker behind it leaves the header uncut |
| `Splice.CleanSpliced` | scripts/gen_cpp.py:260-261 | with no begin marker before it, cutting takes a spliced block out again and nothing else |
| `Splice.SymbolsBlank` | scripts/gen_cpp.py:30-39 | the set of called names does not depend on the blanks at the splice |
| `Calls.SymbolsIff` | scripts/gen_cpp.py:39-39 | a name counts as called iff `lr_` with more word characters, blanks and a parenthesis stands at a word boundary |
| `Splice.CutAgain` | scripts/gen_cpp.py:262-266 | the insertion point of the rejoined hand-written text is the splice |
| `Calls.RFindIff` | scripts/gen_cpp.py:262-262 | the insertion point is the last occurrence of the closing marker |
| `Calls.FirstBlock` | scripts/gen_cpp.py:258-377 | a header without a block gets one before its last closing marker, between empty lines, and is otherwise only trimmed there |
| `Calls.FirstBlockAtEnd` | scripts/gen_cpp.py:263-264 | without a closing marker the block goes to the end |
| `Calls.PatchIs` | scripts/gen_cpp.py:258-376 | any header: the block goes before the last closing marker that is left after cutting |
| `Calls.PatchAtEnd` | scripts/gen_cpp.py:262-264 | without one, to the end |
| `Splice.SettledIsKept` | scripts/gen_cpp.py:258-377 | cutting a regenerated header gives back the hand-written text with only the blanks at the splice changed |
| `Splice.KeptIffSettled` | scripts/gen_cpp.py:258-377 | regeneration keeps every hand-written non-blank character iff no begin marker stands before the splice and no whole block after it |
| `Splice.IdempotentIffSettled` | scripts/gen_cpp.py:258-377 | regenerating twice equals regenerating once under exactly that condition |
| `Splice.WholeLinesAreNeat` | scripts/gen_cpp.py:272-370 | whole rendered lines that contain neither marker never form one with the markers around them |
| `Splice.HeaderRegeneration` | scripts/gen_cpp.py:258-377 | both equivalences for the header's own markers and every renderer of such lines |
| `Splice.UnclosedMarkerIsLost` | scripts/gen_cpp.py:258-377 | the smallest failing header, an unclosed begin marker |
| `Handles.RunConserves` | bindings/lr-go/mpls.go:57-120 | over every run each handle made is held by one wrapper or has left Go once, and a held handle has a finalizer set |
| `Handles.StepConserves` | bindings/lr-go/mpls.go:57-120 | every single step conserves handles |
| `Handles.NoSharing` | bindings/lr-go/mpls.go:57-120 | no two wrappers hold the same handle |
| `Handles.LeavesOnce` | bindings/lr-go/mpls.go:76-87 | no handle is released or handed over twice |
| `Handles.NoDangling` | bindings/lr-go/mpls.go:76-120 | no wrapper holds a handle that has left Go |
| `Handles.RetiredStaysNil` | bindings/lr-go/mpls.go:76-87 | a wrapper freed or finalised anywhere in a run holds nothing at its end |
| `Handles.RefusedIffStranded` | crates/lr-ffi/src/mpls.rs:672-685 | a handle is lost to both sides iff some step handed one to a receiver that held none |
| `Handles.EndedIff` | bindings/lr-go/mpls.go:57-120 | over every run: a handle was freed iff `Free` or the finalizer of its holder ran, taken iff it was exchanged, handed to a live receiver or made as the header of an LSA, refused iff it was handed to an empty receiver |
| `Handles.AllAccountedFor` | bindings/lr-go/mpls.go:57-81 | once every wrapper is freed or finalised, each handle ever made has left Go exactly once, the way a step of the run ended it, and unless stranded it was freed or taken |
| `Handles.PushOnFreedStackLosesLabel` | bindings/lr-go/mpls.go:337-352 | the smallest run that loses a handle |
| `Handles.EachCallTakes` | bindings/lr-go/ospf.go:241-255 | in every state Push, Install, RecordFlood and SetAuth empty the argument and log its handle as taken, or as refused by a receiver without one; only SetAuth keeps the finalizer, and nothing else changes |
| `Handles.WithExchanges` | bindings/lr-go/mpls.go:92-120 | in every state WithTC and WithTTL leave the receiver empty and disarmed and, if it held a handle, a new wrapper with the new handle |
| `Handles.NewLsaKeepsOne` | bindings/lr-go/ospf.go:104-141 | in every state the constructor takes the header it made, whether or not it succeeds, and freeing the LSA then frees one handle |
| `Handles.NewMakes` | bindings/lr-go/mpls.go:57-74 | in every state a constructor makes a wrapper of its kind with the new handle; without one a checked constructor makes none and any other an empty one |
| `Handles.LegalIff` | bindings/lr-go/mpls.go:57-120 | which calls the types of the arguments allow, and when a finalizer may run |
| `Handles.FreeFrees` | bindings/lr-go/mpls.go:76-87 | in every state Free frees the handle the wrapper holds, if any, and leaves it empty and disarmed |
| `Handles.FinalizeFrees` | bindings/lr-go/mpls.go:76-81 | so does the finalizer wherever it is set |
| `Handles.NothingToHand` | bindings/lr-go/ospf.go:241-255 | handing over a nil reference or an empty wrapper changes nothing, but that Push disarms the wrapper |
| `Wrappers.Library.WithField` | crates/lr-ffi/src/mpls.rs:240-246 | a null handle gives null; any other is taken and a new one returned |
| `Wrappers.Library.LsaFrom` | crates/lr-ffi/src/ospf_lsdb.rs:391-413 | the header is taken whether or not a handle comes back |
| `Wrappers.Library.TakeInto` | crates/lr-ffi/src/mpls.rs:672-685 | the receiver is checked before the handle is taken |
| `Wrappers.Wrapper.Destroy` | bindings/lr-go/mpls.go:76-81 | the handle is freed if there is one, and the pointer cleared |
| `Wrappers.Wrapper.Free` | bindings/lr-go/mpls.go:84-87 | the finalizer is cleared and the handle freed once |
| `Wrappers.Wrapper.With` | bindings/lr-go/mpls.go:92-120 | the receiver is emptied and disarmed; the new handle gets its own wrapper |
| `Wrappers.Wrapper.Push` | bindings/lr-go/mpls.go:337-367 | the label is emptied and disarmed whatever C answers; success iff both sides held a handle |
| `Wrappers.Wrapper.Deposit` | bindings/lr-go/ospf.go:241-255 | a nil or emptied wrapper is refused unchanged; otherwise it is emptied and disarmed |
| `Wrappers.Wrapper.SetAuth` | bindings/lr-go/bfd.go:250-261 | the section is emptied and keeps its finalizer; a nil section clears |
| `Wrappers.Session.New` | bindings/lr-go/mpls.go:57-74 | construction is the step of the state machine, failing constructors included |
| `Wrappers.Session.NewLsa` | bindings/lr-go/ospf.go:104-128 | construction through a header handle is the step of the state machine, either constructor failing included |
| `Wrappers.Session.Free` | bindings/lr-go/mpls.go:84-87 | Free is the step of the state machine on the whole session |
| `Wrappers.Session.Finalize` | bindings/lr-go/mpls.go:76-81 | the finalizer is the step of the state machine |
| `Wrappers.Session.With` | bindings/lr-go/mpls.go:92-120 | WithTC and WithTTL are the step of the state machine |
| `Wrappers.Session.Push` | bindings/lr-go/mpls.go:337-367 | Push and PushBottom are the step of the state machine |
| `Wrappers.Session.Install` | bindings/lr-go/ospf.go:241-255 | Install is the step of the state machine |
| `Wrappers.Session.RecordFlood` | bindings/lr-go/ospf.go:407-419 | RecordFlood is the step of the state machine |
| `Wrappers.Session.SetAuth` | bindings/lr-go/bfd.go:250-261 | SetAuth is the step of the state machine |
| `Registry.Callbacks.Register` | bindings/lr-go/babel.go:742-748 | a new index above every one in use is bound to the callback |
| `Registry.Callbacks.Release` | bindings/lr-go/babel.go:750-754 | only that index is unbound |
| `Registry.Callbacks.Lookup` | bindings/lr-go/babel.go:756-760 | the bound callback, or nil |
| `Registry.Callbacks.Trampoline` | bindings/lr-go/babel.go:763-777 | a nil callback is skipped; an error stops the iteration |
| `Registry.Callbacks.Walk` | crates/lr-ffi/src/babel_batch.rs:635-658 | the C loop visits routes in order until a nonzero answer |
| `Registry.Callbacks.IterCommon` | bindings/lr-go/babel.go:720-732 | a lone iteration calls its callback with the routes up to the first rejected one and leaves the table as it was |
| `Registry.HeardFacts` | bindings/lr-go/babel.go:763-777 | those routes are a prefix, all of it unless a route is rejected, and only the last may be rejected |
| `Registry.RunKeeps` | bindings/lr-go/babel.go:717-777 | under any interleaving each running iteration finds its own callback, indexes differ, nothing else is registered, callbacks hear their own routes in order |
| `Registry.EmptyWhenAllReturned` | bindings/lr-go/babel.go:720-754 | the registry is empty iff no iteration is running |
| `Registry.NeverReused` | bindings/lr-go/babel.go:742-748 | the indexes given out in a run are 1, 2, 3 and so on, never reused after release |
| `Registry.FinishesAsAlone` | bindings/lr-go/babel.go:720-777 | whatever runs beside or inside it, an iteration makes the same calls and has the same result as alone |
| `Registry.NeverStuck` | crates/lr-ffi/src/babel_batch.rs:648-655 | in every reachable state a running iteration can go on in exactly one way: the callback returns, C visits the next route, or the iteration finishes |
| `Registry.IterationCompletes` | bindings/lr-go/babel.go:720-732 | from every reachable state a thread outside every iteration or inside a callback can iterate on its own: it calls the callback with the routes a lone iteration would, has its result, and leaves everything as it was but for the counter |
| `Registry.RunningFinishes` | bindings/lr-go/babel.go:720-732 | from every reachable state a running iteration can get to its end, whatever its callback answers, and releases its index only |
| `Wire.PackNextHops` | bindings/lr-go/librouting.go:314-321 | the array loop writes the concatenation of the five-byte records |
| `Wire.PackFamilies` | bindings/lr-go/librouting.go:351-357 | the array loop writes the concatenation of the four-byte records |
| `Wire.NextHopLayout` | bindings/lr-go/librouting.go:316-320 | byte by byte: address family, most significant byte first, subsequent family, next-hop family |
| `Wire.FamilyLayout` | bindings/lr-go/librouting.go:353-356 | byte by byte: address family, most significant byte first, a zero, subsequent family |
| `Wire.CommunityLayout` | bindings/lr-go/bgp_path.go:594-597 | four bytes, the first counting 2^24 |
| `Wire.LargeLayout` | bindings/lr-go/bgp_path.go:631-637 | global administrator, first and second local part, four bytes each |
| `Wire.WellKnownFamilies` | crates/lr-ffi/src/router.rs:812-815 | the two families of the documentation are packed as it says |
| `Wire.Value16` | bindings/lr-go/librouting.go:316-320 | the two bytes written for a number are its quotient and remainder by 256 |
| `Wire.Value32` | crates/lr-ffi/src/bgp_path.rs:944-946 | the four bytes of a number are its digits to the base 256, the highest first |
| `Wire.ParseNextHops` | crates/lr-ffi/src/router.rs:767-810 | null or empty gives no tuples, more than 1024 an error, otherwise every record is decoded |
| `Wire.ParseFamilies` | crates/lr-ffi/src/router.rs:828-870 | the same for families, whose reserved byte is ignored |
| `Wire.FamilyOfBytes` | crates/lr-ffi/src/router.rs:850-853 | any four bytes are read as the number of the first two and the fourth |
| `Wire.NextHopOfBytes` | crates/lr-ffi/src/router.rs:790-794 | any five bytes are read as the numbers of the first two and the last two and the third between them |
| `Wire.ConfigureNextHops` | crates/lr-ffi/src/router.rs:767-808 | the four return codes, and what the router was asked to set |
| `Wire.ConfigureFamilies` | crates/lr-ffi/src/router.rs:828-867 | the four return codes, and what the router was asked to set |
| `Wire.SetExtendedNextHop` | bindings/lr-go/librouting.go:306-333 | the router is asked to set exactly the given tuples iff its handle is live and there are at most 1024; every return code |
| `Wire.SetMPFamilies` | bindings/lr-go/librouting.go:343-370 | the router is asked to set exactly the given families iff its handle is live and there are at most 1024; every return code |
| `Wire.RecordsOfFlat` | bindings/lr-go/librouting.go:314-321 | records of any fixed width with an inverse are read back at every offset |
| `Wire.NextHopsInjective` | bindings/lr-go/librouting.go:314-321 | different lists of tuples give different buffers |
| `Wire.FamiliesInjective` | bindings/lr-go/librouting.go:351-357 | different lists of families give different buffers |
| `Wire.NextHopsRepack` | crates/lr-ffi/src/router.rs:788-797 | every buffer is the packed form of the tuples read from it |
| `Wire.FamiliesRepack` | crates/lr-ffi/src/router.rs:850-859 | a buffer of families is the packed form of what is read iff its reserved bytes are zero |
| `Wire.EncodeCommunities` | crates/lr-ffi/src/bgp_path.rs:929-955 | the count and the big-endian concatenation |
| `Wire.DecodeCommunities` | bindings/lr-go/bgp_path.go:577-600 | nil iff there are none or the buffer is too short, otherwise every record at its offset |
| `Wire.EncodeLargeCommunities` | crates/lr-bgp/src/path/communities.rs:180-188 | the count and the concatenation of twelve-byte triples |
| `Wire.DecodeLargeCommunities` | bindings/lr-go/bgp_path.go:618-646 | nil iff there are none or the buffer is too short, otherwise every triple up to the first one that cannot be made |
| `Wire.MadeFacts` | bindings/lr-go/bgp_path.go:638-645 | those are the longest prefix of triples that can be made |
| `Wire.CommunitiesRoundTrip` | bindings/lr-go/bgp_path.go:587-599 | decoding the concatenation of any list of communities returns the list |
| `Wire.LargeCommunitiesRoundTrip` | bindings/lr-go/bgp_path.go:627-646 | decoding the concatenation of any list of large communities returns the list |
| `Wire.CommunitiesRepack` | bindings/lr-go/bgp_path.go:587-599 | every buffer of communities is the packed form of what is read from it |
| `Wire.LargeCommunitiesRepack` | bindings/lr-go/bgp_path.go:627-646 | every buffer of large communities is the packed form of what is read from it |
| `Wire.CEntry.Fill` | bindings/lr-go/librouting.go:2222-2243 | an entry is copied in field by field iff its address has 4 or 16 bytes, with the flag that tells them apart; other address bytes stay, and otherwise nothing changes |
| `Wire.CEntry.Read` | bindings/lr-go/librouting.go:4050-4069 | each field is read as it stands, and four or sixteen address bytes by the flag |

## Left out

- Comments.OnePassAgreesWithTwo: says nothing of texts where a block comment stays open, or runs over the end of a line comment; there the two agree on some texts and differ on others.
- Promises.BlockCommentRemoval: block comments without a blank beside them, whose removal can join two words or turn the rest of a line into a directive.
- ValueStructs.CollectValueStructs: the mark that names the structure an alias stands for.
- Wrappers.Session.New: panics inside the C library.
- Handles.RunConserves: a nil Go receiver, which panics; arrays that lend out LSA handles; Babel TLV transfer.
- Registry.RunKeeps: wrap-around of Go's `int` counter, and callbacks that panic.
- Non-ASCII word characters and digits of Python's regular expressions.
- Strings in headers: the scanner and the splitters do not recognise them, and neither does the model.
- Derived parameter flags (constness, pointer, pointee) and the collectors of enums, defines and opaque typedefs.
- What the C++ and Python generators render for each entry point; the C++ renderer is any function of the called names that gives whole lines without either marker.
- Idempotence of the Python generator, whose end marker precedes its declarations.
- Which missing entry points the C++ generator wraps.
- When finalizers run, and what keeps Go objects alive during C calls.
- Reading git revisions and files, writing them, and printed messages.
- The routing protocols themselves (BGP, OSPF, BFD, Babel, RTR) and the one-line forwarding methods of the bindings.
