/** From normalised blocks to the ABI surface: the block classifier and the four maps. */
module Surface {
  import opened Text
  import opened Braces
  import opened Comments
  import opened Namespaces
  import opened Blocks
  import opened Reflow

  // ---- inline bodies ----

  /** The index of the first `{` met at depth `0`, or the length of the text. */
  function BodyStart(d: int, s: string): (n: nat)
    ensures n <= |s|
    decreases s
  {
    if s == [] || (s[0] == '{' && d == 0) then 0 else 1 + BodyStart(d + Weight(s[0]), s[1..])
  }

  /** A definition keeps its signature only; anything without a body is left alone. */
  function WithoutBody(block: string): string {
    var n := BodyStart(0, block);
    if n == |block| then block else RStrip(block[..n]) + " ;"
  }

  method StripInlineBody(block: string) returns (signature: string)
    ensures signature == WithoutBody(block)
  {
    var depth, i := 0, 0;
    var open := -1;
    while i < |block|
      invariant 0 <= i <= |block| && open == -1
      invariant i + BodyStart(depth, block[i..]) == BodyStart(0, block)
    {
      DropDrop(block, i, 1);
      var c := block[i];
      if c == '{' {
        if depth == 0 {
          open := i;
          break;
        }
        depth := depth + 1;
      } else if c == '}' {
        depth := depth - 1;
      }
      i := i + 1;
    }
    if open == -1 {
      return block;
    }
    signature := RStrip(block[..open]) + " ;";
  }

  // ---- the classifier, on a normalised block ----

  datatype Kind = Define | Typedef | Aggregate | Function

  datatype Entry = Entry(kind: Kind, name: string, signature: string)

  function MatchDefine(block: string): (r: Option<Entry>)
    ensures r.Some? ==> r.value.kind == Define
  {
    match AfterWord(block, "#define")
    case None => None
    case Some(t) =>
      match LeadingIdent(t)
      case None => None
      case Some(name) =>
        var u := t[|name|..];
        var n := SpaceRun(u);
        if n == 0 then None else Some(Entry(Define, name, Normalise(u[n..])))
  }

  const AGGREGATES := ["struct", "enum", "union", "class"]

  /** The tag after an aggregate keyword; `enum class` and `enum struct` carry a second
      keyword, unless that keyword is itself the tag. */
  function TagAfter(kind: string, t: string): Option<string> {
    var scoped := if kind != "enum" then None
                  else if AfterWord(t, "class").Some? then AfterWord(t, "class") else AfterWord(t, "struct");
    match scoped
    case None => LeadingIdent(t)
    case Some(u) => if LeadingIdent(u).Some? then LeadingIdent(u) else LeadingIdent(t)
  }

  /** `head` is the block up to its first opening brace. */
  function AggregateKey(head: string, kinds: seq<string>): Option<string> {
    if kinds == [] then None
    else
      match AfterWord(head, kinds[0])
      case None => AggregateKey(head, kinds[1..])
      case Some(t) =>
        match TagAfter(kinds[0], t)
        case None => AggregateKey(head, kinds[1..])
        case Some(tag) => Some(kinds[0] + " " + tag)
  }

  function MatchAggregate(block: string): (r: Option<Entry>)
    ensures r.Some? ==> r.value.kind == Aggregate
  {
    var n := IndexOf(block, '{');
    if n == |block| then None
    else
      match AggregateKey(block[..n], AGGREGATES)
      case None => None
      case Some(key) => Some(Entry(Aggregate, key, block))
  }

  /** What stands before a final `;`, without the blanks around that semicolon. */
  function BeforeSemicolon(s: string): Option<string> {
    var t := RStrip(s);
    if t != [] && t[|t| - 1] == ';' then Some(RStrip(t[..|t| - 1])) else None
  }

  function MatchTypedef(block: string): (r: Option<Entry>)
    ensures r.Some? ==> r.value.kind == Typedef
  {
    match BeforeSemicolon(block)
    case None => None
    case Some(body) =>
      var n := TailRun(body);
      var start := |body| - n;
      if AfterWord(block, "typedef").Some? && n > 0 && start > 7 && IsIdentStart(body[start])
      then Some(Entry(Typedef, body[start..], block))
      else None
  }

  predicate InReturnType(c: char) {
    IsWord(c) || IsSpace(c) || c == '*'
  }

  /** The least split point from `k` on that leaves blanks, an identifier and blanks. */
  function NameAt(pre: string, k: nat): (r: Option<nat>)
    requires k <= |pre|
    ensures r.Some? ==> k <= r.value <= |pre|
    decreases |pre| - k
  {
    if IsIdent(Strip(pre[k..])) then Some(k) else if k == |pre| then None else NameAt(pre, k + 1)
  }

  /** The parameter text of `params) ;`. */
  function Parameters(rest: string): Option<string> {
    match BeforeSemicolon(rest)
    case None => None
    case Some(t) =>
      if t != [] && t[|t| - 1] == ')' && ';' !in t then Some(t[..|t| - 1]) else None
  }

  predicate OpensAnotherKind(word: string) {
    word == "typedef" || word == "struct" || word == "enum" || word == "union" || word == "class"
  }

  function MatchFunction(candidate: string): (r: Option<Entry>)
    ensures r.Some? ==> r.value.kind == Function
  {
    var q := IndexOf(candidate, '(');
    if q == 0 || q == |candidate| || !IsIdentStart(candidate[0]) then None
    else if OpensAnotherKind(candidate[..WordRun(candidate)]) then None
    else
      var pre := candidate[..q];
      if exists i :: 0 <= i < |pre| && !InReturnType(pre[i]) then None
      else
        match (NameAt(pre, 1), Parameters(candidate[q + 1..]))
        case (Some(k), Some(params)) =>
          var name := Strip(pre[k..]);
          Some(Entry(Function, name, Normalise(pre[..k]) + " " + name + "(" + Normalise(params) + ");"))
        case _ => None
  }

  function WithoutInline(s: string): string {
    match AfterWord(s, "inline") case None => s case Some(t) => t
  }

  /** The declaration form of a block: body and `inline` dropped. */
  function Candidate(block: string): string {
    Normalise(WithoutInline(WithoutBody(block)))
  }

  function Classify(block: string): Option<Entry> {
    if block == "" then None
    else if MatchDefine(block).Some? then MatchDefine(block)
    else if MatchAggregate(block).Some? then MatchAggregate(block)
    else if MatchTypedef(block).Some? then MatchTypedef(block)
    else MatchFunction(Candidate(block))
  }

  // ---- the surface ----

  type Table = map<string, string>

  datatype AbiSurface = AbiSurface(defines: Table, typedefs: Table, structs: Table, functions: Table)

  const EMPTY := AbiSurface(map[], map[], map[], map[])

  function Record(surf: AbiSurface, entry: Option<Entry>): AbiSurface {
    match entry
    case None => surf
    case Some(Entry(kind, name, signature)) =>
      match kind
      case Define => surf.(defines := surf.defines[name := signature])
      case Typedef => surf.(typedefs := surf.typedefs[name := signature])
      case Aggregate => surf.(structs := surf.structs[name := signature])
      case Function => surf.(functions := surf.functions[name := signature])
  }

  /** The surface of a list of normalised blocks; a later block overrides an earlier one. */
  function SurfaceOfBlocks(surf: AbiSurface, blocks: seq<string>): AbiSurface
    decreases blocks
  {
    if blocks == [] then surf else SurfaceOfBlocks(Record(surf, Classify(blocks[0])), blocks[1..])
  }

  function Cleaned(text: string): string {
    Unwrapped(Stripped(text))
  }

  /** The ABI surface of one header. */
  function SurfaceOf(text: string): AbiSurface {
    SurfaceOfBlocks(EMPTY, Normals(Cleaned(text)))
  }

  function NormaliseAll(blocks: seq<string>): seq<string> {
    if blocks == [] then [] else [Normalise(blocks[0])] + NormaliseAll(blocks[1..])
  }

  lemma {:induction false} NormaliseRendered(bs: seq<Block>)
    ensures NormaliseAll(RenderAll(bs)) == NormAll(bs)
  {
    if bs != [] {
      NormaliseRendered(bs[1..]);
      assert RenderAll(bs)[1..] == RenderAll(bs[1..]);
    }
  }

  /** One block of the extraction loop. */
  method RecordBlock(surf: AbiSurface, block: string) returns (surf': AbiSurface)
    ensures surf' == Record(surf, Classify(block))
  {
    surf' := surf;
    if block == "" {
      return;
    }
    var m := MatchDefine(block);
    if m.Some? {
      surf' := surf.(defines := surf.defines[m.value.name := m.value.signature]);
      return;
    }
    m := MatchAggregate(block);
    if m.Some? {
      surf' := surf.(structs := surf.structs[m.value.name := m.value.signature]);
      return;
    }
    m := MatchTypedef(block);
    if m.Some? {
      surf' := surf.(typedefs := surf.typedefs[m.value.name := m.value.signature]);
      return;
    }
    var candidate := StripInlineBody(block);
    candidate := WithoutInline(candidate);
    candidate := Normalise(candidate);
    m := MatchFunction(candidate);
    if m.Some? {
      surf' := surf.(functions := surf.functions[m.value.name := m.value.signature]);
    }
  }

  method ExtractSurface(text: string) returns (surf: AbiSurface)
    ensures surf == SurfaceOf(text)
  {
    surf := EMPTY;
    var cleaned := StripComments(text);
    cleaned := UnwrapNamespaces(cleaned);
    var blocks := JoinLogicalBlocks(cleaned);
    NormaliseRendered(BlocksOf(cleaned));
    NormalsAreNormalised(cleaned);
    ghost var goal := SurfaceOf(text);
    for k := 0 to |blocks|
      invariant SurfaceOfBlocks(surf, NormaliseAll(blocks[k..])) == goal
    {
      DropDrop(blocks, k, 1);
      assert NormaliseAll(blocks[k..])[1..] == NormaliseAll(blocks[k + 1..]);
      var block := Normalise(blocks[k]);
      surf := RecordBlock(surf, block);
    }
  }
}
