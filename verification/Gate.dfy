/** The freeze gate: comparing two ABI surfaces and the verdict. */
module Gate {
  import opened Text
  import opened Surface

  // ---- what acceptance means ----

  ghost predicate Extends(base: Table, head: Table) {
    forall k :: k in base ==> k in head && head[k] == base[k]
  }

  ghost predicate Grows(base: AbiSurface, head: AbiSurface) {
    && Extends(base.defines, head.defines) && Extends(base.typedefs, head.typedefs)
    && Extends(base.structs, head.structs) && Extends(base.functions, head.functions)
  }

  // ---- the comparison ----

  /** The order of strings, character by character. */
  predicate Before(a: string, b: string) {
    b != [] && (a == [] || a[0] < b[0] || (a[0] == b[0] && Before(a[1..], b[1..])))
  }

  lemma {:induction false} BeforeTotal(a: string, b: string)
    ensures a == b || Before(a, b) || Before(b, a)
    ensures !(Before(a, b) && Before(b, a)) && !Before(a, a)
  {
    if a != [] { BeforeTotal(a[1..], if b == [] then [] else b[1..]); }
    if a != [] && b != [] {
      assert a == [a[0]] + a[1..] && b == [b[0]] + b[1..];
    }
  }

  lemma {:induction false} BeforeTransitive(a: string, b: string, c: string)
    requires Before(a, b) && Before(b, c)
    ensures Before(a, c)
  {
    if a != [] && a[0] == b[0] == c[0] { BeforeTransitive(a[1..], b[1..], c[1..]); }
  }

  predicate Increasing(ks: seq<string>) {
    forall i, j :: 0 <= i < j < |ks| ==> Before(ks[i], ks[j])
  }

  /** The first name of a set. */
  method Least(names: set<string>) returns (m: string)
    requires names != {}
    ensures m in names && forall k :: k in names && k != m ==> Before(m, k)
  {
    m :| m in names;
    var todo := names - {m};
    while todo != {}
      invariant m in names && todo <= names && m !in todo
      invariant forall k :: k in names && k !in todo && k != m ==> Before(m, k)
      decreases |todo|
    {
      var k :| k in todo;
      todo := todo - {k};
      BeforeTotal(m, k);
      if Before(k, m) {
        forall j | j in names && j !in todo && j != k && j != m ensures Before(k, j) { BeforeTransitive(k, m, j); }
        m := k;
      }
    }
  }

  method Sorted(names: set<string>) returns (ks: seq<string>)
    ensures Increasing(ks) && forall k :: k in ks <==> k in names
  {
    ks := [];
    var todo := names;
    while todo != {}
      invariant todo <= names && Increasing(ks)
      invariant forall k :: k in ks <==> k in names && k !in todo
      invariant forall i, k :: 0 <= i < |ks| && k in todo ==> Before(ks[i], k)
      decreases |todo|
    {
      var m := Least(todo);
      todo := todo - {m};
      ks := ks + [m];
    }
  }

  datatype Change = Change(name: string, was: string, now: string)

  /** What `c` says about the two tables is so, and the signatures differ. */
  predicate IsChange(baseline: Table, head: Table, c: Change) {
    && c.name in baseline && c.name in head
    && c.was == baseline[c.name] && c.now == head[c.name] && c.was != c.now
  }

  predicate IncreasingNames(cs: seq<Change>) {
    forall i, j :: 0 <= i < j < |cs| ==> Before(cs[i].name, cs[j].name)
  }

  /** The changed names among `common`, in its order. */
  method ChangesOf(baseline: Table, head: Table, common: seq<string>) returns (changed: seq<Change>)
    requires Increasing(common) && forall k :: k in common <==> k in baseline && k in head
    ensures IncreasingNames(changed) && forall c :: c in changed <==> IsChange(baseline, head, c)
  {
    changed := [];
    for i := 0 to |common|
      invariant IncreasingNames(changed)
      invariant forall c :: c in changed <==> IsChange(baseline, head, c) && c.name in common[..i]
    {
      var k := common[i];
      assert k in common && common[..i + 1] == common[..i] + [k];
      if baseline[k] != head[k] {
        LaterThanChanged(baseline, head, common, i, changed);
        changed := changed + [Change(k, baseline[k], head[k])];
      }
    }
    assert common[..|common|] == common;
  }

  lemma LaterThanChanged(baseline: Table, head: Table, common: seq<string>, i: nat, changed: seq<Change>)
    requires Increasing(common) && i < |common|
    requires forall c :: c in changed ==> IsChange(baseline, head, c) && c.name in common[..i]
    ensures forall j :: 0 <= j < |changed| ==> Before(changed[j].name, common[i])
  {
    forall j | 0 <= j < |changed| ensures Before(changed[j].name, common[i]) {
      assert changed[j] in changed;
    }
  }

  /** The removed and the changed names, each list in order. */
  method DiffSurface(baseline: Table, head: Table) returns (removed: seq<string>, changed: seq<Change>)
    ensures Increasing(removed) && forall k :: k in removed <==> k in baseline && k !in head
    ensures IncreasingNames(changed) && forall c :: c in changed <==> IsChange(baseline, head, c)
    ensures |removed| + |changed| == 0 <==> Extends(baseline, head)
  {
    removed := Sorted(baseline.Keys - head.Keys);
    var common := Sorted(baseline.Keys * head.Keys);
    changed := ChangesOf(baseline, head, common);
    NothingReported(baseline, head, removed, changed);
  }

  lemma NothingReported(baseline: Table, head: Table, removed: seq<string>, changed: seq<Change>)
    requires forall k :: k in removed <==> k in baseline && k !in head
    requires forall c :: c in changed <==> IsChange(baseline, head, c)
    ensures |removed| + |changed| == 0 <==> Extends(baseline, head)
  {
    if |removed| + |changed| == 0 {
      forall k | k in baseline ensures k in head && head[k] == baseline[k] {
        assert k !in removed;
        assert k in head && Change(k, baseline[k], head[k]) !in changed;
      }
    } else if removed != [] {
      assert removed[0] in removed;
    } else {
      assert changed[0] in changed;
    }
  }

  ghost predicate ExtendAll(bases: seq<Table>, heads: seq<Table>)
    requires |bases| == |heads|
  {
    if bases == [] then true else Extends(bases[0], heads[0]) && ExtendAll(bases[1..], heads[1..])
  }

  lemma {:induction false} ExtendAllSnoc(bases: seq<Table>, heads: seq<Table>, i: nat)
    requires |bases| == |heads| && i < |bases|
    ensures ExtendAll(bases[..i + 1], heads[..i + 1])
       <==> ExtendAll(bases[..i], heads[..i]) && Extends(bases[i], heads[i])
    decreases i
  {
    if i > 0 {
      ExtendAllSnoc(bases[1..], heads[1..], i - 1);
      assert bases[..i + 1][1..] == bases[1..][..i] && heads[..i + 1][1..] == heads[1..][..i];
      assert bases[..i][1..] == bases[1..][..i - 1] && heads[..i][1..] == heads[1..][..i - 1];
    }
  }

  lemma ExtendCons(bases: seq<Table>, heads: seq<Table>, b: Table, h: Table, bs: seq<Table>, hs: seq<Table>)
    requires |bs| == |hs| && bases == [b] + bs && heads == [h] + hs
    ensures ExtendAll(bases, heads) <==> Extends(b, h) && ExtendAll(bs, hs)
  {
    assert bases[1..] == bs && heads[1..] == hs;
  }

  lemma ExtendFour(b: AbiSurface, h: AbiSurface)
    ensures ExtendAll([b.defines, b.typedefs, b.structs, b.functions], [h.defines, h.typedefs, h.structs, h.functions])
       <==> Grows(b, h)
  {
    var b1, h1 := [b.functions], [h.functions];
    var b2, h2 := [b.structs, b.functions], [h.structs, h.functions];
    var b3, h3 := [b.typedefs, b.structs, b.functions], [h.typedefs, h.structs, h.functions];
    ExtendCons(b1, h1, b.functions, h.functions, [], []);
    ExtendCons(b2, h2, b.structs, h.structs, b1, h1);
    ExtendCons(b3, h3, b.typedefs, h.typedefs, b2, h2);
    ExtendCons([b.defines, b.typedefs, b.structs, b.functions], [h.defines, h.typedefs, h.structs, h.functions],
               b.defines, h.defines, b3, h3);
  }

  /** How many names are reported over the tables of all kinds. */
  method CountReported(bases: seq<Table>, heads: seq<Table>) returns (total: nat)
    requires |bases| == |heads|
    ensures total == 0 <==> ExtendAll(bases, heads)
  {
    total := 0;
    for i := 0 to |bases|
      invariant total == 0 <==> ExtendAll(bases[..i], heads[..i])
    {
      var removed, changed := DiffSurface(bases[i], heads[i]);
      total := total + |removed| + |changed|;
      ExtendAllSnoc(bases, heads, i);
    }
    assert bases[..|bases|] == bases && heads[..|heads|] == heads;
  }

  /** The exit code of the gate: 0 when nothing was removed or changed, or when the baseline
      has no content at all; 1 otherwise. */
  method Verdict(baseline: AbiSurface, head: AbiSurface) returns (code: int)
    ensures code == 0 || code == 1
    ensures code == 0 <==> baseline == EMPTY || Grows(baseline, head)
  {
    if && baseline.defines == map[] && baseline.typedefs == map[]
       && baseline.structs == map[] && baseline.functions == map[] {
      return 0;
    }
    var total := CountReported([baseline.defines, baseline.typedefs, baseline.structs, baseline.functions],
                               [head.defines, head.typedefs, head.structs, head.functions]);
    ExtendFour(baseline, head);
    code := if total == 0 then 0 else 1;
  }

  ghost predicate Accepts(baseline: AbiSurface, head: AbiSurface) {
    baseline == EMPTY || Grows(baseline, head)
  }

  /** A chain of accepted releases is accepted end to end. */
  lemma {:induction false} AcceptsChain(releases: seq<AbiSurface>)
    requires releases != []
    requires forall i, j :: 0 <= i < j < |releases| && j == i + 1 ==> Accepts(releases[i], releases[j])
    ensures Accepts(releases[0], releases[|releases| - 1])
  {
    if |releases| > 1 {
      var rest := releases[1..];
      assert forall i, j :: 0 <= i < j < |rest| && j == i + 1 ==>
                releases[i + 1] == rest[i] && releases[j + 1] == rest[j];
      AcceptsChain(rest);
      assert Accepts(releases[0], releases[1]);
    }
  }

  // ---- merging surfaces ----

  function Merge(a: AbiSurface, b: AbiSurface): AbiSurface {
    AbiSurface(a.defines + b.defines, a.typedefs + b.typedefs, a.structs + b.structs, a.functions + b.functions)
  }

  /** No name of `b` is a name of `a`, kind by kind. */
  ghost predicate Apart(a: AbiSurface, b: AbiSurface) {
    && a.defines.Keys !! b.defines.Keys && a.typedefs.Keys !! b.typedefs.Keys
    && a.structs.Keys !! b.structs.Keys && a.functions.Keys !! b.functions.Keys
  }

  lemma {:induction false} BlocksMerge(surf: AbiSurface, blocks: seq<string>)
    ensures SurfaceOfBlocks(surf, blocks) == Merge(surf, SurfaceOfBlocks(EMPTY, blocks))
    decreases blocks
  {
    if blocks == [] {
      RecordIsMerge(surf, None);
    } else {
      var e := Classify(blocks[0]);
      BlocksMerge(Record(surf, e), blocks[1..]);
      BlocksMerge(Record(EMPTY, e), blocks[1..]);
      RecordIsMerge(surf, e);
      MergeAssoc(surf, Record(EMPTY, e), SurfaceOfBlocks(EMPTY, blocks[1..]));
    }
  }

  lemma TableAssoc(a: Table, b: Table, c: Table)
    ensures (a + b) + c == a + (b + c)
  {
  }

  lemma MergeAssoc(a: AbiSurface, b: AbiSurface, c: AbiSurface)
    ensures Merge(Merge(a, b), c) == Merge(a, Merge(b, c))
  {
    TableAssoc(a.defines, b.defines, c.defines);
    TableAssoc(a.typedefs, b.typedefs, c.typedefs);
    TableAssoc(a.structs, b.structs, c.structs);
    TableAssoc(a.functions, b.functions, c.functions);
  }

  lemma TablePut(t: Table, k: string, v: string)
    ensures t[k := v] == t + map[][k := v]
  {
  }

  lemma MergeEmpty(surf: AbiSurface)
    ensures Merge(surf, EMPTY) == surf
  {
    assert forall t: Table :: t + map[] == t;
  }

  lemma RecordIsMerge(surf: AbiSurface, e: Option<Entry>)
    ensures Record(surf, e) == Merge(surf, Record(EMPTY, e))
  {
    MergeEmpty(surf);
    match e
    case None =>
    case Some(Entry(kind, k, v)) =>
      match kind
      case Define => TablePut(surf.defines, k, v);
      case Typedef => TablePut(surf.typedefs, k, v);
      case Aggregate => TablePut(surf.structs, k, v);
      case Function => TablePut(surf.functions, k, v);
  }

  lemma TableSwap(a: Table, x: Table, b: Table)
    requires (a + b).Keys !! x.Keys
    ensures (a + x) + b == (a + b) + x
    ensures Extends(a + b, (a + b) + x)
  {
  }

  lemma MergeSwap(a: AbiSurface, x: AbiSurface, b: AbiSurface)
    requires Apart(Merge(a, b), x)
    ensures Merge(Merge(a, x), b) == Merge(Merge(a, b), x)
    ensures Grows(Merge(a, b), Merge(Merge(a, b), x))
  {
    TableSwap(a.defines, x.defines, b.defines);
    TableSwap(a.typedefs, x.typedefs, b.typedefs);
    TableSwap(a.structs, x.structs, b.structs);
    TableSwap(a.functions, x.functions, b.functions);
  }

  lemma {:induction false} BlocksConcat(surf: AbiSurface, a: seq<string>, b: seq<string>)
    ensures SurfaceOfBlocks(surf, a + b) == SurfaceOfBlocks(SurfaceOfBlocks(surf, a), b)
    decreases a
  {
    if a == [] {
      assert a + b == b;
    } else {
      DropConcat(a, b, 1);
      BlocksConcat(Record(surf, Classify(a[0])), a[1..], b);
    }
  }

  /** Blocks whose names are all new, put anywhere among the others, only add to the
      surface. */
  lemma InsertedBlocks(a: seq<string>, x: seq<string>, b: seq<string>)
    requires Apart(SurfaceOfBlocks(EMPTY, a + b), SurfaceOfBlocks(EMPTY, x))
    ensures SurfaceOfBlocks(EMPTY, a + (x + b)) == Merge(SurfaceOfBlocks(EMPTY, a + b), SurfaceOfBlocks(EMPTY, x))
    ensures Grows(SurfaceOfBlocks(EMPTY, a + b), SurfaceOfBlocks(EMPTY, a + (x + b)))
  {
    var sa, sx, sb := SurfaceOfBlocks(EMPTY, a), SurfaceOfBlocks(EMPTY, x), SurfaceOfBlocks(EMPTY, b);
    BlocksConcat(EMPTY, a, b);
    BlocksMerge(sa, b);
    BlocksConcat(EMPTY, a, x + b);
    BlocksConcat(sa, x, b);
    BlocksMerge(sa, x);
    BlocksMerge(Merge(sa, sx), b);
    MergeSwap(sa, sx, sb);
  }

  lemma ApartParts(a: AbiSurface, b: AbiSurface, x: AbiSurface)
    requires Apart(Merge(a, b), x)
    ensures Apart(a, x) && Apart(b, x)
  {
    var m := Merge(a, b);
    assert m.defines.Keys == a.defines.Keys + b.defines.Keys;
    assert m.typedefs.Keys == a.typedefs.Keys + b.typedefs.Keys;
    assert m.structs.Keys == a.structs.Keys + b.structs.Keys;
    assert m.functions.Keys == a.functions.Keys + b.functions.Keys;
  }

  /** Growth of either of two merged surfaces by new names is growth of the merge. */
  lemma EitherGrows(a: AbiSurface, b: AbiSurface, x: AbiSurface)
    requires Apart(Merge(a, b), x)
    ensures Grows(Merge(a, b), Merge(Merge(a, x), b)) && Grows(Merge(a, b), Merge(a, Merge(b, x)))
  {
    MergeSwap(a, x, b);
    MergeAssoc(a, b, x);
  }

  // ---- what the gate reports ----

  function TableOf(surf: AbiSurface, kind: Kind): Table {
    match kind
    case Define => surf.defines
    case Typedef => surf.typedefs
    case Aggregate => surf.structs
    case Function => surf.functions
  }

  lemma MergeOf(a: AbiSurface, b: AbiSurface, kind: Kind)
    ensures TableOf(Merge(a, b), kind) == TableOf(a, kind) + TableOf(b, kind)
  {
  }

  lemma RecordOf(surf: AbiSurface, e: Entry)
    ensures TableOf(Record(surf, Some(e)), e.kind) == TableOf(surf, e.kind)[e.name := e.signature]
  {
  }

  /** A block's entry stands in the surface unless a later block of its kind overrides it. */
  lemma EntryStands(a: seq<string>, s: string, b: seq<string>, e: Entry)
    requires Classify(s) == Some(e) && e.name !in TableOf(SurfaceOfBlocks(EMPTY, b), e.kind)
    ensures var t := TableOf(SurfaceOfBlocks(EMPTY, a + ([s] + b)), e.kind); e.name in t && t[e.name] == e.signature
  {
    var sa := SurfaceOfBlocks(EMPTY, a);
    BlocksConcat(EMPTY, a, [s] + b);
    assert ([s] + b)[1..] == b;
    BlocksMerge(Record(sa, Some(e)), b);
    MergeOf(Record(sa, Some(e)), SurfaceOfBlocks(EMPTY, b), e.kind);
    RecordOf(sa, e);
  }

  lemma SameEntry(a: seq<string>, s: string, t: string, b: seq<string>)
    requires Classify(s) == Classify(t)
    ensures SurfaceOfBlocks(EMPTY, a + ([s] + b)) == SurfaceOfBlocks(EMPTY, a + ([t] + b))
  {
    BlocksConcat(EMPTY, a, [s] + b);
    BlocksConcat(EMPTY, a, [t] + b);
    assert ([s] + b)[1..] == b && ([t] + b)[1..] == b;
  }

  lemma AcceptedKeeps(base: AbiSurface, head: AbiSurface, kind: Kind, name: string)
    requires Accepts(base, head) && name in TableOf(base, kind)
    ensures name in TableOf(head, kind) && TableOf(head, kind)[name] == TableOf(base, kind)[name]
  {
  }

  /** A symbol that is gone from the head is reported. */
  lemma RemovalIsReported(a: seq<string>, s: string, b: seq<string>, e: Entry, head: AbiSurface)
    requires Classify(s) == Some(e) && e.name !in TableOf(SurfaceOfBlocks(EMPTY, b), e.kind)
    requires e.name !in TableOf(head, e.kind)
    ensures !Accepts(SurfaceOfBlocks(EMPTY, a + ([s] + b)), head)
  {
    EntryStands(a, s, b, e);
    if Accepts(SurfaceOfBlocks(EMPTY, a + ([s] + b)), head) {
      AcceptedKeeps(SurfaceOfBlocks(EMPTY, a + ([s] + b)), head, e.kind, e.name);
    }
  }

  /** A block replaced by one of the same kind and name is accepted exactly when the signature
      did not change. */
  lemma ChangeIsReported(a: seq<string>, s: string, t: string, b: seq<string>, e: Entry, g: Entry)
    requires Classify(s) == Some(e) && Classify(t) == Some(g) && e.kind == g.kind && e.name == g.name
    requires e.name !in TableOf(SurfaceOfBlocks(EMPTY, b), e.kind)
    ensures Accepts(SurfaceOfBlocks(EMPTY, a + ([s] + b)), SurfaceOfBlocks(EMPTY, a + ([t] + b)))
       <==> e.signature == g.signature
  {
    EntryStands(a, s, b, e);
    EntryStands(a, t, b, g);
    if Accepts(SurfaceOfBlocks(EMPTY, a + ([s] + b)), SurfaceOfBlocks(EMPTY, a + ([t] + b))) {
      AcceptedKeeps(SurfaceOfBlocks(EMPTY, a + ([s] + b)), SurfaceOfBlocks(EMPTY, a + ([t] + b)), e.kind, e.name);
    }
    if e.signature == g.signature { SameEntry(a, s, t, b); }
  }

  // ---- exactly what one edited block does ----

  /** The head answers `name` as the baseline did, if the baseline answered it at all. */
  ghost predicate SameAnswer(base: AbiSurface, head: AbiSurface, kind: Kind, name: string) {
    name in TableOf(base, kind) ==>
      name in TableOf(head, kind) && TableOf(head, kind)[name] == TableOf(base, kind)[name]
  }

  /** The name an entry is about, if there is one, is answered as before. */
  ghost predicate Kept(base: AbiSurface, head: AbiSurface, e: Option<Entry>) {
    e.Some? ==> SameAnswer(base, head, e.value.kind, e.value.name)
  }

  predicate About(e: Option<Entry>, kind: Kind, name: string) {
    e.Some? && e.value.kind == kind && e.value.name == name
  }

  lemma AcceptsByAnswers(base: AbiSurface, head: AbiSurface)
    ensures Accepts(base, head) <==> forall kind, name :: SameAnswer(base, head, kind, name)
  {
    if forall kind, name :: SameAnswer(base, head, kind, name) {
      forall k | k in base.defines ensures k in head.defines && head.defines[k] == base.defines[k] {
        assert SameAnswer(base, head, Define, k);
      }
      forall k | k in base.typedefs ensures k in head.typedefs && head.typedefs[k] == base.typedefs[k] {
        assert SameAnswer(base, head, Typedef, k);
      }
      forall k | k in base.structs ensures k in head.structs && head.structs[k] == base.structs[k] {
        assert SameAnswer(base, head, Aggregate, k);
      }
      forall k | k in base.functions ensures k in head.functions && head.functions[k] == base.functions[k] {
        assert SameAnswer(base, head, Function, k);
      }
    }
  }

  lemma RecordOther(surf: AbiSurface, e: Option<Entry>, kind: Kind, name: string)
    requires !About(e, kind, name)
    ensures var t, r := TableOf(surf, kind), TableOf(Record(surf, e), kind);
            (name in r <==> name in t) && (name in t ==> r[name] == t[name])
  {
  }

  lemma OtherAnswers(sa: AbiSurface, e: Option<Entry>, g: Option<Entry>, sb: AbiSurface, kind: Kind, name: string)
    requires !About(e, kind, name) && !About(g, kind, name)
    ensures SameAnswer(Merge(Record(sa, e), sb), Merge(Record(sa, g), sb), kind, name)
  {
    RecordOther(sa, e, kind, name);
    RecordOther(sa, g, kind, name);
    MergeOf(Record(sa, e), sb, kind);
    MergeOf(Record(sa, g), sb, kind);
  }

  lemma EditedEntry(sa: AbiSurface, e: Option<Entry>, g: Option<Entry>, sb: AbiSurface)
    ensures var u, v := Merge(Record(sa, e), sb), Merge(Record(sa, g), sb);
            Accepts(u, v) <==> Kept(u, v, e) && Kept(u, v, g)
  {
    var u, v := Merge(Record(sa, e), sb), Merge(Record(sa, g), sb);
    AcceptsByAnswers(u, v);
    forall kind, name | !About(e, kind, name) && !About(g, kind, name) ensures SameAnswer(u, v, kind, name) {
      OtherAnswers(sa, e, g, sb, kind, name);
    }
  }

  lemma BlocksAround(a: seq<string>, s: string, b: seq<string>)
    ensures SurfaceOfBlocks(EMPTY, a + ([s] + b))
         == Merge(Record(SurfaceOfBlocks(EMPTY, a), Classify(s)), SurfaceOfBlocks(EMPTY, b))
  {
    BlocksConcat(EMPTY, a, [s] + b);
    assert ([s] + b)[1..] == b;
    BlocksMerge(Record(SurfaceOfBlocks(EMPTY, a), Classify(s)), b);
  }

  lemma BlocksBeside(a: seq<string>, b: seq<string>)
    ensures SurfaceOfBlocks(EMPTY, a + b) == Merge(Record(SurfaceOfBlocks(EMPTY, a), None), SurfaceOfBlocks(EMPTY, b))
  {
    BlocksConcat(EMPTY, a, b);
    BlocksMerge(SurfaceOfBlocks(EMPTY, a), b);
  }

  /** Rewriting a block is accepted exactly when the name it was about and the name it is
      about now are answered as before. */
  lemma RewrittenBlock(a: seq<string>, s: string, t: string, b: seq<string>)
    ensures var u, v := SurfaceOfBlocks(EMPTY, a + ([s] + b)), SurfaceOfBlocks(EMPTY, a + ([t] + b));
            Accepts(u, v) <==> Kept(u, v, Classify(s)) && Kept(u, v, Classify(t))
  {
    BlocksAround(a, s, b);
    BlocksAround(a, t, b);
    EditedEntry(SurfaceOfBlocks(EMPTY, a), Classify(s), Classify(t), SurfaceOfBlocks(EMPTY, b));
  }

  /** Removing a block is accepted exactly when it has no entry or the other blocks answer
      its name as before; without an entry not even the surface changes. */
  lemma RemovedBlock(a: seq<string>, s: string, b: seq<string>)
    ensures var u, v := SurfaceOfBlocks(EMPTY, a + ([s] + b)), SurfaceOfBlocks(EMPTY, a + b);
            (Accepts(u, v) <==> Kept(u, v, Classify(s))) && (Classify(s).None? ==> u == v)
  {
    BlocksAround(a, s, b);
    BlocksBeside(a, b);
    EditedEntry(SurfaceOfBlocks(EMPTY, a), Classify(s), None, SurfaceOfBlocks(EMPTY, b));
  }

  /** Adding a block is accepted exactly when it has no entry, its name was not answered, or
      the answer stays. */
  lemma AddedBlock(a: seq<string>, s: string, b: seq<string>)
    ensures var u, v := SurfaceOfBlocks(EMPTY, a + b), SurfaceOfBlocks(EMPTY, a + ([s] + b));
            Accepts(u, v) <==> Kept(u, v, Classify(s))
  {
    BlocksAround(a, s, b);
    BlocksBeside(a, b);
    EditedEntry(SurfaceOfBlocks(EMPTY, a), None, Classify(s), SurfaceOfBlocks(EMPTY, b));
  }
}
