/** Ownership of C handles by the Go wrappers: constructors, Free, finalizers, and the calls that
    hand a wrapper's handle over to the C library. A run is any sequence of such steps. */
module Handles {
  import opened Text

  datatype Kind = Label | Stack | Lsa | Lsdb | Retransmit | Packet | Section

  /** A wrapper: the handle it holds, if any, and whether a finalizer is set on it. */
  datatype Wrap = Wrap(kind: Kind, ptr: Option<nat>, finalizer: bool)

  /** How a handle leaves Go: freed, taken over by the C library, or handed to a C function that
      returned an error without taking it. */
  datatype Event = Freed(h: nat) | Took(h: nat) | Refused(h: nat)

  /** Handles below `next` have been made. */
  datatype State = State(next: nat, log: seq<Event>, wraps: seq<Wrap>)

  const EMPTY := State(0, [], [])

  /** One call from Go. Wrappers are named by their index, `None` is a nil reference.
      `New` may come back without a handle; a checked constructor then makes no wrapper.
      `NewLsa` first makes a header, which the constructor takes whether or not it succeeds. */
  datatype Op =
    | New(kind: Kind, made: bool, checked: bool)
    | NewLsa(header: bool, made: bool)
    | Free(i: nat)
    | Finalize(i: nat)
    | With(i: nat)
    | Push(to: nat, arg: Option<nat>)
    | Install(to: nat, arg: Option<nat>)
    | RecordFlood(to: nat, arg: Option<nat>)
    | SetAuth(to: nat, arg: Option<nat>)

  // ---- steps ----

  predicate Is(s: State, i: nat, k: Kind) {
    i < |s.wraps| && s.wraps[i].kind == k
  }

  predicate Accepts(s: State, to: nat, k: Kind, arg: Option<nat>, a: Kind) {
    Is(s, to, k) && (arg.Some? ==> Is(s, arg.value, a))
  }

  /** What Go's types allow. */
  predicate Legal(s: State, op: Op) {
    match op
    case New(_, _, _) => true
    case NewLsa(_, _) => true
    case Free(i) => i < |s.wraps|
    case Finalize(i) => i < |s.wraps| && s.wraps[i].finalizer
    case With(i) => Is(s, i, Label)
    case Push(to, arg) => Accepts(s, to, Stack, arg, Label)
    case Install(to, arg) => Accepts(s, to, Lsdb, arg, Lsa)
    case RecordFlood(to, arg) => Accepts(s, to, Retransmit, arg, Lsa)
    case SetAuth(to, arg) => Accepts(s, to, Packet, arg, Section)
  }

  function Make(s: State, kind: Kind): State {
    s.(next := s.next + 1, wraps := s.wraps + [Wrap(kind, Some(s.next), true)])
  }

  /** A handle is made and taken by C at once. */
  function Pass(s: State): State {
    s.(next := s.next + 1, log := s.log + [Took(s.next)])
  }

  function Disarm(s: State, i: nat): State
    requires i < |s.wraps|
  {
    s.(wraps := s.wraps[i := s.wraps[i].(finalizer := false)])
  }

  /** The wrapper gives up its handle and the handle's end is logged. */
  function Leave(s: State, i: nat, e: Event): State
    requires i < |s.wraps|
  {
    State(s.next, s.log + [e], s.wraps[i := s.wraps[i].(ptr := None)])
  }

  function Destroy(s: State, i: nat): State
    requires i < |s.wraps|
  {
    match s.wraps[i].ptr
    case None => s
    case Some(h) => Leave(s, i, Freed(h))
  }

  /** The C functions that take a handle check their receiver first. */
  function HandOver(s: State, to: nat, a: nat): State
    requires to < |s.wraps| && a < |s.wraps|
  {
    match s.wraps[a].ptr
    case None => s
    case Some(h) => Leave(s, a, if s.wraps[to].ptr.Some? then Took(h) else Refused(h))
  }

  function Step(s: State, op: Op): State
    requires Legal(s, op)
  {
    match op
    case New(kind, made, checked) =>
      if made then Make(s, kind)
      else if checked then s
      else s.(wraps := s.wraps + [Wrap(kind, None, true)])
    case NewLsa(header, made) =>
      if !header then s else if made then Make(Pass(s), Lsa) else Pass(s)
    case Free(i) => Destroy(Disarm(s, i), i)
    case Finalize(i) => Disarm(Destroy(s, i), i)
    case With(i) =>
      (match s.wraps[i].ptr
       case None => Disarm(s, i)
       case Some(h) => Make(Leave(Disarm(s, i), i, Took(h)), Label))
    case Push(to, arg) =>
      if arg.None? then s else HandOver(Disarm(s, arg.value), to, arg.value)
    case Install(to, arg) =>
      if arg.None? || s.wraps[arg.value].ptr.None? then s else HandOver(Disarm(s, arg.value), to, arg.value)
    case RecordFlood(to, arg) =>
      if arg.None? || s.wraps[arg.value].ptr.None? then s else HandOver(Disarm(s, arg.value), to, arg.value)
    case SetAuth(to, arg) =>
      if arg.None? then s else HandOver(s, to, arg.value)
  }

  /** A run; steps Go's types rule out do not happen. */
  function Run(s: State, ops: seq<Op>): State
    decreases ops
  {
    if ops == [] then s
    else
      var r := Run(s, ops[..|ops| - 1]);
      if Legal(r, ops[|ops| - 1]) then Step(r, ops[|ops| - 1]) else r
  }

  // ---- conservation ----

  function Ends(log: seq<Event>, h: nat): nat {
    if log == [] then 0 else Ends(log[..|log| - 1], h) + if log[|log| - 1].h == h then 1 else 0
  }

  function Holders(ws: seq<Wrap>, h: nat): nat {
    if ws == [] then 0 else Holders(ws[..|ws| - 1], h) + if ws[|ws| - 1].ptr == Some(h) then 1 else 0
  }

  /** Every handle made is held by one wrapper or has left Go once, and never both. */
  ghost predicate Conserved(s: State) {
    forall h: nat :: Ends(s.log, h) + Holders(s.wraps, h) == if h < s.next then 1 else 0
  }

  /** A wrapper that holds a handle has its finalizer set. */
  predicate Armed(s: State) {
    forall i :: 0 <= i < |s.wraps| && s.wraps[i].ptr.Some? ==> s.wraps[i].finalizer
  }

  lemma EndsSnoc(log: seq<Event>, e: Event, h: nat)
    ensures Ends(log + [e], h) == Ends(log, h) + if e.h == h then 1 else 0
  {
    assert (log + [e])[..|log|] == log;
  }

  lemma HoldersSnoc(ws: seq<Wrap>, w: Wrap, h: nat)
    ensures Holders(ws + [w], h) == Holders(ws, h) + if w.ptr == Some(h) then 1 else 0
  {
    assert (ws + [w])[..|ws|] == ws;
  }

  lemma {:induction false} HoldersUpdate(ws: seq<Wrap>, i: nat, w: Wrap, h: nat)
    requires i < |ws|
    ensures Holders(ws[i := w], h) + (if ws[i].ptr == Some(h) then 1 else 0)
         == Holders(ws, h) + (if w.ptr == Some(h) then 1 else 0)
  {
    var n := |ws| - 1;
    if i == n {
      assert ws[i := w][..n] == ws[..n];
    } else {
      assert ws[i := w][..n] == ws[..n][i := w];
      HoldersUpdate(ws[..n], i, w, h);
    }
  }

  lemma MakeConserves(s: State, kind: Kind)
    requires Conserved(s)
    ensures Conserved(Make(s, kind))
  {
    forall h: nat ensures var t := Make(s, kind); Ends(t.log, h) + Holders(t.wraps, h) == if h < t.next then 1 else 0 {
      HoldersSnoc(s.wraps, Wrap(kind, Some(s.next), true), h);
    }
  }

  lemma PassConserves(s: State)
    requires Conserved(s)
    ensures Conserved(Pass(s))
  {
    forall h: nat ensures var t := Pass(s); Ends(t.log, h) + Holders(t.wraps, h) == if h < t.next then 1 else 0 {
      EndsSnoc(s.log, Took(s.next), h);
    }
  }

  lemma NullConserves(s: State, kind: Kind)
    requires Conserved(s)
    ensures Conserved(s.(wraps := s.wraps + [Wrap(kind, None, true)]))
  {
    forall h: nat ensures Holders(s.wraps + [Wrap(kind, None, true)], h) == Holders(s.wraps, h) {
      HoldersSnoc(s.wraps, Wrap(kind, None, true), h);
    }
  }

  lemma DisarmConserves(s: State, i: nat)
    requires Conserved(s) && i < |s.wraps|
    ensures Conserved(Disarm(s, i))
  {
    forall h: nat ensures Holders(Disarm(s, i).wraps, h) == Holders(s.wraps, h) {
      HoldersUpdate(s.wraps, i, s.wraps[i].(finalizer := false), h);
    }
  }

  lemma LeaveConserves(s: State, i: nat, e: Event)
    requires Conserved(s) && i < |s.wraps| && s.wraps[i].ptr == Some(e.h)
    ensures Conserved(Leave(s, i, e))
  {
    forall h: nat ensures var t := Leave(s, i, e); Ends(t.log, h) + Holders(t.wraps, h) == if h < t.next then 1 else 0 {
      EndsSnoc(s.log, e, h);
      HoldersUpdate(s.wraps, i, s.wraps[i].(ptr := None), h);
    }
  }

  lemma HandOverConserves(s: State, to: nat, a: nat)
    requires Conserved(s) && to < |s.wraps| && a < |s.wraps|
    ensures Conserved(HandOver(s, to, a))
  {
    if s.wraps[a].ptr.Some? {
      var h := s.wraps[a].ptr.value;
      LeaveConserves(s, a, if s.wraps[to].ptr.Some? then Took(h) else Refused(h));
    }
  }

  lemma DestroyConserves(s: State, i: nat)
    requires Conserved(s) && i < |s.wraps|
    ensures Conserved(Destroy(s, i))
  {
    if s.wraps[i].ptr.Some? { LeaveConserves(s, i, Freed(s.wraps[i].ptr.value)); }
  }

  lemma StepConserves(s: State, op: Op)
    requires Conserved(s) && Legal(s, op)
    ensures Conserved(Step(s, op))
  {
    match op
    case New(kind, made, checked) =>
      MakeConserves(s, kind);
      NullConserves(s, kind);
    case NewLsa(header, made) =>
      PassConserves(s);
      MakeConserves(Pass(s), Lsa);
    case Free(i) =>
      DisarmConserves(s, i);
      DestroyConserves(Disarm(s, i), i);
    case Finalize(i) =>
      DestroyConserves(s, i);
      DisarmConserves(Destroy(s, i), i);
    case With(i) =>
      DisarmConserves(s, i);
      if s.wraps[i].ptr.Some? {
        var e := Took(s.wraps[i].ptr.value);
        LeaveConserves(Disarm(s, i), i, e);
        MakeConserves(Leave(Disarm(s, i), i, e), Label);
      }
    case SetAuth(to, arg) =>
      if arg.Some? { HandOverConserves(s, to, arg.value); }
    case _ =>
      if op.arg.Some? {
        DisarmConserves(s, op.arg.value);
        HandOverConserves(Disarm(s, op.arg.value), op.to, op.arg.value);
      }
  }

  /** Over every run: handles are conserved, and a held handle is always covered by a finalizer. */
  lemma {:induction false} RunConserves(ops: seq<Op>)
    ensures Conserved(Run(EMPTY, ops)) && Armed(Run(EMPTY, ops))
  {
    if ops != [] {
      var init, op := ops[..|ops| - 1], ops[|ops| - 1];
      RunConserves(init);
      if Legal(Run(EMPTY, init), op) { StepConserves(Run(EMPTY, init), op); }
    }
  }

  // ---- what conservation means for callers ----

  lemma {:induction false} HolderCounts(ws: seq<Wrap>, i: nat, h: nat)
    requires i < |ws| && ws[i].ptr == Some(h)
    ensures Holders(ws, h) >= 1
  {
    if i < |ws| - 1 { HolderCounts(ws[..|ws| - 1], i, h); }
  }

  lemma {:induction false} TwoHoldersCount(ws: seq<Wrap>, i: nat, j: nat, h: nat)
    requires i < j < |ws| && ws[i].ptr == Some(h) && ws[j].ptr == Some(h)
    ensures Holders(ws, h) >= 2
  {
    if j < |ws| - 1 {
      TwoHoldersCount(ws[..|ws| - 1], i, j, h);
    } else {
      HolderCounts(ws[..|ws| - 1], i, h);
    }
  }

  lemma {:induction false} EndCounts(log: seq<Event>, i: nat)
    requires i < |log|
    ensures Ends(log, log[i].h) >= 1
  {
    if i < |log| - 1 { EndCounts(log[..|log| - 1], i); }
  }

  lemma {:induction false} TwoEndsCount(log: seq<Event>, i: nat, j: nat)
    requires i < j < |log| && log[i].h == log[j].h
    ensures Ends(log, log[i].h) >= 2
  {
    if j < |log| - 1 {
      TwoEndsCount(log[..|log| - 1], i, j);
    } else {
      EndCounts(log[..|log| - 1], i);
    }
  }

  /** No two wrappers hold the same handle. */
  lemma NoSharing(ops: seq<Op>, i: nat, j: nat)
    requires var s := Run(EMPTY, ops); i < j < |s.wraps| && s.wraps[i].ptr.Some?
    ensures var s := Run(EMPTY, ops); s.wraps[i].ptr != s.wraps[j].ptr
  {
    var s := Run(EMPTY, ops);
    RunConserves(ops);
    if s.wraps[i].ptr == s.wraps[j].ptr { TwoHoldersCount(s.wraps, i, j, s.wraps[i].ptr.value); }
  }

  /** A handle leaves Go at most once: no double free, no free of a handle C has taken. */
  lemma LeavesOnce(ops: seq<Op>, i: nat, j: nat)
    requires var s := Run(EMPTY, ops); i < j < |s.log|
    ensures var s := Run(EMPTY, ops); s.log[i].h != s.log[j].h
  {
    var s := Run(EMPTY, ops);
    RunConserves(ops);
    if s.log[i].h == s.log[j].h { TwoEndsCount(s.log, i, j); }
  }

  /** A wrapper never holds a handle that has left Go. */
  lemma NoDangling(ops: seq<Op>, i: nat, j: nat)
    requires var s := Run(EMPTY, ops); i < |s.wraps| && j < |s.log|
    ensures var s := Run(EMPTY, ops); s.wraps[i].ptr != Some(s.log[j].h)
  {
    var s := Run(EMPTY, ops);
    RunConserves(ops);
    EndCounts(s.log, j);
    if s.wraps[i].ptr == Some(s.log[j].h) { HolderCounts(s.wraps, i, s.log[j].h); }
  }

  // ---- what is left when every wrapper has been retired ----

  predicate Retires(op: Op, i: nat) {
    op == Free(i) || op == Finalize(i)
  }

  /** A wrapper without a handle stays without one. */
  lemma StepKeepsNil(s: State, op: Op, i: nat)
    requires Legal(s, op) && i < |s.wraps| && s.wraps[i].ptr.None?
    ensures i < |Step(s, op).wraps| && Step(s, op).wraps[i].ptr.None?
  {
  }

  lemma RetiredIsNil(s: State, op: Op, i: nat)
    requires Armed(s) && i < |s.wraps| && Retires(op, i)
    ensures var t := if Legal(s, op) then Step(s, op) else s; i < |t.wraps| && t.wraps[i].ptr.None?
  {
  }

  /** Some step of the run retires wrapper `i`, which exists by then. */
  predicate RetiredAt(ops: seq<Op>, k: int, i: nat) {
    0 <= k < |ops| && i < |Run(EMPTY, ops[..k]).wraps| && Retires(ops[k], i)
  }

  /** A wrapper retired anywhere in a run holds nothing at its end. */
  lemma {:induction false} RetiredStaysNil(ops: seq<Op>, k: nat, i: nat)
    requires RetiredAt(ops, k, i)
    ensures var s := Run(EMPTY, ops); i < |s.wraps| && s.wraps[i].ptr.None?
  {
    var init, op := ops[..|ops| - 1], ops[|ops| - 1];
    var s := Run(EMPTY, init);
    if k < |init| {
      assert init[..k] == ops[..k];
      RetiredStaysNil(init, k, i);
      if Legal(s, op) { StepKeepsNil(s, op, i); }
    } else {
      RunConserves(init);
      RetiredIsNil(s, op, i);
    }
  }

  ghost predicate Retired(ops: seq<Op>, i: nat) {
    exists k :: RetiredAt(ops, k, i)
  }

  ghost predicate AllRetired(ops: seq<Op>) {
    forall i: nat :: i < |Run(EMPTY, ops).wraps| ==> Retired(ops, i)
  }

  lemma {:induction false} NoneHeld(ws: seq<Wrap>, h: nat)
    requires forall i :: 0 <= i < |ws| ==> ws[i].ptr.None?
    ensures Holders(ws, h) == 0
  {
    if ws != [] { NoneHeld(ws[..|ws| - 1], h); }
  }

  lemma {:induction false} EndFound(log: seq<Event>, h: nat) returns (j: nat)
    requires Ends(log, h) >= 1
    ensures j < |log| && log[j].h == h
  {
    if log[|log| - 1].h == h { j := |log| - 1; } else { j := EndFound(log[..|log| - 1], h); }
  }

  // ---- which step ends a handle, and how ----

  /** `op` hands the handle `h` of its argument to its receiver. */
  predicate Hands(s: State, op: Op, h: nat) {
    && (match op
        case Push(to, arg) => Accepts(s, to, Stack, arg, Label)
        case Install(to, arg) => Accepts(s, to, Lsdb, arg, Lsa)
        case RecordFlood(to, arg) => Accepts(s, to, Retransmit, arg, Lsa)
        case SetAuth(to, arg) => Accepts(s, to, Packet, arg, Section)
        case _ => false)
    && op.arg.Some? && s.wraps[op.arg.value].ptr == Some(h)
  }

  /** `op` ends a handle this way. It is freed by `Free` or the finalizer of the wrapper that
      holds it. It is taken when a label is exchanged, when it is handed to a receiver that holds
      a handle itself, or when it is the header of an LSA. It is refused when it is handed to a
      receiver that holds none. */
  predicate Causes(s: State, op: Op, e: Event) {
    match e
    case Freed(h) =>
      || (op.Free? && op.i < |s.wraps| && s.wraps[op.i].ptr == Some(h))
      || (op.Finalize? && op.i < |s.wraps| && s.wraps[op.i].ptr == Some(h) && s.wraps[op.i].finalizer)
    case Took(h) =>
      || (op.With? && Is(s, op.i, Label) && s.wraps[op.i].ptr == Some(h))
      || (op.NewLsa? && op.header && h == s.next)
      || (Hands(s, op, h) && s.wraps[op.to].ptr.Some?)
    case Refused(h) =>
      Hands(s, op, h) && s.wraps[op.to].ptr.None?
  }

  lemma StepLogs(s: State, op: Op, e: Event)
    ensures var t := if Legal(s, op) then Step(s, op) else s;
            e in t.log <==> e in s.log || Causes(s, op, e)
  {
  }

  predicate CausedAt(ops: seq<Op>, k: int, e: Event) {
    0 <= k < |ops| && Causes(Run(EMPTY, ops[..k]), ops[k], e)
  }

  ghost predicate Caused(ops: seq<Op>, e: Event) {
    exists k :: CausedAt(ops, k, e)
  }

  lemma CausedSnoc(ops: seq<Op>, e: Event)
    requires ops != []
    ensures Caused(ops, e) <==> Caused(ops[..|ops| - 1], e) || CausedAt(ops, |ops| - 1, e)
  {
    var n := |ops| - 1;
    assert forall k :: 0 <= k < n ==> ops[..n][..k] == ops[..k];
    if Caused(ops, e) {
      var k :| CausedAt(ops, k, e);
      if k < n { assert CausedAt(ops[..n], k, e); }
    }
    if Caused(ops[..n], e) {
      var k :| CausedAt(ops[..n], k, e);
      assert CausedAt(ops, k, e);
    }
  }

  /** Over every run: a handle has been freed, taken or refused exactly when a step of the run
      did that to it. */
  lemma {:induction false} EndedIff(ops: seq<Op>, e: Event)
    ensures e in Run(EMPTY, ops).log <==> Caused(ops, e)
  {
    if ops != [] {
      EndedIff(ops[..|ops| - 1], e);
      CausedSnoc(ops, e);
      StepLogs(Run(EMPTY, ops[..|ops| - 1]), ops[|ops| - 1], e);
    }
  }

  /** The caller hands a held handle to a receiver that holds none. */
  predicate Strands(s: State, op: Op) {
    && Legal(s, op)
    && (op.Push? || op.Install? || op.RecordFlood? || op.SetAuth?)
    && op.arg.Some? && s.wraps[op.arg.value].ptr.Some? && s.wraps[op.to].ptr.None?
  }

  predicate StrandsAt(ops: seq<Op>, k: int) {
    0 <= k < |ops| && Strands(Run(EMPTY, ops[..k]), ops[k])
  }

  ghost predicate Stranding(ops: seq<Op>) {
    exists k :: StrandsAt(ops, k)
  }

  predicate HasRefusal(log: seq<Event>) {
    exists j :: 0 <= j < |log| && log[j].Refused?
  }

  lemma StepRefuses(s: State, op: Op)
    requires Legal(s, op)
    ensures HasRefusal(Step(s, op).log) <==> HasRefusal(s.log) || Strands(s, op)
  {
    var t := Step(s, op);
    assert |t.log| <= |s.log| + 1 && t.log[..|s.log|] == s.log;
    assert forall j :: 0 <= j < |s.log| ==> t.log[j] == s.log[j];
    if Strands(s, op) { assert t.log[|s.log|].Refused?; }
  }

  lemma StrandsBefore(ops: seq<Op>, n: nat, k: int)
    requires n <= |ops|
    ensures StrandsAt(ops[..n], k) <==> k < n && StrandsAt(ops, k)
  {
    if 0 <= k < n { assert ops[..n][..k] == ops[..k]; }
  }

  lemma StrandingSnoc(ops: seq<Op>)
    requires ops != []
    ensures Stranding(ops) <==> Stranding(ops[..|ops| - 1]) || StrandsAt(ops, |ops| - 1)
  {
    var n := |ops| - 1;
    if Stranding(ops) {
      var k :| StrandsAt(ops, k);
      StrandsBefore(ops, n, k);
    }
    if Stranding(ops[..n]) {
      var k :| StrandsAt(ops[..n], k);
      StrandsBefore(ops, n, k);
    }
  }

  /** A handle is lost to both sides exactly when some step of the run handed one to a receiver
      that held none: the C functions return before taking it, and Go has let go of it. */
  lemma {:induction false} RefusedIffStranded(ops: seq<Op>)
    ensures HasRefusal(Run(EMPTY, ops).log) <==> Stranding(ops)
  {
    if ops != [] {
      var s, op := Run(EMPTY, ops[..|ops| - 1]), ops[|ops| - 1];
      RefusedIffStranded(ops[..|ops| - 1]);
      StrandingSnoc(ops);
      if Legal(s, op) { StepRefuses(s, op); }
    }
  }

  /** When every wrapper has been freed or finalised, every handle ever made has left Go exactly
      once, the way a step of the run ended it: freed by `Free` or a finalizer, taken where it was
      handed over or exchanged, or refused where a step stranded it. */
  lemma AllAccountedFor(ops: seq<Op>, h: nat) returns (j: nat)
    requires AllRetired(ops) && h < Run(EMPTY, ops).next
    ensures var log := Run(EMPTY, ops).log;
            j < |log| && log[j].h == h && (forall i :: 0 <= i < |log| && log[i].h == h ==> i == j)
    ensures !Stranding(ops) ==> !Run(EMPTY, ops).log[j].Refused?
    ensures Caused(ops, Run(EMPTY, ops).log[j])
  {
    var s := Run(EMPTY, ops);
    RunConserves(ops);
    forall i: nat | i < |s.wraps| ensures s.wraps[i].ptr.None? {
      assert Retired(ops, i);
      var k :| RetiredAt(ops, k, i);
      RetiredStaysNil(ops, k, i);
    }
    NoneHeld(s.wraps, h);
    j := EndFound(s.log, h);
    forall i: nat | i < |s.log| && s.log[i].h == h ensures i == j {
      if i < j { LeavesOnce(ops, i, j); } else if j < i { LeavesOnce(ops, j, i); }
    }
    RefusedIffStranded(ops);
    EndedIff(ops, s.log[j]);
  }

  /** The failing case at its smallest: a label pushed on a stack that has been freed. */
  lemma PushOnFreedStackLosesLabel()
    ensures Run(EMPTY, [New(Stack, true, false), New(Label, true, false), Free(0), Push(0, Some(1))]).log
         == [Freed(0), Refused(1)]
  {
    var ops := [New(Stack, true, false), New(Label, true, false), Free(0), Push(0, Some(1))];
    assert ops[..3] == [New(Stack, true, false), New(Label, true, false), Free(0)];
    assert ops[..3][..2] == [New(Stack, true, false), New(Label, true, false)];
    assert ops[..3][..2][..1] == [New(Stack, true, false)];
    assert Run(EMPTY, ops[..3][..2][..1]) == State(1, [], [Wrap(Stack, Some(0), true)]);
  }

  /** The wrapper `a` holds `h`, and the receiver `to` is a wrapper of its own kind. */
  predicate Offers(s: State, to: nat, k: Kind, a: nat, kind: Kind, h: nat) {
    Is(s, to, k) && Is(s, a, kind) && s.wraps[a].ptr == Some(h)
  }

  /** The end of the handle `h` handed to `to`: taken if `to` holds one itself, else refused. */
  function EndAt(s: State, to: nat, h: nat): Event
    requires to < |s.wraps|
  {
    if s.wraps[to].ptr.Some? then Took(h) else Refused(h)
  }

  lemma TwoUpdates(ws: seq<Wrap>, i: nat, w: Wrap, v: Wrap)
    requires i < |ws|
    ensures ws[i := w][i := v] == ws[i := v]
  {
  }

  lemma HandedOver(s: State, to: nat, a: nat, h: nat)
    requires to < |s.wraps| && a < |s.wraps| && s.wraps[a].ptr == Some(h)
    ensures HandOver(s, to, a)
         == State(s.next, s.log + [EndAt(s, to, h)], s.wraps[a := Wrap(s.wraps[a].kind, None, s.wraps[a].finalizer)])
    ensures HandOver(Disarm(s, a), to, a)
         == State(s.next, s.log + [EndAt(s, to, h)], s.wraps[a := Wrap(s.wraps[a].kind, None, false)])
  {
    TwoUpdates(s.wraps, a, s.wraps[a].(finalizer := false), Wrap(s.wraps[a].kind, None, false));
  }

  /** In every state each call that hands over a handle does so: C has taken it if the receiver
      holds one, and refused it otherwise; the wrapper is empty either way, and only `SetAuth`
      leaves its finalizer as it was. Nothing else changes. */
  lemma EachCallTakes(s: State, to: nat, a: nat, h: nat)
    ensures Offers(s, to, Stack, a, Label, h) ==>
              Step(s, Push(to, Some(a)))
              == State(s.next, s.log + [EndAt(s, to, h)], s.wraps[a := Wrap(Label, None, false)])
    ensures Offers(s, to, Lsdb, a, Lsa, h) ==>
              Step(s, Install(to, Some(a)))
              == State(s.next, s.log + [EndAt(s, to, h)], s.wraps[a := Wrap(Lsa, None, false)])
    ensures Offers(s, to, Retransmit, a, Lsa, h) ==>
              Step(s, RecordFlood(to, Some(a)))
              == State(s.next, s.log + [EndAt(s, to, h)], s.wraps[a := Wrap(Lsa, None, false)])
    ensures Offers(s, to, Packet, a, Section, h) ==>
              Step(s, SetAuth(to, Some(a)))
              == State(s.next, s.log + [EndAt(s, to, h)], s.wraps[a := Wrap(Section, None, s.wraps[a].finalizer)])
  {
    if to < |s.wraps| && a < |s.wraps| && s.wraps[a].ptr == Some(h) { HandedOver(s, to, a, h); }
  }

  /** In every state `With` exchanges the handle: the old one is taken, the new one is in a new
      wrapper with a finalizer; an empty wrapper is only disarmed. */
  lemma WithExchanges(s: State, i: nat)
    requires Is(s, i, Label)
    ensures Step(s, With(i))
         == match s.wraps[i].ptr
            case None => State(s.next, s.log, s.wraps[i := Wrap(Label, None, false)])
            case Some(h) => State(s.next + 1, s.log + [Took(h)],
                                  s.wraps[i := Wrap(Label, None, false)] + [Wrap(Label, Some(s.next), true)])
  {
    TwoUpdates(s.wraps, i, s.wraps[i].(finalizer := false), Wrap(Label, None, false));
  }

  /** Which calls Go's types and the garbage collector allow, in any state. */
  lemma LegalIff(s: State, i: nat, a: nat, k: Kind, b: bool, c: bool)
    ensures Legal(s, New(k, b, c)) && Legal(s, NewLsa(b, c))
    ensures Legal(s, Free(i)) <==> i < |s.wraps|
    ensures Legal(s, Finalize(i)) <==> i < |s.wraps| && s.wraps[i].finalizer
    ensures Legal(s, With(i)) <==> i < |s.wraps| && s.wraps[i].kind == Label
    ensures Legal(s, Push(i, None)) <==> i < |s.wraps| && s.wraps[i].kind == Stack
    ensures Legal(s, Install(i, None)) <==> i < |s.wraps| && s.wraps[i].kind == Lsdb
    ensures Legal(s, RecordFlood(i, None)) <==> i < |s.wraps| && s.wraps[i].kind == Retransmit
    ensures Legal(s, SetAuth(i, None)) <==> i < |s.wraps| && s.wraps[i].kind == Packet
    ensures Legal(s, Push(i, Some(a))) <==> Legal(s, Push(i, None)) && a < |s.wraps| && s.wraps[a].kind == Label
    ensures Legal(s, Install(i, Some(a))) <==> Legal(s, Install(i, None)) && a < |s.wraps| && s.wraps[a].kind == Lsa
    ensures Legal(s, RecordFlood(i, Some(a))) <==>
              Legal(s, RecordFlood(i, None)) && a < |s.wraps| && s.wraps[a].kind == Lsa
    ensures Legal(s, SetAuth(i, Some(a))) <==> Legal(s, SetAuth(i, None)) && a < |s.wraps| && s.wraps[a].kind == Section
  {
  }

  /** In every state `Free` frees the handle the wrapper holds and disarms it. */
  lemma FreeFrees(s: State, i: nat)
    requires i < |s.wraps|
    ensures var empty := s.wraps[i := Wrap(s.wraps[i].kind, None, false)];
            && Legal(s, Free(i))
            && Step(s, Free(i)) == match s.wraps[i].ptr
                                   case None => State(s.next, s.log, empty)
                                   case Some(h) => State(s.next, s.log + [Freed(h)], empty)
  {
    TwoUpdates(s.wraps, i, s.wraps[i].(finalizer := false), Wrap(s.wraps[i].kind, None, false));
  }

  /** So does the finalizer, which runs when it is set. */
  lemma FinalizeFrees(s: State, i: nat)
    requires i < |s.wraps| && s.wraps[i].finalizer
    ensures var empty := s.wraps[i := Wrap(s.wraps[i].kind, None, false)];
            && Legal(s, Finalize(i))
            && Step(s, Finalize(i)) == match s.wraps[i].ptr
                                       case None => State(s.next, s.log, empty)
                                       case Some(h) => State(s.next, s.log + [Freed(h)], empty)
  {
    TwoUpdates(s.wraps, i, s.wraps[i].(ptr := None), Wrap(s.wraps[i].kind, None, false));
  }

  /** In every state a constructor makes a wrapper of its kind with the new handle; without one,
      a checked constructor makes none, and any other makes an empty one. */
  lemma NewMakes(s: State, kind: Kind, checked: bool)
    ensures Step(s, New(kind, true, checked)) == State(s.next + 1, s.log, s.wraps + [Wrap(kind, Some(s.next), true)])
    ensures Step(s, New(kind, false, true)) == s
    ensures Step(s, New(kind, false, false)) == State(s.next, s.log, s.wraps + [Wrap(kind, None, true)])
  {
  }

  /** Handing over a nil reference changes nothing, and neither does an LSA without a handle. */
  lemma NothingToHand(s: State, to: nat, a: nat)
    ensures Is(s, to, Stack) ==> Step(s, Push(to, None)) == s
    ensures Is(s, to, Lsdb) ==> Step(s, Install(to, None)) == s
    ensures Is(s, to, Retransmit) ==> Step(s, RecordFlood(to, None)) == s
    ensures Is(s, to, Packet) ==> Step(s, SetAuth(to, None)) == s
    ensures Is(s, to, Lsdb) && Is(s, a, Lsa) && s.wraps[a].ptr.None? ==> Step(s, Install(to, Some(a))) == s
    ensures Is(s, to, Retransmit) && Is(s, a, Lsa) && s.wraps[a].ptr.None? ==> Step(s, RecordFlood(to, Some(a))) == s
    ensures Is(s, to, Packet) && Is(s, a, Section) && s.wraps[a].ptr.None? ==> Step(s, SetAuth(to, Some(a))) == s
    ensures Is(s, to, Stack) && Is(s, a, Label) && s.wraps[a].ptr.None? ==>
              Step(s, Push(to, Some(a))) == State(s.next, s.log, s.wraps[a := Wrap(Label, None, false)])
  {
  }

  /** In every state `NewLsa` leaves only the LSA, its header having been taken, and freeing the
      LSA frees one handle; a failing constructor has taken the header too. */
  lemma NewLsaKeepsOne(s: State)
    ensures Step(s, NewLsa(true, true))
         == State(s.next + 2, s.log + [Took(s.next)], s.wraps + [Wrap(Lsa, Some(s.next + 1), true)])
    ensures Step(s, NewLsa(true, false)) == State(s.next + 1, s.log + [Took(s.next)], s.wraps)
    ensures Step(s, NewLsa(false, true)) == s && Step(s, NewLsa(false, false)) == s
    ensures Step(Step(s, NewLsa(true, true)), Free(|s.wraps|))
         == State(s.next + 2, s.log + [Took(s.next), Freed(s.next + 1)], s.wraps + [Wrap(Lsa, None, false)])
  {
    var log := s.log + [Took(s.next)];
    assert log + [Freed(s.next + 1)] == s.log + [Took(s.next), Freed(s.next + 1)];
    assert forall w, v :: (s.wraps + [w])[|s.wraps| := v] == s.wraps + [v];
  }
}
