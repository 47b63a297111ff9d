/** The registry through which C route iterations find their Go callbacks, under any interleaving
    of concurrent and nested iterations. */
module Registry {
  import opened Text

  /** Callbacks and routes are only compared here, so a number stands for each. */
  type Callback = nat
  type Route = nat

  // ---- the mutex-protected steps ----

  /** The counter and the map; a nil callback is registered like any other. */
  datatype Reg = Reg(count: nat, table: map<nat, Option<Callback>>)

  function Registered(r: Reg, fn: Option<Callback>): Reg {
    Reg(r.count + 1, r.table[r.count + 1 := fn])
  }

  function Released(r: Reg, idx: nat): Reg {
    r.(table := r.table - {idx})
  }

  /** A missing entry reads as a nil callback. */
  function Found(r: Reg, idx: nat): Option<Callback> {
    if idx in r.table then r.table[idx] else None
  }

  class Callbacks {
    var count: nat
    var table: map<nat, Option<Callback>>

    function View(): Reg
      reads this
    {
      Reg(count, table)
    }

    /** No index above the counter is in use. */
    ghost predicate Valid()
      reads this
    {
      forall k :: k in table ==> 1 <= k <= count
    }

    constructor ()
      ensures Valid() && View() == Reg(0, map[])
    {
      count, table := 0, map[];
    }

    method Register(fn: Option<Callback>) returns (idx: nat)
      requires Valid()
      modifies this
      ensures Valid() && View() == Registered(old(View()), fn)
      ensures idx == count && idx !in old(table)
    {
      count := count + 1;
      table := table[count := fn];
      return count;
    }

    method Release(idx: nat)
      requires Valid()
      modifies this
      ensures Valid() && View() == Released(old(View()), idx)
    {
      table := table - {idx};
    }

    method Lookup(idx: nat) returns (fn: Option<Callback>)
      ensures fn == Found(View(), idx)
    {
      if idx in table { return table[idx]; }
      return None;
    }

    /** The function C calls back for each route: nonzero stops the iteration. */
    method Trampoline(route: Route, idx: nat, errs: (Callback, Route) -> bool) returns (rc: int, called: seq<Route>)
      ensures Found(View(), idx) == None ==> rc == 0 && called == []
      ensures Found(View(), idx).Some? ==>
                called == [route] && rc == if errs(Found(View(), idx).value, route) then 1 else 0
    {
      var fn := Lookup(idx);
      if fn.None? { return 0, []; }
      return if errs(fn.value, route) then 1 else 0, [route];
    }

    /** The C side of an iteration: the routes in table order, until a nonzero answer. */
    method Walk(rs: seq<Route>, idx: nat, errs: (Callback, Route) -> bool) returns (rc: int, called: seq<Route>)
      ensures called == Heard(rs, Found(View(), idx), errs)
      ensures rc == if Halted(rs, Found(View(), idx), errs) then 1 else 0
    {
      rc, called := 0, [];
      var i := 0;
      assert rs[0..] == rs;
      while i < |rs| && rc == 0
        invariant 0 <= i <= |rs| && (rc == 0 || rc == 1)
        invariant called + (if rc == 0 then Heard(rs[i..], Found(View(), idx), errs) else [])
             == Heard(rs, Found(View(), idx), errs)
        invariant Halted(rs, Found(View(), idx), errs) <==> rc == 1 || Halted(rs[i..], Found(View(), idx), errs)
      {
        var c;
        rc, c := Trampoline(rs[i], idx, errs);
        DropDrop(rs, i, 1);
        Assoc(called, c, if rc == 0 then Heard(rs[i + 1..], Found(View(), idx), errs) else []);
        called, i := called + c, i + 1;
      }
    }

    /** One iteration with nothing else running: register, let C walk the routes, release. A
        null table is refused by C, and the callback is released all the same. */
    method IterCommon(routes: Option<seq<Route>>, fn: Option<Callback>, errs: (Callback, Route) -> bool)
      returns (rc: int, called: seq<Route>)
      requires Valid()
      modifies this
      ensures Valid() && table == old(table) && count == old(count) + 1
      ensures called == if routes.None? then [] else Heard(routes.value, fn, errs)
      ensures rc == if routes.None? then -1 else if Halted(routes.value, fn, errs) then 1 else 0
    {
      rc, called := -1, [];
      var idx := Register(fn);
      if routes.Some? { rc, called := Walk(routes.value, idx, errs); }
      Release(idx);
    }
  }

  /** The routes a callback hears of: up to and including the first it rejects; a nil callback
      hears of none and rejects none. */
  function Heard(rs: seq<Route>, fn: Option<Callback>, errs: (Callback, Route) -> bool): seq<Route> {
    if fn.None? || rs == [] then []
    else if errs(fn.value, rs[0]) then [rs[0]]
    else [rs[0]] + Heard(rs[1..], fn, errs)
  }

  predicate Halted(rs: seq<Route>, fn: Option<Callback>, errs: (Callback, Route) -> bool) {
    fn.Some? && rs != [] && (errs(fn.value, rs[0]) || Halted(rs[1..], fn, errs))
  }

  /** They are a prefix of the table's routes, all of it when none is rejected; otherwise its
      last route is the only rejected one. */
  lemma {:induction false} HeardFacts(rs: seq<Route>, fn: Callback, errs: (Callback, Route) -> bool)
    ensures var v := Heard(rs, Some(fn), errs);
            && v <= rs
            && (forall i :: 0 <= i < |v| - 1 ==> !errs(fn, v[i]))
            && if Halted(rs, Some(fn), errs) then v != [] && errs(fn, v[|v| - 1])
               else v == rs && (v != [] ==> !errs(fn, v[|v| - 1]))
  {
    if rs != [] && !errs(fn, rs[0]) {
      HeardFacts(rs[1..], fn, errs);
      var v := Heard(rs, Some(fn), errs);
      assert v[1..] == Heard(rs[1..], Some(fn), errs);
      assert forall i :: 1 <= i < |v| ==> v[i] == v[1..][i - 1];
    }
  }

  // ---- interleavings ----

  /** An iteration in progress: its index and callback, the routes C still has to visit, the
      routes its callback was called with, and whether its callback is running now. */
  datatype Frame = Frame(idx: nat, fn: Option<Callback>, routes: seq<Route>, at: nat, seen: seq<Route>, calling: bool,
                         rc: int)

  /** Each thread has a stack of iterations: a callback may start another one. */
  datatype State = State(reg: Reg, threads: seq<seq<Frame>>)

  /** What a thread does next: start an iteration, have C visit the next route, return from the
      callback with or without an error, or finish the iteration. */
  datatype Move = Begin(fn: Option<Callback>, routes: seq<Route>) | Visit | Return(err: bool) | End

  function Start(n: nat): State {
    State(Reg(0, map[]), seq(n, i => []))
  }

  function Top(s: State, t: nat): Frame
    requires t < |s.threads| && s.threads[t] != []
  {
    s.threads[t][|s.threads[t]| - 1]
  }

  predicate Idle(f: Frame) {
    !f.calling
  }

  predicate Enabled(s: State, t: nat, m: Move) {
    t < |s.threads| &&
    match m
    case Begin(_, _) => s.threads[t] == [] || Top(s, t).calling
    case Visit => s.threads[t] != [] && Idle(Top(s, t)) && Top(s, t).rc == 0 && Top(s, t).at < |Top(s, t).routes|
    case Return(_) => s.threads[t] != [] && Top(s, t).calling
    case End => s.threads[t] != [] && Idle(Top(s, t)) && (Top(s, t).rc != 0 || Top(s, t).at == |Top(s, t).routes|)
  }

  function SetTop(s: State, t: nat, f: Frame): State
    requires t < |s.threads| && s.threads[t] != []
  {
    var st := s.threads[t];
    s.(threads := s.threads[t := st[|st| - 1 := f]])
  }

  function Step(s: State, t: nat, m: Move): State
    requires Enabled(s, t, m)
  {
    match m
    case Begin(fn, routes) =>
      var f := Frame(s.reg.count + 1, fn, routes, 0, [], false, 0);
      State(Registered(s.reg, fn), s.threads[t := s.threads[t] + [f]])
    case Visit =>
      var f := Top(s, t);
      var r := f.routes[f.at];
      if Found(s.reg, f.idx).None? then SetTop(s, t, f.(at := f.at + 1))
      else SetTop(s, t, f.(at := f.at + 1, seen := f.seen + [r], calling := true))
    case Return(err) =>
      SetTop(s, t, Top(s, t).(calling := false, rc := if err then 1 else 0))
    case End =>
      var st := s.threads[t];
      State(Released(s.reg, Top(s, t).idx), s.threads[t := st[..|st| - 1]])
  }

  datatype Action = Action(thread: nat, move: Move)

  /** A run of `n` threads; moves that are not enabled do not happen. */
  function Run(n: nat, acts: seq<Action>): State {
    if acts == [] then Start(n)
    else
      var s, a := Run(n, acts[..|acts| - 1]), acts[|acts| - 1];
      if Enabled(s, a.thread, a.move) then Step(s, a.thread, a.move) else s
  }

  predicate Running(s: State, t: int, i: int) {
    0 <= t < |s.threads| && 0 <= i < |s.threads[t]|
  }

  function At(s: State, t: int, i: int): Frame
    requires Running(s, t, i)
  {
    s.threads[t][i]
  }

  /** Every running iteration finds its own callback. */
  ghost predicate FindsOwn(s: State) {
    forall t, i :: Running(s, t, i) ==>
      At(s, t, i).idx in s.reg.table && s.reg.table[At(s, t, i).idx] == At(s, t, i).fn && At(s, t, i).idx <= s.reg.count
  }

  /** Running iterations have different indexes. */
  ghost predicate Apart(s: State) {
    forall t, i, u, j :: Running(s, t, i) && Running(s, u, j) && (t != u || i != j) ==>
                           At(s, t, i).idx != At(s, u, j).idx
  }

  /** Only running iterations are registered. */
  ghost predicate OnlyRunning(s: State) {
    forall k :: k in s.reg.table ==> InUse(s, k)
  }

  ghost predicate InUse(s: State, k: nat) {
    exists t, i :: Running(s, t, i) && At(s, t, i).idx == k
  }

  /** An iteration has called its callback, and no other, with the routes visited so far. */
  predicate InOrder(f: Frame) {
    && f.at <= |f.routes|
    && f.seen == (if f.fn.Some? then f.routes[..f.at] else [])
    && (f.calling ==> f.fn.Some? && f.rc == 0 && f.at > 0)
    && (f.rc == 0 || (f.rc == 1 && f.fn.Some? && f.at > 0))
  }

  ghost predicate AllInOrder(s: State) {
    forall t, i :: Running(s, t, i) ==> InOrder(At(s, t, i))
  }

  ghost predicate Inv(s: State) {
    FindsOwn(s) && Apart(s) && OnlyRunning(s) && AllInOrder(s)
  }

  lemma StillInUse(s: State, r: State, k: nat, t: int, i: int)
    requires InUse(s, k) && !(Running(s, t, i) && At(s, t, i).idx == k)
    requires forall u, j :: Running(s, u, j) && (u != t || j != i) ==>
                              Running(r, u, j) && At(r, u, j).idx == At(s, u, j).idx
    ensures InUse(r, k)
  {
    var u, j :| Running(s, u, j) && At(s, u, j).idx == k;
    assert Running(r, u, j) && At(r, u, j).idx == k;
  }

  /** A change to the top frame that keeps its index and callback. */
  lemma SetTopKeeps(s: State, t: nat, f: Frame)
    requires Inv(s) && t < |s.threads| && s.threads[t] != []
    requires f.idx == Top(s, t).idx && f.fn == Top(s, t).fn && InOrder(f)
    ensures Inv(SetTop(s, t, f))
  {
    var r := SetTop(s, t, f);
    assert forall u, j :: Running(r, u, j) <==> Running(s, u, j);
    assert forall u, j :: Running(s, u, j) ==> At(r, u, j).idx == At(s, u, j).idx && At(r, u, j).fn == At(s, u, j).fn;
    forall k | k in r.reg.table ensures InUse(r, k) { StillInUse(s, r, k, -1, 0); }
  }

  /** The frames after a new one, `f`, was put on thread `t`. */
  ghost predicate Grown(s: State, r: State, t: nat, n: nat, f: Frame) {
    && Running(r, t, n) && At(r, t, n) == f && !Running(s, t, n)
    && (forall u, j :: Running(s, u, j) ==> Running(r, u, j) && At(r, u, j) == At(s, u, j))
    && (forall u, j :: Running(r, u, j) ==> (u == t && j == n) || Running(s, u, j))
  }

  lemma BeginGrows(s: State, t: nat, fn: Option<Callback>, routes: seq<Route>)
    requires Enabled(s, t, Begin(fn, routes))
    ensures Grown(s, Step(s, t, Begin(fn, routes)), t, |s.threads[t]|,
                  Frame(s.reg.count + 1, fn, routes, 0, [], false, 0))
  {
  }

  lemma GrownIsApart(s: State, r: State, t: nat, n: nat, f: Frame)
    requires FindsOwn(s) && Apart(s) && Grown(s, r, t, n, f) && f.idx > s.reg.count
    ensures Apart(r)
  {
  }

  lemma BeginKeeps(s: State, t: nat, fn: Option<Callback>, routes: seq<Route>)
    requires Inv(s) && Enabled(s, t, Begin(fn, routes))
    ensures Inv(Step(s, t, Begin(fn, routes)))
  {
    var r, n, f := Step(s, t, Begin(fn, routes)), |s.threads[t]|, Frame(s.reg.count + 1, fn, routes, 0, [], false, 0);
    BeginGrows(s, t, fn, routes);
    GrownIsApart(s, r, t, n, f);
    GrownIsUsed(s, r, t, n, f);
  }

  lemma GrownIsUsed(s: State, r: State, t: nat, n: nat, f: Frame)
    requires OnlyRunning(s) && Grown(s, r, t, n, f) && r.reg.table.Keys == s.reg.table.Keys + {f.idx}
    ensures OnlyRunning(r)
  {
    forall k | k in r.reg.table ensures InUse(r, k) {
      if k != f.idx { StillInUse(s, r, k, -1, 0); }
    }
  }

  lemma EndKeeps(s: State, t: nat)
    requires Inv(s) && Enabled(s, t, End)
    ensures Inv(Step(s, t, End))
  {
    var r, n := Step(s, t, End), |s.threads[t]| - 1;
    EndShrinks(s, t);
    forall k | k in r.reg.table ensures InUse(r, k) { StillInUse(s, r, k, t, n); }
  }

  lemma EndShrinks(s: State, t: nat)
    requires Enabled(s, t, End)
    ensures var r, n := Step(s, t, End), |s.threads[t]| - 1;
            && (forall u, j :: Running(r, u, j) <==> Running(s, u, j) && (u != t || j != n))
            && (forall u, j :: Running(r, u, j) ==> At(r, u, j) == At(s, u, j))
            && Running(s, t, n) && At(s, t, n) == Top(s, t)
  {
  }

  lemma StepKeeps(s: State, t: nat, m: Move)
    requires Inv(s) && Enabled(s, t, m)
    ensures Inv(Step(s, t, m))
  {
    match m
    case Begin(fn, routes) => BeginKeeps(s, t, fn, routes);
    case End => EndKeeps(s, t);
    case Visit =>
      var f := Top(s, t);
      assert Running(s, t, |s.threads[t]| - 1) && At(s, t, |s.threads[t]| - 1) == f;
      assert f.routes[..f.at + 1] == f.routes[..f.at] + [f.routes[f.at]];
      SetTopKeeps(s, t, if f.fn.None? then f.(at := f.at + 1)
                        else f.(at := f.at + 1, seen := f.seen + [f.routes[f.at]], calling := true));
    case Return(err) =>
      var f := Top(s, t);
      assert Running(s, t, |s.threads[t]| - 1) && At(s, t, |s.threads[t]| - 1) == f;
      SetTopKeeps(s, t, f.(calling := false, rc := if err then 1 else 0));
  }

  /** Under any interleaving of any number of threads: every running iteration's index looks up
      its own callback, no two share an index, nothing else is registered, and each callback
      hears of its own table's routes in order. */
  lemma {:induction false} RunKeeps(n: nat, acts: seq<Action>)
    ensures Inv(Run(n, acts))
  {
    if acts != [] {
      var s, a := Run(n, acts[..|acts| - 1]), acts[|acts| - 1];
      RunKeeps(n, acts[..|acts| - 1]);
      if Enabled(s, a.thread, a.move) { StepKeeps(s, a.thread, a.move); }
    }
  }

  /** The registry is empty exactly when no iteration is running. */
  lemma EmptyWhenAllReturned(n: nat, acts: seq<Action>)
    ensures var s := Run(n, acts); s.reg.table == map[] <==> forall t :: 0 <= t < |s.threads| ==> s.threads[t] == []
  {
    var s := Run(n, acts);
    RunKeeps(n, acts);
    if forall t :: 0 <= t < |s.threads| ==> s.threads[t] == [] {
      assert forall k :: !InUse(s, k);
      assert s.reg.table.Keys == {};
    } else {
      var t :| 0 <= t < |s.threads| && s.threads[t] != [];
      assert Running(s, t, 0) && At(s, t, 0).idx in s.reg.table;
    }
  }

  /** The indexes given out in a run, in order. */
  function Issued(n: nat, acts: seq<Action>): seq<nat> {
    if acts == [] then []
    else
      var init, a := acts[..|acts| - 1], acts[|acts| - 1];
      var s := Run(n, init);
      Issued(n, init)
      + if a.move.Begin? && Enabled(s, a.thread, a.move) then [Top(Step(s, a.thread, a.move), a.thread).idx] else []
  }

  /** Indexes are never reused, not even after release. */
  lemma {:induction false} NeverReused(n: nat, acts: seq<Action>)
    ensures var given := Issued(n, acts);
            |given| == Run(n, acts).reg.count && forall i :: 0 <= i < |given| ==> given[i] == i + 1
  {
    if acts != [] { NeverReused(n, acts[..|acts| - 1]); }
  }

  // ---- interleaved iterations do what they would do alone ----

  /** The callback of a running iteration has accepted all it heard of, but for the last route
      when that one is still with it or was rejected. */
  predicate Judged(errs: (Callback, Route) -> bool, f: Frame) {
    f.fn.Some? ==>
      && (forall i :: 0 <= i < |f.seen| - (if f.calling || f.rc != 0 then 1 else 0) ==> !errs(f.fn.value, f.seen[i]))
      && (f.rc != 0 ==> f.seen != [] && errs(f.fn.value, f.seen[|f.seen| - 1]))
  }

  ghost predicate AllJudged(errs: (Callback, Route) -> bool, s: State) {
    forall t, i :: Running(s, t, i) ==> Judged(errs, At(s, t, i))
  }

  /** A callback returns an error exactly for the routes it rejects. */
  predicate Answers(errs: (Callback, Route) -> bool, s: State, a: Action) {
    a.move.Return? && Enabled(s, a.thread, a.move) ==>
      var f := Top(s, a.thread);
      f.fn.Some? && f.seen != [] && a.move.err == errs(f.fn.value, f.seen[|f.seen| - 1])
  }

  ghost predicate Behaved(errs: (Callback, Route) -> bool, n: nat, acts: seq<Action>) {
    forall k :: 0 <= k < |acts| ==> Answers(errs, Run(n, acts[..k]), acts[k])
  }

  lemma SetTopJudged(errs: (Callback, Route) -> bool, s: State, t: nat, f: Frame)
    requires AllJudged(errs, s) && t < |s.threads| && s.threads[t] != [] && Judged(errs, f)
    ensures AllJudged(errs, SetTop(s, t, f))
  {
    var r := SetTop(s, t, f);
    forall u, j | Running(r, u, j) ensures Judged(errs, At(r, u, j)) {
      if u != t || j != |r.threads[t]| - 1 { assert Running(s, u, j) && At(r, u, j) == At(s, u, j); }
    }
  }

  lemma BeginJudged(errs: (Callback, Route) -> bool, s: State, t: nat, fn: Option<Callback>, routes: seq<Route>)
    requires AllJudged(errs, s) && Enabled(s, t, Begin(fn, routes))
    ensures AllJudged(errs, Step(s, t, Begin(fn, routes)))
  {
    BeginGrows(s, t, fn, routes);
  }

  lemma EndJudged(errs: (Callback, Route) -> bool, s: State, t: nat)
    requires AllJudged(errs, s) && Enabled(s, t, End)
    ensures AllJudged(errs, Step(s, t, End))
  {
    var r := Step(s, t, End);
    forall u, j | Running(r, u, j) ensures Judged(errs, At(r, u, j)) {
      assert Running(s, u, j) && At(r, u, j) == At(s, u, j);
    }
  }

  lemma StepJudged(errs: (Callback, Route) -> bool, s: State, a: Action)
    requires AllInOrder(s) && FindsOwn(s) && AllJudged(errs, s) && Enabled(s, a.thread, a.move) && Answers(errs, s, a)
    ensures AllJudged(errs, Step(s, a.thread, a.move))
  {
    var t := a.thread;
    match a.move
    case Begin(fn, routes) => BeginJudged(errs, s, t, fn, routes);
    case End => EndJudged(errs, s, t);
    case Visit =>
      TopIs(errs, s, t);
      var f := Top(s, t);
      SetTopJudged(errs, s, t, f.(at := f.at + 1));
      SetTopJudged(errs, s, t, f.(at := f.at + 1, seen := f.seen + [f.routes[f.at]], calling := true));
    case Return(err) =>
      TopIs(errs, s, t);
      SetTopJudged(errs, s, t, Top(s, t).(calling := false, rc := if err then 1 else 0));
  }

  lemma {:induction false} RunJudged(errs: (Callback, Route) -> bool, n: nat, acts: seq<Action>)
    requires Behaved(errs, n, acts)
    ensures AllJudged(errs, Run(n, acts))
  {
    if acts != [] {
      var init, a := acts[..|acts| - 1], acts[|acts| - 1];
      assert forall k :: 0 <= k < |init| ==> init[..k] == acts[..k] && init[k] == acts[k];
      RunJudged(errs, n, init);
      RunKeeps(n, init);
      if Enabled(Run(n, init), a.thread, a.move) { StepJudged(errs, Run(n, init), a); }
    }
  }

  lemma {:induction false} HeardIs(rs: seq<Route>, k: nat, fn: Callback, errs: (Callback, Route) -> bool, stop: bool)
    requires k <= |rs| && if stop then k > 0 && errs(fn, rs[k - 1]) else k == |rs|
    requires forall i :: 0 <= i < k - (if stop then 1 else 0) ==> !errs(fn, rs[i])
    ensures Heard(rs, Some(fn), errs) == rs[..k] && (Halted(rs, Some(fn), errs) <==> stop)
  {
    if k > 0 {
      if stop && k == 1 {
        assert rs[..1] == [rs[0]];
      } else {
        assert forall i :: 0 <= i < k - 1 ==> rs[1..][i] == rs[i + 1];
        HeardIs(rs[1..], k - 1, fn, errs, stop);
        assert rs[..k] == [rs[0]] + rs[1..][..k - 1];
      }
    }
  }

  lemma FrameAsAlone(errs: (Callback, Route) -> bool, f: Frame)
    requires InOrder(f) && Judged(errs, f) && Idle(f) && (f.rc != 0 || f.at == |f.routes|)
    ensures f.seen == Heard(f.routes, f.fn, errs) && f.rc == if Halted(f.routes, f.fn, errs) then 1 else 0
  {
    if f.fn.Some? {
      assert forall i :: 0 <= i < |f.seen| ==> f.seen[i] == f.routes[i];
      HeardIs(f.routes, f.at, f.fn.value, errs, f.rc != 0);
    }
  }

  lemma TopIs(errs: (Callback, Route) -> bool, s: State, t: nat)
    requires AllInOrder(s) && AllJudged(errs, s) && t < |s.threads| && s.threads[t] != []
    ensures InOrder(Top(s, t)) && Judged(errs, Top(s, t))
  {
    assert Running(s, t, |s.threads[t]| - 1) && At(s, t, |s.threads[t]| - 1) == Top(s, t);
  }

  /** An iteration about to finish, whatever ran beside it or inside it, has called its callback
      with the same routes and has the same result as an iteration that runs alone. */
  lemma FinishesAsAlone(errs: (Callback, Route) -> bool, n: nat, acts: seq<Action>, t: nat)
    requires Behaved(errs, n, acts) && Enabled(Run(n, acts), t, End)
    ensures var f := Top(Run(n, acts), t);
            f.seen == Heard(f.routes, f.fn, errs) && f.rc == if Halted(f.routes, f.fn, errs) then 1 else 0
  {
    RunKeeps(n, acts);
    RunJudged(errs, n, acts);
    TopIs(errs, Run(n, acts), t);
    FrameAsAlone(errs, Top(Run(n, acts), t));
  }

  // ---- iterations get to their end ----

  /** A thread with a running iteration can go on in exactly one way: its callback returns, with
      or without an error, or C visits the next route, or the iteration finishes. */
  lemma NeverStuck(n: nat, acts: seq<Action>, t: nat)
    requires var s := Run(n, acts); t < |s.threads| && s.threads[t] != []
    ensures var s := Run(n, acts); var f := s.threads[t][|s.threads[t]| - 1];
            && (Enabled(s, t, Return(true)) <==> f.calling) && (Enabled(s, t, Return(false)) <==> f.calling)
            && (Enabled(s, t, Visit) <==> !f.calling && f.rc == 0 && f.at < |f.routes|)
            && (Enabled(s, t, End) <==> !f.calling && (f.rc != 0 || f.at == |f.routes|))
            && (Enabled(s, t, Return(true)) || Enabled(s, t, Visit) || Enabled(s, t, End))
  {
    RunKeeps(n, acts);
    NotStuck(Run(n, acts), t);
  }

  lemma NotStuck(s: State, t: nat)
    requires AllInOrder(s) && t < |s.threads| && s.threads[t] != []
    ensures var f := s.threads[t][|s.threads[t]| - 1];
            && (Enabled(s, t, Return(true)) <==> f.calling) && (Enabled(s, t, Return(false)) <==> f.calling)
            && (Enabled(s, t, Visit) <==> !f.calling && f.rc == 0 && f.at < |f.routes|)
            && (Enabled(s, t, End) <==> !f.calling && (f.rc != 0 || f.at == |f.routes|))
            && (Enabled(s, t, Return(true)) || Enabled(s, t, Visit) || Enabled(s, t, End))
  {
    assert Running(s, t, |s.threads[t]| - 1) && InOrder(At(s, t, |s.threads[t]| - 1));
  }

  /** The moves of thread `t`. */
  function On(t: nat, ms: seq<Move>): seq<Action> {
    if ms == [] then [] else [Action(t, ms[0])] + On(t, ms[1..])
  }

  /** The moves by which the routes `rs` are visited, as long as none is rejected. */
  function Visits(fn: Option<Callback>, rs: seq<Route>, errs: (Callback, Route) -> bool): seq<Move> {
    if rs == [] then []
    else if fn.None? then [Visit] + Visits(fn, rs[1..], errs)
    else if errs(fn.value, rs[0]) then [Visit, Return(true)]
    else [Visit, Return(false)] + Visits(fn, rs[1..], errs)
  }

  /** The moves done one after the other; those that are not enabled do not happen. */
  function Perform(s: State, t: nat, ms: seq<Move>): State
    decreases ms
  {
    if ms == [] then s else Perform(if Enabled(s, t, ms[0]) then Step(s, t, ms[0]) else s, t, ms[1..])
  }

  lemma {:induction false} RunOn(n: nat, acts: seq<Action>, t: nat, ms: seq<Move>)
    ensures Run(n, acts + On(t, ms)) == Perform(Run(n, acts), t, ms)
    decreases ms
  {
    if ms == [] {
      assert acts + On(t, ms) == acts;
    } else {
      RunOneMore(n, acts, Action(t, ms[0]));
      Assoc(acts, [Action(t, ms[0])], On(t, ms[1..]));
      RunOn(n, acts + [Action(t, ms[0])], t, ms[1..]);
    }
  }

  lemma RunOneMore(n: nat, acts: seq<Action>, a: Action)
    ensures var s := Run(n, acts);
            Run(n, acts + [a]) == if Enabled(s, a.thread, a.move) then Step(s, a.thread, a.move) else s
  {
    assert (acts + [a])[..|acts|] == acts;
  }

  lemma {:induction false} PerformConcat(s: State, t: nat, a: seq<Move>, b: seq<Move>)
    ensures Perform(s, t, a + b) == Perform(Perform(s, t, a), t, b)
    decreases a
  {
    if a == [] {
      assert a + b == b;
    } else {
      assert (a + b)[1..] == a[1..] + b;
      PerformConcat(if Enabled(s, t, a[0]) then Step(s, t, a[0]) else s, t, a[1..], b);
    }
  }

  lemma PerformTwo(s: State, t: nat, a: Move, b: Move)
    requires Enabled(s, t, a) && Enabled(Step(s, t, a), t, b)
    ensures Perform(s, t, [a, b]) == Step(Step(s, t, a), t, b)
  {
    assert [a, b][1..] == [b];
    PerformOne(Step(s, t, a), t, b);
  }

  lemma PerformOne(s: State, t: nat, a: Move)
    requires Enabled(s, t, a)
    ensures Perform(s, t, [a]) == Step(s, t, a)
  {
    assert [a][1..] == [];
  }

  /** The thread's top iteration stands before the routes `rs` and finds its callback. */
  predicate Before(s: State, t: nat, f: Frame, rs: seq<Route>) {
    && t < |s.threads| && s.threads[t] != [] && Top(s, t) == f && f.idx in s.reg.table && s.reg.table[f.idx] == f.fn
    && !f.calling && f.rc == 0 && f.at <= |f.routes| && f.routes[f.at..] == rs
  }

  lemma SetTopTwice(s: State, t: nat, f: Frame, g: Frame)
    requires t < |s.threads| && s.threads[t] != []
    ensures SetTop(SetTop(s, t, f), t, g) == SetTop(s, t, g) && Top(SetTop(s, t, f), t) == f
  {
    var st := s.threads[t];
    assert st[|st| - 1 := f][|st| - 1 := g] == st[|st| - 1 := g];
    assert s.threads[t := st[|st| - 1 := f]][t := st[|st| - 1 := g]] == s.threads[t := st[|st| - 1 := g]];
  }

  lemma SetTopSame(s: State, t: nat)
    requires t < |s.threads| && s.threads[t] != []
    ensures SetTop(s, t, Top(s, t)) == s
  {
    var st := s.threads[t];
    assert st[|st| - 1 := Top(s, t)] == st && s.threads[t := st] == s.threads;
  }

  /** One route visited: a nil callback is not called, any other is and answers. */
  lemma VisitOne(s: State, t: nat, f: Frame, rs: seq<Route>, err: bool)
    requires Before(s, t, f, rs) && rs != []
    ensures f.fn.None? ==> Perform(s, t, [Visit]) == SetTop(s, t, f.(at := f.at + 1))
    ensures f.fn.Some? ==>
              Perform(s, t, [Visit, Return(err)])
              == SetTop(s, t, f.(at := f.at + 1, seen := f.seen + [rs[0]], rc := if err then 1 else 0))
  {
    assert f.routes[f.at] == rs[0];
    if f.fn.None? {
      PerformOne(s, t, Visit);
    } else {
      var g := f.(at := f.at + 1, seen := f.seen + [rs[0]], calling := true);
      SetTopTwice(s, t, g, g.(calling := false, rc := if err then 1 else 0));
      PerformTwo(s, t, Visit, Return(err));
    }
  }

  lemma BeforeRest(s: State, t: nat, f: Frame, rs: seq<Route>, seen: seq<Route>)
    requires Before(s, t, f, rs) && rs != []
    ensures var g := f.(at := f.at + 1, seen := seen); Before(SetTop(s, t, g), t, g, rs[1..])
  {
    DropDrop(f.routes, f.at, 1);
    SetTopTwice(s, t, f.(at := f.at + 1, seen := seen), f);
  }

  /** The frame of an iteration that has visited all it is going to visit. */
  predicate Visited(g: Frame, f: Frame, rs: seq<Route>, errs: (Callback, Route) -> bool) {
    && g.idx == f.idx && g.fn == f.fn && g.routes == f.routes && g.seen == f.seen + Heard(rs, f.fn, errs)
    && !g.calling && g.rc == (if Halted(rs, f.fn, errs) then 1 else 0) && (g.rc != 0 || g.at == |g.routes|)
  }

  lemma {:induction false} VisitAll(s: State, t: nat, f: Frame, rs: seq<Route>, errs: (Callback, Route) -> bool)
    returns (g: Frame)
    requires Before(s, t, f, rs)
    ensures Visited(g, f, rs, errs) && Perform(s, t, Visits(f.fn, rs, errs)) == SetTop(s, t, g)
    decreases rs
  {
    if rs == [] {
      g := f;
      SetTopSame(s, t);
      assert f.seen + [] == f.seen;
    } else {
      var err := f.fn.Some? && errs(f.fn.value, rs[0]);
      VisitOne(s, t, f, rs, err);
      if err {
        g := f.(at := f.at + 1, seen := f.seen + [rs[0]], rc := 1);
      } else {
        g := VisitMore(s, t, f, rs, errs);
      }
    }
  }

  lemma VisitMore(s: State, t: nat, f: Frame, rs: seq<Route>, errs: (Callback, Route) -> bool) returns (g: Frame)
    requires Before(s, t, f, rs) && rs != [] && (f.fn.Some? ==> !errs(f.fn.value, rs[0]))
    ensures Visited(g, f, rs, errs) && Perform(s, t, Visits(f.fn, rs, errs)) == SetTop(s, t, g)
    decreases rs, 0
  {
    var one := if f.fn.None? then [Visit] else [Visit, Return(false)];
    var now := if f.fn.None? then f.seen else f.seen + [rs[0]];
    var h := f.(at := f.at + 1, seen := now);
    VisitOne(s, t, f, rs, false);
    BeforeRest(s, t, f, rs, now);
    g := VisitAll(SetTop(s, t, h), t, h, rs[1..], errs);
    PerformConcat(s, t, one, Visits(f.fn, rs[1..], errs));
    SetTopTwice(s, t, h, g);
    if f.fn.Some? { Assoc(f.seen, [rs[0]], Heard(rs[1..], f.fn, errs)); }
  }

  /** Where a thread may start an iteration: outside every iteration, or inside a callback. */
  predicate MayBegin(s: State, t: nat) {
    t < |s.threads| && (s.threads[t] == [] || s.threads[t][|s.threads[t]| - 1].calling)
  }

  /** A new iteration of thread `t` before its first visit. */
  function Opened(s: State, t: nat, f: Frame): State
    requires t < |s.threads|
  {
    State(Reg(s.reg.count + 1, s.reg.table[s.reg.count + 1 := f.fn]), s.threads[t := s.threads[t] + [f]])
  }

  lemma BeginOpens(s: State, t: nat, fn: Option<Callback>, routes: seq<Route>)
    requires MayBegin(s, t)
    ensures var f := Frame(s.reg.count + 1, fn, routes, 0, [], false, 0);
            Perform(s, t, [Begin(fn, routes)]) == Opened(s, t, f) && Before(Opened(s, t, f), t, f, routes)
  {
    PerformOne(s, t, Begin(fn, routes));
    assert routes[0..] == routes;
  }

  lemma EndCloses(s: State, t: nat, g: Frame)
    requires t < |s.threads| && g.idx == s.reg.count + 1 && s.reg.count + 1 !in s.reg.table
    requires !g.calling && (g.rc != 0 || g.at == |g.routes|)
    ensures Perform(Opened(s, t, g), t, [End]) == State(Reg(s.reg.count + 1, s.reg.table), s.threads)
  {
    var o := Opened(s, t, g);
    var st := o.threads[t];
    PerformOne(o, t, End);
    assert st[..|st| - 1] == s.threads[t];
    assert o.threads[t := s.threads[t]] == s.threads;
    assert o.reg.table - {s.reg.count + 1} == s.reg.table;
  }

  lemma SetTopOpened(s: State, t: nat, f: Frame, g: Frame)
    requires t < |s.threads| && f.fn == g.fn
    ensures SetTop(Opened(s, t, f), t, g) == Opened(s, t, g)
  {
    var st := s.threads[t] + [f];
    assert st[|st| - 1 := g] == s.threads[t] + [g];
    assert s.threads[t := st][t := s.threads[t] + [g]] == s.threads[t := s.threads[t] + [g]];
  }

  lemma NextIsFree(s: State)
    requires Inv(s)
    ensures s.reg.count + 1 !in s.reg.table
  {
    assert s.reg.count + 1 in s.reg.table ==> InUse(s, s.reg.count + 1);
  }

  /** From any reachable state a thread that is outside every iteration, or inside a callback, can
      iterate on its own, whatever the callback, the routes and the answers are. Before it ends it
      has called the callback with the routes a lone iteration would, in order, and has its result;
      afterwards its index is released and everything else is as it was. */
  lemma IterationCompletes(n: nat, acts: seq<Action>, t: nat, fn: Option<Callback>, routes: seq<Route>,
                           errs: (Callback, Route) -> bool)
    returns (g: Frame)
    requires MayBegin(Run(n, acts), t)
    ensures var s, walk := Run(n, acts), [Begin(fn, routes)] + Visits(fn, routes, errs);
            && Run(n, acts + On(t, walk)) == Opened(s, t, g)
            && Run(n, acts + On(t, walk + [End])) == State(Reg(s.reg.count + 1, s.reg.table), s.threads)
    ensures g.idx == Run(n, acts).reg.count + 1 && g.fn == fn && g.routes == routes && !g.calling
    ensures g.seen == Heard(routes, fn, errs) && g.rc == if Halted(routes, fn, errs) then 1 else 0
  {
    var s := Run(n, acts);
    var f := Frame(s.reg.count + 1, fn, routes, 0, [], false, 0);
    var walk := [Begin(fn, routes)] + Visits(fn, routes, errs);
    BeginOpens(s, t, fn, routes);
    g := VisitAll(Opened(s, t, f), t, f, routes, errs);
    assert [] + Heard(routes, fn, errs) == Heard(routes, fn, errs);
    PerformConcat(s, t, [Begin(fn, routes)], Visits(fn, routes, errs));
    SetTopOpened(s, t, f, g);
    RunOn(n, acts, t, walk);
    RunKeeps(n, acts);
    NextIsFree(s);
    EndCloses(s, t, g);
    PerformConcat(s, t, walk, [End]);
    RunOn(n, acts, t, walk + [End]);
  }

  /** What is left when the top iteration of thread `t` is over. */
  function Closed(s: State, t: nat): State
    requires t < |s.threads| && s.threads[t] != []
  {
    State(Reg(s.reg.count, s.reg.table - {Top(s, t).idx}), s.threads[t := s.threads[t][..|s.threads[t]| - 1]])
  }

  lemma EndOf(s: State, t: nat, g: Frame)
    requires t < |s.threads| && s.threads[t] != [] && g.idx == Top(s, t).idx
    requires !g.calling && (g.rc != 0 || g.at == |g.routes|)
    ensures Perform(SetTop(s, t, g), t, [End]) == Closed(s, t)
  {
    var o := SetTop(s, t, g);
    var st := s.threads[t];
    PerformOne(o, t, End);
    assert o.threads[t][..|st| - 1] == st[..|st| - 1];
    assert o.threads[t := st[..|st| - 1]] == s.threads[t := st[..|st| - 1]];
  }

  lemma FinishFrom(s: State, t: nat, f: Frame, errs: (Callback, Route) -> bool) returns (ms: seq<Move>)
    requires t < |s.threads| && s.threads[t] != [] && Top(s, t) == f && f.idx in s.reg.table
    requires s.reg.table[f.idx] == f.fn && !f.calling && f.at <= |f.routes|
    ensures Perform(s, t, ms) == Closed(s, t)
  {
    if f.rc != 0 {
      ms := [End];
      SetTopSame(s, t);
      EndOf(s, t, f);
    } else {
      var visits := Visits(f.fn, f.routes[f.at..], errs);
      var g := VisitAll(s, t, f, f.routes[f.at..], errs);
      ms := visits + [End];
      PerformConcat(s, t, visits, [End]);
      EndOf(s, t, g);
    }
  }

  /** Every running iteration can get to its end on its own, whatever its callback answers: its
      index is released, and the iteration it was started from goes on. */
  lemma RunningFinishes(n: nat, acts: seq<Action>, t: nat, err: bool, errs: (Callback, Route) -> bool)
    returns (ms: seq<Move>)
    requires var s := Run(n, acts); t < |s.threads| && s.threads[t] != []
    ensures Run(n, acts + On(t, ms)) == Closed(Run(n, acts), t)
  {
    var s := Run(n, acts);
    var f := Top(s, t);
    RunKeeps(n, acts);
    assert Running(s, t, |s.threads[t]| - 1) && At(s, t, |s.threads[t]| - 1) == f;
    if f.calling {
      var g := f.(calling := false, rc := if err then 1 else 0);
      PerformOne(s, t, Return(err));
      SetTopTwice(s, t, g, g);
      var more := FinishFrom(SetTop(s, t, g), t, g, errs);
      ms := [Return(err)] + more;
      PerformConcat(s, t, [Return(err)], more);
      ClosedAfter(s, t, g);
    } else {
      ms := FinishFrom(s, t, f, errs);
    }
    RunOn(n, acts, t, ms);
  }

  lemma ClosedAfter(s: State, t: nat, g: Frame)
    requires t < |s.threads| && s.threads[t] != [] && g.idx == Top(s, t).idx
    ensures Closed(SetTop(s, t, g), t) == Closed(s, t)
  {
    var o, st := SetTop(s, t, g), s.threads[t];
    assert o.threads[t][..|st| - 1] == st[..|st| - 1];
    assert o.threads[t := st[..|st| - 1]] == s.threads[t := st[..|st| - 1]];
  }
}
