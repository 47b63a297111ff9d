/** The Go wrappers as objects that are updated in place, tied call by call to the steps of
    `Handles`. */
module Wrappers {
  import opened Text
  import opened Handles

  const LR_ERR_NULL := -1

  /** The C library as the wrappers see it: handles are numbered as they are made, and the log
      records how each one left Go. */
  class Library {
    var next: nat
    var log: seq<Event>

    constructor ()
      ensures next == 0 && log == []
    {
      next, log := 0, [];
    }

    /** A constructor; `made` says whether it succeeds. */
    method NewHandle(made: bool) returns (p: Option<nat>)
      modifies this`next
      ensures if made then p == Some(old(next)) && next == old(next) + 1 else p == None && next == old(next)
    {
      p := None;
      if made { p, next := Some(next), next + 1; }
    }

    method FreeHandle(h: nat)
      modifies this`log
      ensures log == old(log) + [Freed(h)]
    {
      log := log + [Freed(h)];
    }

    /** `with_tc` and `with_ttl`: the handle is taken and a new one returned. */
    method WithField(p: Option<nat>) returns (out: Option<nat>)
      modifies this
      ensures p == None ==> out == None && next == old(next) && log == old(log)
      ensures p.Some? ==> out == Some(old(next)) && next == old(next) + 1 && log == old(log) + [Took(p.value)]
    {
      if p.None? { return None; }
      log := log + [Took(p.value)];
      out, next := Some(next), next + 1;
    }

    /** `lsa_new`: the header is taken, whether or not a handle comes back. */
    method LsaFrom(header: nat, made: bool) returns (out: Option<nat>)
      modifies this
      ensures log == old(log) + [Took(header)]
      ensures if made then out == Some(old(next)) && next == old(next) + 1 else out == None && next == old(next)
    {
      log := log + [Took(header)];
      out := NewHandle(made);
    }

    /** `push`, `install`, `record_flood` and `set_auth`: the receiver is checked before the
        handle is taken, so a handle sent to a null receiver stays where no one holds it.
        `optional` says whether a null handle is an argument like any other. */
    method TakeInto(receiver: Option<nat>, p: Option<nat>, optional: bool) returns (rc: int)
      modifies this`log
      ensures log == old(log) + if p.None? then [] else [if receiver.Some? then Took(p.value) else Refused(p.value)]
      ensures rc == if receiver.None? || (p.None? && !optional) then -1 else 0
    {
      if receiver.None? {
        if p.Some? { log := log + [Refused(p.value)]; }
        return LR_ERR_NULL;
      }
      if p.None? { return if optional then 0 else LR_ERR_NULL; }
      log := log + [Took(p.value)];
      return 0;
    }
  }

  class Wrapper {
    const kind: Kind
    var ptr: Option<nat>
    var finalizer: bool

    /** A wrapper around what a C constructor returned, with its finalizer set. */
    constructor (kind: Kind, ptr: Option<nat>)
      ensures this.kind == kind && this.ptr == ptr && finalizer
    {
      this.kind, this.ptr, this.finalizer := kind, ptr, true;
    }

    function View(): Wrap
      reads this
    {
      Wrap(kind, ptr, finalizer)
    }

    method Destroy(lib: Library)
      modifies this`ptr, lib`log
      ensures ptr == None
      ensures lib.log == old(lib.log) + if old(ptr).Some? then [Freed(old(ptr).value)] else []
    {
      if ptr.Some? {
        lib.FreeHandle(ptr.value);
        ptr := None;
      }
    }

    method Free(lib: Library)
      modifies this, lib`log
      ensures ptr == None && !finalizer
      ensures lib.log == old(lib.log) + if old(ptr).Some? then [Freed(old(ptr).value)] else []
    {
      finalizer := false;
      Destroy(lib);
    }

    /** The wrapper gives its handle up for the new one. */
    method With(lib: Library) returns (out: Wrapper?)
      modifies this, lib
      ensures ptr == None && !finalizer
      ensures old(ptr) == None ==> out == null && lib.next == old(lib.next) && lib.log == old(lib.log)
      ensures old(ptr).Some? ==>
        && out != null && fresh(out) && out.View() == Wrap(Label, Some(old(lib.next)), true)
        && lib.next == old(lib.next) + 1 && lib.log == old(lib.log) + [Took(old(ptr).value)]
    {
      var p := ptr;
      ptr, finalizer := None, false;
      var h := lib.WithField(p);
      if h.None? { return null; }
      out := new Wrapper(Label, h);
    }

    /** `Push` and `PushBottom`. */
    method Push(lib: Library, entry: Wrapper?) returns (rc: int)
      requires entry != this
      modifies entry, lib`log
      ensures entry != null ==> entry.ptr == None && !entry.finalizer
      ensures lib.log == old(lib.log) + Sent(ptr, if entry == null then None else old(entry.ptr))
      ensures rc == 0 <==> entry != null && old(entry.ptr).Some? && ptr.Some?
    {
      if entry == null { return LR_ERR_NULL; }
      var p := entry.ptr;
      entry.ptr, entry.finalizer := None, false;
      rc := lib.TakeInto(ptr, p, false);
    }

    /** `Install` and `RecordFlood`: a nil or emptied wrapper is refused before anything changes. */
    method Deposit(lib: Library, lsa: Wrapper?) returns (rc: int)
      requires lsa != this
      modifies lsa, lib`log
      ensures lsa != null ==> if old(lsa.ptr).None? then unchanged(lsa) else lsa.ptr == None && !lsa.finalizer
      ensures lib.log == old(lib.log) + Sent(ptr, if lsa == null then None else old(lsa.ptr))
      ensures rc == 0 <==> lsa != null && old(lsa.ptr).Some? && ptr.Some?
    {
      if lsa == null || lsa.ptr.None? { return LR_ERR_NULL; }
      var p := lsa.ptr;
      lsa.ptr, lsa.finalizer := None, false;
      rc := lib.TakeInto(ptr, p, false);
    }

    /** The section's finalizer stays set, on an emptied wrapper. */
    method SetAuth(lib: Library, section: Wrapper?) returns (rc: int)
      requires section != this
      modifies section, lib`log
      ensures section != null ==> section.ptr == None && section.finalizer == old(section.finalizer)
      ensures lib.log == old(lib.log) + Sent(ptr, if section == null then None else old(section.ptr))
      ensures rc == 0 <==> ptr.Some?
    {
      var p: Option<nat> := None;
      if section != null {
        p := section.ptr;
        section.ptr := None;
      }
      rc := lib.TakeInto(ptr, p, true);
    }
  }

  /** The log entry of a handle sent to a receiver. */
  function Sent(receiver: Option<nat>, p: Option<nat>): seq<Event> {
    match p
    case None => []
    case Some(h) => [if receiver.Some? then Took(h) else Refused(h)]
  }

  /** A program's wrappers and the library behind them. */
  class Session {
    const lib: Library
    var wrappers: seq<Wrapper>

    ghost predicate Valid()
      reads this
    {
      forall i, j :: 0 <= i < j < |wrappers| ==> wrappers[i] != wrappers[j]
    }

    ghost function View(): State
      reads this, lib, wrappers
    {
      State(lib.next, lib.log,
            seq(|wrappers|, i requires 0 <= i < |wrappers| reads this, wrappers => wrappers[i].View()))
    }

    constructor ()
      ensures Valid() && View() == EMPTY && fresh(lib)
    {
      lib := new Library();
      wrappers := [];
    }

    method New(kind: Kind, made: bool, checked: bool)
      requires Valid()
      modifies this, lib
      ensures Valid() && View() == Step(old(View()), Op.New(kind, made, checked))
    {
      var p := lib.NewHandle(made);
      if p.None? && checked { return; }
      var w := new Wrapper(kind, p);
      wrappers := wrappers + [w];
    }

    method NewLsa(header: bool, made: bool)
      requires Valid()
      modifies this, lib
      ensures Valid() && View() == Step(old(View()), Op.NewLsa(header, made))
    {
      var box := lib.NewHandle(header);
      if box.None? { return; }
      var p := lib.LsaFrom(box.value, made);
      if p.None? { return; }
      var w := new Wrapper(Lsa, p);
      wrappers := wrappers + [w];
    }

    method Free(i: nat)
      requires Valid() && Legal(View(), Op.Free(i))
      modifies lib, wrappers
      ensures Valid() && View() == Step(old(View()), Op.Free(i))
    {
      wrappers[i].Free(lib);
    }

    /** The finalizer, run by the garbage collector. */
    method Finalize(i: nat)
      requires Valid() && Legal(View(), Op.Finalize(i))
      modifies lib, wrappers
      ensures Valid() && View() == Step(old(View()), Op.Finalize(i))
    {
      wrappers[i].Destroy(lib);
      wrappers[i].finalizer := false;
    }

    method With(i: nat)
      requires Valid() && Legal(View(), Op.With(i))
      modifies this, lib, wrappers
      ensures Valid() && View() == Step(old(View()), Op.With(i))
    {
      var w := wrappers[i].With(lib);
      if w != null { wrappers := wrappers + [w]; }
    }

    function Reference(arg: Option<nat>): (w: Wrapper?)
      requires arg.Some? ==> arg.value < |wrappers|
      reads this
      ensures w != null <==> arg.Some?
    {
      if arg.None? then null else wrappers[arg.value]
    }

    method Push(to: nat, arg: Option<nat>) returns (rc: int)
      requires Valid() && Legal(View(), Op.Push(to, arg))
      modifies lib, wrappers
      ensures Valid() && View() == Step(old(View()), Op.Push(to, arg))
    {
      rc := wrappers[to].Push(lib, Reference(arg));
    }

    method Install(to: nat, arg: Option<nat>) returns (rc: int)
      requires Valid() && Legal(View(), Op.Install(to, arg))
      modifies lib, wrappers
      ensures Valid() && View() == Step(old(View()), Op.Install(to, arg))
    {
      rc := wrappers[to].Deposit(lib, Reference(arg));
    }

    method RecordFlood(to: nat, arg: Option<nat>) returns (rc: int)
      requires Valid() && Legal(View(), Op.RecordFlood(to, arg))
      modifies lib, wrappers
      ensures Valid() && View() == Step(old(View()), Op.RecordFlood(to, arg))
    {
      rc := wrappers[to].Deposit(lib, Reference(arg));
    }

    method SetAuth(to: nat, arg: Option<nat>) returns (rc: int)
      requires Valid() && Legal(View(), Op.SetAuth(to, arg))
      modifies lib, wrappers
      ensures Valid() && View() == Step(old(View()), Op.SetAuth(to, arg))
    {
      rc := wrappers[to].SetAuth(lib, Reference(arg));
    }
  }
}
