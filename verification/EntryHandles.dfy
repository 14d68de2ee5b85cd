/** Ownership of cache entries: EntryHandle and the part of the ICache contract that it serves, in include/vkgcDefs.h. */
module EntryHandles {
  type Raw = nat
  type Variable = nat

  // ----- the contract of the cache -----

  /** The calls that the cache sees; every handle that it gives out is a new one. */
  datatype Event = Acquired(raw: Raw, mustPopulate: bool) | Populated(raw: Raw, success: bool) | Released(raw: Raw)

  /** What the contract allows next for one handle: a handle that must be populated is populated exactly once and before its
      release, and every handle is released at most once and not used afterwards. */
  datatype Status = Fresh | Held(mustPopulate: bool) | Done | Violated

  function Advance(s: Status, raw: Raw, e: Event): Status
  {
    if e.raw != raw then s
    else
      match e
      case Acquired(_, mustPopulate) => if s == Fresh then Held(mustPopulate) else Violated
      case Populated(_, _) => if s == Held(true) then Held(false) else Violated
      case Released(_) => if s == Held(false) then Done else Violated
  }

  function StatusOf(log: seq<Event>, raw: Raw): Status
  {
    if log == [] then Fresh
    else Advance(StatusOf(log[..|log| - 1], raw), raw, log[|log| - 1])
  }

  lemma StatusNext(log: seq<Event>, e: Event, raw: Raw)
    ensures StatusOf(log + [e], raw) == Advance(StatusOf(log, raw), raw, e)
  {
    assert (log + [e])[..|log|] == log;
  }

  // ----- handles as values -----

  datatype Handle = Empty | Holding(raw: Raw, mustPopulate: bool)

  /** What giving up a handle tells the cache. */
  function PutEvents(h: Handle): seq<Event>
  {
    match h
    case Empty => []
    case Holding(raw, mustPopulate) => (if mustPopulate then [Populated(raw, false)] else []) + [Released(raw)]
  }

  // ----- the class -----

  class ICache {
    var log: seq<Event>
    var next: Raw

    constructor ()
      ensures log == [] && next == 0
    {
      log := [];
      next := 0;
    }

    /** Gives out a handle. */
    method GetEntry(mustPopulate: bool) returns (rawHandle: Raw)
      modifies this
      ensures rawHandle == old(next) && next == old(next) + 1
      ensures log == old(log) + [Acquired(rawHandle, mustPopulate)]
    {
      rawHandle := next;
      next := next + 1;
      log := log + [Acquired(rawHandle, mustPopulate)];
    }

    method SetValue(rawHandle: Raw, success: bool)
      modifies this`log
      ensures log == old(log) + [Populated(rawHandle, success)]
    {
      log := log + [Populated(rawHandle, success)];
    }

    method ReleaseEntry(rawHandle: Raw)
      modifies this`log
      ensures log == old(log) + [Released(rawHandle)]
    {
      log := log + [Released(rawHandle)];
    }
  }

  class EntryHandle {
    var pCache: ICache?
    var rawHandle: Raw
    var mustPopulate: bool

    function Abstract(): Handle
      reads this
    {
      if pCache == null then Empty else Holding(rawHandle, mustPopulate)
    }

    constructor (cache: ICache, raw: Raw, must: bool)
      ensures Abstract() == Holding(raw, must) && pCache == cache
    {
      pCache := cache;
      rawHandle := raw;
      mustPopulate := must;
    }

    constructor Default()
      ensures Abstract() == Empty
    {
      pCache := null;
      rawHandle := 0;
      mustPopulate := false;
    }

    constructor Move(rhs: EntryHandle)
      modifies rhs
      ensures Abstract() == old(rhs.Abstract()) && pCache == old(rhs.pCache) && rhs.Abstract() == Empty
    {
      pCache := rhs.pCache;
      rawHandle := rhs.rawHandle;
      mustPopulate := rhs.mustPopulate;
      new;
      rhs.pCache := null;
      rhs.rawHandle := 0;
      rhs.mustPopulate := false;
    }

    /** Whatever this handle held before is forgotten. */
    method MoveAssign(rhs: EntryHandle)
      modifies this, rhs
      ensures Abstract() == old(rhs.Abstract()) && pCache == old(rhs.pCache)
      ensures rhs != this ==> rhs.Abstract() == Empty
    {
      if this != rhs {
        pCache := rhs.pCache;
        rawHandle := rhs.rawHandle;
        mustPopulate := rhs.mustPopulate;

        rhs.pCache := null;
        rhs.rawHandle := 0;
        rhs.mustPopulate := false;
      }
    }

    static method ReleaseHandle(rhs: EntryHandle)
      modifies rhs, rhs.pCache
      ensures rhs.Abstract() == Empty
      ensures old(rhs.pCache) != null ==> old(rhs.pCache).next == old(rhs.pCache.next)
      ensures old(rhs.pCache) != null ==> old(rhs.pCache).log == old(rhs.pCache.log) + PutEvents(old(rhs.Abstract()))
      ensures old(rhs.pCache) != null && old(rhs.mustPopulate) ==>
                old(rhs.pCache).log == old(rhs.pCache.log) + [Populated(old(rhs.rawHandle), false), Released(old(rhs.rawHandle))]
      ensures old(rhs.pCache) != null && !old(rhs.mustPopulate) ==>
                old(rhs.pCache).log == old(rhs.pCache.log) + [Released(old(rhs.rawHandle))]
    {
      var entryHandle := new EntryHandle.Default();
      entryHandle.pCache := rhs.pCache;
      entryHandle.rawHandle := rhs.rawHandle;
      entryHandle.mustPopulate := rhs.mustPopulate;

      rhs.pCache := null;
      rhs.rawHandle := 0;
      rhs.mustPopulate := false;

      entryHandle.Put();
    }

    predicate IsEmpty()
      reads this
      ensures IsEmpty() <==> Abstract() == Empty
    {
      pCache == null
    }

    method SetValue(success: bool)
      requires pCache != null && mustPopulate
      modifies this, pCache`log
      ensures pCache == old(pCache) && Abstract() == Holding(old(rawHandle), false)
      ensures old(pCache).log == old(pCache.log) + [Populated(old(rawHandle), success)]
    {
      mustPopulate := false;
      pCache.SetValue(rawHandle, success);
    }

    /** Also the destructor. */
    method Put()
      modifies this, pCache
      ensures Abstract() == Empty
      ensures old(pCache) != null ==> old(pCache).next == old(pCache.next)
      ensures old(pCache) != null ==> old(pCache).log == old(pCache.log) + PutEvents(old(Abstract()))
      ensures old(pCache) != null && old(mustPopulate) ==>
                old(pCache).log == old(pCache.log) + [Populated(old(rawHandle), false), Released(old(rawHandle))]
      ensures old(pCache) != null && !old(mustPopulate) ==>
                old(pCache).log == old(pCache.log) + [Released(old(rawHandle))]
    {
      if pCache == null {
        return;
      }
      if mustPopulate {
        pCache.SetValue(rawHandle, false);
      }
      pCache.ReleaseEntry(rawHandle);
      pCache := null;
      rawHandle := 0;
      mustPopulate := false;
    }
  }

  // ----- runs -----

  /** What a program does with its handle variables.  Acquire stands for GetEntry and the constructor from a raw handle. */
  datatype Operation =
    | Default(v: Variable)
    | Acquire(v: Variable, mustPopulate: bool)
    | MoveConstruct(v: Variable, from: Variable)
    | MoveAssign(v: Variable, from: Variable)
    | ReleaseHandle(from: Variable)
    | SetValue(v: Variable, success: bool)
    | Destroy(v: Variable)

  /** The live variables, what the cache has seen, the number of handles given out, and the handles that were overwritten. */
  datatype State = State(handles: map<Variable, Handle>, log: seq<Event>, next: Raw, lost: set<Raw>)

  const INITIAL := State(map[], [], 0, {})

  /** New variables are constructed, live ones are used, and only a handle that must be populated is. */
  predicate Enabled(s: State, op: Operation)
  {
    match op
    case Default(v) => v !in s.handles
    case Acquire(v, _) => v !in s.handles
    case MoveConstruct(v, from) => v !in s.handles && from in s.handles
    case MoveAssign(v, from) => v in s.handles && from in s.handles
    case ReleaseHandle(from) => from in s.handles
    case SetValue(v, _) => v in s.handles && s.handles[v].Holding? && s.handles[v].mustPopulate
    case Destroy(v) => v in s.handles
  }

  function Lost(h: Handle): set<Raw> { if h.Holding? then {h.raw} else {} }

  function Next(s: State, op: Operation): State
    requires Enabled(s, op)
  {
    match op
    case Default(v) => s.(handles := s.handles[v := Empty])
    case Acquire(v, must) =>
      State(s.handles[v := Holding(s.next, must)], s.log + [Acquired(s.next, must)], s.next + 1, s.lost)
    case MoveConstruct(v, from) => s.(handles := s.handles[v := s.handles[from]][from := Empty])
    case MoveAssign(v, from) =>
      if v == from then s
      else State(s.handles[v := s.handles[from]][from := Empty], s.log, s.next, s.lost + Lost(s.handles[v]))
    case ReleaseHandle(from) => s.(handles := s.handles[from := Empty], log := s.log + PutEvents(s.handles[from]))
    case SetValue(v, success) =>
      s.(handles := s.handles[v := Holding(s.handles[v].raw, false)], log := s.log + [Populated(s.handles[v].raw, success)])
    case Destroy(v) => s.(handles := s.handles - {v}, log := s.log + PutEvents(s.handles[v]))
  }

  function Run(ops: seq<Operation>): (r: Option<State>)
  {
    if ops == [] then Some(INITIAL)
    else
      var s := Run(ops[..|ops| - 1]);
      if s.Some? && Enabled(s.value, ops[|ops| - 1]) then Some(Next(s.value, ops[|ops| - 1])) else None
  }

  datatype Option<T> = None | Some(value: T)

  // ----- the objects of a run -----

  /** The handle variables of a program as objects, with the cache that they use. */
  class Scope {
    const cache: ICache
    var variables: map<Variable, EntryHandle>

    constructor ()
      ensures Refines(INITIAL) && fresh(cache) && variables == map[]
    {
      cache := new ICache();
      variables := map[];
    }

    /** The objects are in this state. */
    ghost predicate Refines(s: State)
      reads this, cache, variables.Values
    {
      && cache.log == s.log && cache.next == s.next && variables.Keys == s.handles.Keys
      && (forall v, w :: v in variables && w in variables && v != w ==> variables[v] != variables[w])
      && (forall v :: v in variables ==>
                        variables[v].Abstract() == s.handles[v] && (variables[v].pCache == null || variables[v].pCache == cache))
    }

    /** Every operation on the objects leads to the state that the run model says. */
    method Step(op: Operation, ghost s: State)
      requires Refines(s) && Enabled(s, op)
      modifies this, cache, variables.Values
      ensures Refines(Next(s, op)) && fresh(variables.Values - old(variables.Values))
    {
      hide *;
      if op.Default? || op.Acquire? || op.MoveConstruct? {
        Construct(op, s);
      } else if op.MoveAssign? {
        Assign(op, s);
      } else if op.SetValue? {
        Populate(op, s);
      } else {
        GiveUp(op, s);
      }
    }

    method Construct(op: Operation, ghost s: State)
      requires Refines(s) && Enabled(s, op) && (op.Default? || op.Acquire? || op.MoveConstruct?)
      modifies this, cache, variables.Values
      ensures Refines(Next(s, op)) && fresh(variables.Values - old(variables.Values))
    {
      if op.Default? {
        var handle := new EntryHandle.Default();
        variables := variables[op.v := handle];
      } else if op.Acquire? {
        var raw := cache.GetEntry(op.mustPopulate);
        var handle := new EntryHandle(cache, raw, op.mustPopulate);
        variables := variables[op.v := handle];
      } else {
        var handle := new EntryHandle.Move(variables[op.from]);
        variables := variables[op.v := handle];
      }
    }

    method Assign(op: Operation, ghost s: State)
      requires Refines(s) && Enabled(s, op) && op.MoveAssign?
      modifies this, cache, variables.Values
      ensures Refines(Next(s, op)) && fresh(variables.Values - old(variables.Values))
    {
      variables[op.v].MoveAssign(variables[op.from]);
    }

    method Populate(op: Operation, ghost s: State)
      requires Refines(s) && Enabled(s, op) && op.SetValue?
      modifies this, cache, variables.Values
      ensures Refines(Next(s, op)) && fresh(variables.Values - old(variables.Values))
    {
      variables[op.v].SetValue(op.success);
    }

    method GiveUp(op: Operation, ghost s: State)
      requires Refines(s) && Enabled(s, op) && (op.ReleaseHandle? || op.Destroy?)
      modifies this, cache, variables.Values
      ensures Refines(Next(s, op)) && fresh(variables.Values - old(variables.Values))
    {
      if op.ReleaseHandle? {
        EntryHandle.ReleaseHandle(variables[op.from]);
      } else {
        variables[op.v].Put();
        variables := variables - {op.v};
      }
    }

    /** A whole run. */
    method RunAll(ops: seq<Operation>)
      requires Refines(INITIAL) && variables == map[] && Run(ops).Some?
      modifies this, cache
      ensures Refines(Run(ops).value)
    {
      for i := 0 to |ops|
        invariant Run(ops[..i]).Some? && Refines(Run(ops[..i]).value)
        invariant fresh(variables.Values)
      {
        assert ops[..i + 1][..i] == ops[..i];
        RunPrefix(ops, i + 1);
        Step(ops[i], Run(ops[..i]).value);
      }
      assert ops[..|ops|] == ops;
    }
  }

  lemma {:induction false} RunPrefix(ops: seq<Operation>, i: nat)
    requires Run(ops).Some? && i <= |ops|
    ensures Run(ops[..i]).Some?
    decreases |ops|
  {
    if i < |ops| {
      RunPrefix(ops[..|ops| - 1], i);
      assert ops[..|ops| - 1][..i] == ops[..i];
    } else {
      assert ops[..i] == ops;
    }
  }

  /** A handle has at most one owner, and the owner knows whether it must still be populated. */
  ghost predicate Invariant(s: State)
  {
    && (forall v, w :: v in s.handles && w in s.handles && v != w && s.handles[v].Holding? && s.handles[w].Holding? ==>
                         s.handles[v].raw != s.handles[w].raw)
    && (forall v :: v in s.handles && s.handles[v].Holding? ==>
                      s.handles[v].raw !in s.lost && StatusOf(s.log, s.handles[v].raw) == Held(s.handles[v].mustPopulate))
    && (forall raw :: raw in s.lost ==> raw < s.next && StatusOf(s.log, raw).Held?)
    && (forall raw: Raw :: raw < s.next && raw !in s.lost && !Owned(s, raw) ==> StatusOf(s.log, raw) == Done)
    && (forall raw: Raw :: raw >= s.next ==> StatusOf(s.log, raw) == Fresh)
  }

  ghost predicate Owned(s: State, raw: Raw)
  {
    exists v :: v in s.handles && s.handles[v].Holding? && s.handles[v].raw == raw
  }

  // ----- every run keeps the contract -----

  lemma PutStatus(log: seq<Event>, h: Handle, raw: Raw)
    requires h.Holding? ==> StatusOf(log, h.raw) == Held(h.mustPopulate)
    ensures StatusOf(log + PutEvents(h), raw) == if h.Holding? && h.raw == raw then Done else StatusOf(log, raw)
  {
    match h
    case Empty => assert log + [] == log;
    case Holding(r, must) =>
      if must {
        var middle := log + [Populated(r, false)];
        StatusNext(log, Populated(r, false), raw);
        StatusNext(middle, Released(r), raw);
        assert log + PutEvents(h) == middle + [Released(r)];
      } else {
        StatusNext(log, Released(r), raw);
        assert log + PutEvents(h) == log + [Released(r)];
      }
  }

  /** Giving up the handle of one variable, which is emptied or destroyed. */
  lemma PutKeeps(s: State, v: Variable, handles: map<Variable, Handle>)
    requires Invariant(s) && v in s.handles
    requires handles == s.handles[v := Empty] || handles == s.handles - {v}
    ensures Invariant(s.(handles := handles, log := s.log + PutEvents(s.handles[v])))
  {
    hide StatusOf;
    var h := s.handles[v];
    var later := s.(handles := handles, log := s.log + PutEvents(h));
    forall raw: Raw ensures StatusOf(later.log, raw) == if h.Holding? && h.raw == raw then Done else StatusOf(s.log, raw) {
      PutStatus(s.log, h, raw);
    }
    forall w | w in s.handles && s.handles[w].Holding? && w != v ensures Owned(later, s.handles[w].raw) {
      assert w in later.handles && later.handles[w] == s.handles[w];
    }
    forall raw: Raw | raw < s.next && raw !in s.lost && !Owned(later, raw) ensures StatusOf(later.log, raw) == Done {
      if Owned(s, raw) {
        var w :| w in s.handles && s.handles[w].Holding? && s.handles[w].raw == raw;
      }
    }
  }

  /** Moving a handle from one variable to another. */
  lemma MoveKeeps(s: State, v: Variable, from: Variable)
    requires Invariant(s) && from in s.handles && v != from
    ensures Invariant(State(s.handles[v := s.handles[from]][from := Empty], s.log, s.next,
                            s.lost + if v in s.handles then Lost(s.handles[v]) else {}))
  {
    hide StatusOf;
    var lost := if v in s.handles then Lost(s.handles[v]) else {};
    var later := State(s.handles[v := s.handles[from]][from := Empty], s.log, s.next, s.lost + lost);
    forall w | w in s.handles && s.handles[w].Holding? && w != v ensures Owned(later, s.handles[w].raw) {
      var x := if w == from then v else w;
      assert x in later.handles && later.handles[x] == s.handles[w];
    }
    forall raw: Raw | raw < s.next && raw !in later.lost && !Owned(later, raw) ensures !Owned(s, raw) {
    }
    forall raw | raw in later.lost ensures raw < s.next && StatusOf(s.log, raw).Held? {
      if raw !in s.lost { assert s.handles[v].raw == raw; }
    }
  }

  lemma AcquireKeeps(s: State, v: Variable, must: bool)
    requires Invariant(s) && v !in s.handles
    ensures Invariant(Next(s, Acquire(v, must)))
  {
    hide StatusOf;
    var later := Next(s, Acquire(v, must));
    forall raw: Raw ensures StatusOf(later.log, raw) == Advance(StatusOf(s.log, raw), raw, Acquired(s.next, must)) {
      StatusNext(s.log, Acquired(s.next, must), raw);
    }
    assert Owned(later, s.next) by { assert later.handles[v].raw == s.next; }
    forall w | w in s.handles && s.handles[w].Holding? ensures Owned(later, s.handles[w].raw) {
      assert later.handles[w] == s.handles[w];
    }
    forall raw: Raw | raw < later.next && raw !in later.lost && !Owned(later, raw) ensures !Owned(s, raw) {
    }
  }

  lemma SetValueKeeps(s: State, v: Variable, success: bool)
    requires Invariant(s) && Enabled(s, SetValue(v, success))
    ensures Invariant(Next(s, SetValue(v, success)))
  {
    hide StatusOf;
    var later := Next(s, SetValue(v, success));
    forall raw: Raw ensures StatusOf(later.log, raw) == Advance(StatusOf(s.log, raw), raw, Populated(s.handles[v].raw, success)) {
      StatusNext(s.log, Populated(s.handles[v].raw, success), raw);
    }
    forall raw: Raw | Owned(s, raw) ensures Owned(later, raw) {
      var w :| w in s.handles && s.handles[w].Holding? && s.handles[w].raw == raw;
      assert later.handles[w].Holding? && later.handles[w].raw == raw;
    }
  }

  lemma StepKeeps(s: State, op: Operation)
    requires Invariant(s) && Enabled(s, op)
    ensures Invariant(Next(s, op))
  {
    match op
    case Default(v) =>
      forall raw: Raw | Owned(s, raw) ensures Owned(Next(s, op), raw) {
        var w :| w in s.handles && s.handles[w].Holding? && s.handles[w].raw == raw;
        assert Next(s, op).handles[w].raw == raw;
      }
    case Acquire(v, must) => AcquireKeeps(s, v, must);
    case MoveConstruct(v, from) => MoveKeeps(s, v, from); assert s.lost + {} == s.lost;
    case MoveAssign(v, from) => if v != from { MoveKeeps(s, v, from); }
    case ReleaseHandle(from) => PutKeeps(s, from, s.handles[from := Empty]);
    case SetValue(v, success) => SetValueKeeps(s, v, success);
    case Destroy(v) => PutKeeps(s, v, s.handles - {v});
  }

  lemma InitialInvariant()
    ensures Invariant(INITIAL)
  {
  }

  lemma {:induction false} RunKeeps(ops: seq<Operation>)
    requires Run(ops).Some?
    ensures Invariant(Run(ops).value)
  {
    hide Invariant;
    if ops == [] {
      InitialInvariant();
    } else {
      RunKeeps(ops[..|ops| - 1]);
      StepKeeps(Run(ops[..|ops| - 1]).value, ops[|ops| - 1]);
    }
  }

  /** No run violates the contract of the cache for any handle. */
  lemma RunConforms(ops: seq<Operation>, raw: Raw)
    requires Run(ops).Some?
    ensures StatusOf(Run(ops).value.log, raw) != Violated
  {
    hide StatusOf;
    hide Run;
    RunKeeps(ops);
    var s := Run(ops).value;
    if Owned(s, raw) {
      var v :| v in s.handles && s.handles[v].Holding? && s.handles[v].raw == raw;
    }
  }

  /** Once no variable holds a handle any more, a handle has been released exactly if no assignment has overwritten it. */
  lemma ReleasedExactly(ops: seq<Operation>, raw: Raw)
    requires Run(ops).Some? && raw < Run(ops).value.next
    requires forall v :: v in Run(ops).value.handles ==> Run(ops).value.handles[v].Empty?
    ensures StatusOf(Run(ops).value.log, raw) == Done <==> raw !in Run(ops).value.lost
  {
    hide StatusOf;
    hide Run;
    RunKeeps(ops);
    assert !Owned(Run(ops).value, raw);
  }

  /** Every assignment by move goes to an empty handle, or to itself. */
  predicate Careful(ops: seq<Operation>)
  {
    ops == [] ||
    (var init, op := ops[..|ops| - 1], ops[|ops| - 1];
     Careful(init) &&
     (op.MoveAssign? && Run(init).Some? && op.v in Run(init).value.handles ==> op.v == op.from || Run(init).value.handles[op.v].Empty?))
  }

  /** Handles are lost exactly if some assignment is not careful. */
  lemma {:induction false} NothingLostExactly(ops: seq<Operation>)
    requires Run(ops).Some?
    ensures Run(ops).value.lost == {} <==> Careful(ops)
  {
    if ops != [] {
      var init, op := ops[..|ops| - 1], ops[|ops| - 1];
      NothingLostExactly(init);
      var s := Run(init).value;
      if op.MoveAssign? && op.v != op.from && s.handles[op.v].Holding? {
        assert s.handles[op.v].raw in Next(s, op).lost;
      }
    }
  }

  // ----- what the final status means -----

  function CountReleased(log: seq<Event>, raw: Raw): nat
  {
    if log == [] then 0 else CountReleased(log[..|log| - 1], raw) + if log[|log| - 1] == Released(raw) then 1 else 0
  }

  function CountPopulated(log: seq<Event>, raw: Raw): nat
  {
    if log == [] then 0
    else
      var e := log[|log| - 1];
      CountPopulated(log[..|log| - 1], raw) + if e.Populated? && e.raw == raw then 1 else 0
  }

  /** A handle whose status is Done has been released once, and populated once exactly if that was demanded of its owner. */
  lemma {:induction false} StatusCounts(log: seq<Event>, raw: Raw)
    ensures StatusOf(log, raw) == Fresh ==> CountReleased(log, raw) == 0 && CountPopulated(log, raw) == 0
    ensures StatusOf(log, raw).Held? ==> CountReleased(log, raw) == 0 &&
                                         CountPopulated(log, raw) == if Acquired(raw, true) in log && !StatusOf(log, raw).mustPopulate then 1 else 0
    ensures StatusOf(log, raw) == Fresh ==> Acquired(raw, true) !in log
    ensures StatusOf(log, raw) == Held(true) ==> Acquired(raw, true) in log
    ensures StatusOf(log, raw) == Done ==> CountReleased(log, raw) == 1 &&
                                           CountPopulated(log, raw) == if Acquired(raw, true) in log then 1 else 0
  {
    if log != [] {
      var init, e := log[..|log| - 1], log[|log| - 1];
      StatusCounts(init, raw);
      assert log == init + [e];
      assert Acquired(raw, true) in log <==> Acquired(raw, true) in init || e == Acquired(raw, true);
    }
  }

  /** Two handles are acquired, the second one is assigned onto the first, and both variables are destroyed: the first handle is held
      for ever, and the second one has been released. */
  lemma LeakingRun(must: bool)
    ensures var r := Run([Acquire(0, must), Acquire(1, false), MoveAssign(0, 1), Destroy(0), Destroy(1)]);
            && r.Some? && r.value.handles == map[] && r.value.lost == {0}
            && StatusOf(r.value.log, 0) == Held(must) && StatusOf(r.value.log, 1) == Done
  {
    var a, b, c, d, e := Acquire(0, must), Acquire(1, false), MoveAssign(0, 1), Destroy(0), Destroy(1);
    var first, second, third := Acquired(0, must), Acquired(1, false), Released(1);
    var s1 := State(map[0 := Holding(0, must)], [first], 1, {});
    var s2 := State(map[0 := Holding(0, must), 1 := Holding(1, false)], [first, second], 2, {});
    var s3 := State(map[0 := Holding(1, false), 1 := Empty], [first, second], 2, {0});
    var s4 := State(map[1 := Empty], [first, second, third], 2, {0});
    assert Run([]) == Some(INITIAL);
    assert Enabled(INITIAL, a) && Next(INITIAL, a) == s1 && Enabled(s1, b) && Next(s1, b) == s2;
    assert Enabled(s2, c) && Next(s2, c) == s3 by { assert Next(s2, c).handles == s3.handles; }
    assert Enabled(s3, d) && Next(s3, d) == s4 by { assert Next(s3, d).handles == s4.handles && PutEvents(Holding(1, false)) == [third]; }
    assert Enabled(s4, e) && Next(s4, e) == State(map[], [first, second, third], 2, {0});
    LeakingLog(must);
    hide *;
    assert [] + [a] == [a] && [a] + [b] == [a, b] && [a, b] + [c] == [a, b, c];
    assert [a, b, c] + [d] == [a, b, c, d] && [a, b, c, d] + [e] == [a, b, c, d, e];
    RunNext([], INITIAL, a, s1);
    RunNext([a], s1, b, s2);
    RunNext([a, b], s2, c, s3);
    RunNext([a, b, c], s3, d, s4);
    RunNext([a, b, c, d], s4, e, Next(s4, e));
  }

  lemma RunNext(ops: seq<Operation>, s: State, op: Operation, next: State)
    requires Run(ops) == Some(s) && Enabled(s, op) && Next(s, op) == next
    ensures Run(ops + [op]) == Some(next)
  {
    assert (ops + [op])[..|ops|] == ops;
  }

  lemma LeakingLog(must: bool)
    ensures var log := [Acquired(0, must), Acquired(1, false), Released(1)];
            StatusOf(log, 0) == Held(must) && StatusOf(log, 1) == Done
  {
    StatusNext([], Acquired(0, must), 0);
    StatusNext([], Acquired(0, must), 1);
    StatusNext([Acquired(0, must)], Acquired(1, false), 0);
    StatusNext([Acquired(0, must)], Acquired(1, false), 1);
    StatusNext([Acquired(0, must), Acquired(1, false)], Released(1), 0);
    StatusNext([Acquired(0, must), Acquired(1, false)], Released(1), 1);
    assert [] + [Acquired(0, must)] == [Acquired(0, must)];
    assert [Acquired(0, must)] + [Acquired(1, false)] == [Acquired(0, must), Acquired(1, false)];
    assert [Acquired(0, must), Acquired(1, false)] + [Released(1)] == [Acquired(0, must), Acquired(1, false), Released(1)];
  }
}
