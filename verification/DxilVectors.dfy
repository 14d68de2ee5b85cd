/** Replacement of i1 vectors by i32 vectors: the visitors of compilerutils/lib/DxilToLlvm.cpp, and those of
compilerutils/lib/TypeLowering.cpp for selects, phis, loads and stores of such vectors.
*/
module DxilVectors {
  datatype Option<T> = None | Some(value: T)

  // ----- values -----

  datatype Scalar = Poison | Undef | Bit(b: bool) | Word(w: nat)

  /** A run-time value.  Unset stands for the result of an operation on operands of the wrong types. */
  datatype Value = Unset | Single(s: Scalar) | Bools(bits: seq<Scalar>) | Words(words: seq<Scalar>)

  /** zext i1 to i32 */
  function Extended(s: Scalar): Scalar
  {
    if s.Bit? then Word(if s.b then 1 else 0) else s
  }

  /** trunc i32 to i1 */
  function Truncated(s: Scalar): Scalar
  {
    if s.Word? then Bit(s.w % 2 == 1) else s
  }

  /** Poison may become anything, and undef anything but poison. */
  predicate Refines(s: Scalar, t: Scalar)
  {
    s == Poison || (s == Undef && t != Poison) || s == t
  }

  predicate RefinesExtended(s: Scalar, t: Scalar)
  {
    s == Poison || (s == Undef && t != Poison) || (s.Bit? && t == Extended(s))
  }

  /** How a value of the original program relates to its replacement: vectors of i1 hold the zero-extended elements. */
  predicate Related(v: Value, w: Value)
  {
    match v
    case Unset => true
    case Single(s) => w.Single? && Refines(s, w.s)
    case Bools(s) => w.Words? && |w.words| == |s| && forall i :: 0 <= i < |s| ==> RefinesExtended(s[i], w.words[i])
    case Words(s) => w.Words? && |w.words| == |s| && forall i :: 0 <= i < |s| ==> Refines(s[i], w.words[i])
  }

  function Filled(n: nat, s: Scalar): seq<Scalar> { seq(n, _ => s) }

  // ----- instructions -----

  /** The result of instruction `n`, or an intermediate value of its replacement. */
  datatype Id = Result(n: nat) | Temporary(n: nat)

  datatype Operand = Ref(id: Id) | Constant(c: Value)

  /** The flag `i1` says that the vector type of the instruction has i1 elements.  `count` is the length of a loaded
      vector; loads of scalars and everything that is not listed are Other. */
  datatype Instruction =
    | InsertElement(vector: Operand, element: Operand, index: Operand, i1: bool)
    | ExtractElement(vector: Operand, index: Operand, i1: bool)
    | ShuffleVector(left: Operand, right: Operand, mask: seq<int>, i1: bool)
    | Select(condition: Operand, onTrue: Operand, onFalse: Operand, i1: bool)
    | Phi(incoming: seq<Operand>, i1: bool)
    | Load(pointer: Operand, count: nat, i1: bool)
    | Store(data: Operand, pointer: Operand, i1: bool)
    | Branch(condition: Operand)
    | Other(op: nat, args: seq<Operand>)
    | ZExt(x: Operand)
    | Trunc(x: Operand)

  /** The semantics of the instructions that the pass does not touch. */
  type Semantics = (nat, seq<Value>) -> Value

  type Env = map<Id, Value>
  type Memory = map<nat, Value>

  datatype State = State(env: Env, memory: Memory)

  function Eval(env: Env, x: Operand): Value
  {
    match x
    case Ref(id) => if id in env then env[id] else Unset
    case Constant(c) => c
  }

  function EvalAll(env: Env, xs: seq<Operand>): (r: seq<Value>)
    ensures |r| == |xs|
  {
    seq(|xs|, i requires 0 <= i < |xs| => Eval(env, xs[i]))
  }

  function Elements(v: Value, i1: bool): Option<seq<Scalar>>
  {
    if v.Bools? && i1 then Some(v.bits)
    else if v.Words? && !i1 then Some(v.words)
    else None
  }

  function Vector(s: seq<Scalar>, i1: bool): Value { if i1 then Bools(s) else Words(s) }

  /** Inserting at a bad index makes the whole vector poison. */
  function Inserted(v: Value, e: Value, index: Value, i1: bool): Value
  {
    var s := Elements(v, i1);
    if s.None? || !e.Single? || !index.Single? || (i1 && e.s.Word?) then Unset
    else if index.s.Word? && index.s.w < |s.value| then Vector(s.value[index.s.w := e.s], i1)
    else Vector(Filled(|s.value|, Poison), i1)
  }

  function Extracted(v: Value, index: Value, i1: bool): Value
  {
    var s := Elements(v, i1);
    if s.None? || !index.Single? then Unset
    else if index.s.Word? && index.s.w < |s.value| then Single(s.value[index.s.w])
    else Single(Poison)
  }

  function Shuffled(v: Value, w: Value, mask: seq<int>, i1: bool): Value
  {
    var s, t := Elements(v, i1), Elements(w, i1);
    if s.None? || t.None? then Unset
    else Vector(seq(|mask|, i requires 0 <= i < |mask| => Picked(s.value + t.value, mask[i])), i1)
  }

  /** Negative mask elements stand for poison. */
  function Picked(s: seq<Scalar>, i: int): Scalar { if 0 <= i < |s| then s[i] else Poison }

  /** Selecting by a condition that is not a definite value is treated as poison. */
  function Selected(c: Value, v: Value, w: Value, i1: bool): Value
  {
    var s, t := Elements(v, i1), Elements(w, i1);
    if !c.Single? || s.None? || t.None? || |s.value| != |t.value| then Unset
    else if c.s.Bit? then if c.s.b then v else w
    else Vector(Filled(|s.value|, Poison), i1)
  }

  /** Reading memory as another type than what was stored yields poison. */
  function Loaded(memory: Memory, pointer: Value, count: nat, i1: bool): Value
  {
    if pointer.Single? && pointer.s.Word? && pointer.s.w in memory then
      var s := Elements(memory[pointer.s.w], i1);
      if s.Some? && |s.value| == count then memory[pointer.s.w] else Vector(Filled(count, Poison), i1)
    else Vector(Filled(count, Poison), i1)
  }

  function Compute(sem: Semantics, st: State, i: Instruction): Value
    requires !i.Phi?
  {
    match i
    case InsertElement(v, e, x, i1) => Inserted(Eval(st.env, v), Eval(st.env, e), Eval(st.env, x), i1)
    case ExtractElement(v, x, i1) => Extracted(Eval(st.env, v), Eval(st.env, x), i1)
    case ShuffleVector(v, w, mask, i1) => Shuffled(Eval(st.env, v), Eval(st.env, w), mask, i1)
    case Select(c, v, w, i1) => Selected(Eval(st.env, c), Eval(st.env, v), Eval(st.env, w), i1)
    case Load(p, count, i1) => Loaded(st.memory, Eval(st.env, p), count, i1)
    case Store(_, _, _) => Unset
    case Branch(_) => Unset
    case Other(op, args) =>
      var values := EvalAll(st.env, args);
      if forall k :: 0 <= k < |values| ==> !values[k].Unset? && !values[k].Bools? then sem(op, values) else Unset
    case ZExt(x) => var v := Eval(st.env, x); if v.Single? then Single(Extended(v.s)) else Unset
    case Trunc(x) => var v := Eval(st.env, x); if v.Single? then Single(Truncated(v.s)) else Unset
  }

  // ----- programs and runs -----

  /** The instructions that take the place of one instruction, with the values that they define. */
  type Code = seq<(Id, Instruction)>

  /** For each instruction, the instructions that it dominates.  When an instruction is executed again, their results belong
      to an earlier iteration and no use can be reached before they are computed anew, so a run forgets them. */
  type Below = seq<set<nat>>

  /** Entering a block from its predecessor number `pred` evaluates the phis of the block at once; then the instructions of the
      block are executed.  `taken` is the direction of a branch. */
  datatype Event = Enter(phis: seq<nat>, pred: nat) | Execute(n: nat, taken: bool)

  predicate IsAddress(v: Value) { v.Single? && v.s.Word? }

  /** No undefined behaviour, and branches go the way of the run. */
  predicate Allowed(st: State, i: Instruction, taken: bool)
  {
    match i
    case Phi(_, _) => false
    case Load(p, _, _) => IsAddress(Eval(st.env, p))
    case Store(_, p, _) => IsAddress(Eval(st.env, p))
    case Branch(c) => Eval(st.env, c) == Single(Bit(taken))
    case _ => true
  }

  function ExecuteOne(sem: Semantics, st: State, id: Id, i: Instruction, taken: bool): State
    requires Allowed(st, i, taken)
  {
    if i.Store? then st.(memory := st.memory[Eval(st.env, i.pointer).s.w := Eval(st.env, i.data)])
    else st.(env := st.env[id := Compute(sem, st, i)])
  }

  /** The state after the instructions, if they are all allowed. */
  function ExecuteAll(sem: Semantics, st: State, code: Code, taken: bool): Option<State>
    decreases |code|
  {
    if code == [] then Some(st)
    else if !Allowed(st, code[0].1, taken) then None
    else ExecuteAll(sem, ExecuteOne(sem, st, code[0].0, code[0].1, taken), code[1..], taken)
  }

  function Forget(env: Env, dead: set<nat>): Env
  {
    map id | id in env && !(id.Result? && id.n in dead) :: env[id]
  }

  function Forgotten(st: State, dead: set<nat>): State { st.(env := Forget(st.env, dead)) }

  predicate IsPhi(code: Code, n: nat, pred: nat)
  {
    |code| == 1 && code[0].0 == Result(n) && code[0].1.Phi? && pred < |code[0].1.incoming|
  }

  function EnterAll(below: Below, program: seq<Code>, before: Env, env: Env, phis: seq<nat>, pred: nat): Option<Env>
    requires |below| == |program|
    decreases |phis|
  {
    if phis == [] then Some(env)
    else if phis[0] < |program| && IsPhi(program[phis[0]], phis[0], pred) then
      var value := Eval(before, program[phis[0]][0].1.incoming[pred]);
      EnterAll(below, program, before, Forget(env, below[phis[0]])[Result(phis[0]) := value], phis[1..], pred)
    else None
  }

  function Next(sem: Semantics, below: Below, program: seq<Code>, st: State, event: Event): Option<State>
    requires |below| == |program|
  {
    match event
    case Enter(phis, pred) =>
      var env := EnterAll(below, program, st.env, st.env, phis, pred);
      if env.Some? then Some(State(env.value, st.memory)) else None
    case Execute(n, taken) =>
      if n < |program| then ExecuteAll(sem, Forgotten(st, below[n]), program[n], taken) else None
  }

  /** The state after a run, if the program can go that way without undefined behaviour. */
  function Run(sem: Semantics, below: Below, program: seq<Code>, st: State, events: seq<Event>): Option<State>
    requires |below| == |program|
    decreases |events|
  {
    if events == [] then Some(st)
    else
      var next := Next(sem, below, program, st, events[0]);
      if next.None? then None else Run(sem, below, program, next.value, events[1..])
  }

  function Original(body: seq<Instruction>): (r: seq<Code>)
    ensures |r| == |body|
  {
    seq(|body|, n requires 0 <= n < |body| => Alone(n, body[n]))
  }

  function Alone(n: nat, i: Instruction): Code { [(Result(n), i)] }

  function Operands(i: Instruction): seq<Operand>
  {
    match i
    case InsertElement(v, e, x, _) => [v, e, x]
    case ExtractElement(v, x, _) => [v, x]
    case ShuffleVector(v, w, _, _) => [v, w]
    case Select(c, v, w, _) => [c, v, w]
    case Phi(incoming, _) => incoming
    case Load(p, _, _) => [p]
    case Store(d, p, _) => [d, p]
    case Branch(c) => [c]
    case Other(_, args) => args
    case ZExt(x) => [x]
    case Trunc(x) => [x]
  }

  function WithOperands(i: Instruction, xs: seq<Operand>): Instruction
    requires |xs| == |Operands(i)|
  {
    match i
    case InsertElement(_, _, _, _) => InsertElement(xs[0], xs[1], xs[2], false)
    case ExtractElement(_, _, _) => ExtractElement(xs[0], xs[1], false)
    case ShuffleVector(_, _, mask, _) => ShuffleVector(xs[0], xs[1], mask, false)
    case Select(_, _, _, _) => Select(xs[0], xs[1], xs[2], false)
    case Phi(_, _) => Phi(xs, false)
    case Load(_, count, _) => Load(xs[0], count, false)
    case Store(_, _, _) => Store(xs[0], xs[1], false)
    case Branch(_) => Branch(xs[0])
    case Other(op, _) => Other(op, xs)
    case ZExt(_) => ZExt(xs[0])
    case Trunc(_) => Trunc(xs[0])
  }

  /** `k` is a use in an operand of the result of an instruction of the body. */
  predicate Uses(body: seq<Instruction>, i: Instruction, k: nat)
  {
    k < |body| && Ref(Result(k)) in Operands(i)
  }

  /** Instructions are numbered in the order of the traversal, which visits dominating ones first, and operands of
      everything but phis are dominated by what defines them. */
  ghost predicate Dominated(body: seq<Instruction>, below: Below)
  {
    && |below| == |body|
    && (forall n, r :: 0 <= n < |below| && r in below[n] ==> r < |body| && below[r] <= below[n])
    && (forall n, k: nat {:trigger Uses(body, body[n], k)} ::
           0 <= n < |body| && !body[n].Phi? && Uses(body, body[n], k) ==> k < n && n in below[k])
  }

  // ----- the pass -----

  /** The fallback for constants handles poison, undef and zero only. */
  function Convert(c: Value): Option<Value>
  {
    if !c.Bools? then Some(c)
    else if c.bits == Filled(|c.bits|, Poison) then Some(Words(Filled(|c.bits|, Poison)))
    else if c.bits == Filled(|c.bits|, Undef) then Some(Words(Filled(|c.bits|, Undef)))
    else if c.bits == Filled(|c.bits|, Bit(false)) then Some(Words(Filled(|c.bits|, Word(0))))
    else None
  }

  /** The value map: what takes the place of the result of each instruction.  Other results are arguments. */
  type Mapping = seq<Operand>

  function MappedResult(m: Mapping, n: nat): Operand { if n < |m| then m[n] else Ref(Result(n)) }

  function Mapped(m: Mapping, x: Operand): Option<Operand>
  {
    match x
    case Ref(id) => Some(if id.Result? then MappedResult(m, id.n) else x)
    case Constant(c) => var converted := Convert(c); if converted.Some? then Some(Constant(converted.value)) else None
  }

  function MappedAll(m: Mapping, xs: seq<Operand>): (r: Option<seq<Operand>>)
    ensures r.Some? ==> |r.value| == |xs| && forall k :: 0 <= k < |xs| ==> Mapped(m, xs[k]) == Some(r.value[k])
    ensures r.None? <==> exists k :: 0 <= k < |xs| && Mapped(m, xs[k]).None?
  {
    if forall k :: 0 <= k < |xs| ==> Mapped(m, xs[k]).Some? then
      Some(seq(|xs|, k requires 0 <= k < |xs| && Mapped(m, xs[k]).Some? => Mapped(m, xs[k]).value))
    else None
  }

  /** The same instruction on the mapped operands. */
  function Converted(m: Mapping, i: Instruction): Option<Instruction>
  {
    var xs := MappedAll(m, Operands(i));
    if xs.None? then None else Some(WithOperands(i, xs.value))
  }

  predicate IsPoison(x: Operand)
  {
    x.Constant? && x.c.Words? && x.c.words == Filled(|x.c.words|, Poison)
  }

  predicate IsUndef(x: Operand)
  {
    x.Constant? && x.c.Words? && x.c.words == Filled(|x.c.words|, Undef)
  }

  /** The constant folder of the instruction builder: a constant in place of an instruction on constants. */
  type Folder = Instruction -> Option<Value>

  predicate Buildable(i: Instruction)
  {
    ((i.InsertElement? || i.ExtractElement? || i.ShuffleVector? || i.Select?) && !i.i1) || i.ZExt? || i.Trunc?
  }

  /** What is folded are instructions on constants only, and the folded constant is as defined as the result. */
  ghost predicate SoundFolder(fold: Folder)
  {
    && (forall i :: fold(i).Some? ==> Buildable(i) && !fold(i).value.Bools? && forall x :: x in Operands(i) ==> x.Constant?)
    && (forall i, sem, st: State :: fold(i).Some? && Buildable(i) ==> Related(Compute(sem, st, i), fold(i).value))
  }

  /** What is built for an instruction: the value that replaces its result, and code. */
  datatype Built = Built(operand: Operand, code: Code)

  function Create(fold: Folder, id: Id, i: Instruction): Built
  {
    var constant := fold(i);
    if constant.Some? then Built(Constant(constant.value), []) else Built(Ref(id), [(id, i)])
  }

  function Kept(n: nat, i: Instruction): Built { Built(Ref(Result(n)), Alone(n, i)) }

  function VisitInsertElement(fold: Folder, n: nat, i: Instruction): Built
    requires i.InsertElement?
  {
    var extended := Create(fold, Temporary(n), ZExt(i.element));
    var inserted := Create(fold, Result(n), i.(element := extended.operand));
    Built(inserted.operand, extended.code + inserted.code)
  }

  function VisitExtractElement(fold: Folder, n: nat, i: Instruction): Built
    requires i.ExtractElement?
  {
    var extracted := Create(fold, Temporary(n), i);
    var restored := Create(fold, Result(n), Trunc(extracted.operand));
    Built(restored.operand, extracted.code + restored.code)
  }

  /** Poison and undef operands are replaced by the other operand; then equal operands need no select. */
  function VisitSelect(fold: Folder, n: nat, i: Instruction): Built
    requires i.Select?
  {
    if IsPoison(i.onTrue) || IsUndef(i.onTrue) then Built(i.onFalse, [])
    else if IsPoison(i.onFalse) || IsUndef(i.onFalse) || i.onTrue == i.onFalse then Built(i.onTrue, [])
    else Create(fold, Result(n), i)
  }

  function Lower(fold: Folder, m: Mapping, n: nat, i: Instruction): Option<Built>
  {
    var converted := Converted(m, i);
    if converted.None? then None
    else if i.InsertElement? && i.i1 then Some(VisitInsertElement(fold, n, converted.value))
    else if i.ExtractElement? && i.i1 then Some(VisitExtractElement(fold, n, converted.value))
    else if i.ShuffleVector? && i.i1 then Some(Create(fold, Result(n), converted.value))
    else if i.Select? && i.i1 then Some(VisitSelect(fold, n, converted.value))
    else Some(Kept(n, converted.value))
  }

  predicate IsLowered(fold: Folder, body: seq<Instruction>, m: Mapping, program: seq<Code>)
  {
    |m| == |program| == |body| && forall n: nat :: n < |body| ==> Lower(fold, m, n, body[n]) == Some(Built(m[n], program[n]))
  }

  /** A constant vector of i1 that is neither poison nor undef nor zero throughout. */
  predicate Unconvertible(x: Operand)
  {
    x.Constant? && x.c.Bools? &&
    (exists k :: 0 <= k < |x.c.bits| && x.c.bits[k] != Poison) &&
    (exists k :: 0 <= k < |x.c.bits| && x.c.bits[k] != Undef) &&
    (exists k :: 0 <= k < |x.c.bits| && x.c.bits[k] != Bit(false))
  }

  lemma ConvertsExactly(c: Value)
    ensures Convert(c).None? <==> Unconvertible(Constant(c))
  {
    if c.Bools? {
      var n := |c.bits|;
      if Convert(c).None? {
        assert c.bits != Filled(n, Poison) && c.bits != Filled(n, Undef) && c.bits != Filled(n, Bit(false));
      }
    }
  }

  lemma UnconvertibleBits(body: seq<Instruction>)
    ensures (exists n: nat, x :: n < |body| && x in Operands(body[n]) && Unconvertible(x)) <==>
            (exists n: nat, s: seq<Scalar> ::
               && n < |body| && Constant(Bools(s)) in Operands(body[n])
               && (exists k :: 0 <= k < |s| && s[k] != Poison) && (exists k :: 0 <= k < |s| && s[k] != Undef)
               && (exists k :: 0 <= k < |s| && s[k] != Bit(false)))
  {
    hide Operands;
    if n: nat, x :| n < |body| && x in Operands(body[n]) && Unconvertible(x) {
      assert Constant(Bools(x.c.bits)) in Operands(body[n]);
    }
    if n: nat, s: seq<Scalar> :|
      && n < |body| && Constant(Bools(s)) in Operands(body[n])
      && (exists k :: 0 <= k < |s| && s[k] != Poison) && (exists k :: 0 <= k < |s| && s[k] != Undef)
      && (exists k :: 0 <= k < |s| && s[k] != Bit(false))
    {
      assert Unconvertible(Constant(Bools(s)));
    }
  }

  /** What the constants that have a conversion become. */
  lemma ConstantsBecome(m: Mapping, n: nat, c: Value)
    ensures 0 < n ==> Mapped(m, Constant(Bools(seq(n, _ => Poison)))) == Some(Constant(Words(seq(n, _ => Poison))))
    ensures 0 < n ==> Mapped(m, Constant(Bools(seq(n, _ => Undef)))) == Some(Constant(Words(seq(n, _ => Undef))))
    ensures 0 < n ==> Mapped(m, Constant(Bools(seq(n, _ => Bit(false))))) == Some(Constant(Words(seq(n, _ => Word(0)))))
    ensures !c.Bools? ==> Mapped(m, Constant(c)) == Some(Constant(c))
  {
    assert seq(n, _ => Poison) == Filled(n, Poison) && seq(n, _ => Undef) == Filled(n, Undef);
    assert seq(n, _ => Bit(false)) == Filled(n, Bit(false)) && seq(n, _ => Word(0)) == Filled(n, Word(0));
    if 0 < n {
      assert Filled(n, Undef)[0] != Filled(n, Poison)[0] && Filled(n, Bit(false))[0] != Filled(n, Poison)[0];
      assert Filled(n, Bit(false))[0] != Filled(n, Undef)[0];
    }
  }

  lemma UnconvertibleOperand(m: Mapping, i: Instruction)
    ensures Converted(m, i).None? <==> exists x :: x in Operands(i) && Unconvertible(x)
  {
    if Converted(m, i).None? {
      var k :| 0 <= k < |Operands(i)| && Mapped(m, Operands(i)[k]).None?;
      ConvertsExactly(Operands(i)[k].c);
      assert Unconvertible(Operands(i)[k]);
    }
    if x :| x in Operands(i) && Unconvertible(x) {
      var k :| 0 <= k < |Operands(i)| && Operands(i)[k] == x;
      ConvertsExactly(x.c);
      assert Mapped(m, Operands(i)[k]).None?;
    }
  }

  /** Mappings that agree on the operands lead to the same code. */
  lemma SameLowering(fold: Folder, m: Mapping, later: Mapping, n: nat, i: Instruction)
    requires forall x :: x in Operands(i) ==> Mapped(m, x) == Mapped(later, x)
    ensures Lower(fold, m, n, i) == Lower(fold, later, n, i)
  {
    var xs, ys := MappedAll(m, Operands(i)), MappedAll(later, Operands(i));
    assert forall k :: 0 <= k < |Operands(i)| ==> Operands(i)[k] in Operands(i);
    assert xs == ys by {
      if xs.Some? && ys.Some? { assert xs.value == ys.value; }
    }
  }

  /** The whole body: the visitors in order, and then the incoming values of the phis.  There is no result only if some
      constant vector of i1 has no conversion. */
  method LowerBody(fold: Folder, body: seq<Instruction>, ghost below: Below) returns (r: Option<(Mapping, seq<Code>)>)
    requires Dominated(body, below)
    ensures r.Some? ==> IsLowered(fold, body, r.value.0, r.value.1)
    ensures r.None? <==> exists n: nat, x :: n < |body| && x in Operands(body[n]) && Unconvertible(x)
    ensures r.None? <==> exists n: nat, s: seq<Scalar> ::
                           && n < |body| && Constant(Bools(s)) in Operands(body[n])
                           && (exists k :: 0 <= k < |s| && s[k] != Poison) && (exists k :: 0 <= k < |s| && s[k] != Undef)
                           && (exists k :: 0 <= k < |s| && s[k] != Bit(false))
  {
    hide Lower;
    hide Operands;
    hide Unconvertible;
    hide Dominated;
    UnconvertibleBits(body);
    var visited := VisitAll(fold, body, below);
    if visited.None? {
      return None;
    }
    var program := FillPhis(fold, body, visited.value.0, visited.value.1);
    r := if program.None? then None else Some((visited.value.0, program.value));
  }

  /** The visitors: phis are kept without their incoming values, and everything else is lowered. */
  method VisitAll(fold: Folder, body: seq<Instruction>, ghost below: Below) returns (r: Option<(Mapping, seq<Code>)>)
    requires Dominated(body, below)
    ensures r.Some? ==> Visited(fold, body, r.value.0, r.value.1)
    ensures r.None? ==> exists n: nat, x :: n < |body| && x in Operands(body[n]) && Unconvertible(x)
  {
    hide Lower;
    hide Operands;
    hide Converted;
    hide Unconvertible;
    var m: Mapping := [];
    var program: seq<Code> := [];
    for n := 0 to |body|
      invariant |m| == |program| == n
      invariant forall k: nat :: k < n && !body[k].Phi? ==> Lower(fold, m, k, body[k]) == Some(Built(m[k], program[k]))
      invariant forall k: nat :: k < n && body[k].Phi? ==> m[k] == Ref(Result(k))
      invariant forall k: nat, x :: k < n && !body[k].Phi? && x in Operands(body[k]) ==> !Unconvertible(x)
    {
      var built := Kept(n, body[n]);
      if !body[n].Phi? {
        UnconvertibleOperand(m, body[n]);
        var lowered := Lower(fold, m, n, body[n]);
        LoweredIfConverted(fold, m, n, body[n]);
        if lowered.None? {
          return None;
        }
        built := lowered.value;
      }
      forall k: nat | k <= n && !body[k].Phi?
        ensures Lower(fold, m + [built.operand], k, body[k]) == Lower(fold, m, k, body[k])
      {
        EarlierOperands(body, below, m, m + [built.operand], k);
        SameLowering(fold, m, m + [built.operand], k, body[k]);
      }
      m, program := m + [built.operand], program + [built.code];
    }
    return Some((m, program));
  }

  /** The state between the visitors and finishPhis. */
  ghost predicate Visited(fold: Folder, body: seq<Instruction>, m: Mapping, program: seq<Code>)
  {
    && |m| == |program| == |body|
    && (forall k: nat :: k < |body| && !body[k].Phi? ==> Lower(fold, m, k, body[k]) == Some(Built(m[k], program[k])))
    && (forall k: nat :: k < |body| && body[k].Phi? ==> m[k] == Ref(Result(k)))
    && (forall k: nat, x :: k < |body| && !body[k].Phi? && x in Operands(body[k]) ==> !Unconvertible(x))
  }

  /** finishPhis: the incoming values of the phis. */
  method FillPhis(fold: Folder, body: seq<Instruction>, m: Mapping, visited: seq<Code>) returns (r: Option<seq<Code>>)
    requires Visited(fold, body, m, visited)
    ensures r.Some? ==> IsLowered(fold, body, m, r.value)
    ensures r.None? <==> exists n: nat, x :: n < |body| && x in Operands(body[n]) && Unconvertible(x)
  {
    hide Lower;
    hide Operands;
    hide Converted;
    hide Unconvertible;
    var program := visited;
    for n := 0 to |body|
      invariant |program| == |body|
      invariant forall k: nat :: k < |body| && (k < n || !body[k].Phi?) ==> Lower(fold, m, k, body[k]) == Some(Built(m[k], program[k]))
      invariant forall k: nat, x :: k < |body| && (k < n || !body[k].Phi?) && x in Operands(body[k]) ==> !Unconvertible(x)
    {
      if body[n].Phi? {
        UnconvertibleOperand(m, body[n]);
        LoweredIfConverted(fold, m, n, body[n]);
        var lowered := Lower(fold, m, n, body[n]);
        if lowered.None? {
          return None;
        }
        PhiIsKept(fold, m, n, body[n]);
        program := program[n := lowered.value.code];
      }
    }
    r := Some(program);
  }

  /** The code that takes the place of each instruction on vectors of i1 where nothing is folded. */
  lemma LoweredCode(fold: Folder, m: Mapping, n: nat, v: Operand, w: Operand, x: Operand, mask: seq<int>, count: nat)
    requires (forall i :: fold(i).None?) && Mapped(m, v).Some? && Mapped(m, w).Some? && Mapped(m, x).Some?
    ensures var v', w', x' := Mapped(m, v).value, Mapped(m, w).value, Mapped(m, x).value;
            var r, t := Result(n), Temporary(n);
            && Lower(fold, m, n, InsertElement(v, w, x, true)) ==
               Some(Built(Ref(r), [(t, ZExt(w')), (r, InsertElement(v', Ref(t), x', false))]))
            && Lower(fold, m, n, ExtractElement(v, x, true)) ==
               Some(Built(Ref(r), [(t, ExtractElement(v', x', false)), (r, Trunc(Ref(t)))]))
            && Lower(fold, m, n, ShuffleVector(v, w, mask, true)) == Some(Built(Ref(r), [(r, ShuffleVector(v', w', mask, false))]))
            && Lower(fold, m, n, Load(x, count, true)) == Some(Built(Ref(r), [(r, Load(x', count, false))]))
            && Lower(fold, m, n, Store(v, x, true)) == Some(Built(Ref(r), [(r, Store(v', x', false))]))
            && Lower(fold, m, n, Phi([v, w], true)) == Some(Built(Ref(r), [(r, Phi([v', w'], false))]))
  {
    var v', w', x' := Mapped(m, v).value, Mapped(m, w).value, Mapped(m, x).value;
    MappedLists(m, v, w, x);
    hide Mapped;
    hide MappedAll;
    hide VisitSelect;
    var first: Code, second: Code := [(Temporary(n), ZExt(w'))], [(Result(n), InsertElement(v', Ref(Temporary(n)), x', false))];
    assert first + second == [first[0], second[0]];
    first, second := [(Temporary(n), ExtractElement(v', x', false))], [(Result(n), Trunc(Ref(Temporary(n))))];
    assert first + second == [first[0], second[0]];
  }

  /** A select is dropped for an operand that is poison or undef throughout, and for equal operands. */
  lemma LoweredSelect(fold: Folder, m: Mapping, n: nat, c: Operand, v: Operand, w: Operand)
    requires (forall i :: fold(i).None?) && Mapped(m, c).Some? && Mapped(m, v).Some? && Mapped(m, w).Some?
    ensures var c', v', w' := Mapped(m, c).value, Mapped(m, v).value, Mapped(m, w).value;
            var poisonOrUndef := (y: Operand) =>
              y.Constant? && y.c.Words? && ((forall k :: 0 <= k < |y.c.words| ==> y.c.words[k] == Poison) ||
                                            (forall k :: 0 <= k < |y.c.words| ==> y.c.words[k] == Undef));
            Lower(fold, m, n, Select(c, v, w, true)) ==
            Some(if poisonOrUndef(v') then Built(w', [])
                 else if poisonOrUndef(w') || v' == w' then Built(v', [])
                 else Built(Ref(Result(n)), [(Result(n), Select(c', v', w', false))]))
  {
    var v', w' := Mapped(m, v).value, Mapped(m, w).value;
    MappedLists(m, v, w, c);
    FilledMeans(v');
    FilledMeans(w');
    hide Mapped;
    hide MappedAll;
    hide IsPoison;
    hide IsUndef;
    hide VisitInsertElement;
    hide VisitExtractElement;
  }

  lemma MappedLists(m: Mapping, v: Operand, w: Operand, x: Operand)
    requires Mapped(m, v).Some? && Mapped(m, w).Some? && Mapped(m, x).Some?
    ensures var v', w', x' := Mapped(m, v).value, Mapped(m, w).value, Mapped(m, x).value;
            MappedAll(m, [v, w, x]) == Some([v', w', x']) && MappedAll(m, [x, v, w]) == Some([x', v', w']) &&
            MappedAll(m, [v, x]) == Some([v', x']) && MappedAll(m, [v, w]) == Some([v', w']) && MappedAll(m, [x]) == Some([x'])
  {
    hide Mapped;
    var v', w', x' := Mapped(m, v).value, Mapped(m, w).value, Mapped(m, x).value;
    assert MappedAll(m, [v, w, x]).value == [v', w', x'];
    assert MappedAll(m, [x, v, w]).value == [x', v', w'];
    assert MappedAll(m, [v, x]).value == [v', x'];
    assert MappedAll(m, [v, w]).value == [v', w'];
    assert MappedAll(m, [x]).value == [x'];
  }

  lemma FilledMeans(y: Operand)
    ensures IsPoison(y) <==> y.Constant? && y.c.Words? && forall k :: 0 <= k < |y.c.words| ==> y.c.words[k] == Poison
    ensures IsUndef(y) <==> y.Constant? && y.c.Words? && forall k :: 0 <= k < |y.c.words| ==> y.c.words[k] == Undef
  {
  }

  lemma LoweredIfConverted(fold: Folder, m: Mapping, n: nat, i: Instruction)
    ensures Lower(fold, m, n, i).Some? <==> Converted(m, i).Some?
  {
  }

  lemma PhiIsKept(fold: Folder, m: Mapping, n: nat, i: Instruction)
    requires i.Phi? && Lower(fold, m, n, i).Some?
    ensures Lower(fold, m, n, i).value.operand == Ref(Result(n))
  {
  }

  /** What is visited later does not change how the operands of an instruction are mapped. */
  lemma EarlierOperands(body: seq<Instruction>, below: Below, m: Mapping, later: Mapping, n: nat)
    requires Dominated(body, below) && n < |body| && !body[n].Phi?
    requires n <= |m| <= |later| <= |body| && later[..|m|] == m
    ensures forall x :: x in Operands(body[n]) ==> Mapped(m, x) == Mapped(later, x)
  {
    hide Operands;
    forall x | x in Operands(body[n])
      ensures Mapped(m, x) == Mapped(later, x)
    {
      if x.Ref? && x.id.Result? && x.id.n < |body| {
        assert x == Ref(Result(x.id.n));
        var k := x.id.n;
        assert Uses(body, body[n], k);
        assert m[k] == later[..|m|][k];
      }
    }
  }

  // ----- simulation -----

  /** Operands refer to results, and constants have the types that the flags say. */
  predicate Fits(x: Operand, i1: bool)
  {
    match x
    case Ref(id) => id.Result?
    case Constant(c) => if i1 then c.Bools? else !c.Bools?
  }

  predicate WellTyped(i: Instruction)
  {
    match i
    case InsertElement(v, e, x, i1) => Fits(v, i1) && Fits(e, false) && Fits(x, false)
    case ExtractElement(v, x, i1) => Fits(v, i1) && Fits(x, false)
    case ShuffleVector(v, w, _, i1) => Fits(v, i1) && Fits(w, i1)
    case Select(c, v, w, i1) => Fits(c, false) && Fits(v, i1) && Fits(w, i1)
    case Phi(incoming, i1) => forall k :: 0 <= k < |incoming| ==> Fits(incoming[k], i1)
    case Load(p, _, _) => Fits(p, false)
    case Store(d, p, i1) => Fits(d, i1) && Fits(p, false)
    case Branch(c) => Fits(c, false)
    case Other(_, args) => forall k :: 0 <= k < |args| ==> Fits(args[k], false)
    case _ => false
  }

  predicate RelatedAll(v: seq<Value>, w: seq<Value>)
  {
    |v| == |w| && forall k :: 0 <= k < |v| ==> Related(v[k], w[k]) && !v[k].Unset? && !v[k].Bools?
  }

  /** The other instructions work on more defined operands as well, and have nothing to do with i1 vectors. */
  ghost predicate Monotone(sem: Semantics)
  {
    forall op: nat, v: seq<Value>, w: seq<Value> :: RelatedAll(v, w) ==> Related(sem(op, v), sem(op, w))
  }

  /** A lowered function, as the pass gets it and as it leaves it. */
  datatype Lowering = Lowering(body: seq<Instruction>, below: Below, m: Mapping, program: seq<Code>)

  ghost predicate Valid(fold: Folder, l: Lowering)
  {
    && SoundFolder(fold) && Dominated(l.body, l.below) && IsLowered(fold, l.body, l.m, l.program)
    && forall n :: 0 <= n < |l.body| ==> WellTyped(l.body[n])
  }

  ghost predicate EnvRelated(m: Mapping, env: Env, later: Env)
  {
    forall n: nat :: Related(Eval(env, Ref(Result(n))), Eval(later, MappedResult(m, n)))
  }

  ghost predicate StateRelated(m: Mapping, st: State, later: State)
  {
    && EnvRelated(m, st.env, later.env)
    && forall a :: a in st.memory ==> a in later.memory && Related(st.memory[a], later.memory[a])
  }

  /** Being more defined is transitive, and constants represent themselves. */
  lemma RelatedTransitive(v: Value, w: Value, x: Value)
    requires Related(v, w) && Related(w, x)
    ensures !w.Bools? ==> Related(v, x)
  {
  }

  lemma OperandRelated(m: Mapping, env: Env, later: Env, x: Operand, i1: bool)
    requires EnvRelated(m, env, later) && Fits(x, i1) && Mapped(m, x).Some?
    ensures Related(Eval(env, x), Eval(later, Mapped(m, x).value))
  {
  }

  /** What the result of an instruction is mapped to: a constant, its own replacement, an argument, or the replacement of a
      dominating instruction, which happens when a select is dropped. */
  predicate Settled(m: Mapping, below: Below, n: nat)
    requires |m| == |below| && n < |m|
  {
    m[n].Ref? ==> m[n].id.Result? && (m[n].id.n < |m| ==> m[n].id.n == n || n in below[m[n].id.n])
  }

  lemma {:induction false} MappingSettled(fold: Folder, l: Lowering, n: nat)
    requires Valid(fold, l) && n < |l.body|
    ensures |l.m| == |l.below| && Settled(l.m, l.below, n)
    decreases n
  {
    hide SoundFolder;
    var i := l.body[n];
    assert Lower(fold, l.m, n, i) == Some(Built(l.m[n], l.program[n])) && WellTyped(i);
    if i.Select? && i.i1 {
      var j := Converted(l.m, i).value;
      assert j.onTrue == Mapped(l.m, i.onTrue).value && j.onFalse == Mapped(l.m, i.onFalse).value;
      forall x | x in [i.onTrue, i.onFalse] && x.Ref? && x.id.n < |l.body|
        ensures x.id.n < n && n in l.below[x.id.n] && Settled(l.m, l.below, x.id.n)
      {
        assert x == Ref(Result(x.id.n)) && x in Operands(i);
        assert Uses(l.body, i, x.id.n);
        MappingSettled(fold, l, x.id.n);
      }
    }
  }

  lemma EvalForgotten(env: Env, dead: set<nat>, x: Operand)
    ensures Eval(Forget(env, dead), x) == if x.Ref? && x.id.Result? && x.id.n in dead then Unset else Eval(env, x)
  {
  }

  /** What an instruction that is not forgotten is mapped to is not forgotten either. */
  lemma MappedSurvives(fold: Folder, l: Lowering, n: nat, r: nat)
    requires Valid(fold, l) && n < |l.below| && r !in l.below[n]
    ensures var x := MappedResult(l.m, r); x.Ref? && x.id.Result? ==> x.id.n !in l.below[n]
  {
    assert |l.m| == |l.body| == |l.below|;
    hide SoundFolder;
    hide IsLowered;
    hide WellTyped;
    if r < |l.body| {
      MappingSettled(fold, l, r);
      if l.m[r].Ref? && l.m[r].id.n in l.below[n] {
        BelowIsTransitive(l.body, l.below, n, l.m[r].id.n, r);
      }
    }
  }

  lemma BelowIsTransitive(body: seq<Instruction>, below: Below, n: nat, k: nat, r: nat)
    requires Dominated(body, below) && n < |below| && k in below[n]
    ensures k < |below| && (r in below[k] ==> r in below[n])
  {
  }

  /** Both states forget the results that an instruction dominates. */
  lemma ForgottenRelated(fold: Folder, l: Lowering, env: Env, later: Env, n: nat)
    requires Valid(fold, l) && EnvRelated(l.m, env, later) && n < |l.below|
    ensures EnvRelated(l.m, Forget(env, l.below[n]), Forget(later, l.below[n]))
  {
    hide Valid;
    hide Eval;
    hide Forget;
    hide Related;
    hide MappedResult;
    var dead := l.below[n];
    forall r: nat
      ensures Related(Eval(Forget(env, dead), Ref(Result(r))), Eval(Forget(later, dead), MappedResult(l.m, r)))
    {
      EvalForgotten(env, dead, Ref(Result(r)));
      EvalForgotten(later, dead, MappedResult(l.m, r));
      if r in dead {
        UnsetIsRelated(Eval(Forget(later, dead), MappedResult(l.m, r)));
      } else {
        MappedSurvives(fold, l, n, r);
      }
    }
  }

  lemma UnsetIsRelated(w: Value)
    ensures Related(Unset, w)
  {
  }

  /** The environments differ only in the values that instruction `n` defines. */
  ghost predicate Except(env: Env, later: Env, n: nat)
  {
    forall id: Id :: id.n != n ==> Eval(env, Ref(id)) == Eval(later, Ref(id))
  }

  /** Instruction `n` gets a new value, after what it dominates has been forgotten. */
  lemma AssignedRelated(fold: Folder, l: Lowering, env: Env, later: Env, after: Env, n: nat, v: Value)
    requires Valid(fold, l) && EnvRelated(l.m, env, later) && n < |l.body|
    requires forall r :: r in l.below[n] ==> Result(r) !in env
    requires Except(later, after, n) && Related(v, Eval(after, l.m[n]))
    ensures EnvRelated(l.m, env[Result(n) := v], after)
  {
    assert |l.m| == |l.body| == |l.below|;
    hide SoundFolder;
    hide IsLowered;
    hide Related;
    var updated := env[Result(n) := v];
    forall r: nat
      ensures Related(Eval(updated, Ref(Result(r))), Eval(after, MappedResult(l.m, r)))
    {
      if r != n {
        assert Related(Eval(env, Ref(Result(r))), Eval(later, MappedResult(l.m, r)));
        if r in l.below[n] {
          UnsetIsRelated(Eval(after, MappedResult(l.m, r)));
        } else if r < |l.body| {
          MappingSettled(fold, l, r);
        }
      }
    }
  }

  /** Building an instruction leads to a value that is as defined as the result of the instruction. */
  lemma Creates(sem: Semantics, fold: Folder, later: State, id: Id, i: Instruction, v: Value, taken: bool)
    requires SoundFolder(fold) && Buildable(i) && Related(v, Compute(sem, later, i))
    ensures var b := Create(fold, id, i);
            var r := ExecuteAll(sem, later, b.code, taken);
            && r.Some? && r.value.memory == later.memory && Except(later.env, r.value.env, id.n)
            && (forall x: Operand :: x != Ref(id) ==> Eval(r.value.env, x) == Eval(later.env, x))
            && Related(v, Eval(r.value.env, b.operand))
  {
    hide Related;
    if fold(i).Some? {
      assert Related(Compute(sem, later, i), fold(i).value);
      BuildsNoBools(sem, later, i);
      RelatedTransitive(v, Compute(sem, later, i), fold(i).value);
    }
  }

  lemma BuildsNoBools(sem: Semantics, st: State, i: Instruction)
    requires Buildable(i)
    ensures !Compute(sem, st, i).Bools?
  {
  }

  /** Code after code. */
  lemma {:induction false} ExecutesBoth(sem: Semantics, st: State, first: Code, second: Code, taken: bool)
    ensures ExecuteAll(sem, st, first + second, taken) ==
            var mid := ExecuteAll(sem, st, first, taken);
            if mid.Some? then ExecuteAll(sem, mid.value, second, taken) else None
    decreases |first|
  {
    if first == [] {
      assert first + second == second;
    } else {
      assert (first + second)[1..] == first[1..] + second;
      if Allowed(st, first[0].1, taken) {
        ExecutesBoth(sem, ExecuteOne(sem, st, first[0].0, first[0].1, taken), first[1..], second, taken);
      }
    }
  }

  /** Where control may pass an instruction, it may pass its replacement, and the states stay related. */
  ghost predicate Simulates(sem: Semantics, l: Lowering, st: State, later: State, n: nat, taken: bool)
    requires n < |l.body| == |l.program|
  {
    Allowed(st, l.body[n], taken) ==>
      var r := ExecuteAll(sem, later, l.program[n], taken);
      r.Some? && StateRelated(l.m, ExecuteOne(sem, st, Result(n), l.body[n], taken), r.value)
  }

  /** Related states in which the results that instruction `n` dominates are forgotten. */
  ghost predicate Before(fold: Folder, l: Lowering, st: State, later: State, n: nat)
  {
    && Valid(fold, l) && StateRelated(l.m, st, later)
    && n < |l.body| == |l.program| == |l.below| == |l.m| && forall r :: r in l.below[n] ==> Result(r) !in st.env
  }

  /** The replacement leaves a value that is as defined as the result. */
  ghost predicate Replaces(sem: Semantics, l: Lowering, st: State, later: State, n: nat, taken: bool)
    requires n < |l.body| == |l.program| == |l.m| && !l.body[n].Phi?
  {
    var r := ExecuteAll(sem, later, l.program[n], taken);
    r.Some? && r.value.memory == later.memory && Except(later.env, r.value.env, n) &&
    Related(Compute(sem, st, l.body[n]), Eval(r.value.env, l.m[n]))
  }

  lemma ReplacedSimulates(sem: Semantics, fold: Folder, l: Lowering, st: State, later: State, n: nat, taken: bool)
    requires Before(fold, l, st, later, n) && !l.body[n].Phi? && !l.body[n].Store?
    requires Replaces(sem, l, st, later, n, taken)
    ensures Simulates(sem, l, st, later, n, taken)
  {
    hide Valid;
    hide Related;
    hide Compute;
    hide ExecuteAll;
    hide EnvRelated;
    if Allowed(st, l.body[n], taken) {
      var after := ExecuteAll(sem, later, l.program[n], taken).value;
      AssignedRelated(fold, l, st.env, later.env, after.env, n, Compute(sem, st, l.body[n]));
    }
  }

  /** The operand number `k` of an instruction and what it is mapped to. */
  lemma ConvertedOperand(fold: Folder, l: Lowering, st: State, later: State, n: nat, k: nat, i1: bool)
    requires Valid(fold, l) && EnvRelated(l.m, st.env, later.env) && n < |l.body|
    requires k < |Operands(l.body[n])| && Fits(Operands(l.body[n])[k], i1) && Converted(l.m, l.body[n]).Some?
    ensures |Operands(Converted(l.m, l.body[n]).value)| == |Operands(l.body[n])|
    ensures var x := Operands(Converted(l.m, l.body[n]).value)[k];
            Related(Eval(st.env, Operands(l.body[n])[k]), Eval(later.env, x)) && (x.Ref? ==> x.id.Result?)
  {
    var x := Operands(l.body[n])[k];
    assert |l.m| == |l.body|;
    hide Related;
    hide EnvRelated;
    OperandRelated(l.m, st.env, later.env, x, i1);
    if x.Ref? && x.id.n < |l.m| {
      MappingSettled(fold, l, x.id.n);
    }
    hide Valid;
  }

  lemma LoweredTo(fold: Folder, l: Lowering, n: nat)
    requires Valid(fold, l) && n < |l.body|
    ensures |l.program| == |l.m| == |l.body| && WellTyped(l.body[n]) && Converted(l.m, l.body[n]).Some?
    ensures Lower(fold, l.m, n, l.body[n]) == Some(Built(l.m[n], l.program[n]))
  {
    hide SoundFolder;
    hide Dominated;
    hide WellTyped;
    hide Converted;
  }

  lemma InsertedRelated(v: Value, e: Value, x: Value, v': Value, e': Value, x': Value)
    requires Related(v, v') && Related(x, x')
    requires e.Single? && !e.s.Word? ==> e'.Single? && RefinesExtended(e.s, e'.s)
    ensures Related(Inserted(v, e, x, true), Inserted(v', e', x', false))
  {
  }

  /** Any value as defined as the zero-extension of an element takes its place. */
  lemma ExtendedRelated(sem: Semantics, st: State, e: Value, x: Operand, z: Value)
    requires Related(e, Eval(st.env, x)) && Related(Compute(sem, st, ZExt(x)), z)
    ensures e.Single? && !e.s.Word? ==> z.Single? && RefinesExtended(e.s, z.s)
  {
  }

  lemma InsertElementSimulated(sem: Semantics, fold: Folder, l: Lowering, st: State, later: State, n: nat, taken: bool)
    requires Before(fold, l, st, later, n) && l.body[n].InsertElement? && l.body[n].i1
    ensures Replaces(sem, l, st, later, n, taken)
  {
    hide Related;
    LoweredTo(fold, l, n);
    var i := l.body[n];
    var j := Converted(l.m, i).value;
    ConvertedOperand(fold, l, st, later, n, 0, true);
    ConvertedOperand(fold, l, st, later, n, 1, false);
    ConvertedOperand(fold, l, st, later, n, 2, false);
    hide EnvRelated;
    hide Converted;
    assert SoundFolder(fold);
    hide Valid;
    hide SoundFolder;
    hide Inserted;
    var first := ZExt(j.element);
    SelfRelated(sem, later, first);
    Creates(sem, fold, later, Temporary(n), first, Compute(sem, later, first), taken);
    var extended := Create(fold, Temporary(n), first);
    var mid := ExecuteAll(sem, later, extended.code, taken).value;
    ExtendedRelated(sem, later, Eval(st.env, i.element), j.element, Eval(mid.env, extended.operand));
    var second := j.(element := extended.operand);
    InsertedRelated(Eval(st.env, i.vector), Eval(st.env, i.element), Eval(st.env, i.index),
                    Eval(mid.env, j.vector), Eval(mid.env, extended.operand), Eval(mid.env, j.index));
    Creates(sem, fold, mid, Result(n), second, Compute(sem, st, i), taken);
    ExecutesBoth(sem, later, extended.code, Create(fold, Result(n), second).code, taken);
  }

  lemma SelfRelated(sem: Semantics, st: State, i: Instruction)
    requires Buildable(i)
    ensures Related(Compute(sem, st, i), Compute(sem, st, i))
  {
  }

  lemma ExtractedRelated(v: Value, x: Value, v': Value, x': Value, z: Value)
    requires Related(v, v') && Related(x, x') && Related(Extracted(v', x', false), z)
    ensures Related(Extracted(v, x, true), if z.Single? then Single(Truncated(z.s)) else Unset)
  {
  }

  lemma ExtractElementSimulated(sem: Semantics, fold: Folder, l: Lowering, st: State, later: State, n: nat, taken: bool)
    requires Before(fold, l, st, later, n) && l.body[n].ExtractElement? && l.body[n].i1
    ensures Replaces(sem, l, st, later, n, taken)
  {
    hide Related;
    LoweredTo(fold, l, n);
    var i := l.body[n];
    var j := Converted(l.m, i).value;
    ConvertedOperand(fold, l, st, later, n, 0, true);
    ConvertedOperand(fold, l, st, later, n, 1, false);
    hide EnvRelated;
    hide Converted;
    assert SoundFolder(fold);
    hide Valid;
    hide SoundFolder;
    hide Extracted;
    SelfRelated(sem, later, j);
    Creates(sem, fold, later, Temporary(n), j, Compute(sem, later, j), taken);
    var extracted := Create(fold, Temporary(n), j);
    var mid := ExecuteAll(sem, later, extracted.code, taken).value;
    ExtractedRelated(Eval(st.env, i.vector), Eval(st.env, i.index), Eval(later.env, j.vector), Eval(later.env, j.index),
                     Eval(mid.env, extracted.operand));
    var second := Trunc(extracted.operand);
    assert Compute(sem, mid, second) ==
           var z := Eval(mid.env, extracted.operand); if z.Single? then Single(Truncated(z.s)) else Unset;
    hide Compute;
    Creates(sem, fold, mid, Result(n), second, Compute(sem, st, i), taken);
    ExecutesBoth(sem, later, extracted.code, Create(fold, Result(n), second).code, taken);
  }

  lemma ShuffledRelated(v: Value, w: Value, mask: seq<int>, i1: bool, v': Value, w': Value)
    requires Related(v, v') && Related(w, w')
    ensures Related(Shuffled(v, w, mask, i1), Shuffled(v', w', mask, false))
  {
  }

  lemma ShuffleVectorSimulated(sem: Semantics, fold: Folder, l: Lowering, st: State, later: State, n: nat, taken: bool)
    requires Before(fold, l, st, later, n) && l.body[n].ShuffleVector? && l.body[n].i1
    ensures Replaces(sem, l, st, later, n, taken)
  {
    hide Related;
    LoweredTo(fold, l, n);
    var i := l.body[n];
    var j := Converted(l.m, i).value;
    ConvertedOperand(fold, l, st, later, n, 0, true);
    ConvertedOperand(fold, l, st, later, n, 1, true);
    hide EnvRelated;
    assert SoundFolder(fold);
    hide Valid;
    hide SoundFolder;
    hide Shuffled;
    ShuffledRelated(Eval(st.env, i.left), Eval(st.env, i.right), i.mask, true, Eval(later.env, j.left), Eval(later.env, j.right));
    Creates(sem, fold, later, Result(n), j, Compute(sem, st, i), taken);
  }

  // Instructions that stay, on the mapped operands.

  lemma PlainInsertedRelated(v: Value, e: Value, x: Value, v': Value, e': Value, x': Value)
    requires Related(v, v') && Related(e, e') && Related(x, x')
    ensures Related(Inserted(v, e, x, false), Inserted(v', e', x', false))
  {
  }

  lemma PlainExtractedRelated(v: Value, x: Value, v': Value, x': Value)
    requires Related(v, v') && Related(x, x')
    ensures Related(Extracted(v, x, false), Extracted(v', x', false))
  {
  }

  lemma SelectedRelated(c: Value, v: Value, w: Value, i1: bool, c': Value, v': Value, w': Value)
    requires Related(c, c') && Related(v, v') && Related(w, w')
    ensures Related(Selected(c, v, w, i1), Selected(c', v', w', false))
  {
  }

  lemma LoadedRelated(memory: Memory, later: Memory, p: Value, count: nat, i1: bool, p': Value)
    requires forall a :: a in memory ==> a in later && Related(memory[a], later[a])
    requires IsAddress(p) && Related(p, p')
    ensures Related(Loaded(memory, p, count, i1), Loaded(later, p', count, false))
  {
  }

  lemma OtherRelated(sem: Semantics, op: nat, v: seq<Value>, w: seq<Value>)
    requires Monotone(sem) && |v| == |w| && forall k :: 0 <= k < |v| ==> Related(v[k], w[k])
    ensures (forall k :: 0 <= k < |v| ==> !v[k].Unset? && !v[k].Bools?) ==>
              (forall k :: 0 <= k < |w| ==> !w[k].Unset? && !w[k].Bools?) && Related(sem(op, v), sem(op, w))
  {
    if forall k :: 0 <= k < |v| ==> !v[k].Unset? && !v[k].Bools? {
      assert RelatedAll(v, w);
    }
  }

  /** An instruction that is visited without being replaced by others. */
  predicate Stays(i: Instruction)
  {
    i.Load? || i.Branch? || i.Other? || ((i.InsertElement? || i.ExtractElement? || i.ShuffleVector? || i.Select?) && !i.i1)
  }

  /** The operands of an instruction are represented by those of another one of its kind. */
  ghost predicate OperandsRelated(st: State, later: State, i: Instruction, j: Instruction)
  {
    && |Operands(i)| == |Operands(j)| && j == WithOperands(i, Operands(j))
    && forall k :: 0 <= k < |Operands(i)| ==> Related(Eval(st.env, Operands(i)[k]), Eval(later.env, Operands(j)[k]))
  }

  lemma StayingComputes(sem: Semantics, st: State, later: State, i: Instruction, j: Instruction, taken: bool)
    requires Monotone(sem) && OperandsRelated(st, later, i, j) && Stays(i) && Allowed(st, i, taken)
    requires forall a :: a in st.memory ==> a in later.memory && Related(st.memory[a], later.memory[a])
    ensures !j.Phi? && !j.Store? && Allowed(later, j, taken) && Related(Compute(sem, st, i), Compute(sem, later, j))
  {
    hide Monotone;
    hide Related;
    hide Inserted;
    hide Extracted;
    hide Shuffled;
    hide Selected;
    hide Loaded;
    var xs, ys := Operands(i), Operands(j);
    forall k | 0 <= k < |xs|
      ensures Related(Eval(st.env, xs[k]), Eval(later.env, ys[k]))
    {
    }
    match i
    case InsertElement(_, _, _, _) =>
      PlainInsertedRelated(Eval(st.env, xs[0]), Eval(st.env, xs[1]), Eval(st.env, xs[2]),
                           Eval(later.env, ys[0]), Eval(later.env, ys[1]), Eval(later.env, ys[2]));
    case ExtractElement(_, _, _) =>
      PlainExtractedRelated(Eval(st.env, xs[0]), Eval(st.env, xs[1]), Eval(later.env, ys[0]), Eval(later.env, ys[1]));
    case ShuffleVector(_, _, _, _) =>
      ShuffledRelated(Eval(st.env, xs[0]), Eval(st.env, xs[1]), i.mask, false, Eval(later.env, ys[0]), Eval(later.env, ys[1]));
    case Select(_, _, _, _) =>
      SelectedRelated(Eval(st.env, xs[0]), Eval(st.env, xs[1]), Eval(st.env, xs[2]), false,
                      Eval(later.env, ys[0]), Eval(later.env, ys[1]), Eval(later.env, ys[2]));
    case Load(_, _, _) =>
      LoadedRelated(st.memory, later.memory, Eval(st.env, xs[0]), i.count, i.i1, Eval(later.env, ys[0]));
      AddressRelated(Eval(st.env, xs[0]), Eval(later.env, ys[0]));
    case Branch(_) =>
      BitRelated(taken, Eval(later.env, ys[0]));
      UnsetIsRelated(Unset);
    case Other(op, args) =>
      OtherRelated(sem, op, EvalAll(st.env, args), EvalAll(later.env, j.args));
      UnsetIsRelated(Compute(sem, later, j));
  }

  lemma AddressRelated(v: Value, w: Value)
    requires IsAddress(v) && Related(v, w)
    ensures w == v
  {
  }

  lemma BitRelated(b: bool, w: Value)
    ensures Related(Single(Bit(b)), w) ==> w == Single(Bit(b))
  {
  }

  lemma ConvertedOperands(fold: Folder, l: Lowering, st: State, later: State, n: nat)
    requires Before(fold, l, st, later, n) && (Stays(l.body[n]) || (l.body[n].Store? && !l.body[n].i1))
    requires Converted(l.m, l.body[n]).Some?
    ensures OperandsRelated(st, later, l.body[n], Converted(l.m, l.body[n]).value)
  {
    LoweredTo(fold, l, n);
    hide EnvRelated;
    hide Valid;
    hide Related;
    var i := l.body[n];
    var j := Converted(l.m, i).value;
    assert j == WithOperands(i, Operands(j));
    assert |Operands(i)| == |Operands(j)|;
    forall k: nat | k < |Operands(i)|
      ensures Related(Eval(st.env, Operands(i)[k]), Eval(later.env, Operands(j)[k]))
    {
      assert Fits(Operands(i)[k], false);
      ConvertedOperand(fold, l, st, later, n, k, false);
    }
  }

  lemma AloneReplaces(sem: Semantics, l: Lowering, st: State, later: State, n: nat, j: Instruction, taken: bool)
    requires n < |l.body| == |l.program| == |l.m| && !l.body[n].Phi? && l.program[n] == Alone(n, j) && l.m[n] == Ref(Result(n))
    requires !j.Phi? && !j.Store? && Allowed(later, j, taken) && Related(Compute(sem, st, l.body[n]), Compute(sem, later, j))
    ensures Replaces(sem, l, st, later, n, taken)
  {
    hide Related;
    hide Compute;
    var after := ExecuteOne(sem, later, Result(n), j, taken);
    assert ExecuteAll(sem, later, l.program[n], taken) == ExecuteAll(sem, after, [], taken);
  }

  lemma StayingSimulated(sem: Semantics, fold: Folder, l: Lowering, st: State, later: State, n: nat, taken: bool)
    requires Monotone(sem) && Before(fold, l, st, later, n) && Stays(l.body[n])
    ensures Simulates(sem, l, st, later, n, taken)
  {
    if Allowed(st, l.body[n], taken) {
      LoweredTo(fold, l, n);
      var j := Converted(l.m, l.body[n]).value;
      assert Lower(fold, l.m, n, l.body[n]) == Some(Kept(n, j));
      ConvertedOperands(fold, l, st, later, n);
      assert forall a :: a in st.memory ==> a in later.memory && Related(st.memory[a], later.memory[a]);
      hide Before;
      hide Monotone;
      hide Converted;
      hide Lower;
      hide Related;
      hide Compute;
      hide OperandsRelated;
      StayingComputes(sem, st, later, l.body[n], j, taken);
      AloneReplaces(sem, l, st, later, n, j, taken);
      ReplacedSimulates(sem, fold, l, st, later, n, taken);
    }
  }

  lemma StoreSimulated(sem: Semantics, fold: Folder, l: Lowering, st: State, later: State, n: nat, taken: bool)
    requires Before(fold, l, st, later, n) && l.body[n].Store?
    ensures Simulates(sem, l, st, later, n, taken)
  {
    var i := l.body[n];
    if Allowed(st, i, taken) {
      LoweredTo(fold, l, n);
      var j := Converted(l.m, i).value;
      assert Lower(fold, l.m, n, i) == Some(Kept(n, j));
      ConvertedOperand(fold, l, st, later, n, 0, i.i1);
      ConvertedOperand(fold, l, st, later, n, 1, false);
      AddressRelated(Eval(st.env, i.pointer), Eval(later.env, j.pointer));
      hide Before;
      hide EnvRelated;
      hide Converted;
      hide Related;
      var after := ExecuteOne(sem, later, Result(n), j, taken);
      assert ExecuteAll(sem, later, l.program[n], taken) == ExecuteAll(sem, after, [], taken);
    }
  }

  // ----- selects -----

  /** Some lane is undef where the value in its place is poison. */
  predicate UndefMeetsPoison(v: Value, x: Value)
  {
    v.Bools? && x.Words? && |v.bits| == |x.words| && exists k :: 0 <= k < |v.bits| && v.bits[k] == Undef && x.words[k] == Poison
  }

  /** A select of i1 vectors is dropped because one operand is mapped to undef; the condition takes this side; and the other
      operand, which remains, has a poison lane where an undef lane has been selected. */
  predicate Unfaithful(m: Mapping, i: Instruction, st: State, later: State)
  {
    i.Select? && i.i1 && Converted(m, i).Some? &&
    var j := Converted(m, i).value;
    var c := Eval(st.env, i.condition);
    var selected := Selected(c, Eval(st.env, i.onTrue), Eval(st.env, i.onFalse), true);
    if IsUndef(j.onTrue) then c == Single(Bit(true)) && UndefMeetsPoison(selected, Eval(later.env, j.onFalse))
    else
      !IsPoison(j.onTrue) && IsUndef(j.onFalse) &&
      c == Single(Bit(false)) && UndefMeetsPoison(selected, Eval(later.env, j.onTrue))
  }

  /** The same with a poison lane in the original program. */
  predicate LosesUndef(m: Mapping, i: Instruction, st: State)
  {
    i.Select? && i.i1 && Converted(m, i).Some? &&
    var j := Converted(m, i).value;
    var c, v, w := Eval(st.env, i.condition), Eval(st.env, i.onTrue), Eval(st.env, i.onFalse);
    v.Bools? && w.Bools? && |v.bits| == |w.bits| &&
    if IsUndef(j.onTrue) then
      c == Single(Bit(true)) && exists k :: 0 <= k < |v.bits| && v.bits[k] == Undef && w.bits[k] == Poison
    else
      !IsPoison(j.onTrue) && IsUndef(j.onFalse) &&
      c == Single(Bit(false)) && exists k :: 0 <= k < |v.bits| && v.bits[k] == Poison && w.bits[k] == Undef
  }

  /** Replacing a select by its second operand, because the first one is represented by undef or poison. */
  lemma SecondRemains(c: Value, v: Value, w: Value, t: Operand, x: Value)
    requires (IsUndef(t) || IsPoison(t)) && Related(v, t.c) && Related(w, x)
    ensures Related(Selected(c, v, w, true), x) <==>
            !(IsUndef(t) && c == Single(Bit(true)) && UndefMeetsPoison(Selected(c, v, w, true), x))
  {
  }

  lemma FirstRemains(c: Value, v: Value, w: Value, f: Operand, x: Value)
    requires (IsUndef(f) || IsPoison(f)) && Related(v, x) && Related(w, f.c)
    ensures Related(Selected(c, v, w, true), x) <==>
            !(IsUndef(f) && c == Single(Bit(false)) && UndefMeetsPoison(Selected(c, v, w, true), x))
  {
  }

  lemma SameRemains(c: Value, v: Value, w: Value, x: Value)
    requires Related(v, x) && Related(w, x)
    ensures Related(Selected(c, v, w, true), x)
  {
  }

  /** What takes the place of a select represents it unless the select is unfaithful. */
  lemma SelectReplaced(sem: Semantics, fold: Folder, l: Lowering, st: State, later: State, n: nat, taken: bool)
    requires Before(fold, l, st, later, n) && l.body[n].Select? && l.body[n].i1
    ensures Replaces(sem, l, st, later, n, taken) <==> !Unfaithful(l.m, l.body[n], st, later)
    ensures ExecuteAll(sem, later, l.program[n], taken).Some?
    ensures Unfaithful(l.m, l.body[n], st, later) ==>
              l.program[n] == [] && !Related(Compute(sem, st, l.body[n]), Eval(later.env, l.m[n]))
  {
    LoweredTo(fold, l, n);
    var i := l.body[n];
    var j := Converted(l.m, i).value;
    ConvertedOperand(fold, l, st, later, n, 0, false);
    ConvertedOperand(fold, l, st, later, n, 1, true);
    ConvertedOperand(fold, l, st, later, n, 2, true);
    assert SoundFolder(fold);
    hide Before;
    hide SoundFolder;
    hide EnvRelated;
    hide Converted;
    hide Selected;
    hide Related;
    hide UndefMeetsPoison;
    var c, v, w := Eval(st.env, i.condition), Eval(st.env, i.onTrue), Eval(st.env, i.onFalse);
    var built := VisitSelect(fold, n, j);
    assert l.m[n] == built.operand && l.program[n] == built.code;
    if IsPoison(j.onTrue) || IsUndef(j.onTrue) {
      SecondRemains(c, v, w, j.onTrue, Eval(later.env, j.onFalse));
    } else if IsPoison(j.onFalse) || IsUndef(j.onFalse) {
      FirstRemains(c, v, w, j.onFalse, Eval(later.env, j.onTrue));
    } else if j.onTrue == j.onFalse {
      SameRemains(c, v, w, Eval(later.env, j.onTrue));
    } else {
      SelectedRelated(c, v, w, true, Eval(later.env, j.condition), Eval(later.env, j.onTrue), Eval(later.env, j.onFalse));
      Creates(sem, fold, later, Result(n), j, Compute(sem, st, i), taken);
    }
  }

  /** One instruction: the states stay related exactly if it is not an unfaithful select. */
  lemma SelectSimulated(sem: Semantics, fold: Folder, l: Lowering, st: State, later: State, n: nat, taken: bool)
    requires Before(fold, l, st, later, n) && l.body[n].Select? && l.body[n].i1
    ensures Simulates(sem, l, st, later, n, taken) <==> !Unfaithful(l.m, l.body[n], st, later)
  {
    SelectReplaced(sem, fold, l, st, later, n, taken);
    if Unfaithful(l.m, l.body[n], st, later) {
      hide Valid;
      hide Related;
      hide Unfaithful;
      var env := st.env[Result(n) := Compute(sem, st, l.body[n])];
      assert Eval(env, Ref(Result(n))) == Compute(sem, st, l.body[n]) && MappedResult(l.m, n) == l.m[n];
      assert ExecuteAll(sem, later, l.program[n], taken) == Some(later);
      assert !EnvRelated(l.m, env, later.env);
    } else {
      ReplacedSimulates(sem, fold, l, st, later, n, taken);
    }
  }

  lemma InstructionSimulated(sem: Semantics, fold: Folder, l: Lowering, st: State, later: State, n: nat, taken: bool)
    requires Monotone(sem) && Before(fold, l, st, later, n)
    ensures Simulates(sem, l, st, later, n, taken) <==> !Unfaithful(l.m, l.body[n], st, later)
  {
    LoweredTo(fold, l, n);
    hide Monotone;
    hide Before;
    hide Replaces;
    hide WellTyped;
    hide Converted;
    hide Lower;
    var i := l.body[n];
    if i.Phi? {
      hide Simulates;
      PhiIsEntered(sem, l, st, later, n, taken);
    } else if i.Store? {
      StoreSimulated(sem, fold, l, st, later, n, taken);
    } else if i.Select? && i.i1 {
      SelectSimulated(sem, fold, l, st, later, n, taken);
    } else if Stays(i) {
      StayingSimulated(sem, fold, l, st, later, n, taken);
    } else if i.InsertElement? {
      InsertElementSimulated(sem, fold, l, st, later, n, taken);
      ReplacedSimulates(sem, fold, l, st, later, n, taken);
    } else if i.ExtractElement? {
      ExtractElementSimulated(sem, fold, l, st, later, n, taken);
      ReplacedSimulates(sem, fold, l, st, later, n, taken);
    } else if i.ShuffleVector? {
      ShuffleVectorSimulated(sem, fold, l, st, later, n, taken);
      ReplacedSimulates(sem, fold, l, st, later, n, taken);
    } else {
      OnlyBuilt(i);
    }
  }

  lemma OnlyBuilt(i: Instruction)
    requires WellTyped(i)
    ensures !i.ZExt? && !i.Trunc?
  {
  }

  lemma PhiIsEntered(sem: Semantics, l: Lowering, st: State, later: State, n: nat, taken: bool)
    requires n < |l.body| == |l.program| && l.body[n].Phi?
    ensures Simulates(sem, l, st, later, n, taken)
  {
  }

  // ----- runs -----

  /** Incoming values are evaluated in the state before any phi of the block. */
  lemma PhiSimulated(fold: Folder, l: Lowering, before: Env, beforeLater: Env, n: nat, pred: nat)
    requires Valid(fold, l) && EnvRelated(l.m, before, beforeLater)
    requires n < |l.body| == |l.program| && IsPhi(Original(l.body)[n], n, pred)
    ensures IsPhi(l.program[n], n, pred) && l.m[n] == Ref(Result(n))
    ensures Related(Eval(before, l.body[n].incoming[pred]), Eval(beforeLater, l.program[n][0].1.incoming[pred]))
  {
    LoweredTo(fold, l, n);
    hide Valid;
    hide EnvRelated;
    hide Related;
    var i := l.body[n];
    var j := Converted(l.m, i).value;
    assert Lower(fold, l.m, n, i) == Some(Kept(n, j));
    OperandRelated(l.m, before, beforeLater, i.incoming[pred], i.i1);
  }

  lemma {:induction false} EnterSimulated(fold: Folder, l: Lowering, before: Env, beforeLater: Env, env: Env, later: Env,
                                          phis: seq<nat>, pred: nat)
    requires Valid(fold, l) && EnvRelated(l.m, before, beforeLater) && EnvRelated(l.m, env, later)
    requires |l.below| == |l.body| == |l.program|
    requires EnterAll(l.below, Original(l.body), before, env, phis, pred).Some?
    ensures var r := EnterAll(l.below, l.program, beforeLater, later, phis, pred);
            r.Some? && EnvRelated(l.m, EnterAll(l.below, Original(l.body), before, env, phis, pred).value, r.value)
    decreases |phis|
  {
    hide Valid;
    hide EnvRelated;
    hide Related;
    if phis != [] {
      var n := phis[0];
      PhiSimulated(fold, l, before, beforeLater, n, pred);
      var v, w := Eval(before, l.body[n].incoming[pred]), Eval(beforeLater, l.program[n][0].1.incoming[pred]);
      var env', later' := Forget(env, l.below[n]), Forget(later, l.below[n]);
      ForgottenRelated(fold, l, env, later, n);
      AssignedRelated(fold, l, env', later', later'[Result(n) := w], n, v);
      EnterSimulated(fold, l, before, beforeLater, env'[Result(n) := v], later'[Result(n) := w], phis[1..], pred);
    }
  }

  /** The event does not execute an unfaithful select. */
  ghost predicate Faithful(l: Lowering, st: State, later: State, event: Event)
    requires |l.below| == |l.body|
  {
    event.Execute? && event.n < |l.body| ==>
      !Unfaithful(l.m, l.body[event.n], Forgotten(st, l.below[event.n]), Forgotten(later, l.below[event.n]))
  }

  lemma NextSimulated(sem: Semantics, fold: Folder, l: Lowering, st: State, later: State, event: Event)
    requires Monotone(sem) && Valid(fold, l) && StateRelated(l.m, st, later)
    requires |l.below| == |l.body| == |l.program| && Next(sem, l.below, Original(l.body), st, event).Some?
    ensures var r := Next(sem, l.below, l.program, later, event);
            r.Some? && StateRelated(l.m, Next(sem, l.below, Original(l.body), st, event).value, r.value) <==> Faithful(l, st, later, event)
  {
    hide Monotone;
    hide EnterAll;
    hide Unfaithful;
    match event
    case Enter(phis, pred) =>
      EnterSimulated(fold, l, st.env, later.env, st.env, later.env, phis, pred);
    case Execute(n, taken) =>
      var before, after := Forgotten(st, l.below[n]), Forgotten(later, l.below[n]);
      assert |l.m| == |l.body|;
      ForgottenRelated(fold, l, st.env, later.env, n);
      hide Valid;
      hide EnvRelated;
      hide Related;
      hide Compute;
      assert Original(l.body)[n] == Alone(n, l.body[n]);
      assert ExecuteAll(sem, before, Original(l.body)[n], taken) ==
             if Allowed(before, l.body[n], taken) then Some(ExecuteOne(sem, before, Result(n), l.body[n], taken)) else None by {
        AloneExecutes(sem, before, n, l.body[n], taken);
      }
      InstructionSimulated(sem, fold, l, before, after, n, taken);
  }

  lemma AloneExecutes(sem: Semantics, st: State, n: nat, i: Instruction, taken: bool)
    ensures ExecuteAll(sem, st, Alone(n, i), taken) ==
            if Allowed(st, i, taken) then Some(ExecuteOne(sem, st, Result(n), i, taken)) else None
  {
  }

  /** As long as the original program runs, the lowered program can follow, with related values and memory after every step. */
  ghost predicate Follows(sem: Semantics, l: Lowering, st: State, later: State, events: seq<Event>)
    requires |l.below| == |l.body| == |l.program|
    decreases |events|
  {
    StateRelated(l.m, st, later) &&
    (events != [] ==>
      var next := Next(sem, l.below, Original(l.body), st, events[0]);
      next.Some? ==>
        var r := Next(sem, l.below, l.program, later, events[0]);
        r.Some? && Follows(sem, l, next.value, r.value, events[1..]))
  }

  /** No step of the run executes an unfaithful select. */
  ghost predicate RunsFaithfully(sem: Semantics, l: Lowering, st: State, later: State, events: seq<Event>)
    requires |l.below| == |l.body| == |l.program|
    decreases |events|
  {
    events != [] ==>
      var next := Next(sem, l.below, Original(l.body), st, events[0]);
      next.Some? ==>
        var r := Next(sem, l.below, l.program, later, events[0]);
        Faithful(l, st, later, events[0]) && (r.Some? ==> RunsFaithfully(sem, l, next.value, r.value, events[1..]))
  }

  /** A run of the original program is followed by the lowered program exactly if it executes no unfaithful select. */
  lemma {:induction false} RunSimulatedExactly(sem: Semantics, fold: Folder, l: Lowering, st: State, later: State, events: seq<Event>)
    requires Monotone(sem) && Valid(fold, l) && StateRelated(l.m, st, later)
    ensures |l.below| == |l.body| == |l.program|
    ensures Follows(sem, l, st, later, events) <==> RunsFaithfully(sem, l, st, later, events)
    decreases |events|
  {
    assert |l.below| == |l.body| == |l.program|;
    hide Monotone;
    hide Valid;
    hide StateRelated;
    hide Faithful;
    hide Next;
    if events != [] {
      var next := Next(sem, l.below, Original(l.body), st, events[0]);
      if next.Some? {
        NextSimulated(sem, fold, l, st, later, events[0]);
        var r := Next(sem, l.below, l.program, later, events[0]);
        if Faithful(l, st, later, events[0]) {
          RunSimulatedExactly(sem, fold, l, next.value, r.value, events[1..]);
        } else {
          assert r.Some? ==> !StateRelated(l.m, next.value, r.value);
        }
      }
    }
  }

  /** In the original run, no select that the pass drops because of an undef operand takes an undef lane from this operand where
      the other one is poison. */
  ghost predicate KeepsUndef(sem: Semantics, l: Lowering, st: State, events: seq<Event>)
    requires |l.below| == |l.body|
    decreases |events|
  {
    events != [] ==>
      var next := Next(sem, l.below, Original(l.body), st, events[0]);
      next.Some? ==>
        && (events[0].Execute? && events[0].n < |l.body| ==>
              !LosesUndef(l.m, l.body[events[0].n], Forgotten(st, l.below[events[0].n])))
        && KeepsUndef(sem, l, next.value, events[1..])
  }

  /** Lanes that are not poison stay so. */
  lemma KeptLanes(side: bool, v: Value, w: Value, x: Value)
    requires v.Bools? && w.Bools? ==> Related(if side then w else v, x)
    ensures UndefMeetsPoison(Selected(Single(Bit(side)), v, w, true), x) ==>
              v.Bools? && w.Bools? && |v.bits| == |w.bits| &&
              exists k :: 0 <= k < |v.bits| && (if side then v.bits[k] == Undef && w.bits[k] == Poison
                                                else v.bits[k] == Poison && w.bits[k] == Undef)
  {
  }

  /** The condition on the original program is the one on both programs if poison has stayed poison in the operands. */
  lemma KeptSelect(m: Mapping, i: Instruction, st: State, later: State)
    requires i.Select? && i.i1 && Converted(m, i).Some?
    requires Related(Eval(st.env, i.onTrue), Eval(later.env, Converted(m, i).value.onTrue))
    requires Related(Eval(st.env, i.onFalse), Eval(later.env, Converted(m, i).value.onFalse))
    ensures Unfaithful(m, i, st, later) ==> LosesUndef(m, i, st)
    ensures PoisonStays(Eval(st.env, i.onTrue), Eval(later.env, Converted(m, i).value.onTrue)) &&
            PoisonStays(Eval(st.env, i.onFalse), Eval(later.env, Converted(m, i).value.onFalse)) ==>
              (Unfaithful(m, i, st, later) <==> LosesUndef(m, i, st))
  {
    var j := Converted(m, i).value;
    assert j.Select?;
    hide Converted;
    hide Related;
    var v, w := Eval(st.env, i.onTrue), Eval(st.env, i.onFalse);
    KeptLanes(true, v, w, Eval(later.env, j.onFalse));
    KeptLanes(false, v, w, Eval(later.env, j.onTrue));
  }

  predicate PoisonStays(v: Value, x: Value)
  {
    v.Bools? ==> x.Words? && |x.words| == |v.bits| && forall k :: 0 <= k < |v.bits| && v.bits[k] == Poison ==> x.words[k] == Poison
  }

  lemma KeptIsFaithful(fold: Folder, l: Lowering, st: State, later: State, event: Event)
    requires Valid(fold, l) && StateRelated(l.m, st, later) && |l.below| == |l.body|
    requires event.Execute? && event.n < |l.body| && !LosesUndef(l.m, l.body[event.n], Forgotten(st, l.below[event.n]))
    ensures Faithful(l, st, later, event)
  {
    var before, after := Forgotten(st, l.below[event.n]), Forgotten(later, l.below[event.n]);
    var i := l.body[event.n];
    if i.Select? && i.i1 {
      ForgottenRelated(fold, l, st.env, later.env, event.n);
      LoweredTo(fold, l, event.n);
      ConvertedOperand(fold, l, before, after, event.n, 1, true);
      ConvertedOperand(fold, l, before, after, event.n, 2, true);
      hide Valid;
      hide StateRelated;
      hide Related;
      hide Forgotten;
      hide Unfaithful;
      hide LosesUndef;
      KeptSelect(l.m, i, before, after);
    }
  }

  /** Every such run of the original program is a run of the lowered one, with related values and memory. */
  lemma {:induction false} RunSimulated(sem: Semantics, fold: Folder, l: Lowering, st: State, later: State, events: seq<Event>)
    requires Monotone(sem) && Valid(fold, l) && StateRelated(l.m, st, later)
    requires |l.below| == |l.body| == |l.program| && KeepsUndef(sem, l, st, events)
    requires Run(sem, l.below, Original(l.body), st, events).Some?
    ensures Follows(sem, l, st, later, events)
    ensures var r := Run(sem, l.below, l.program, later, events);
            r.Some? && StateRelated(l.m, Run(sem, l.below, Original(l.body), st, events).value, r.value)
    decreases |events|
  {
    hide Monotone;
    hide Valid;
    hide StateRelated;
    hide Faithful;
    hide LosesUndef;
    hide Next;
    if events != [] {
      assert Faithful(l, st, later, events[0]) by {
        if events[0].Execute? && events[0].n < |l.body| {
          KeptIsFaithful(fold, l, st, later, events[0]);
        } else {
          EnteringIsFaithful(l, st, later, events[0]);
        }
      }
      NextSimulated(sem, fold, l, st, later, events[0]);
      RunSimulated(sem, fold, l, Next(sem, l.below, Original(l.body), st, events[0]).value,
                   Next(sem, l.below, l.program, later, events[0]).value, events[1..]);
    }
  }

  lemma EnteringIsFaithful(l: Lowering, st: State, later: State, event: Event)
    requires |l.below| == |l.body| && !(event.Execute? && event.n < |l.body|)
    ensures Faithful(l, st, later, event)
  {
  }

  /** Every definite scalar, in particular every extracted element, is the same in the lowered program. */
  lemma ScalarsUnchanged(sem: Semantics, fold: Folder, l: Lowering, st: State, later: State, events: seq<Event>, n: nat)
    requires Monotone(sem) && Valid(fold, l) && StateRelated(l.m, st, later)
    requires |l.below| == |l.body| == |l.program| && KeepsUndef(sem, l, st, events)
    requires Run(sem, l.below, Original(l.body), st, events).Some?
    requires var v := Eval(Run(sem, l.below, Original(l.body), st, events).value.env, Ref(Result(n)));
             v.Single? && (v.s.Bit? || v.s.Word?)
    ensures var r := Run(sem, l.below, l.program, later, events);
            r.Some? && Eval(r.value.env, MappedResult(l.m, n)) ==
                       Eval(Run(sem, l.below, Original(l.body), st, events).value.env, Ref(Result(n)))
  {
    hide Monotone;
    hide Valid;
    hide Run;
    hide Eval;
    RunSimulated(sem, fold, l, st, later, events);
  }

  // ----- a run that loses an undef lane -----

  /** Folding a shuffle of undef vectors, as the instruction builder does. */
  function FoldUndefShuffle(i: Instruction): Option<Value>
  {
    if i.ShuffleVector? && !i.i1 && IsUndef(i.left) && IsUndef(i.right) then Some(Words(Filled(|i.mask|, Undef))) else None
  }

  lemma FoldUndefShuffleIsSound()
    ensures SoundFolder(FoldUndefShuffle)
  {
  }

  /** A shuffle of undef vectors, a select between it and the argument, and the extraction of the first lane.  The select takes
      the shuffle, which is its second operand if `flipped`. */
  function LosingBody(flipped: bool): seq<Instruction>
  {
    var undef := Constant(Bools([Undef, Undef]));
    var condition := Constant(Single(Bit(!flipped)));
    var shuffled, argument := Ref(Result(0)), Ref(Result(3));
    [ShuffleVector(undef, undef, [0, 1], true),
     if flipped then Select(condition, argument, shuffled, true) else Select(condition, shuffled, argument, true),
     ExtractElement(Ref(Result(1)), Constant(Single(Word(0))), true)]
  }

  function LosingLowering(flipped: bool): Lowering
  {
    var first := Constant(Single(Word(0)));
    Lowering(LosingBody(flipped), [{1, 2}, {2}, {}],
             [Constant(Words([Undef, Undef])), Ref(Result(3)), Ref(Result(2))],
             [[], [], [(Temporary(2), ExtractElement(Ref(Result(3)), first, false)), (Result(2), Trunc(Ref(Temporary(2))))]])
  }

  /** An argument with a poison lane, before and after the pass. */
  function LosingStart(): State { State(map[Result(3) := Bools([Poison, Bit(true)])], map[]) }

  function LosingLaterStart(): State { State(map[Result(3) := Words([Poison, Word(1)])], map[]) }

  lemma LosingIsDominated(flipped: bool)
    ensures Dominated(LosingBody(flipped), [{1, 2}, {2}, {}])
  {
    var body, below: Below := LosingBody(flipped), [{1, 2}, {2}, {}];
    forall n, k: nat | 0 <= n < |body| && !body[n].Phi? && Uses(body, body[n], k)
      ensures k < n && n in below[k]
    {
      assert n == 1 ==> k == 0;
    }
  }

  lemma LosingIsTyped(flipped: bool)
    ensures |LosingBody(flipped)| == 3 && forall n :: 0 <= n < 3 ==> WellTyped(LosingBody(flipped)[n])
  {
  }

  lemma LosingIsValid(flipped: bool)
    ensures Valid(FoldUndefShuffle, LosingLowering(flipped))
  {
    hide LosingBody;
    hide SoundFolder;
    hide Dominated;
    hide Lower;
    hide WellTyped;
    FoldUndefShuffleIsSound();
    LosingIsDominated(flipped);
    LosingStep(flipped, 0);
    LosingStep(flipped, 1);
    LosingStep(flipped, 2);
    LosingIsTyped(flipped);
  }

  lemma LosingStep(flipped: bool, n: nat)
    requires n < 3
    ensures var l := LosingLowering(flipped); Lower(FoldUndefShuffle, l.m, n, l.body[n]) == Some(Built(l.m[n], l.program[n]))
  {
    var l := LosingLowering(flipped);
    assert Filled(2, Undef) == [Undef, Undef];
    assert Filled(2, Poison)[0] != Undef;
    var undef := Constant(Words([Undef, Undef]));
    var xs := Operands(l.body[n]);
    var ys := MappedAll(l.m, xs).value;
    if n == 0 {
      assert ys == [undef, undef];
    } else if n == 1 {
      assert IsUndef(undef) && !IsPoison(undef);
      assert ys == [Constant(Single(Bit(!flipped)))] + if flipped then [Ref(Result(3)), undef] else [undef, Ref(Result(3))];
    } else {
      assert ys == [Ref(Result(3)), Constant(Single(Word(0)))];
      assert [l.program[2][0]] + [l.program[2][1]] == l.program[2];
    }
  }

  /** The states during the run, before and after the pass. */
  function LosingState(k: nat): State
  {
    var s := LosingStart();
    var undef := Bools([Undef, Undef]);
    if k == 0 then s
    else if k == 1 then s.(env := s.env[Result(0) := undef])
    else if k == 2 then s.(env := s.env[Result(0) := undef][Result(1) := undef])
    else s.(env := s.env[Result(0) := undef][Result(1) := undef][Result(2) := Single(Undef)])
  }

  function LosingLaterState(k: nat): State
  {
    var s := LosingLaterStart();
    if k <= 2 then s else s.(env := s.env[Temporary(2) := Single(Poison)][Result(2) := Single(Poison)])
  }

  /** The states are related at first, and in the end they are not. */
  lemma LosingRelation(flipped: bool)
    ensures StateRelated(LosingLowering(flipped).m, LosingStart(), LosingLaterStart())
    ensures !StateRelated(LosingLowering(flipped).m, LosingState(3), LosingLaterState(3))
  {
    var m := LosingLowering(flipped).m;
    assert !Related(Eval(LosingState(3).env, Ref(Result(2))), Eval(LosingLaterState(3).env, MappedResult(m, 2)));
  }

  lemma LosingOriginal(sem: Semantics, flipped: bool, k: nat)
    requires k < 3
    ensures var l := LosingLowering(flipped);
            Next(sem, l.below, Original(l.body), LosingState(k), Execute(k, false)) == Some(LosingState(k + 1))
  {
    var l := LosingLowering(flipped);
    var st := LosingState(k);
    assert Forgotten(st, l.below[k]) == st;
    AloneExecutes(sem, st, k, l.body[k], false);
    assert Original(l.body)[k] == Alone(k, l.body[k]);
    hide ExecuteAll;
    if k == 0 {
      assert Compute(sem, st, l.body[0]) == Bools([Undef, Undef]);
    }
  }

  lemma LosingLater(sem: Semantics, flipped: bool, k: nat)
    requires k < 3
    ensures var l := LosingLowering(flipped);
            Next(sem, l.below, l.program, LosingLaterState(k), Execute(k, false)) == Some(LosingLaterState(k + 1))
  {
    var l := LosingLowering(flipped);
    var later := LosingLaterState(k);
    assert Forgotten(later, l.below[k]) == later;
    if k == 2 {
      var first, second := l.program[2][0], l.program[2][1];
      var mid := ExecuteOne(sem, later, first.0, first.1, false);
      assert l.program[2] == [first] + [second];
      ExecutesBoth(sem, later, [first], [second], false);
      AloneExecutes(sem, mid, 2, second.1, false);
      assert ExecuteAll(sem, later, [first], false) == ExecuteAll(sem, mid, [], false);
    }
  }

  lemma LosingRun(sem: Semantics, below: Below, program: seq<Code>, s: State, t: State, u: State, v: State)
    requires |below| == |program| && Next(sem, below, program, s, Execute(0, false)) == Some(t)
    requires Next(sem, below, program, t, Execute(1, false)) == Some(u)
    requires Next(sem, below, program, u, Execute(2, false)) == Some(v)
    ensures Run(sem, below, program, s, [Execute(0, false), Execute(1, false), Execute(2, false)]) == Some(v)
  {
    hide Next;
    var events := [Execute(0, false), Execute(1, false), Execute(2, false)];
    assert events[1..] == [Execute(1, false), Execute(2, false)] && events[1..][1..] == [Execute(2, false)];
  }

  /** In both orientations the extracted lane is undef before and poison after the pass. */
  lemma UndefIsLost(sem: Semantics, flipped: bool)
    ensures var l := LosingLowering(flipped);
            var events := [Execute(0, false), Execute(1, false), Execute(2, false)];
            var r := Run(sem, l.below, Original(l.body), LosingStart(), events);
            var s := Run(sem, l.below, l.program, LosingLaterStart(), events);
            && r.Some? && Eval(r.value.env, Ref(Result(2))) == Single(Undef)
            && s.Some? && Eval(s.value.env, MappedResult(l.m, 2)) == Single(Poison)
            && !StateRelated(l.m, r.value, s.value)
  {
    var l := LosingLowering(flipped);
    LosingOriginal(sem, flipped, 0);
    LosingOriginal(sem, flipped, 1);
    LosingOriginal(sem, flipped, 2);
    LosingLater(sem, flipped, 0);
    LosingLater(sem, flipped, 1);
    LosingLater(sem, flipped, 2);
    LosingRun(sem, l.below, Original(l.body), LosingState(0), LosingState(1), LosingState(2), LosingState(3));
    LosingRun(sem, l.below, l.program, LosingLaterState(0), LosingLaterState(1), LosingLaterState(2), LosingLaterState(3));
    LosingRelation(flipped);
    hide StateRelated;
    hide Next;
    hide Run;
    hide LosingBody;
  }
}
