/** The search for the non-uniform index behind a descriptor: TraceNonUniformIndex::run in
lgc/builder/BuilderImpl.cpp.

A waterfall loop runs once per distinct value of the index among the lanes of a wave, so the search must
return an index that determines the descriptor, or nothing only if the descriptor is the same in every lane.
*/
module NonUniformTrace {
  datatype Option<T> = None | Some(value: T)

  // ----- functions and values -----

  datatype Value =
    | Constant(integer: bool, id: nat)
    | Argument(id: nat)
    | Instruction(rank: nat)

  datatype AddressSpace = Flat | Private | OtherSpace

  /** What the search distinguishes; phis, other calls and everything else it does not follow are Unknown. */
  datatype Operation =
    | Cast(x: Value)
    | Unary(x: Value)
    | Binary(x: Value, y: Value)
    | Load(pointer: Value, space: AddressSpace)
    | Gep(base: Value, indices: seq<Value>)
    | ExtractValue(aggregate: Value)
    | InsertValue(aggregate: Value, inserted: Value)
    | ExtractElement(vector: Value, index: Value)
    | InsertElement(vector: Value, element: Value, index: Value)
    | UniformCall
    | Unknown

  /** A function in SSA form: `primitiveBits` is 0 for types without a primitive size. */
  datatype Function = Function(body: seq<Operation>, primitiveBits: Value -> nat)

  function Operands(op: Operation): seq<Value>
  {
    match op
    case Cast(x) => [x]
    case Unary(x) => [x]
    case Binary(x, y) => [x, y]
    case Load(pointer, _) => [pointer]
    case Gep(base, indices) => [base] + indices
    case ExtractValue(aggregate) => [aggregate]
    case InsertValue(aggregate, inserted) => [aggregate, inserted]
    case ExtractElement(vector, index) => [vector, index]
    case InsertElement(vector, element, index) => [vector, element, index]
    case UniformCall => []
    case Unknown => []
  }

  /** Only phis, which are Unknown, may use a value that does not come before them. */
  predicate Acyclic(f: Function)
  {
    forall r: nat, k: nat :: r < |f.body| && k < |Operands(f.body[r])| ==> Before(Operands(f.body[r])[k], r)
  }

  predicate Before(v: Value, r: nat) { v.Instruction? ==> v.rank < r }

  function Bits(f: Function, v: Value): nat
  {
    if f.primitiveBits(v) == 0 then 0xFFFF_FFFF_FFFF_FFFF else f.primitiveBits(v)
  }

  predicate AllConstant(indices: seq<Value>)
  {
    forall k :: 0 <= k < |indices| ==> indices[k].Constant? && indices[k].integer
  }

  // ----- lanes -----

  /** The values that one lane computes. */
  type Lane = Value -> int

  /** Operations whose result depends on nothing but their operands; memory other than flat and private memory
      is the same for all lanes. */
  predicate Computed(op: Operation)
  {
    match op
    case Load(_, space) => space == OtherSpace
    case UniformCall => false
    case Unknown => false
    case _ => true
  }

  function Seen(u: Lane, values: seq<Value>): seq<int>
  {
    seq(|values|, k requires 0 <= k < |values| => u(values[k]))
  }

  ghost predicate Runs(f: Function, compute: (nat, seq<int>) -> int, u: Lane)
  {
    forall r: nat :: r < |f.body| && Computed(f.body[r]) ==>
                       u(Instruction(r)) == compute(r, Seen(u, Operands(f.body[r])))
  }

  /** Two lanes of one wave: both follow the same code, and what is uniform is the same in both.  Arguments,
      private and flat loads and unknown instructions may differ. */
  ghost predicate Together(f: Function, u: Lane, w: Lane)
  {
    && (exists compute: (nat, seq<int>) -> int :: Runs(f, compute, u) && Runs(f, compute, w))
    && (forall v: Value :: v.Constant? ==> u(v) == w(v))
    && (forall r: nat :: r < |f.body| && f.body[r].UniformCall? ==> u(Instruction(r)) == w(Instruction(r)))
  }

  ghost predicate Uniform(f: Function, v: Value)
  {
    forall u: Lane, w: Lane :: Together(f, u, w) ==> u(v) == w(v)
  }

  ghost predicate Determines(f: Function, x: Value, v: Value)
  {
    forall u: Lane, w: Lane :: Together(f, u, w) && u(x) == w(x) ==> u(v) == w(v)
  }

  /** Lanes that agree on the operands of a computed instruction agree on its result. */
  lemma Congruent(f: Function, u: Lane, w: Lane, r: nat)
    requires Together(f, u, w) && r < |f.body| && Computed(f.body[r])
    requires forall v :: v in Operands(f.body[r]) ==> u(v) == w(v)
    ensures u(Instruction(r)) == w(Instruction(r))
  {
    var compute: (nat, seq<int>) -> int :| Runs(f, compute, u) && Runs(f, compute, w);
    assert Seen(u, Operands(f.body[r])) == Seen(w, Operands(f.body[r]));
  }

  lemma UniformFromOperands(f: Function, r: nat)
    requires r < |f.body| && Computed(f.body[r])
    requires forall v :: v in Operands(f.body[r]) ==> Uniform(f, v)
    ensures Uniform(f, Instruction(r))
  {
    hide Together;
    forall u: Lane, w: Lane | Together(f, u, w)
      ensures u(Instruction(r)) == w(Instruction(r))
    {
      Congruent(f, u, w, r);
    }
  }

  lemma DeterminedByOperand(f: Function, r: nat, x: Value, z: Value)
    requires r < |f.body| && Computed(f.body[r])
    requires forall v :: v in Operands(f.body[r]) ==> v == x || Uniform(f, v)
    requires Determines(f, z, x)
    ensures Determines(f, z, Instruction(r))
  {
    hide Together;
    forall u: Lane, w: Lane | Together(f, u, w) && u(z) == w(z)
      ensures u(Instruction(r)) == w(Instruction(r))
    {
      Congruent(f, u, w, r);
    }
  }

  lemma ConstantIsUniform(f: Function, v: Value)
    requires v.Constant?
    ensures Uniform(f, v)
  {
  }

  // ----- the search, by recursion over the operands -----

  /** How the search goes on from an operation: not at all, because it may be a source of divergence; with no
      operand, because it is uniform; with one or two operands; or with the base of a variable index. */
  datatype Step = Halt | Done | One(x: Value) | Two(x: Value, y: Value) | Indexed(base: Value, indices: seq<Value>)

  function Follow(op: Operation): Step
  {
    match op
    case Cast(x) => One(x)
    case Unary(x) => One(x)
    case Binary(x, y) => Two(x, y)
    case Load(pointer, space) => if space == OtherSpace then One(pointer) else Halt
    case Gep(base, indices) => if AllConstant(indices) then One(base) else Indexed(base, indices)
    case ExtractValue(aggregate) => One(aggregate)
    case InsertValue(aggregate, inserted) => Two(aggregate, inserted)
    case ExtractElement(vector, index) => if index.Constant? then One(vector) else Halt
    case InsertElement(vector, element, index) => if index.Constant? then Two(vector, element) else Halt
    case UniformCall => Done
    case Unknown => Halt
  }

  /** The operands that are not followed are constant, except for the indices of Indexed. */
  ghost predicate Followed(op: Operation, r: nat)
  {
    match Follow(op)
    case Halt => true
    case Done => op.UniformCall?
    case One(x) => Computed(op) && Before(x, r) && forall v :: v in Operands(op) ==> v == x || v.Constant?
    case Two(x, y) => Computed(op) && Before(x, r) && Before(y, r) && forall v :: v in Operands(op) ==> v == x || v == y || v.Constant?
    case Indexed(base, indices) => Computed(op) && Before(base, r) && Operands(op) == [base] + indices
  }

  lemma FollowsOperands(f: Function, r: nat)
    requires Acyclic(f) && r < |f.body|
    ensures Followed(f.body[r], r)
  {
    var op := f.body[r];
    var ops := Operands(op);
    assert forall k: nat :: k < |ops| ==> Before(ops[k], r);
    forall v | v in ops ensures Before(v, r) {
      var k: nat :| k < |ops| && ops[k] == v;
    }
    match Follow(op)
    case One(x) => assert x in ops;
    case Two(x, y) => assert x in ops && y in ops;
    case Indexed(base, indices) => assert base in ops;
    case _ =>
  }

  /** Stop: the search gives up, with the smallest value known to determine the descriptor.
      Go: everything reached is uniform, given the candidate index if there is one. */
  datatype Outcome = Stop(index: Value) | Go(candidate: Option<Value>, smallest: Value)

  /** What the search finds behind `v`.  `alone` means that no other value is pending, so that an instruction
      may be replaced by two operands. */
  function Explore(f: Function, v: Value, alone: bool, candidate: Option<Value>, smallest: Value): Outcome
    requires Acyclic(f) && Before(v, |f.body|)
    decreases if v.Instruction? then v.rank + 1 else 0, 0
  {
    match v
    case Constant(_, _) => Go(candidate, smallest)
    case Argument(_) => Stop(smallest)
    case Instruction(r) =>
      var s := Narrow(f, v, alone, candidate, smallest);
      FollowsOperands(f, r);
      match Follow(f.body[r])
      case Halt => Stop(s)
      case Done => Go(candidate, s)
      case One(x) => Explore(f, x, alone, candidate, s)
      case Two(x, y) => ExplorePair(f, r, x, y, alone, candidate, s)
      case Indexed(base, indices) =>
        if candidate.Some? || |indices| != 1 || base.Argument? || Bits(f, indices[0]) > Bits(f, s) then Stop(s)
        else Explore(f, base, alone, Some(Stripped(f, indices[0])), s)
  }

  /** An instruction takes the place of a larger value if nothing else is needed to determine the descriptor. */
  function Narrow(f: Function, v: Value, alone: bool, candidate: Option<Value>, smallest: Value): Value
  {
    if candidate.None? && alone && Bits(f, v) < Bits(f, smallest) then v else smallest
  }

  /** Both operands, the second one first. */
  function ExplorePair(f: Function, r: nat, x: Value, y: Value, alone: bool, candidate: Option<Value>, smallest: Value): Outcome
    requires Acyclic(f) && Before(x, r) && Before(y, r) && r <= |f.body|
    decreases r, 1
  {
    if x.Argument? || y.Argument? || (x.Instruction? && y.Instruction? && !alone) then Stop(smallest)
    else
      match Explore(f, y, alone && !x.Instruction?, candidate, smallest)
      case Stop(index) => Stop(index)
      case Go(c, s) => Explore(f, x, alone, c, s)
  }

  /** The operand of a cast or unary operation, in place of its result. */
  function Stripped(f: Function, v: Value): Value
  {
    if v.Instruction? && v.rank < |f.body| && (f.body[v.rank].Cast? || f.body[v.rank].Unary?) then f.body[v.rank].x else v
  }

  /** The index for a value: None if the value has been shown to be uniform. */
  function Index(f: Function, v: Value): Option<Value>
    requires Acyclic(f) && Before(v, |f.body|)
  {
    match v
    case Constant(_, _) => None
    case Argument(_) => Some(v)
    case Instruction(_) =>
      match Explore(f, v, true, None, v)
      case Stop(index) => Some(index)
      case Go(candidate, _) => candidate
  }

  // ----- the search is sound -----

  function Smallest(o: Outcome): Value { if o.Stop? then o.index else o.smallest }

  /** What an outcome says about the explored value: a smaller value determines it; a candidate that was there
      before is kept and the value is uniform; otherwise the value is uniform or the candidate determines it. */
  ghost predicate Sound(f: Function, v: Value, alone: bool, candidate: Option<Value>, smallest: Value, o: Outcome)
  {
    && (Smallest(o) != smallest ==>
          alone && candidate.None? && Determines(f, Smallest(o), v) && Bits(f, Smallest(o)) < Bits(f, smallest))
    && (o.Go? && candidate.Some? ==> o.candidate == candidate && Uniform(f, v))
    && (o.Go? && o.candidate.None? ==> Uniform(f, v))
    && (o.Go? && o.candidate.Some? && candidate.None? ==> Determines(f, o.candidate.value, v))
  }

  /** `s` is the explored instruction if that one is smaller and nothing else is pending. */
  predicate Narrowed(f: Function, r: nat, alone: bool, candidate: Option<Value>, smallest: Value, s: Value)
  {
    s == Narrow(f, Instruction(r), alone, candidate, smallest)
  }

  lemma StoppedSound(f: Function, r: nat, alone: bool, candidate: Option<Value>, smallest: Value, s: Value)
    requires Narrowed(f, r, alone, candidate, smallest, s)
    ensures Sound(f, Instruction(r), alone, candidate, smallest, Stop(s))
  {
  }

  /** An instruction whose operands are uniform except for one that was explored. */
  lemma OneOperandSound(f: Function, r: nat, x: Value, alone: bool, candidate: Option<Value>, smallest: Value, s: Value, o: Outcome)
    requires r < |f.body| && Computed(f.body[r])
    requires forall v :: v in Operands(f.body[r]) ==> v == x || Uniform(f, v)
    requires Narrowed(f, r, alone, candidate, smallest, s)
    requires Sound(f, x, alone, candidate, s, o)
    ensures Sound(f, Instruction(r), alone, candidate, smallest, o)
  {
    hide Uniform;
    hide Bits;
    hide Operands;
    if Smallest(o) != s { DeterminedByOperand(f, r, x, Smallest(o)); }
    assert Determines(f, Instruction(r), Instruction(r));
    if o.Go? {
      if Uniform(f, x) {
        UniformFromOperands(f, r);
        if o.candidate.Some? { UniformIsDetermined(f, o.candidate.value, Instruction(r)); }
      } else {
        DeterminedByOperand(f, r, x, o.candidate.value);
      }
    }
  }

  lemma UniformIsDetermined(f: Function, z: Value, v: Value)
    requires Uniform(f, v)
    ensures Determines(f, z, v)
  {
  }

  lemma {:induction false} ExploreSound(f: Function, v: Value, alone: bool, candidate: Option<Value>, smallest: Value)
    requires Acyclic(f) && Before(v, |f.body|)
    ensures Sound(f, v, alone, candidate, smallest, Explore(f, v, alone, candidate, smallest))
    decreases if v.Instruction? then v.rank + 1 else 0, 0
  {
    hide Uniform;
    hide Determines;
    hide Bits;
    if v.Constant? {
      ConstantIsUniform(f, v);
    } else if v.Instruction? {
      var r := v.rank;
      var s := Narrow(f, v, alone, candidate, smallest);
      FollowsOperands(f, r);
      StoppedSound(f, r, alone, candidate, smallest, s);
      match Follow(f.body[r])
      case Halt =>
      case Done => UniformCallSound(f, r);
      case One(x) => ChainSound(f, r, x, alone, candidate, smallest, s);
      case Two(x, y) => PairSound(f, r, x, y, alone, candidate, smallest, s);
      case Indexed(base, indices) =>
        if candidate.None? && |indices| == 1 && !base.Argument? && Bits(f, indices[0]) <= Bits(f, s) {
          ExploreSound(f, base, alone, Some(Stripped(f, indices[0])), s);
          VariableGepSound(f, r, alone, smallest, s, Explore(f, base, alone, Some(Stripped(f, indices[0])), s));
        }
    }
  }

  lemma UniformCallSound(f: Function, r: nat)
    requires r < |f.body| && f.body[r].UniformCall?
    ensures Uniform(f, Instruction(r)) && Determines(f, Instruction(r), Instruction(r))
  {
  }

  lemma ChainSound(f: Function, r: nat, x: Value, alone: bool, candidate: Option<Value>, smallest: Value, s: Value)
    requires Acyclic(f) && r < |f.body| && Computed(f.body[r]) && Before(x, r)
    requires forall v :: v in Operands(f.body[r]) ==> v == x || v.Constant?
    requires Narrowed(f, r, alone, candidate, smallest, s)
    ensures Sound(f, Instruction(r), alone, candidate, smallest, Explore(f, x, alone, candidate, s))
    decreases r, 1
  {
    hide Uniform;
    hide Determines;
    hide Operands;
    hide Sound;
    hide Explore;
    ExploreSound(f, x, alone, candidate, s);
    forall v | v in Operands(f.body[r]) ensures v == x || Uniform(f, v) {
      if v != x { ConstantIsUniform(f, v); }
    }
    OneOperandSound(f, r, x, alone, candidate, smallest, s, Explore(f, x, alone, candidate, s));
  }

  lemma PairSound(f: Function, r: nat, x: Value, y: Value, alone: bool, candidate: Option<Value>, smallest: Value, s: Value)
    requires Acyclic(f) && r < |f.body| && Computed(f.body[r]) && Before(x, r) && Before(y, r)
    requires forall v :: v in Operands(f.body[r]) ==> v == x || v == y || v.Constant?
    requires Narrowed(f, r, alone, candidate, smallest, s)
    ensures Sound(f, Instruction(r), alone, candidate, smallest, ExplorePair(f, r, x, y, alone, candidate, s))
    decreases r, 1
  {
    hide Uniform;
    hide Determines;
    hide Operands;
    hide Sound;
    if x.Argument? || y.Argument? || (x.Instruction? && y.Instruction? && !alone) {
      StoppedSound(f, r, alone, candidate, smallest, s);
    } else {
      var first := Explore(f, y, alone && !x.Instruction?, candidate, s);
      ExploreSound(f, y, alone && !x.Instruction?, candidate, s);
      if first.Go? { ExploreSound(f, x, alone, first.candidate, first.smallest); }
      BothSound(f, r, x, y, alone, candidate, smallest, s, first,
                if first.Go? then Explore(f, x, alone, first.candidate, first.smallest) else first);
    }
  }

  /** Combining the outcomes for two operands: the candidate comes from one of them at most. */
  lemma BothSound(f: Function, r: nat, x: Value, y: Value, alone: bool, candidate: Option<Value>, smallest: Value, s: Value,
                  first: Outcome, both: Outcome)
    requires r < |f.body| && Computed(f.body[r])
    requires forall v :: v in Operands(f.body[r]) ==> v == x || v == y || v.Constant?
    requires Narrowed(f, r, alone, candidate, smallest, s)
    requires x.Constant? || x.Instruction?
    requires Sound(f, y, alone && !x.Instruction?, candidate, s, first)
    requires if first.Go? then Sound(f, x, alone, first.candidate, first.smallest, both) else both == first
    requires first.Go? && x.Constant? ==> both == first
    ensures Sound(f, Instruction(r), alone, candidate, smallest, both)
  {
    hide Uniform;
    hide Determines;
    hide Operands;
    hide Bits;
    forall v: Value | v.Constant? ensures Uniform(f, v) { ConstantIsUniform(f, v); }
    if x.Constant? {
      ConstantIsUniform(f, x);
      OneOperandSound(f, r, y, alone, candidate, smallest, s, both);
    } else if first.Stop? {
      StoppedSound(f, r, alone, candidate, smallest, s);
    } else if first.candidate == candidate {
      OneOperandSound(f, r, x, alone, candidate, smallest, s, both);
    } else if both.Go? {
      OneOperandSound(f, r, y, alone, candidate, smallest, s, both);
    } else {
      StoppedSound(f, r, alone, candidate, smallest, s);
    }
  }

  /** A variable index: the base is uniform, so the index determines the address. */
  lemma VariableGepSound(f: Function, r: nat, alone: bool, smallest: Value, s: Value, o: Outcome)
    requires r < |f.body| && f.body[r].Gep? && |f.body[r].indices| == 1
    requires Narrowed(f, r, alone, None, smallest, s)
    requires Sound(f, f.body[r].base, alone, Some(Stripped(f, f.body[r].indices[0])), s, o)
    ensures Sound(f, Instruction(r), alone, None, smallest, o)
  {
    hide Uniform;
    hide Bits;
    var index := f.body[r].indices[0];
    var stripped := Stripped(f, index);
    StrippedDetermines(f, index);
    if o.Go? {
      DeterminedByOperand(f, r, index, stripped);
    }
  }

  lemma StrippedDetermines(f: Function, v: Value)
    ensures Determines(f, Stripped(f, v), v)
  {
    hide Uniform;
    if Stripped(f, v) != v {
      DeterminedByOperand(f, v.rank, Stripped(f, v), Stripped(f, v));
    }
  }

  /** The index that is found determines the value; without an index, the value is uniform. */
  lemma IndexIsSound(f: Function, v: Value)
    requires Acyclic(f) && Before(v, |f.body|)
    ensures Index(f, v).None? ==> Uniform(f, v)
    ensures Index(f, v).Some? ==> Determines(f, Index(f, v).value, v)
  {
    hide Uniform;
    hide Explore;
    if v.Constant? {
      ConstantIsUniform(f, v);
    } else if v.Instruction? {
      ExploreSound(f, v, true, None, v);
    }
  }

  // ----- when the answer is that the value is uniform -----

  lemma OperandsBefore(f: Function, r: nat)
    requires Acyclic(f) && r < |f.body|
    ensures match f.body[r]
            case Cast(x) => Before(x, r)
            case Unary(x) => Before(x, r)
            case Binary(x, y) => Before(x, r) && Before(y, r)
            case Load(pointer, _) => Before(pointer, r)
            case Gep(base, _) => Before(base, r)
            case ExtractValue(aggregate) => Before(aggregate, r)
            case InsertValue(aggregate, inserted) => Before(aggregate, r) && Before(inserted, r)
            case ExtractElement(vector, _) => Before(vector, r)
            case InsertElement(vector, element, _) => Before(vector, r) && Before(element, r)
            case _ => true
  {
    var ops := Operands(f.body[r]);
    assert forall k: nat :: k < |ops| ==> Before(ops[k], r);
    assert |ops| >= 1 ==> Before(ops[0], r);
    assert |ops| >= 2 ==> Before(ops[1], r);
  }

  predicate ConstantIndices(indices: seq<Value>)
  {
    forall i :: i in indices ==> i.Constant? && i.integer
  }

  lemma SameIndices(indices: seq<Value>)
    ensures AllConstant(indices) <==> ConstantIndices(indices)
  {
  }

  /** Uniform by way of casts, arithmetic, loads from memory that all lanes share, addresses and elements at constant indices, down to
      constants and calls that are always uniform, where instructions with two operands that are themselves instructions may only
      be nested in first operands. */
  predicate Provable(f: Function, v: Value, alone: bool)
    requires Acyclic(f) && Before(v, |f.body|)
    decreases if v.Instruction? then v.rank + 1 else 0, 0
  {
    match v
    case Constant(_, _) => true
    case Argument(_) => false
    case Instruction(r) =>
      OperandsBefore(f, r);
      match f.body[r]
      case Cast(x) => Provable(f, x, alone)
      case Unary(x) => Provable(f, x, alone)
      case Binary(x, y) => BothProvable(f, r, x, y, alone)
      case Load(pointer, space) => space == OtherSpace && Provable(f, pointer, alone)
      case Gep(base, indices) => ConstantIndices(indices) && Provable(f, base, alone)
      case ExtractValue(aggregate) => Provable(f, aggregate, alone)
      case InsertValue(aggregate, inserted) => BothProvable(f, r, aggregate, inserted, alone)
      case ExtractElement(vector, index) => index.Constant? && Provable(f, vector, alone)
      case InsertElement(vector, element, index) => index.Constant? && BothProvable(f, r, vector, element, alone)
      case UniformCall => true
      case Unknown => false
  }

  predicate BothProvable(f: Function, r: nat, x: Value, y: Value, alone: bool)
    requires Acyclic(f) && Before(x, r) && Before(y, r) && r <= |f.body|
    decreases r, 1
  {
    && (x.Instruction? && y.Instruction? ==> alone)
    && Provable(f, x, alone)
    && Provable(f, y, alone && !x.Instruction?)
  }

  /** What is provable is passed without a candidate, and nothing else is; a candidate that was there before
      allows nothing more. */
  predicate Exactly(provable: bool, candidate: Option<Value>, o: Outcome)
  {
    && (provable ==> o.Go? && o.candidate == candidate)
    && (!provable ==> o.Stop? || (candidate.None? && o.candidate.Some?))
  }

  lemma {:induction false} NoCandidateExactly(f: Function, v: Value, alone: bool, candidate: Option<Value>, smallest: Value)
    requires Acyclic(f) && Before(v, |f.body|)
    ensures Exactly(Provable(f, v, alone), candidate, Explore(f, v, alone, candidate, smallest))
    decreases if v.Instruction? then v.rank + 1 else 0, 0
  {
    hide Bits;
    hide AllConstant;
    if v.Instruction? {
      var r := v.rank;
      var s := Narrow(f, v, alone, candidate, smallest);
      FollowsOperands(f, r);
      if f.body[r].Gep? { SameIndices(f.body[r].indices); }
      match Follow(f.body[r])
      case One(x) => NoCandidateExactly(f, x, alone, candidate, s);
      case Two(x, y) => NoCandidateForPair(f, r, x, y, alone, candidate, s);
      case Indexed(base, indices) =>
        if |indices| == 1 { NoCandidateExactly(f, base, alone, Some(Stripped(f, indices[0])), s); }
      case _ =>
    }
  }

  lemma NoCandidateForPair(f: Function, r: nat, x: Value, y: Value, alone: bool, candidate: Option<Value>, s: Value)
    requires Acyclic(f) && Before(x, r) && Before(y, r) && r <= |f.body|
    ensures Exactly(BothProvable(f, r, x, y, alone), candidate, ExplorePair(f, r, x, y, alone, candidate, s))
    decreases r, 1
  {
    var first := Explore(f, y, alone && !x.Instruction?, candidate, s);
    NoCandidateExactly(f, y, alone && !x.Instruction?, candidate, s);
    if first.Go? { NoCandidateExactly(f, x, alone, first.candidate, first.smallest); }
  }

  lemma UniformExactly(f: Function, v: Value)
    requires Acyclic(f) && Before(v, |f.body|)
    ensures Index(f, v).None? <==> Provable(f, v, true)
  {
    NoCandidateExactly(f, v, true, None, v);
  }

  // ----- which index is found -----

  function Min(a: nat, b: nat): nat { if a < b then a else b }

  /** The index of an address, or what it is computed from by a cast or unary operation. */
  predicate Computes(f: Function, i: Value, index: Value)
  {
    if index.Instruction? && index.rank < |f.body| && f.body[index.rank].Cast? then i == f.body[index.rank].x
    else if index.Instruction? && index.rank < |f.body| && f.body[index.rank].Unary? then i == f.body[index.rank].x
    else i == index
  }

  /** The search from `v` finds the index `i`: it reaches an address with one variable index that is not wider than `width` and than
      any instruction on the way that is visited while nothing else is pending, and everything else is uniform. */
  predicate Finds(f: Function, v: Value, alone: bool, width: nat, i: Value)
    requires Acyclic(f) && Before(v, |f.body|)
    decreases if v.Instruction? then v.rank + 1 else 0, 0
  {
    v.Instruction? &&
    var r := v.rank;
    var narrowest := if alone then Min(width, Bits(f, v)) else width;
    var op := f.body[r];
    OperandsBefore(f, r);
    if op.Cast? || op.Unary? then Finds(f, op.x, alone, narrowest, i)
    else if op.Binary? then FindsInPair(f, r, op.x, op.y, alone, narrowest, i)
    else if op.Load? then op.space == OtherSpace && Finds(f, op.pointer, alone, narrowest, i)
    else if op.Gep? then
      if ConstantIndices(op.indices) then Finds(f, op.base, alone, narrowest, i)
      else
        |op.indices| == 1 && Bits(f, op.indices[0]) <= narrowest && Provable(f, op.base, alone) && Computes(f, i, op.indices[0])
    else if op.ExtractValue? then Finds(f, op.aggregate, alone, narrowest, i)
    else if op.InsertValue? then FindsInPair(f, r, op.aggregate, op.inserted, alone, narrowest, i)
    else if op.ExtractElement? then op.index.Constant? && Finds(f, op.vector, alone, narrowest, i)
    else if op.InsertElement? then op.index.Constant? && FindsInPair(f, r, op.vector, op.element, alone, narrowest, i)
    else false
  }

  /** One operand leads to the index, and the other one is uniform. */
  predicate FindsInPair(f: Function, r: nat, x: Value, y: Value, alone: bool, width: nat, i: Value)
    requires Acyclic(f) && Before(x, r) && Before(y, r) && r <= |f.body|
    decreases r, 1
  {
    && (x.Instruction? && y.Instruction? ==> alone)
    && ((Finds(f, y, alone && !x.Instruction?, width, i) && Provable(f, x, alone)) ||
        (Provable(f, y, alone && !x.Instruction?) && Finds(f, x, alone, width, i)))
  }

  /** The search from `v` visits `u` while nothing else is pending and no index has been found. */
  predicate Visits(f: Function, v: Value, alone: bool, u: Value)
    requires Acyclic(f) && Before(v, |f.body|)
    decreases if v.Instruction? then v.rank + 1 else 0, 0
  {
    v.Instruction? &&
    var r := v.rank;
    var op := f.body[r];
    OperandsBefore(f, r);
    (alone && u == v) ||
    if op.Cast? || op.Unary? then Visits(f, op.x, alone, u)
    else if op.Binary? then VisitsPair(f, r, op.x, op.y, alone, u)
    else if op.Load? then op.space == OtherSpace && Visits(f, op.pointer, alone, u)
    else if op.Gep? then ConstantIndices(op.indices) && Visits(f, op.base, alone, u)
    else if op.ExtractValue? then Visits(f, op.aggregate, alone, u)
    else if op.InsertValue? then VisitsPair(f, r, op.aggregate, op.inserted, alone, u)
    else if op.ExtractElement? then op.index.Constant? && Visits(f, op.vector, alone, u)
    else if op.InsertElement? then op.index.Constant? && VisitsPair(f, r, op.vector, op.element, alone, u)
    else false
  }

  predicate VisitsPair(f: Function, r: nat, x: Value, y: Value, alone: bool, u: Value)
    requires Acyclic(f) && Before(x, r) && Before(y, r) && r <= |f.body|
    decreases r, 1
  {
    && !x.Argument? && !y.Argument? && (x.Instruction? && y.Instruction? ==> alone)
    && (Visits(f, y, alone && !x.Instruction?, u) || (Provable(f, y, alone && !x.Instruction?) && Visits(f, x, alone, u)))
  }

  /** `w` is the first of the narrowest values among `smallest` and the visited ones, which come in the order of their ranks, the
      highest one first. */
  ghost predicate Narrowest(f: Function, visited: iset<Value>, smallest: Value, w: Value)
  {
    && (w == smallest || (w in visited && w.Instruction? && Bits(f, w) < Bits(f, smallest)))
    && Bits(f, w) <= Bits(f, smallest)
    && forall u :: u in visited ==>
                     u.Instruction? && Bits(f, w) <= Bits(f, u) &&
                     (Bits(f, w) == Bits(f, u) && w != smallest ==> w.Instruction? && u.rank <= w.rank)
  }

  ghost function Found(f: Function, v: Value, alone: bool, width: nat): iset<Value>
    requires Acyclic(f) && Before(v, |f.body|)
  {
    iset i | Finds(f, v, alone, width, i)
  }

  ghost function Visited(f: Function, v: Value, alone: bool): iset<Value>
    requires Acyclic(f) && Before(v, |f.body|)
  {
    iset u | Visits(f, v, alone, u)
  }

  /** How the search ends: with no candidate if all is provable, with the candidate that it finds, and otherwise it stops; the smallest
      value is the narrowest visited one. */
  ghost predicate OutcomeIs(f: Function, provable: bool, found: iset<Value>, visited: iset<Value>, smallest: Value, o: Outcome)
  {
    && (provable ==> o.Go? && o.candidate == None)
    && (!provable ==> o.Stop? || o.candidate.Some?)
    && (forall i :: i in found <==> o.Go? && o.candidate == Some(i))
    && Narrowest(f, visited, smallest, Smallest(o))
  }

  /** The three notions, by how the search follows an instruction. */
  predicate UnfoldsAs(f: Function, r: nat, alone: bool, width: nat, i: Value, u: Value)
    requires Acyclic(f) && r < |f.body|
  {
    var v := Instruction(r);
    var narrowest := if alone then Min(width, Bits(f, v)) else width;
    var self := alone && u == v;
    var step := Follow(f.body[r]);
    if step.Halt? || step.Done? then
      (Provable(f, v, alone) <==> step.Done?) && !Finds(f, v, alone, width, i) && (Visits(f, v, alone, u) <==> self)
    else if step.One? then
      Before(step.x, r) && (Provable(f, v, alone) <==> Provable(f, step.x, alone)) &&
      (Finds(f, v, alone, width, i) <==> Finds(f, step.x, alone, narrowest, i)) &&
      (Visits(f, v, alone, u) <==> self || Visits(f, step.x, alone, u))
    else if step.Two? then
      Before(step.x, r) && Before(step.y, r) && (Provable(f, v, alone) <==> BothProvable(f, r, step.x, step.y, alone)) &&
      (Finds(f, v, alone, width, i) <==> FindsInPair(f, r, step.x, step.y, alone, narrowest, i)) &&
      (Visits(f, v, alone, u) <==> self || VisitsPair(f, r, step.x, step.y, alone, u))
    else
      Before(step.base, r) && !Provable(f, v, alone) && (Visits(f, v, alone, u) <==> self) &&
      (Finds(f, v, alone, width, i) <==>
        |step.indices| == 1 && Bits(f, step.indices[0]) <= narrowest && Provable(f, step.base, alone) &&
        Computes(f, i, step.indices[0]))
  }

  lemma Unfolds(f: Function, r: nat, alone: bool, width: nat, i: Value, u: Value)
    requires Acyclic(f) && r < |f.body|
    ensures UnfoldsAs(f, r, alone, width, i, u)
  {
    hide BothProvable;
    hide FindsInPair;
    hide VisitsPair;
    hide Bits;
    hide AllConstant;
    hide ConstantIndices;
    hide Computes;
    OperandsBefore(f, r);
    if f.body[r].Gep? { SameIndices(f.body[r].indices); }
  }

  /** While something else is pending, nothing is visited alone. */
  lemma {:induction false} NotAlone(f: Function, v: Value, u: Value)
    requires Acyclic(f) && Before(v, |f.body|)
    ensures !Visits(f, v, false, u)
    decreases if v.Instruction? then v.rank + 1 else 0
  {
    if v.Instruction? {
      Unfolds(f, v.rank, false, 0, u, u);
      hide Visits;
      hide Bits;
      OperandsBefore(f, v.rank);
      match Follow(f.body[v.rank])
      case One(x) => NotAlone(f, x, u);
      case Two(x, y) =>
        NotAlone(f, x, u);
        NotAlone(f, y, u);
      case _ =>
    }
  }

  /** The instruction itself is visited before what is behind it. */
  lemma SelfVisited(f: Function, r: nat, alone: bool, smallest: Value, s: Value, provable: bool, found: iset<Value>,
                    visited: iset<Value>, o: Outcome)
    requires s == Narrow(f, Instruction(r), alone, None, smallest)
    requires forall u :: u in visited ==> u.Instruction? && u.rank < r
    requires OutcomeIs(f, provable, found, visited, s, o)
    ensures OutcomeIs(f, provable, found, visited + (if alone then iset{Instruction(r)} else iset{}), smallest, o)
  {
    hide Bits;
  }

  lemma NarrowBits(f: Function, v: Value, alone: bool, smallest: Value)
    ensures Bits(f, Narrow(f, v, alone, None, smallest)) == if alone then Min(Bits(f, smallest), Bits(f, v)) else Bits(f, smallest)
  {
    hide Bits;
  }

  /** What is visited comes no later than where the search starts. */
  lemma VisitedBefore(f: Function, x: Value, alone: bool)
    requires Acyclic(f) && Before(x, |f.body|)
    ensures forall u :: Visits(f, x, alone, u) ==> x.Instruction? && u.Instruction? && u.rank <= x.rank
    ensures forall u :: u in Visited(f, x, alone) ==> x.Instruction? && u.Instruction? && u.rank <= x.rank
  {
    forall u | Visits(f, x, alone, u)
      ensures x.Instruction? && u.Instruction? && u.rank <= x.rank
    {
      VisitedInOrder(f, x, alone, u);
    }
  }

  lemma {:induction false} VisitedInOrder(f: Function, v: Value, alone: bool, u: Value)
    requires Acyclic(f) && Before(v, |f.body|) && Visits(f, v, alone, u)
    ensures v.Instruction? && u.Instruction? && u.rank <= v.rank
    decreases if v.Instruction? then v.rank + 1 else 0
  {
    Unfolds(f, v.rank, alone, 0, u, u);
    if !(alone && u == v) {
      hide Visits;
      hide Bits;
      match Follow(f.body[v.rank])
      case One(x) => VisitedInOrder(f, x, alone, u);
      case Two(x, y) =>
        if Visits(f, y, alone && !x.Instruction?, u) {
          VisitedInOrder(f, y, alone && !x.Instruction?, u);
        } else {
          VisitedInOrder(f, x, alone, u);
        }
      case _ =>
    }
  }

  /** The search stops or goes on exactly as the three notions say. */
  lemma {:induction false} OutcomesExactly(f: Function, v: Value, alone: bool, smallest: Value)
    requires Acyclic(f) && Before(v, |f.body|)
    ensures OutcomeIs(f, Provable(f, v, alone), Found(f, v, alone, Bits(f, smallest)), Visited(f, v, alone), smallest,
                      Explore(f, v, alone, None, smallest))
    decreases if v.Instruction? then v.rank + 1 else 0, 0
  {
    hide Bits;
    hide Provable;
    hide Finds;
    hide Visits;
    hide Narrow;
    if v.Instruction? {
      var r := v.rank;
      var s := Narrow(f, v, alone, None, smallest);
      FollowsOperands(f, r);
      FoundUnfolds(f, r, alone, smallest);
      VisitedUnfolds(f, r, alone);
      hide Found;
      hide Visited;
      hide FoundInPair;
      hide VisitedInPair;
      hide FoundIndex;
      hide Followed;
      match Follow(f.body[r])
      case Halt => StopsAt(f, r, alone, smallest, false, Stop(s));
      case Done => StopsAt(f, r, alone, smallest, true, Go(None, s));
      case One(x) =>
        OutcomesExactly(f, x, alone, s);
        VisitedBefore(f, x, alone);
        SelfVisited(f, r, alone, smallest, s, Provable(f, x, alone), Found(f, x, alone, Bits(f, s)), Visited(f, x, alone),
                    Explore(f, x, alone, None, s));
      case Two(x, y) =>
        PairOutcomes(f, r, x, y, alone, s);
        PairVisitedBefore(f, r, x, y, alone);
        SelfVisited(f, r, alone, smallest, s, BothProvable(f, r, x, y, alone), FoundInPair(f, r, x, y, alone, Bits(f, s)),
                    VisitedInPair(f, r, x, y, alone), ExplorePair(f, r, x, y, alone, None, s));
      case Indexed(base, indices) =>
        IndexedOutcome(f, base, indices, alone, s);
        SelfVisited(f, r, alone, smallest, s, false, FoundIndex(f, base, indices, alone, Bits(f, s)), iset{},
                    Explore(f, v, alone, None, smallest));
        assert iset{} + (if alone then iset{v} else iset{}) == if alone then iset{v} else iset{};
    } else {
      NothingBehind(f, v, alone, smallest);
    }
  }

  lemma NothingBehind(f: Function, v: Value, alone: bool, smallest: Value)
    requires Acyclic(f) && !v.Instruction?
    ensures OutcomeIs(f, Provable(f, v, alone), Found(f, v, alone, Bits(f, smallest)), Visited(f, v, alone), smallest,
                      Explore(f, v, alone, None, smallest))
  {
    hide Bits;
  }

  lemma StopsAt(f: Function, r: nat, alone: bool, smallest: Value, provable: bool, o: Outcome)
    requires var s := Narrow(f, Instruction(r), alone, None, smallest); o == if provable then Go(None, s) else Stop(s)
    ensures OutcomeIs(f, provable, iset{}, if alone then iset{Instruction(r)} else iset{}, smallest, o)
  {
    hide Bits;
  }

  ghost function FoundInPair(f: Function, r: nat, x: Value, y: Value, alone: bool, width: nat): iset<Value>
    requires Acyclic(f) && Before(x, r) && Before(y, r) && r <= |f.body|
  {
    iset i | FindsInPair(f, r, x, y, alone, width, i)
  }

  ghost function VisitedInPair(f: Function, r: nat, x: Value, y: Value, alone: bool): iset<Value>
    requires Acyclic(f) && Before(x, r) && Before(y, r) && r <= |f.body|
  {
    iset u | VisitsPair(f, r, x, y, alone, u)
  }

  ghost function FoundIndex(f: Function, base: Value, indices: seq<Value>, alone: bool, width: nat): iset<Value>
    requires Acyclic(f) && Before(base, |f.body|)
  {
    iset i | |indices| == 1 && Bits(f, indices[0]) <= width && Provable(f, base, alone) && Computes(f, i, indices[0])
  }

  /** What is found from an instruction, by how the search follows it. */
  lemma FoundUnfolds(f: Function, r: nat, alone: bool, smallest: Value)
    requires Acyclic(f) && r < |f.body|
    ensures var v := Instruction(r);
            var width := Bits(f, Narrow(f, v, alone, None, smallest));
            var found, step := Found(f, v, alone, Bits(f, smallest)), Follow(f.body[r]);
            if step.Halt? || step.Done? then (Provable(f, v, alone) <==> step.Done?) && found == iset{}
            else if step.One? then
              Before(step.x, r) && (Provable(f, v, alone) <==> Provable(f, step.x, alone)) && found == Found(f, step.x, alone, width)
            else if step.Two? then
              Before(step.x, r) && Before(step.y, r) && (Provable(f, v, alone) <==> BothProvable(f, r, step.x, step.y, alone)) &&
              found == FoundInPair(f, r, step.x, step.y, alone, width)
            else
              Before(step.base, r) && !Provable(f, v, alone) && found == FoundIndex(f, step.base, step.indices, alone, width)
  {
    var v := Instruction(r);
    NarrowBits(f, v, alone, smallest);
    hide Bits;
    hide Narrow;
    hide Provable;
    hide Finds;
    hide Visits;
    hide BothProvable;
    hide FindsInPair;
    hide VisitsPair;
    hide Computes;
    hide Follow;
    Unfolds(f, r, alone, Bits(f, smallest), v, v);
    var width, step := Bits(f, Narrow(f, v, alone, None, smallest)), Follow(f.body[r]);
    var found := Found(f, v, alone, Bits(f, smallest));
    var expected := if step.One? then Found(f, step.x, alone, width)
                    else if step.Two? then FoundInPair(f, r, step.x, step.y, alone, width)
                    else if step.Indexed? then FoundIndex(f, step.base, step.indices, alone, width)
                    else iset{};
    forall i ensures i in found <==> i in expected {
      Unfolds(f, r, alone, Bits(f, smallest), i, v);
    }
    assert found == expected;
  }

  /** What is visited from an instruction. */
  lemma VisitedUnfolds(f: Function, r: nat, alone: bool)
    requires Acyclic(f) && r < |f.body|
    ensures var v := Instruction(r);
            var self := if alone then iset{v} else iset{};
            var visited, step := Visited(f, v, alone), Follow(f.body[r]);
            if step.One? then Before(step.x, r) && visited == Visited(f, step.x, alone) + self
            else if step.Two? then
              Before(step.x, r) && Before(step.y, r) && visited == VisitedInPair(f, r, step.x, step.y, alone) + self
            else visited == self
  {
    var v := Instruction(r);
    hide Bits;
    hide Provable;
    hide Finds;
    hide Visits;
    hide BothProvable;
    hide FindsInPair;
    hide VisitsPair;
    hide Computes;
    hide Follow;
    Unfolds(f, r, alone, 0, v, v);
    var visited, step := Visited(f, v, alone), Follow(f.body[r]);
    var behind := if step.One? then Visited(f, step.x, alone)
                  else if step.Two? then VisitedInPair(f, r, step.x, step.y, alone)
                  else iset{};
    var self := if alone then iset{v} else iset{};
    forall u ensures u in visited <==> u in behind + self {
      Unfolds(f, r, alone, 0, v, u);
    }
    assert visited == behind + self && iset{} + self == self;
  }

  lemma PairVisitedBefore(f: Function, r: nat, x: Value, y: Value, alone: bool)
    requires Acyclic(f) && Before(x, r) && Before(y, r) && r <= |f.body|
    ensures forall u :: u in VisitedInPair(f, r, x, y, alone) ==> u.Instruction? && u.rank < r
  {
    hide Visits;
    VisitedBefore(f, x, alone);
    VisitedBefore(f, y, alone && !x.Instruction?);
  }

  /** With a candidate, nothing is narrowed any more, and the search goes on only if the rest is provable. */
  lemma WithCandidate(f: Function, v: Value, alone: bool, i: Value, smallest: Value)
    requires Acyclic(f) && Before(v, |f.body|)
    ensures var o := Explore(f, v, alone, Some(i), smallest);
            Smallest(o) == smallest && (if Provable(f, v, alone) then o.Go? && o.candidate == Some(i) else o.Stop?)
  {
    hide Explore;
    hide Provable;
    hide Uniform;
    NoCandidateExactly(f, v, alone, Some(i), smallest);
    ExploreSound(f, v, alone, Some(i), smallest);
  }

  lemma IndexedOutcome(f: Function, base: Value, indices: seq<Value>, alone: bool, s: Value)
    requires Acyclic(f) && Before(base, |f.body|)
    ensures OutcomeIs(f, false, FoundIndex(f, base, indices, alone, Bits(f, s)), iset{}, s,
                      if |indices| != 1 || base.Argument? || Bits(f, indices[0]) > Bits(f, s) then Stop(s)
                      else Explore(f, base, alone, Some(Stripped(f, indices[0])), s))
  {
    hide Bits;
    hide Explore;
    if |indices| == 1 {
      WithCandidate(f, base, alone, Stripped(f, indices[0]), s);
      forall i ensures Computes(f, i, indices[0]) <==> i == Stripped(f, indices[0]) {
      }
    }
  }

  lemma OtherValues(f: Function, v: Value, alone: bool, width: nat)
    requires Acyclic(f) && !v.Instruction?
    ensures Provable(f, v, alone) == v.Constant? && Found(f, v, alone, width) == iset{} && Visited(f, v, alone) == iset{}
  {
    hide Bits;
  }

  /** What is found and visited from two operands. */
  lemma PairSets(f: Function, r: nat, x: Value, y: Value, alone: bool, width: nat)
    requires Acyclic(f) && Before(x, r) && Before(y, r) && r <= |f.body|
    ensures var flag := alone && !x.Instruction?;
            var both := x.Instruction? && y.Instruction? ==> alone;
            && (BothProvable(f, r, x, y, alone) <==> both && Provable(f, x, alone) && Provable(f, y, flag))
            && FoundInPair(f, r, x, y, alone, width) ==
               (if both && Provable(f, x, alone) then Found(f, y, flag, width) else iset{}) +
               (if both && Provable(f, y, flag) then Found(f, x, alone, width) else iset{})
            && VisitedInPair(f, r, x, y, alone) ==
               (if both && !x.Argument? && !y.Argument? then Visited(f, y, flag) else iset{}) +
               (if both && !x.Argument? && !y.Argument? && Provable(f, y, flag) then Visited(f, x, alone) else iset{})
  {
    hide Bits;
    hide Provable;
    hide Finds;
    hide Visits;
  }

  lemma NoneVisited(f: Function, v: Value)
    requires Acyclic(f) && Before(v, |f.body|)
    ensures Visited(f, v, false) == iset{}
  {
    forall u ensures u !in Visited(f, v, false) {
      NotAlone(f, v, u);
    }
  }

  /** The first operand that is explored stops the search, or finds a candidate, or is uniform. */
  lemma FirstStops(f: Function, px: bool, py: bool, fx: iset<Value>, fy: iset<Value>, vx: iset<Value>, vy: iset<Value>, s: Value, first: Outcome)
    requires OutcomeIs(f, py, fy, vy, s, first) && first.Stop?
    ensures OutcomeIs(f, px && py, (if px then fy else iset{}) + (if py then fx else iset{}), vy + (if py then vx else iset{}), s, first)
  {
    assert !py && fy == iset{};
    assert vy + iset{} == vy;
    hide Narrowest;
  }

  lemma FirstFinds(f: Function, px: bool, py: bool, fx: iset<Value>, fy: iset<Value>, vx: iset<Value>, vy: iset<Value>, s: Value,
                   first: Outcome, o: Outcome)
    requires OutcomeIs(f, py, fy, vy, s, first) && first.Go? && first.candidate.Some?
    requires Smallest(o) == first.smallest && (if px then o.Go? && o.candidate == first.candidate else o.Stop?)
    ensures OutcomeIs(f, px && py, (if px then fy else iset{}) + (if py then fx else iset{}), vy + (if py then vx else iset{}), s, o)
  {
    assert !py;
    assert vy + iset{} == vy && fy + iset{} == fy;
    hide Narrowest;
  }

  lemma FirstPasses(f: Function, px: bool, py: bool, fx: iset<Value>, fy: iset<Value>, vx: iset<Value>, vy: iset<Value>, s: Value,
                    first: Outcome, o: Outcome)
    requires OutcomeIs(f, py, fy, vy, s, first) && first.Go? && first.candidate.None?
    requires OutcomeIs(f, px, fx, vx, first.smallest, o)
    requires vy == iset{} || vx == iset{}
    ensures OutcomeIs(f, px && py, (if px then fy else iset{}) + (if py then fx else iset{}), vy + (if py then vx else iset{}), s, o)
  {
    assert py && fy == iset{};
    assert iset{} + fx == fx && iset{} + vx == vx && vy + iset{} == vy;
    if vy == iset{} {
      StaysNarrowest(f, s, first.smallest);
    } else {
      StaysNarrowest(f, first.smallest, Smallest(o));
    }
    hide Narrowest;
  }

  lemma PairOutcomes(f: Function, r: nat, x: Value, y: Value, alone: bool, s: Value)
    requires Acyclic(f) && Before(x, r) && Before(y, r) && r <= |f.body|
    ensures OutcomeIs(f, BothProvable(f, r, x, y, alone), FoundInPair(f, r, x, y, alone, Bits(f, s)), VisitedInPair(f, r, x, y, alone), s,
                      ExplorePair(f, r, x, y, alone, None, s))
    decreases r, 1
  {
    hide Bits;
    hide Provable;
    hide BothProvable;
    hide Found;
    hide Visited;
    hide FoundInPair;
    hide VisitedInPair;
    hide OutcomeIs;
    hide Explore;
    hide ExplorePair;
    var flag := alone && !x.Instruction?;
    PairSets(f, r, x, y, alone, Bits(f, s));
    PairSteps(f, r, x, y, alone, s);
    OutcomesExactly(f, y, flag, s);
    if !x.Instruction? { OtherValues(f, x, alone, Bits(f, s)); }
    if !y.Instruction? { OtherValues(f, y, flag, Bits(f, s)); }
    if !flag { NoneVisited(f, y); }
    var first, o := Explore(f, y, flag, None, s), ExplorePair(f, r, x, y, alone, None, s);
    var px, py := Provable(f, x, alone), Provable(f, y, flag);
    var fx, fy := Found(f, x, alone, Bits(f, s)), Found(f, y, flag, Bits(f, s));
    var vx, vy := Visited(f, x, alone), Visited(f, y, flag);
    if x.Argument? || y.Argument? || (x.Instruction? && y.Instruction? && !alone) {
      SelfOutcome(f, s);
      assert FoundInPair(f, r, x, y, alone, Bits(f, s)) == iset{} && VisitedInPair(f, r, x, y, alone) == iset{};
    } else if first.Stop? {
      FirstStops(f, px, py, fx, fy, vx, vy, s, first);
    } else if first.candidate.Some? {
      WithCandidate(f, x, alone, first.candidate.value, first.smallest);
      FirstFinds(f, px, py, fx, fy, vx, vy, s, first, o);
    } else {
      OutcomesExactly(f, x, alone, first.smallest);
      if x.Instruction? {
        KeptSmallest(f, py, fy, s, first);
      } else {
        OtherValues(f, x, alone, Bits(f, first.smallest));
      }
      FirstPasses(f, px, py, fx, fy, vx, vy, s, first, o);
    }
  }

  lemma SelfOutcome(f: Function, s: Value)
    ensures OutcomeIs(f, false, iset{}, iset{}, s, Stop(s))
  {
  }

  lemma KeptSmallest(f: Function, provable: bool, found: iset<Value>, s: Value, o: Outcome)
    requires OutcomeIs(f, provable, found, iset{}, s, o)
    ensures Smallest(o) == s
  {
  }

  lemma PairSteps(f: Function, r: nat, x: Value, y: Value, alone: bool, s: Value)
    requires Acyclic(f) && Before(x, r) && Before(y, r) && r <= |f.body|
    ensures var first := Explore(f, y, alone && !x.Instruction?, None, s);
            ExplorePair(f, r, x, y, alone, None, s) ==
            if x.Argument? || y.Argument? || (x.Instruction? && y.Instruction? && !alone) then Stop(s)
            else if first.Stop? then first
            else Explore(f, x, alone, first.candidate, first.smallest)
  {
    hide Explore;
  }

  lemma StaysNarrowest(f: Function, smallest: Value, w: Value)
    requires Narrowest(f, iset{}, smallest, w)
    ensures w == smallest
  {
  }

  /** The answer of the search: nothing exactly for provable values; the index exactly if one is found; and otherwise the first of
      the narrowest values among the value and the instructions visited alone. */
  lemma IndexExactly(f: Function, v: Value)
    requires Acyclic(f) && Before(v, |f.body|)
    ensures Index(f, v).None? <==> Provable(f, v, true)
    ensures forall i :: Finds(f, v, true, Bits(f, v), i) ==> Index(f, v) == Some(i)
    ensures !Provable(f, v, true) && (forall i :: !Finds(f, v, true, Bits(f, v), i)) ==>
              Index(f, v).Some? && Narrowest(f, Visited(f, v, true), v, Index(f, v).value)
  {
    UniformExactly(f, v);
    OutcomesExactly(f, v, true, v);
    hide Explore;
    hide Provable;
    hide Finds;
    hide Bits;
    var o := if v.Instruction? then Explore(f, v, true, None, v) else Stop(v);
    if v.Instruction? {
      forall i ensures Finds(f, v, true, Bits(f, v), i) <==> i in Found(f, v, true, Bits(f, v)) {
      }
    }
  }

  /** Operations whose result is determined by one operand that is followed. */
  predicate LeadsTo(op: Operation, x: Value)
  {
    || op == Cast(x) || op == Unary(x) || op == Load(x, OtherSpace) || op == ExtractValue(x)
    || (op.Gep? && op.base == x && forall i :: i in op.indices ==> i.Constant? && i.integer)
    || (op.ExtractElement? && op.vector == x && op.index.Constant?)
    || (op.Binary? && op.x == x && op.y.Constant?) || (op.Binary? && op.y == x && op.x.Constant?)
    || (op.InsertValue? && op.aggregate == x && op.inserted.Constant?)
    || (op.InsertElement? && op.vector == x && op.element.Constant? && op.index.Constant?)
  }

  /** A chain of such operations ends at an address with one variable index and a uniform base, and the index is no wider than
      anything on the way. */
  predicate IndexChain(f: Function, path: seq<nat>, base: Value, index: Value)
  {
    && path != [] && (forall k :: 0 <= k < |path| ==> path[k] < |f.body| && Bits(f, index) <= Bits(f, Instruction(path[k])))
    && (forall k :: 0 <= k < |path| - 1 ==> LeadsTo(f.body[path[k]], Instruction(path[k + 1])))
    && f.body[path[|path| - 1]] == Gep(base, [index]) && !(index.Constant? && index.integer)
    && (base.Constant? || (base.Instruction? && base.rank < |f.body| && f.body[base.rank] == UniformCall))
  }

  lemma {:induction false} ChainFinds(f: Function, path: seq<nat>, base: Value, index: Value, width: nat, i: Value)
    requires Acyclic(f) && IndexChain(f, path, base, index) && Bits(f, index) <= width && Computes(f, i, index)
    ensures Finds(f, Instruction(path[0]), true, width, i)
    decreases |path|
  {
    hide Bits;
    hide Computes;
    var v := Instruction(path[0]);
    var op := f.body[path[0]];
    var narrowest := Min(width, Bits(f, v));
    OperandsBefore(f, path[0]);
    if |path| == 1 {
      assert index in op.indices && op.indices == [index];
      assert !ConstantIndices(op.indices);
      if base.Constant? { OtherValues(f, base, true, 0); } else { Unfolds(f, base.rank, true, 0, v, v); }
    } else {
      var x := Instruction(path[1]);
      assert LeadsTo(op, x);
      ChainFinds(f, path[1..], base, index, narrowest, i);
      hide Finds;
      ChainStep(f, path[0], x, width, i);
    }
  }

  lemma ChainStep(f: Function, r: nat, x: Value, width: nat, i: Value)
    requires Acyclic(f) && r < |f.body| && LeadsTo(f.body[r], x) && Before(x, |f.body|) && x.Instruction?
    requires Finds(f, x, true, Min(width, Bits(f, Instruction(r))), i)
    ensures Finds(f, Instruction(r), true, width, i)
  {
    hide Bits;
    hide Computes;
    OperandsBefore(f, r);
    var op := f.body[r];
    if op.Binary? {
      if op.y.Constant? { OtherValues(f, op.y, false, 0); } else { OtherValues(f, op.x, true, 0); }
    } else if op.InsertValue? {
      OtherValues(f, op.inserted, false, 0);
    } else if op.InsertElement? {
      OtherValues(f, op.element, false, 0);
    }
  }

  /** At the end of such a chain the search finds the index, or the operand of the cast or unary operation that computes it. */
  lemma ChainIndex(f: Function, path: seq<nat>, base: Value, index: Value)
    requires Acyclic(f) && IndexChain(f, path, base, index)
    ensures var computed := index.Instruction? && index.rank < |f.body| && (f.body[index.rank].Cast? || f.body[index.rank].Unary?);
            Index(f, Instruction(path[0])) == Some(if computed then f.body[index.rank].x else index)
  {
    var computed := index.Instruction? && index.rank < |f.body| && (f.body[index.rank].Cast? || f.body[index.rank].Unary?);
    var i := if computed then f.body[index.rank].x else index;
    var v := Instruction(path[0]);
    ChainFinds(f, path, base, index, Bits(f, v), i);
    hide Index;
    hide Finds;
    IndexExactly(f, v);
  }

  /** A descriptor that is loaded from an array at a variable index: the answer is the index, and not the address. */
  lemma DescriptorIndex(f: Function, index: Value)
    requires f.body == [UniformCall, Gep(Instruction(0), [index]), Load(Instruction(1), OtherSpace)] && index.Argument?
    requires f.primitiveBits(Instruction(1)) == 64 && f.primitiveBits(Instruction(2)) == 256 && f.primitiveBits(index) == 32
    ensures Acyclic(f) && Index(f, Instruction(2)) == Some(index)
  {
    assert Acyclic(f) by {
      forall r: nat, k: nat | r < |f.body| && k < |Operands(f.body[r])|
        ensures Before(Operands(f.body[r])[k], r)
      {
      }
    }
    ChainIndex(f, [2, 1], Instruction(0), index);
  }

  // ----- the loop over pending instructions -----

  /** What the loop returns from a state: the pending instructions are explored from the last one on. */
  function Resume(f: Function, pending: seq<nat>, candidate: Option<Value>, smallest: Value): Option<Value>
    requires Acyclic(f) && forall k :: 0 <= k < |pending| ==> pending[k] < |f.body|
    decreases |pending|, 1
  {
    if |pending| == 0 then candidate
    else Then(f, Explore(f, Instruction(pending[|pending| - 1]), |pending| == 1, candidate, smallest), pending[..|pending| - 1])
  }

  function Then(f: Function, o: Outcome, pending: seq<nat>): Option<Value>
    requires Acyclic(f) && forall k :: 0 <= k < |pending| ==> pending[k] < |f.body|
    decreases |pending|, 2
  {
    match o
    case Stop(index) => Some(index)
    case Go(candidate, smallest) => Resume(f, pending, candidate, smallest)
  }

  function Pushed(pending: seq<nat>, v: Value): seq<nat>
  {
    if v.Instruction? then pending + [v.rank] else pending
  }

  lemma ResumePushed(f: Function, pending: seq<nat>, x: Value, candidate: Option<Value>, smallest: Value)
    requires Acyclic(f) && Before(x, |f.body|) && !x.Argument?
    requires forall k :: 0 <= k < |pending| ==> pending[k] < |f.body|
    ensures Resume(f, Pushed(pending, x), candidate, smallest) ==
            Then(f, Explore(f, x, |pending| == 0, candidate, smallest), pending)
  {
    if x.Instruction? {
      assert (pending + [x.rank])[..|pending|] == pending;
    }
  }

  lemma ResumePushedBoth(f: Function, r: nat, pending: seq<nat>, x: Value, y: Value, candidate: Option<Value>, smallest: Value)
    requires Acyclic(f) && Before(x, r) && Before(y, r) && r <= |f.body| && !x.Argument? && !y.Argument?
    requires forall k :: 0 <= k < |pending| ==> pending[k] < |f.body|
    requires x.Instruction? && y.Instruction? ==> |pending| == 0
    ensures Resume(f, Pushed(Pushed(pending, x), y), candidate, smallest) ==
            Then(f, ExplorePair(f, r, x, y, |pending| == 0, candidate, smallest), pending)
  {
    hide Explore;
    hide Resume;
    ResumePushed(f, Pushed(pending, x), y, candidate, smallest);
    var o := Explore(f, y, |pending| == 0 && !x.Instruction?, candidate, smallest);
    if o.Go? { ResumePushed(f, pending, x, o.candidate, o.smallest); }
  }

  /** The propagate lambda: an instruction becomes pending if there is room; a constant needs nothing. */
  method Propagate(pending: seq<nat>, op: Value) returns (ok: bool, extended: seq<nat>)
    ensures ok <==> op.Constant? || (op.Instruction? && |pending| < 2)
    ensures ok ==> extended == Pushed(pending, op)
  {
    extended := pending;
    if op.Instruction? {
      if |pending| >= 2 {
        return false, extended;
      }
      extended := extended + [op.rank];
      return true, extended;
    }
    return op.Constant?, extended;
  }

  method PropagateBoth(pending: seq<nat>, x: Value, y: Value) returns (ok: bool, extended: seq<nat>)
    requires |pending| <= 1
    ensures ok <==> !x.Argument? && !y.Argument? && (x.Instruction? && y.Instruction? ==> |pending| == 0)
    ensures ok ==> extended == Pushed(Pushed(pending, x), y)
  {
    ok, extended := Propagate(pending, x);
    if ok { ok, extended := Propagate(extended, y); }
  }

  /** The pending instructions after one iteration: the rest, and only earlier instructions than the popped one. */
  predicate Advanced(rest: seq<nat>, r: nat, pending: seq<nat>)
  {
    && |rest| <= |pending| <= 2
    && pending[..|rest|] == rest
    && forall k :: |rest| <= k < |pending| ==> pending[k] < r
  }

  /** One iteration after the popped instruction has been considered as the new smallest value. */
  method Visit(f: Function, r: nat, rest: seq<nat>, candidate: Option<Value>, smallest: Value)
    returns (go: bool, pending: seq<nat>, newCandidate: Option<Value>)
    requires Acyclic(f) && r < |f.body| && |rest| <= 1 && forall k :: 0 <= k < |rest| ==> rest[k] < |f.body|
    requires Narrow(f, Instruction(r), |rest| == 0, candidate, smallest) == smallest
    ensures go ==> Advanced(rest, r, pending)
    ensures Then(f, Explore(f, Instruction(r), |rest| == 0, candidate, smallest), rest) ==
            if go then Resume(f, pending, newCandidate, smallest) else Some(smallest)
  {
    hide Bits;
    hide Resume;
    hide AllConstant;
    newCandidate := candidate;
    pending := rest;
    go := false;
    FollowsOperands(f, r);
    match f.body[r] {
      case Cast(x) => go, pending := VisitOne(f, r, rest, x, candidate, smallest);
      case Unary(x) => go, pending := VisitOne(f, r, rest, x, candidate, smallest);
      case Binary(x, y) => go, pending := VisitBoth(f, r, rest, x, y, candidate, smallest);
      case Load(pointer, space) =>
        if space == Flat || space == Private {
          return;
        }
        go, pending := VisitOne(f, r, rest, pointer, candidate, smallest);
      case Gep(base, indices) =>
        if AllConstant(indices) {
          go, pending := VisitOne(f, r, rest, base, candidate, smallest);
        } else {
          if candidate.Some? || |indices| != 1 {
            return;
          }
          go, pending := Propagate(rest, base);
          if !go {
            return;
          }
          if Bits(f, indices[0]) > Bits(f, smallest) {
            go := false;
            return;
          }
          newCandidate := Some(Stripped(f, indices[0]));
          ResumePushed(f, rest, base, newCandidate, smallest);
        }
      case ExtractValue(aggregate) => go, pending := VisitOne(f, r, rest, aggregate, candidate, smallest);
      case InsertValue(aggregate, inserted) => go, pending := VisitBoth(f, r, rest, aggregate, inserted, candidate, smallest);
      case ExtractElement(vector, index) =>
        if index.Constant? { go, pending := VisitOne(f, r, rest, vector, candidate, smallest); }
      case InsertElement(vector, element, index) =>
        if index.Constant? { go, pending := VisitBoth(f, r, rest, vector, element, candidate, smallest); }
      case UniformCall => go := true;
      case Unknown =>
    }
  }

  method VisitOne(f: Function, r: nat, rest: seq<nat>, x: Value, candidate: Option<Value>, smallest: Value)
    returns (go: bool, pending: seq<nat>)
    requires Acyclic(f) && r < |f.body| && Before(x, r) && |rest| <= 1 && forall k :: 0 <= k < |rest| ==> rest[k] < |f.body|
    ensures go ==> Advanced(rest, r, pending)
    ensures Then(f, Explore(f, x, |rest| == 0, candidate, smallest), rest) ==
            if go then Resume(f, pending, candidate, smallest) else Some(smallest)
  {
    hide Resume;
    go, pending := Propagate(rest, x);
    if go {
      ResumePushed(f, rest, x, candidate, smallest);
    }
  }

  method VisitBoth(f: Function, r: nat, rest: seq<nat>, x: Value, y: Value, candidate: Option<Value>, smallest: Value)
    returns (go: bool, pending: seq<nat>)
    requires Acyclic(f) && r < |f.body| && Before(x, r) && Before(y, r)
    requires |rest| <= 1 && forall k :: 0 <= k < |rest| ==> rest[k] < |f.body|
    ensures go ==> Advanced(rest, r, pending)
    ensures Then(f, ExplorePair(f, r, x, y, |rest| == 0, candidate, smallest), rest) ==
            if go then Resume(f, pending, candidate, smallest) else Some(smallest)
  {
    hide Resume;
    hide Explore;
    go, pending := PropagateBoth(rest, x, y);
    if go {
      ResumePushedBoth(f, r, rest, x, y, candidate, smallest);
    }
  }

  predicate InBody(f: Function, pending: seq<nat>)
  {
    forall k :: 0 <= k < |pending| ==> pending[k] < |f.body|
  }

  function First(pending: seq<nat>): nat { if |pending| == 0 then 0 else pending[0] + 1 }

  function Second(pending: seq<nat>): nat { if |pending| < 2 then 0 else pending[1] + 1 }

  lemma PendingDecreases(f: Function, previous: seq<nat>, rest: seq<nat>, r: nat, pending: seq<nat>)
    requires previous == rest + [r] && |rest| <= 1 && Advanced(rest, r, pending) && InBody(f, previous)
    ensures First(pending) < First(previous) || (First(pending) == First(previous) && Second(pending) < Second(previous))
    ensures InBody(f, pending)
  {
    if |rest| == 1 {
      assert pending[0] == pending[..1][0] == previous[0];
    }
  }

  /** TraceNonUniformIndex::run.  It terminates because at most two instructions are ever pending, and a popped
      one is replaced by earlier ones. */
  method Run(f: Function, nonUniform: Value) returns (index: Option<Value>)
    requires Acyclic(f) && Before(nonUniform, |f.body|)
    ensures index == Index(f, nonUniform)
    ensures index.None? <==> Provable(f, nonUniform, true)
    ensures forall i :: Finds(f, nonUniform, true, Bits(f, nonUniform), i) ==> index == Some(i)
    ensures index.Some? && (forall i :: !Finds(f, nonUniform, true, Bits(f, nonUniform), i)) ==>
              Narrowest(f, Visited(f, nonUniform, true), nonUniform, index.value)
  {
    IndexExactly(f, nonUniform);
    hide Provable;
    hide Finds;
    hide Narrowest;
    hide Bits;
    hide Explore;
    hide First;
    hide Second;
    hide Resume;
    hide Advanced;
    hide Acyclic;
    if !nonUniform.Instruction? {
      return if nonUniform.Constant? then None else Some(nonUniform);
    }
    var nonUniformVal := nonUniform;
    var candidateIndex: Option<Value> := None;
    var pending: seq<nat> := [nonUniform.rank];
    StartsWith(f, nonUniform);
    while |pending| > 0
      invariant |pending| <= 2 && InBody(f, pending)
      invariant Index(f, nonUniform) == Resume(f, pending, candidateIndex, nonUniformVal)
      decreases First(pending), Second(pending)
    {
      var r := pending[|pending| - 1];
      var rest := pending[..|pending| - 1];
      ghost var before, smallest := pending, nonUniformVal;
      PopsLast(f, pending, candidateIndex, nonUniformVal);
      if candidateIndex.None? && |rest| == 0 && Instruction(r) != nonUniformVal {
        if Bits(f, Instruction(r)) < Bits(f, nonUniformVal) {
          nonUniformVal := Instruction(r);
        }
      }
      NarrowedFirst(f, r, |rest| == 0, candidateIndex, smallest, nonUniformVal);
      var go;
      go, pending, candidateIndex := Visit(f, r, rest, candidateIndex, nonUniformVal);
      if !go {
        return Some(nonUniformVal);
      }
      assert before == rest + [r];
      PendingDecreases(f, before, rest, r, pending);
      AdvancedShort(rest, r, pending);
    }
    EndsWith(f, pending, candidateIndex, nonUniformVal);
    return candidateIndex;
  }

  lemma AdvancedShort(rest: seq<nat>, r: nat, pending: seq<nat>)
    requires Advanced(rest, r, pending)
    ensures |pending| <= 2
  {
  }

  lemma StartsWith(f: Function, v: Value)
    requires Acyclic(f) && Before(v, |f.body|) && v.Instruction?
    ensures Index(f, v) == Resume(f, [v.rank], None, v)
  {
    hide Explore;
    assert [v.rank] == Pushed([], v);
    ResumePushed(f, [], v, None, v);
  }

  lemma PopsLast(f: Function, pending: seq<nat>, candidate: Option<Value>, smallest: Value)
    requires Acyclic(f) && InBody(f, pending) && 0 < |pending| <= 2
    ensures var rest := pending[..|pending| - 1];
            Resume(f, pending, candidate, smallest) ==
            Then(f, Explore(f, Instruction(pending[|pending| - 1]), |rest| == 0, candidate, smallest), rest)
  {
    hide Explore;
  }

  lemma EndsWith(f: Function, pending: seq<nat>, candidate: Option<Value>, smallest: Value)
    requires Acyclic(f) && InBody(f, pending) && |pending| == 0
    ensures Resume(f, pending, candidate, smallest) == candidate
  {
  }

  /** Exploring an instruction begins with considering it as the smallest value. */
  lemma NarrowedFirst(f: Function, r: nat, alone: bool, candidate: Option<Value>, smallest: Value, s: Value)
    requires Acyclic(f) && r < |f.body|
    requires s == Narrow(f, Instruction(r), alone, candidate, smallest)
    ensures Explore(f, Instruction(r), alone, candidate, smallest) == Explore(f, Instruction(r), alone, candidate, s)
    ensures Narrow(f, Instruction(r), alone, candidate, s) == s
  {
    hide Bits;
  }
}
