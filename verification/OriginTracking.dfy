/** Byte-wise origin analysis of SSA values: ValueOriginTracker in
compilerutils/lib/ValueOriginTracking.cpp.

A value is described by its memory image, a sequence of bits.  A program gives every value a
definition; an execution gives every value an image that fits its definition.  The module
models the analysis and proves that what it reports about a slice holds in every execution.
*/
module OriginTracking {
  datatype Option<T> = None | Some(value: T)

  type Id = nat

  datatype StatusBit = Constant | Dynamic | UndefOrPoison

  /** A 32-bit word, lowest bit first. */
  type Word = w: seq<bool> | |w| == 32 witness seq(32, _ => false)

  datatype SliceInfo = SliceInfo(status: set<StatusBit>, constantValue: Word, dynamicValue: Option<Id>, byteOffset: nat)

  type ValueInfo = seq<SliceInfo>

  function ZeroWord(): Word { seq(32, _ => false) }

  // ----- programs -----

  /** KnownBits: the bits known to be one and the bits known to be zero. */
  datatype KnownBits = KnownBits(one: seq<bool>, zero: seq<bool>)

  datatype Def =
    | Undef                                                       // undef and poison
    | NullConstant
    | OpaqueConstant                                              // globals, pointers, other constants
    | ScalarConstant(known: KnownBits)                            // integers, floats, integer vectors
    | ConstantSequence(elements: seq<Id>, elementBits: nat, packed: bool)
    | Argument
    | Cast(operand: Id)                                           // bitcast, addrspacecast
    | Freeze(operand: Id)
    | Extract(aggregate: Id, offset: Option<nat>)                 // no offset: a variable vector index
    | Insert(aggregate: Id, inserted: Id, offset: Option<nat>)
    | Phi(incoming: seq<Id>)
    | Select(trueValue: Id, falseValue: Id, others: seq<Id>)
    | Opaque(operands: seq<Id>)                                   // calls, loads, geps, ...
    | Other(operands: seq<Id>, integerBits: Option<KnownBits>)    // known bits for integers only
  {
    predicate IsInstruction() {
      Cast? || Freeze? || Extract? || Insert? || Phi? || Select? || Opaque? || Other?
    }

    function Operands(): seq<Id> {
      match this
      case Cast(op) => [op]
      case Freeze(op) => [op]
      case Extract(agg, _) => [agg]
      case Insert(agg, ins, _) => [agg, ins]
      case Phi(incoming) => incoming
      case Select(t, f, others) => [t, f] + others
      case Opaque(ops) => ops
      case Other(ops, _) => ops
      case _ => []
    }
  }

  datatype FreezeMode = DynamicMode | ForwardMode

  /** A program with its types and the analysis options.  A type is a bit width and, for its memory
      image, the bits that carry data; padding and the tail of odd-sized integers carry none. */
  datatype Program = Program(
    defs: seq<Def>,
    bits: seq<nat>,
    live: seq<seq<bool>>,
    assumptions: map<Id, ValueInfo>,
    rpo: seq<Id>,
    bytesPerSlice: nat,
    maxBytesPerValue: nat,
    freezeMode: FreezeMode)
  {
    function NumBytes(v: Id): nat
      requires v < |bits|
    {
      (bits[v] + 7) / 8
    }

    /** The slice count that ValueInfoBuilder computes. */
    function NumSlices(v: Id): nat
      requires v < |bits| && 0 < bytesPerSlice
    {
      CeilDiv(Min(NumBytes(v), maxBytesPerValue), bytesPerSlice)
    }

    predicate Live(v: Id, base: nat, k: nat)
      requires v < |live|
    {
      base + k < |live[v]| && live[v][base + k]
    }

    predicate Shaped() {
      |bits| == |defs| && |live| == |defs| && 1 <= bytesPerSlice <= 4 &&
      forall v :: 0 <= v < |defs| ==> |live[v]| == 8 * NumBytes(v)
    }
  }

  function Min(a: nat, b: nat): nat { if a < b then a else b }

  function CeilDiv(a: nat, b: nat): nat
    requires 0 < b
  {
    (a + b - 1) / b
  }

  function Times(a: nat, b: nat): nat { a * b }

  // ----- executions -----

  datatype Bit = Undefined | Known(bit: bool)

  type Image = seq<Bit>

  function BitAt(image: Image, base: nat, k: nat): Bit
  {
    if base + k < |image| then image[base + k] else Undefined
  }

  ghost predicate KnownBitsHold(known: KnownBits, image: Image)
  {
    forall k :: 0 <= k < |image| ==>
                  (k < |known.one| && known.one[k] ==> image[k] == Known(true)) &&
                  (k < |known.zero| && known.zero[k] ==> image[k] == Known(false))
  }

  /** A program, its typing, and the bits of an operand that a definition reads. */
  ghost predicate LiveInto(P: Program, v: Id, vBase: nat, w: Id, wBase: nat, count: nat)
    requires P.Shaped() && v < |P.defs| && w < |P.defs|
  {
    forall k :: 0 <= k < count && P.Live(v, vBase, k) ==> P.Live(w, wBase, k)
  }

  ghost predicate SameBits(P: Program, env: seq<Image>, v: Id, vBase: nat, w: Id, wBase: nat, count: nat)
    requires P.Shaped() && |env| == |P.defs| && v < |env| && w < |env|
  {
    forall k :: 0 <= k < count && P.Live(v, vBase, k) ==> BitAt(env[v], vBase, k) == BitAt(env[w], wBase, k)
  }

  ghost predicate SameType(P: Program, v: Id, w: Id)
    requires P.Shaped() && v < |P.defs|
  {
    w < |P.defs| && P.bits[v] == P.bits[w] && P.live[v] == P.live[w]
  }

  /** Typing of one definition: operands exist and the bits it reads from them carry data. */
  ghost predicate WellTyped(P: Program, v: Id)
    requires P.Shaped() && v < |P.defs|
  {
    (forall k :: 0 <= k < |P.live[v]| && P.live[v][k] ==> k < P.bits[v]) &&
    (forall i :: 0 <= i < |P.defs[v].Operands()| ==> P.defs[v].Operands()[i] < |P.defs|) &&
    match P.defs[v]
    case ScalarConstant(known) => |known.one| == |known.zero| == P.bits[v]
    case Other(_, Some(known)) => |known.one| == |known.zero| == P.bits[v]
    case ConstantSequence(elements, n, packed) =>
      (forall i :: 0 <= i < |elements| ==>
                     elements[i] < v && P.bits[elements[i]] == n && !P.defs[elements[i]].IsInstruction()) &&
      (packed ==> P.bits[v] == Times(|elements|, n)) &&
      (packed && n % 8 == 0 ==>
         forall i :: 0 <= i < |elements| ==> LiveInto(P, v, Times(i, n), elements[i], 0, n))
    case Cast(op) => op < |P.defs| && P.bits[v] == P.bits[op] && LiveInto(P, v, 0, op, 0, |P.live[v]|)
    case Freeze(op) => SameType(P, v, op)
    case Extract(agg, Some(offset)) =>
      agg < |P.defs| && offset + P.NumBytes(v) <= P.NumBytes(agg) && LiveInto(P, v, 0, agg, 8 * offset, |P.live[v]|)
    case Insert(agg, ins, Some(offset)) =>
      ins < |P.defs| && offset + P.NumBytes(ins) <= P.NumBytes(v) && SameType(P, v, agg) &&
      LiveInto(P, v, 8 * offset, ins, 0, 8 * P.NumBytes(ins))
    case Insert(agg, _, None) => SameType(P, v, agg)
    case Phi(incoming) => forall i :: 0 <= i < |incoming| ==> SameType(P, v, incoming[i])
    case Select(t, f, _) => SameType(P, v, t) && SameType(P, v, f)
    case _ => true
  }

  /** The image of `v` fits its definition.  Definitions that leave a result open, such as calls,
      loads and accesses at a variable index, allow any image. */
  ghost predicate Evaluates(P: Program, env: seq<Image>, v: Id)
    requires P.Shaped() && |env| == |P.defs| && v < |P.defs| && WellTyped(P, v)
  {
    |env[v]| == |P.live[v]| &&
    match P.defs[v]
    case Undef => forall k :: 0 <= k < |env[v]| ==> env[v][k] == Undefined
    case NullConstant => forall k :: 0 <= k < |env[v]| ==> env[v][k] == Known(false)
    case ScalarConstant(known) => KnownBitsHold(known, env[v])
    case Other(_, Some(known)) => KnownBitsHold(known, env[v])
    case ConstantSequence(elements, n, packed) =>
      packed && n % 8 == 0 ==>
        forall i :: 0 <= i < |elements| ==> SameBits(P, env, v, Times(i, n), elements[i], 0, n)
    case Cast(op) => SameBits(P, env, v, 0, op, 0, |env[v]|)
    case Freeze(op) =>
      |env[op]| == |env[v]| &&
      forall k :: 0 <= k < |env[v]| ==> env[v][k].Known? && (env[op][k].Known? ==> env[v][k] == env[op][k])
    case Extract(agg, Some(offset)) => SameBits(P, env, v, 0, agg, 8 * offset, |env[v]|)
    case Insert(agg, ins, Some(offset)) =>
      SameBits(P, env, v, 0, agg, 0, 8 * offset) &&
      SameBits(P, env, v, 8 * offset, ins, 0, 8 * P.NumBytes(ins)) &&
      (var end := 8 * (offset + P.NumBytes(ins)); SameBits(P, env, v, end, agg, end, |env[v]|))
    case Phi(incoming) => incoming != [] ==> exists i :: 0 <= i < |incoming| && env[v] == env[incoming[i]]
    case Select(t, f, _) => env[v] == env[t] || env[v] == env[f]
    case _ => true
  }

  // ----- what an analysis result claims -----

  /** The first bit of slice `i`. */
  function Start(P: Program, i: nat): nat { 8 * (P.bytesPerSlice * i) }

  /** One status of a slice explains the data bits of `v` from `base` on.  A dynamic slice says that
      every defined bit of its origin is reproduced.  In Forward mode an undef slice claims nothing,
      since a freeze of it may have picked any value. */
  ghost predicate Explains(P: Program, env: seq<Image>, si: SliceInfo, bit: StatusBit, v: Id, base: nat)
    requires P.Shaped() && |env| == |P.defs| && v < |env|
  {
    var count := 8 * P.bytesPerSlice;
    match bit
    case Constant =>
      forall k :: 0 <= k < count && P.Live(v, base, k) ==> BitAt(env[v], base, k) == Known(si.constantValue[k])
    case Dynamic =>
      si.dynamicValue.Some? && si.dynamicValue.value < |env| &&
      forall k :: 0 <= k < count && P.Live(v, base, k) ==>
                    var origin := BitAt(env[si.dynamicValue.value], 8 * si.byteOffset, k);
                    origin == Undefined || BitAt(env[v], base, k) == origin
    case UndefOrPoison =>
      P.freezeMode == ForwardMode ||
      forall k :: 0 <= k < count && P.Live(v, base, k) ==> BitAt(env[v], base, k) == Undefined
  }

  ghost predicate Covers(P: Program, env: seq<Image>, si: SliceInfo, v: Id, base: nat)
    requires P.Shaped() && |env| == |P.defs| && v < |env|
  {
    exists bit :: bit in si.status && Explains(P, env, si, bit, v, base)
  }

  ghost predicate Sound(P: Program, env: seq<Image>, v: Id, info: ValueInfo)
    requires P.Shaped() && |env| == |P.defs| && v < |env|
  {
    |info| == P.NumSlices(v) && forall i :: 0 <= i < |info| ==> Covers(P, env, info[i], v, Start(P, i))
  }

  /** What is known about the bits of `w` carries over to a value that has the same data bits. */
  lemma Transfer(P: Program, env: seq<Image>, si: SliceInfo, v: Id, vBase: nat, w: Id, wBase: nat)
    requires P.Shaped() && |env| == |P.defs| && v < |env| && w < |env|
    requires var count := 8 * P.bytesPerSlice;
             LiveInto(P, v, vBase, w, wBase, count) && SameBits(P, env, v, vBase, w, wBase, count)
    requires Covers(P, env, si, w, wBase)
    ensures Covers(P, env, si, v, vBase)
  {
    var bit :| bit in si.status && Explains(P, env, si, bit, w, wBase);
    assert Explains(P, env, si, bit, v, vBase);
  }

  /** One slice says at least as much as another: every status of `b` is a status of `a`. */
  ghost predicate Includes(a: SliceInfo, b: SliceInfo)
  {
    b.status <= a.status &&
    (Constant in b.status ==> a.constantValue == b.constantValue) &&
    (Dynamic in b.status ==> a.dynamicValue == b.dynamicValue && a.byteOffset == b.byteOffset)
  }

  lemma IncludesCovers(P: Program, env: seq<Image>, a: SliceInfo, b: SliceInfo, v: Id, base: nat)
    requires P.Shaped() && |env| == |P.defs| && v < |env|
    requires Includes(a, b) && Covers(P, env, b, v, base)
    ensures Covers(P, env, a, v, base)
  {
    var bit :| bit in b.status && Explains(P, env, b, bit, v, base);
    assert Explains(P, env, a, bit, v, base);
  }

  // ----- combining slices for select and phi -----

  ghost predicate Conflict(slices: seq<SliceInfo>, i: nat, j: nat)
    requires i < |slices| && j < |slices|
  {
    (Constant in slices[i].status && Constant in slices[j].status && slices[i].constantValue != slices[j].constantValue) ||
    (Dynamic in slices[i].status && Dynamic in slices[j].status &&
     (slices[i].dynamicValue != slices[j].dynamicValue || slices[i].byteOffset != slices[j].byteOffset))
  }

  ghost predicate Conflicting(slices: seq<SliceInfo>)
  {
    exists i, j :: 0 <= i < j < |slices| && Conflict(slices, i, j)
  }

  /** The slice says what all of the given slices say together, and nothing else. */
  ghost predicate Combined(slices: seq<SliceInfo>, r: SliceInfo)
  {
    (forall i :: 0 <= i < |slices| ==> Includes(r, slices[i])) &&
    forall bit :: bit in r.status ==> exists i :: 0 <= i < |slices| && bit in slices[i].status
  }

  /** combineSliceInfosForSelect: the slice is one of the given slices. */
  method CombineSliceInfosForSelect(slices: seq<SliceInfo>) returns (r: Option<SliceInfo>)
    requires forall i :: 0 <= i < |slices| && Dynamic in slices[i].status ==> slices[i].dynamicValue.Some?
    ensures |slices| == 1 ==> r == Some(slices[0])
    ensures |slices| != 1 ==>
              (r.None? <==> slices == [] || Conflicting(slices))
    ensures |slices| >= 2 ==>
              (r.None? <==>
               || (exists i, j :: 0 <= i < |slices| && 0 <= j < |slices| && Constant in slices[i].status &&
                                  Constant in slices[j].status && slices[i].constantValue != slices[j].constantValue)
               || (exists i, j :: 0 <= i < |slices| && 0 <= j < |slices| && Dynamic in slices[i].status && Dynamic in slices[j].status &&
                                  (slices[i].dynamicValue, slices[i].byteOffset) != (slices[j].dynamicValue, slices[j].byteOffset)))
    ensures r.Some? ==> Combined(slices, r.value)
    ensures r.Some? ==> forall bit :: bit in r.value.status <==> exists i :: 0 <= i < |slices| && bit in slices[i].status
    ensures r.Some? ==> forall i :: 0 <= i < |slices| ==>
                                      && (Constant in slices[i].status ==> r.value.constantValue == slices[i].constantValue)
                                      && (Dynamic in slices[i].status ==>
                                            (r.value.dynamicValue, r.value.byteOffset) == (slices[i].dynamicValue, slices[i].byteOffset))
  {
    if |slices| == 0 {
      return None;
    }
    if |slices| == 1 {
      return Some(slices[0]);
    }
    var result := SliceInfo({}, ZeroWord(), None, 0);
    var constantValue: Option<Word> := None;
    for n := 0 to |slices|
      invariant forall i :: 0 <= i < n && Constant in slices[i].status ==> constantValue == Some(slices[i].constantValue)
      invariant constantValue.Some? ==> exists i :: 0 <= i < n && Constant in slices[i].status
    {
      if Constant in slices[n].status {
        if constantValue.None? {
          constantValue := Some(slices[n].constantValue);
        } else if constantValue.value != slices[n].constantValue {
          var i :| 0 <= i < n && Constant in slices[i].status;
          assert Conflict(slices, i, n);
          return None;
        }
      }
    }
    if constantValue.Some? {
      result := result.(status := result.status + {Constant}, constantValue := constantValue.value);
    }
    var dynInfo: Option<(Id, nat)> := None;
    for n := 0 to |slices|
      invariant forall i :: 0 <= i < n && Dynamic in slices[i].status ==>
                              dynInfo.Some? && slices[i].dynamicValue == Some(dynInfo.value.0) &&
                              slices[i].byteOffset == dynInfo.value.1
      invariant dynInfo.Some? ==> exists i :: 0 <= i < n && Dynamic in slices[i].status
    {
      if Dynamic in slices[n].status {
        var current := (slices[n].dynamicValue.value, slices[n].byteOffset);
        if dynInfo.None? {
          dynInfo := Some(current);
        } else if dynInfo.value != current {
          var i :| 0 <= i < n && Dynamic in slices[i].status;
          assert Conflict(slices, i, n);
          return None;
        }
      }
    }
    if dynInfo.Some? {
      result := result.(status := result.status + {Dynamic}, dynamicValue := Some(dynInfo.value.0),
                        byteOffset := dynInfo.value.1);
    }
    if exists i :: 0 <= i < |slices| && UndefOrPoison in slices[i].status {
      result := result.(status := result.status + {UndefOrPoison});
    }
    forall i, bit | 0 <= i < |slices| && bit in slices[i].status
      ensures bit in result.status
    {
      match bit case Constant => case Dynamic => case UndefOrPoison =>
    }
    r := Some(result);
  }
}
