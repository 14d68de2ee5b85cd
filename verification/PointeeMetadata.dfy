/** The !pointeetys metadata of compilerutils/lib/TypesMetadata.cpp, which keeps the pointee types of the pointer
return type and pointer parameters of a function.
*/
module PointeeMetadata {
  datatype Option<T> = None | Some(value: T)

  datatype Type = PointerType | OtherType(id: nat)

  /** A type with its pointee type if it is a pointer. */
  datatype TypedArgTy = TypedArgTy(bare: Type, elem: Option<Type>)

  datatype FunctionType = FunctionType(ret: Type, params: seq<Type>, isVarArg: bool)

  /** An operand of the tuple; None is the null entry. */
  type Entry = Option<Type>

  /** What the constructor of TypedArgTy asserts. */
  predicate WellTyped(ty: TypedArgTy)
  {
    ty.bare.PointerType? <==> ty.elem.Some?
  }

  predicate AllWellTyped(args: seq<TypedArgTy>)
  {
    forall i :: 0 <= i < |args| ==> WellTyped(args[i])
  }

  // ----- pointer parameters -----

  function Pointers(args: seq<TypedArgTy>): nat
  {
    if args == [] then 0
    else Pointers(args[..|args| - 1]) + if args[|args| - 1].elem.Some? then 1 else 0
  }

  function FirstPointer(args: seq<TypedArgTy>): (i: nat)
    requires 0 < Pointers(args)
    ensures i < |args| && args[i].elem.Some?
    ensures forall k :: 0 <= k < i ==> args[k].elem.None?
  {
    var init := args[..|args| - 1];
    if 0 < Pointers(init) then FirstPointer(init)
    else
      NoPointers(init);
      |args| - 1
  }

  lemma {:induction false} NoPointers(args: seq<TypedArgTy>)
    requires Pointers(args) == 0
    ensures forall k :: 0 <= k < |args| ==> args[k].elem.None?
  {
    if args != [] {
      var init := args[..|args| - 1];
      NoPointers(init);
      assert forall k :: 0 <= k < |init| ==> args[k] == init[k];
    }
  }

  function LastPointer(args: seq<TypedArgTy>): (i: nat)
    requires 0 < Pointers(args)
    ensures i < |args| && args[i].elem.Some?
    ensures forall k :: i < k < |args| ==> args[k].elem.None?
  {
    if args[|args| - 1].elem.Some? then |args| - 1 else LastPointer(args[..|args| - 1])
  }

  lemma {:induction false} OnlyPointer(args: seq<TypedArgTy>, i: nat)
    requires Pointers(args) == 1 && i < |args| && args[i].elem.Some?
    ensures FirstPointer(args) == i
  {
    var init := args[..|args| - 1];
    if i < |args| - 1 {
      assert init[i] == args[i];
      if Pointers(init) == 0 {
        NoPointers(init);
        assert false;
      }
      OnlyPointer(init, i);
    } else if 0 < Pointers(init) {
      assert false;
    }
  }

  lemma {:induction false} Appended(args: seq<TypedArgTy>, arg: TypedArgTy)
    ensures var more := args + [arg];
            && more[..|args|] == args
            && (arg.elem.None? ==> Pointers(more) == Pointers(args))
            && (arg.elem.Some? ==> Pointers(more) == Pointers(args) + 1 && LastPointer(more) == |args|)
            && (Pointers(args) == 0 && arg.elem.Some? ==> FirstPointer(more) == |args|)
            && (0 < Pointers(args) ==> FirstPointer(more) == FirstPointer(args))
            && (0 < Pointers(args) && arg.elem.None? ==> LastPointer(more) == LastPointer(args))
  {
    var more := args + [arg];
    assert more[..|more| - 1] == args && more[|more| - 1] == arg;
  }

  lemma {:induction false} TwoPointers(args: seq<TypedArgTy>)
    requires 2 <= Pointers(args)
    ensures FirstPointer(args) < LastPointer(args)
  {
    var init := args[..|args| - 1];
    if args[|args| - 1].elem.None? {
      TwoPointers(init);
    }
  }

  // ----- the documented formats -----

  function ReturnEntry(result: TypedArgTy): seq<Entry>
  {
    if result.elem.Some? then [result.elem] else []
  }

  /** The simple format for at most one pointer parameter, and otherwise the general one, where every entry but
      trailing null entries has its place. */
  function Documented(result: TypedArgTy, args: seq<TypedArgTy>): seq<Entry>
  {
    if Pointers(args) == 0 then ReturnEntry(result)
    else if Pointers(args) == 1 then ReturnEntry(result) + [args[FirstPointer(args)].elem]
    else seq(LastPointer(args) + 2, j requires 0 <= j < LastPointer(args) + 2 => if j == 0 then result.elem else args[j - 1].elem)
  }

  /** The signatures for which the first pointer parameter is not moved to its place in the general format. */
  predicate Displaced(result: TypedArgTy, args: seq<TypedArgTy>)
  {
    result.elem.Some? && 2 <= Pointers(args) && FirstPointer(args) != 0
  }

  /** What the constructor builds. */
  function Built(result: TypedArgTy, args: seq<TypedArgTy>): seq<Entry>
  {
    if Displaced(result, args) then seq(LastPointer(args) + 2, j requires 0 <= j < LastPointer(args) + 2 => DisplacedEntry(result, args, j))
    else Documented(result, args)
  }

  /** The entry of the first pointer parameter stays in second place, where it was in the simple format. */
  function DisplacedEntry(result: TypedArgTy, args: seq<TypedArgTy>, j: nat): Entry
    requires 2 <= Pointers(args) && j < LastPointer(args) + 2
  {
    if j == 0 then result.elem
    else if j == 1 then args[FirstPointer(args)].elem
    else if j == FirstPointer(args) + 1 then None
    else args[j - 1].elem
  }

  function Resize(entries: seq<Entry>, n: nat): (r: seq<Entry>)
    ensures |r| == n
  {
    if n <= |entries| then entries[..n] else entries + seq(n - |entries|, _ => None)
  }

  function Swap(entries: seq<Entry>, i: nat, j: nat): (r: seq<Entry>)
    requires i < |entries| && j < |entries|
    ensures |r| == |entries|
  {
    entries[i := entries[j]][j := entries[i]]
  }

  // ----- one more parameter -----

  lemma {:induction false} BuiltPlain(result: TypedArgTy, args: seq<TypedArgTy>, arg: TypedArgTy)
    requires arg.elem.None?
    ensures Built(result, args + [arg]) == Built(result, args)
  {
    Appended(args, arg);
    if 2 <= Pointers(args) {
      var d, e := Documented(result, args), Documented(result, args + [arg]);
      assert |d| == |e| && forall j :: 0 <= j < |d| ==> d[j] == e[j];
      assert d == e;
    }
  }

  lemma {:induction false} BuiltFirst(result: TypedArgTy, args: seq<TypedArgTy>, arg: TypedArgTy)
    requires arg.elem.Some? && Pointers(args) == 0
    ensures Built(result, args + [arg]) == Built(result, args) + [arg.elem]
  {
    Appended(args, arg);
  }

  /** The transition to the general format when the return type has no entry. */
  lemma {:induction false} BuiltSecond(result: TypedArgTy, args: seq<TypedArgTy>, arg: TypedArgTy)
    requires arg.elem.Some? && Pointers(args) == 1 && result.elem.None?
    ensures Built(result, args + [arg]) ==
            Swap(Resize(Built(result, args), |args| + 2), 0, FirstPointer(args) + 1)[|args| + 1 := arg.elem]
  {
    Appended(args, arg);
    var more := args + [arg];
    var r := Swap(Resize(Built(result, args), |args| + 2), 0, FirstPointer(args) + 1)[|args| + 1 := arg.elem];
    var d := Documented(result, more);
    assert |r| == |d|;
    forall j | 0 <= j < |d| ensures r[j] == d[j] {
      if 0 < j <= |args| && j - 1 != FirstPointer(args) { OnlyPointerAt(args, j - 1); }
    }
    assert r == d;
  }

  lemma {:induction false} OnlyPointerAt(args: seq<TypedArgTy>, i: nat)
    requires Pointers(args) == 1 && i < |args| && i != FirstPointer(args)
    ensures args[i].elem.None?
  {
    if args[i].elem.Some? { OnlyPointer(args, i); }
  }

  /** When the return type has an entry, the same happens as in the general format. */
  lemma {:induction false} BuiltSecondAfterReturn(result: TypedArgTy, args: seq<TypedArgTy>, arg: TypedArgTy)
    requires arg.elem.Some? && Pointers(args) == 1 && result.elem.Some?
    ensures Built(result, args + [arg]) == Resize(Built(result, args), |args| + 2)[|args| + 1 := arg.elem]
  {
    Appended(args, arg);
    var more := args + [arg];
    var r := Resize(Built(result, args), |args| + 2)[|args| + 1 := arg.elem];
    var b := Built(result, more);
    assert |r| == |b|;
    forall j | 0 <= j < |b| ensures r[j] == b[j] {
      if 0 < j <= |args| && j - 1 != FirstPointer(args) { OnlyPointerAt(args, j - 1); }
    }
    assert r == b;
  }

  lemma {:induction false} BuiltLater(result: TypedArgTy, args: seq<TypedArgTy>, arg: TypedArgTy)
    requires arg.elem.Some? && 2 <= Pointers(args)
    ensures Built(result, args + [arg]) == Resize(Built(result, args), |args| + 2)[|args| + 1 := arg.elem]
  {
    hide Pointers;
    hide FirstPointer;
    hide LastPointer;
    hide DisplacedEntry;
    Appended(args, arg);
    TwoPointers(args);
    var more := args + [arg];
    var b, c := Built(result, args), Built(result, more);
    assert |b| == LastPointer(args) + 2 && |c| == |args| + 2;
    var r := Resize(b, |args| + 2)[|args| + 1 := arg.elem];
    forall j | 0 <= j < |c| ensures r[j] == c[j] {
      LaterEntry(result, args, arg, j);
    }
    assert r == c;
  }

  lemma {:induction false} LaterEntry(result: TypedArgTy, args: seq<TypedArgTy>, arg: TypedArgTy, j: nat)
    requires arg.elem.Some? && 2 <= Pointers(args) && j < |args| + 2
    ensures Pointers(args + [arg]) == Pointers(args) + 1 && LastPointer(args + [arg]) == |args|
    ensures var more := args + [arg];
            && |Built(result, more)| == |args| + 2 && |Built(result, args)| == LastPointer(args) + 2
            && Built(result, more)[j] ==
               if j < LastPointer(args) + 2 then Built(result, args)[j] else if j == |args| + 1 then arg.elem else None
  {
    hide Pointers;
    hide FirstPointer;
    hide LastPointer;
    Appended(args, arg);
    TwoPointers(args);
  }

  lemma {:induction false} BuiltEmpty(result: TypedArgTy)
    ensures Built(result, []) == ReturnEntry(result) && Pointers([]) == 0
  {
  }

  lemma {:induction false} BuiltLength(result: TypedArgTy, args: seq<TypedArgTy>)
    ensures |Built(result, args)| <= 1 <==> Pointers(args) == 0 || (Pointers(args) == 1 && result.elem.None?)
    ensures Pointers(args) == 1 && result.elem.None? ==> |Built(result, args)| == 1
  {
    if 2 <= Pointers(args) { TwoPointers(args); }
  }

  /** The decoder: `idx` is 0 for the return type and n + 1 for parameter n.  None stands for a null result,
      which for a pointer type violates the final assertion. */
  function GetPointeeType(funcTy: FunctionType, meta: Option<seq<Entry>>, ty: Type, idx: nat): Option<Type>
  {
    if !ty.PointerType? || meta.None? then None
    else
      var entries := meta.value;
      if idx == 0 then
        if |entries| >= 1 then entries[0] else None
      else if |entries| == 1 || (|entries| == 2 && funcTy.ret.PointerType?) then entries[|entries| - 1]
      else if idx < |entries| then entries[idx] else None
  }

  function BareType(result: TypedArgTy, args: seq<TypedArgTy>, isVarArg: bool): FunctionType
  {
    FunctionType(result.bare, seq(|args|, i requires 0 <= i < |args| => args[i].bare), isVarArg)
  }

  /** No tuple is made without entries. */
  function Tuple(entries: seq<Entry>): Option<seq<Entry>>
  {
    if entries == [] then None else Some(entries)
  }

  class TypedFuncTy {
    const funcTy: FunctionType
    const meta: Option<seq<Entry>>

    constructor (result: TypedArgTy, args: seq<TypedArgTy>, isVarArg: bool)
      requires WellTyped(result) && AllWellTyped(args)
      ensures funcTy == BareType(result, args, isVarArg) && meta == Tuple(Built(result, args))
    {
      hide Built;
      hide Pointers;
      hide FirstPointer;
      hide Resize;
      hide Swap;
      BuiltEmpty(result);
      var bareArgTys: seq<Type> := [];
      var pointeeTys: seq<Entry> := [];
      var simpleFormatArgIdx: Option<nat> := None;
      if result.elem.Some? {
        pointeeTys := pointeeTys + [result.elem];
      }
      var argIdx := 0;
      while argIdx != |args|
        invariant 0 <= argIdx <= |args|
        invariant bareArgTys == seq(argIdx, i requires 0 <= i < argIdx => args[i].bare)
        invariant pointeeTys == Built(result, args[..argIdx])
        invariant simpleFormatArgIdx == if Pointers(args[..argIdx]) == 0 then None else Some(FirstPointer(args[..argIdx]))
      {
        var argTy := args[argIdx];
        bareArgTys := bareArgTys + [argTy.bare];
        ghost var before := args[..argIdx];
        assert args[..argIdx + 1] == before + [argTy];
        Appended(before, argTy);
        BuiltLength(result, before);
        if argTy.elem.None? {
          BuiltPlain(result, before, argTy);
        } else if Pointers(before) == 0 {
          BuiltFirst(result, before, argTy);
        } else if Pointers(before) == 1 && result.elem.None? {
          BuiltSecond(result, before, argTy);
        } else if Pointers(before) == 1 {
          BuiltSecondAfterReturn(result, before, argTy);
        } else {
          BuiltLater(result, before, argTy);
        }
        if argTy.elem.Some? {
          if |pointeeTys| <= 1 {
            if simpleFormatArgIdx.None? {
              simpleFormatArgIdx := Some(argIdx);
              pointeeTys := pointeeTys + [argTy.elem];
            } else {
              var firstPointerArgIdx := |pointeeTys| - 1;
              pointeeTys := Resize(pointeeTys, argIdx + 2);
              pointeeTys := Swap(pointeeTys, firstPointerArgIdx, simpleFormatArgIdx.value + 1);
              pointeeTys := pointeeTys[|pointeeTys| - 1 := argTy.elem];
            }
          } else {
            pointeeTys := Resize(pointeeTys, argIdx + 2);
            pointeeTys := pointeeTys[|pointeeTys| - 1 := argTy.elem];
          }
        }
        argIdx := argIdx + 1;
      }
      assert args[..|args|] == args;
      funcTy := FunctionType(result.bare, bareArgTys, isVarArg);
      meta := if |pointeeTys| != 0 then Some(pointeeTys) else None;
    }

    function GetReturnType(): TypedArgTy
    {
      TypedArgTy(funcTy.ret, GetPointeeType(funcTy, meta, funcTy.ret, 0))
    }

    function GetParamType(idx: nat): TypedArgTy
      requires idx < |funcTy.params|
    {
      TypedArgTy(funcTy.params[idx], GetPointeeType(funcTy, meta, funcTy.params[idx], idx + 1))
    }

    method GetParamTypes() returns (argTys: seq<TypedArgTy>)
      ensures |argTys| == |funcTy.params| && forall i :: 0 <= i < |argTys| ==> argTys[i] == GetParamType(i)
      ensures forall result, args: seq<TypedArgTy>, isVarArg ::
                && WellTyped(result) && AllWellTyped(args)
                && funcTy == BareType(result, args, isVarArg) && meta == Tuple(Built(result, args)) ==>
                  && |argTys| == |args|
                  && forall i :: 0 <= i < |args| ==>
                                   argTys[i] == if Displaced(result, args) && i == FirstPointer(args) then TypedArgTy(args[i].bare, None) else args[i]
    {
      hide Built;
      hide Pointers;
      argTys := [];
      for idx := 0 to |funcTy.params|
        invariant |argTys| == idx && forall i :: 0 <= i < idx ==> argTys[i] == GetParamType(i)
      {
        argTys := argTys + [GetParamType(idx)];
      }
      forall result, args: seq<TypedArgTy>, isVarArg |
        && WellTyped(result) && AllWellTyped(args)
        && funcTy == BareType(result, args, isVarArg) && meta == Tuple(Built(result, args))
        ensures |argTys| == |args|
        ensures forall i :: 0 <= i < |args| ==>
                              argTys[i] == if Displaced(result, args) && i == FirstPointer(args) then TypedArgTy(args[i].bare, None) else args[i]
      {
        AccessorsExactly(this, result, args, isVarArg);
      }
    }
  }

  // ----- round trips -----

  /** A tuple from which every type of the signature is recovered. */
  predicate Recovers(entries: seq<Entry>, result: TypedArgTy, args: seq<TypedArgTy>)
  {
    var funcTy := BareType(result, args, false);
    && GetPointeeType(funcTy, Tuple(entries), result.bare, 0) == result.elem
    && forall i :: 0 <= i < |args| ==> GetPointeeType(funcTy, Tuple(entries), args[i].bare, i + 1) == args[i].elem
  }

  /** The documented formats serve every signature: the decoder never confuses them. */
  lemma {:induction false} DocumentedRecovers(result: TypedArgTy, args: seq<TypedArgTy>)
    requires WellTyped(result) && AllWellTyped(args)
    ensures Recovers(Documented(result, args), result, args)
  {
    var funcTy := BareType(result, args, false);
    var meta := Tuple(Documented(result, args));
    if 2 <= Pointers(args) { TwoPointers(args); }
    forall i | 0 <= i < |args| ensures GetPointeeType(funcTy, meta, args[i].bare, i + 1) == args[i].elem {
      assert WellTyped(args[i]);
      if args[i].elem.Some? {
        if Pointers(args) == 0 {
          NoPointers(args);
          assert false;
        } else if Pointers(args) == 1 {
          OnlyPointer(args, i);
        }
      }
    }
  }

  /** The constructor keeps the documented formats, and the types are recovered, exactly if it is not the case
      that the return type is a pointer and the first of several pointer parameters is not the first parameter. */
  lemma {:induction false} RoundTripExactly(result: TypedArgTy, args: seq<TypedArgTy>)
    requires WellTyped(result) && AllWellTyped(args)
    ensures Built(result, args) == Documented(result, args) <==> !Displaced(result, args)
    ensures Recovers(Built(result, args), result, args) <==> !Displaced(result, args)
  {
    DocumentedRecovers(result, args);
    if Displaced(result, args) {
      TwoPointers(args);
      var i := FirstPointer(args);
      var entries := Built(result, args);
      assert entries[i + 1] == None && Documented(result, args)[i + 1] == args[i].elem;
      assert WellTyped(args[i]);
      assert GetPointeeType(BareType(result, args, false), Tuple(entries), args[i].bare, i + 1) == None;
    }
  }

  /** When types are not recovered, then only that of the first pointer parameter is lost. */
  lemma {:induction false} OnlyFirstPointerLost(result: TypedArgTy, args: seq<TypedArgTy>, i: nat)
    requires WellTyped(result) && AllWellTyped(args) && Displaced(result, args) && i < |args|
    ensures GetPointeeType(BareType(result, args, false), Tuple(Built(result, args)), args[i].bare, i + 1) ==
            if i == FirstPointer(args) then None else args[i].elem
    ensures GetPointeeType(BareType(result, args, false), Tuple(Built(result, args)), result.bare, 0) == result.elem
  {
    hide Pointers;
    hide FirstPointer;
    hide LastPointer;
    hide Built;
    BuiltDisplaced(result, args);
    var entries := Built(result, args);
    assert WellTyped(args[i]);
    if args[i].elem.Some? { assert i + 1 < |entries|; }
  }

  lemma {:induction false} BuiltDisplaced(result: TypedArgTy, args: seq<TypedArgTy>)
    requires Displaced(result, args)
    ensures var entries := Built(result, args);
            && |entries| == LastPointer(args) + 2 && 2 < |entries|
            && entries[0] == result.elem
            && forall i :: 0 <= i < |args| && i + 1 < |entries| && args[i].elem.Some? ==>
                             entries[i + 1] == if i == FirstPointer(args) then None else args[i].elem
  {
    hide Pointers;
    hide FirstPointer;
    hide LastPointer;
    TwoPointers(args);
  }

  /** What the accessors of an object give back: the return type and the types of all parameters, in order, if and only if
      the signature is not displaced, and otherwise all but the pointee type of the first pointer parameter. */
  lemma {:induction false} AccessorsExactly(f: TypedFuncTy, result: TypedArgTy, args: seq<TypedArgTy>, isVarArg: bool)
    requires WellTyped(result) && AllWellTyped(args)
    requires f.funcTy == BareType(result, args, isVarArg) && f.meta == Tuple(Built(result, args))
    ensures f.GetReturnType() == result
    ensures (forall i :: 0 <= i < |args| ==> f.GetParamType(i) == args[i]) <==> !Displaced(result, args)
    ensures forall i :: 0 <= i < |args| ==>
                          f.GetParamType(i) ==
                          if Displaced(result, args) && i == FirstPointer(args) then TypedArgTy(args[i].bare, None) else args[i]
  {
    hide Pointers;
    hide FirstPointer;
    hide Built;
    RoundTripExactly(result, args);
    AnyVarArg(result, args, isVarArg);
    forall i | 0 <= i < |args|
      ensures f.GetParamType(i) == if Displaced(result, args) && i == FirstPointer(args) then TypedArgTy(args[i].bare, None) else args[i]
    {
      if Displaced(result, args) {
        OnlyFirstPointerLost(result, args, i);
      }
    }
    if Displaced(result, args) {
      FirstIsPointer(args);
      OnlyFirstPointerLost(result, args, FirstPointer(args));
    }
  }

  lemma FirstIsPointer(args: seq<TypedArgTy>)
    requires 2 <= Pointers(args)
    ensures FirstPointer(args) < |args| && args[FirstPointer(args)].elem.Some?
  {
  }

  /** Decoding does not look at the parameter list or its end. */
  lemma AnyVarArg(result: TypedArgTy, args: seq<TypedArgTy>, isVarArg: bool)
    ensures forall meta, ty, idx :: GetPointeeType(BareType(result, args, isVarArg), meta, ty, idx) ==
                                    GetPointeeType(BareType(result, args, false), meta, ty, idx)
  {
  }

  /** Displaced signatures in plain terms: the return type and two or more parameters are pointers, but the first parameter is not. */
  lemma {:induction false} DisplacedMeans(result: TypedArgTy, args: seq<TypedArgTy>)
    ensures Displaced(result, args) <==>
            && result.elem.Some? && args != [] && args[0].elem.None?
            && exists i, j :: 0 <= i < j < |args| && args[i].elem.Some? && args[j].elem.Some?
  {
    if 2 <= Pointers(args) {
      TwoPointers(args);
      assert args[FirstPointer(args)].elem.Some? && args[LastPointer(args)].elem.Some?;
    } else if Pointers(args) == 1 {
      forall i, j | 0 <= i < j < |args| && args[i].elem.Some? && args[j].elem.Some? ensures false {
        OnlyPointer(args, i);
        OnlyPointer(args, j);
      }
    } else {
      NoPointers(args);
    }
  }

  /** A function that returns a pointer and takes an integer and two pointers. */
  lemma {:induction false} LostPointee(t: Type, u: Type, v: Type)
    ensures var result := TypedArgTy(PointerType, Some(t));
            var args := [TypedArgTy(OtherType(0), None), TypedArgTy(PointerType, Some(u)), TypedArgTy(PointerType, Some(v))];
            && Built(result, args) == [Some(t), Some(u), None, Some(v)]
            && GetPointeeType(BareType(result, args, false), Tuple(Built(result, args)), PointerType, 2) == None
  {
    var plain, first, second := TypedArgTy(OtherType(0), None), TypedArgTy(PointerType, Some(u)), TypedArgTy(PointerType, Some(v));
    var result := TypedArgTy(PointerType, Some(t));
    assert [plain] == [] + [plain] && [plain, first] == [plain] + [first] && [plain, first, second] == [plain, first] + [second];
    BuiltEmpty(result);
    Appended([], plain);
    BuiltPlain(result, [], plain);
    Appended([plain], first);
    BuiltFirst(result, [plain], first);
    BuiltSecondAfterReturn(result, [plain, first], second);
  }
}
