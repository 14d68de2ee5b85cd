/** Conversion of types: TypeLowering::convertType and coreTypeConverter in compilerutils/lib/TypeLowering.cpp, and what
it means for values, which the visitors for extractvalue and insertvalue rely on.
*/
module TypeConversion {
  // ----- types -----

  /** Named structs are different types even if they have the same elements. */
  datatype Name = Literal | Named(base: string, id: nat)

  /** Scalars, vectors and pointers are leaves. */
  datatype Type =
    | Leaf(id: nat)
    | Array(element: Type, count: nat)
    | Struct(elements: seq<Type>, name: Name)

  /** A conversion rule: the replacement types, or none if the rule does not apply. */
  type Rule = Type -> seq<Type>

  /** Several replacement types take the place of one type as a struct. */
  function Packed(types: seq<Type>): Type
  {
    if |types| == 1 then types[0] else Struct(types, Literal)
  }

  /** The rules are tried from the last one on. */
  function Apply(rules: seq<Rule>, ty: Type): seq<Type>
  {
    if rules == [] then []
    else
      var types := rules[|rules| - 1](ty);
      if types != [] then types else Apply(rules[..|rules| - 1], ty)
  }

  /** The last rule that applies decides. */
  lemma {:induction false} LastRuleWins(rules: seq<Rule>, ty: Type)
    ensures Apply(rules, ty) == [] <==> forall i :: 0 <= i < |rules| ==> rules[i](ty) == []
    ensures forall i :: 0 <= i < |rules| && rules[i](ty) != [] && (forall j :: i < j < |rules| ==> rules[j](ty) == []) ==>
                          Apply(rules, ty) == rules[i](ty)
  {
    if rules != [] {
      var init := rules[..|rules| - 1];
      LastRuleWins(init, ty);
      assert forall i :: 0 <= i < |init| ==> rules[i] == init[i];
    }
  }

  /** No rule applies to arrays and structs, so that the fallback handles them. */
  ghost predicate LeafOnly(rules: seq<Rule>)
  {
    forall ty: Type :: !ty.Leaf? ==> Apply(rules, ty) == []
  }

  /** The names in a type that have been given out before. */
  predicate NamesBelow(ty: Type, next: nat)
  {
    match ty
    case Leaf(_) => true
    case Array(element, _) => NamesBelow(element, next)
    case Struct(elements, name) =>
      (name.Named? ==> name.id < next) && forall i :: 0 <= i < |elements| ==> NamesBelow(elements[i], next)
  }

  lemma {:induction false} NamesBelowLater(ty: Type, next: nat, later: nat)
    requires NamesBelow(ty, next) && next <= later
    ensures NamesBelow(ty, later)
  {
    match ty
    case Leaf(_) =>
    case Array(element, _) => NamesBelowLater(element, next, later);
    case Struct(elements, _) =>
      forall i | 0 <= i < |elements| ensures NamesBelow(elements[i], later) {
        NamesBelowLater(elements[i], next, later);
      }
  }

  function Size(ty: Type): nat
  {
    match ty
    case Leaf(_) => 0
    case Array(element, _) => Size(element) + 1
    case Struct(elements, _) => SizeOfAll(elements) + 1
  }

  function SizeOfAll(types: seq<Type>): nat
  {
    if types == [] then 0 else Size(types[0]) + SizeOfAll(types[1..])
  }

  lemma {:induction false} ElementIsSmaller(types: seq<Type>, i: nat)
    requires i < |types|
    ensures Size(types[i]) <= SizeOfAll(types)
  {
    if i > 0 { ElementIsSmaller(types[1..], i - 1); }
  }

  // ----- what has been converted so far -----

  type Conversions = map<Type, seq<Type>>

  /** The elements of a converted aggregate. */
  function PackedAll(m: Conversions, types: seq<Type>): (r: seq<Type>)
    requires forall i :: 0 <= i < |types| ==> types[i] in m
    ensures |r| == |types|
  {
    seq(|types|, i requires 0 <= i < |types| => Packed(m[types[i]]))
  }

  predicate Unchanged(m: Conversions, ty: Type) { ty in m && m[ty] == [ty] }

  /** A recorded conversion is the one of the rules, or has the shape of the type with converted elements.  A new struct
      with a name is a type of its own. */
  predicate Consistent(rules: seq<Rule>, m: Conversions, next: nat, ty: Type)
    requires ty in m
  {
    if Apply(rules, ty) != [] then m[ty] == Apply(rules, ty)
    else
      match ty
      case Leaf(_) => m[ty] == [ty]
      case Array(element, count) =>
        element in m && m[ty] == [if Unchanged(m, element) then ty else Array(Packed(m[element]), count)]
      case Struct(elements, name) =>
        && (forall i :: 0 <= i < |elements| ==> elements[i] in m)
        && if forall i :: 0 <= i < |elements| ==> Unchanged(m, elements[i]) then m[ty] == [ty]
           else
             && |m[ty]| == 1 && m[ty][0].Struct? && m[ty][0].elements == PackedAll(m, elements)
             && (name.Literal? ==> m[ty][0].name == Literal)
             && (name.Named? ==> m[ty][0].name.Named? && m[ty][0].name.base == name.base && m[ty][0].name.id < next)
  }

  predicate AllConsistent(rules: seq<Rule>, m: Conversions, next: nat)
  {
    forall ty :: ty in m ==> Consistent(rules, m, next, ty)
  }

  /** Later conversions leave the earlier ones as they are. */
  predicate Extends(m: Conversions, later: Conversions)
  {
    forall ty :: ty in m ==> ty in later && later[ty] == m[ty]
  }

  /** Only types up to a size have been converted in between. */
  predicate Grown(m: Conversions, later: Conversions, size: int)
  {
    Extends(m, later) && forall ty :: ty in later && ty !in m ==> Size(ty) <= size
  }

  lemma RecordedConsistent(rules: seq<Rule>, m: Conversions, next: nat, ty: Type, types: seq<Type>)
    requires AllConsistent(rules, m, next) && ty !in m && Consistent(rules, m[ty := types], next, ty)
    ensures AllConsistent(rules, m[ty := types], next)
  {
    forall other | other in m ensures Consistent(rules, m[ty := types], next, other) {
    }
  }

  class TypeLowering {
    var rules: seq<Rule>
    var typeConversions: Conversions
    /** The next name for a struct type in the context. */
    var nextName: nat

    predicate Valid()
      reads this
    {
      AllConsistent(rules, typeConversions, nextName)
    }

    constructor ()
      ensures Valid() && rules == [] && typeConversions == map[]
    {
      rules := [];
      typeConversions := map[];
      nextName := 0;
    }

    /** A rule that is added later does not apply to types that have been converted already. */
    method AddRule(rule: Rule)
      modifies this`rules
      ensures rules == old(rules) + [rule]
      ensures typeConversions == map[] ==> Valid()
    {
      rules := rules + [rule];
    }

    /** Determines the types that a type is converted to, once: later calls return the same types. */
    method ConvertType(ty: Type) returns (types: seq<Type>)
      requires Valid() && NamesBelow(ty, nextName)
      modifies this`typeConversions, this`nextName
      ensures Valid() && Grown(old(typeConversions), typeConversions, Size(ty)) && nextName >= old(nextName)
      ensures ty in typeConversions && types == typeConversions[ty]
      decreases ty, 2
    {
      if ty in typeConversions {
        return typeConversions[ty];
      }
      types := ApplyRules(ty);
      if types == [] {
        types := CoreTypeConverter(ty);
      }
      RecordedConsistent(rules, typeConversions, nextName, ty, types);
      typeConversions := typeConversions[ty := types];
    }

    method ApplyRules(ty: Type) returns (types: seq<Type>)
      ensures types == Apply(rules, ty)
      ensures types == [] <==> forall i :: 0 <= i < |rules| ==> rules[i](ty) == []
      ensures types != [] ==>
                exists i :: 0 <= i < |rules| && types == rules[i](ty) && forall j :: i < j < |rules| ==> rules[j](ty) == []
    {
      var i := |rules|;
      assert rules[..i] == rules;
      while i > 0
        invariant 0 <= i <= |rules| && Apply(rules, ty) == Apply(rules[..i], ty)
        invariant forall j :: i <= j < |rules| ==> rules[j](ty) == []
      {
        i := i - 1;
        assert rules[..i + 1][..i] == rules[..i];
        types := rules[i](ty);
        if types != [] {
          return;
        }
      }
      return [];
    }

    /** The fallback for arrays and structs. */
    method CoreTypeConverter(ty: Type) returns (types: seq<Type>)
      requires Valid() && NamesBelow(ty, nextName) && Apply(rules, ty) == [] && ty !in typeConversions
      modifies this`typeConversions, this`nextName
      ensures Valid() && Grown(old(typeConversions), typeConversions, Size(ty) - 1) && nextName >= old(nextName)
      ensures Consistent(rules, typeConversions[ty := types], nextName, ty)
      ensures ty.Struct? && ty.name.Named? && types != [ty] ==> old(nextName) <= types[0].name.id < nextName
      decreases ty, 1
    {
      hide Apply;
      hide AllConsistent;
      if ty.Array? {
        var converted := ConvertType(ty.element);
        if |converted| != 1 || converted[0] != ty.element {
          var newElTy := if |converted| == 1 then converted[0] else Struct(converted, Literal);
          types := [Array(newElTy, ty.count)];
          return;
        }
      } else if ty.Struct? {
        var newElements, needConversion := ConvertElements(ty);
        if needConversion {
          if ty.name.Literal? {
            types := [Struct(newElements, Literal)];
          } else {
            types := [Struct(newElements, Named(ty.name.base, nextName))];
            RenamedValid();
            nextName := nextName + 1;
          }
          return;
        }
      }
      types := [ty];
    }

    lemma RenamedValid()
      requires Valid()
      ensures AllConsistent(rules, typeConversions, nextName + 1)
    {
      forall ty | ty in typeConversions ensures Consistent(rules, typeConversions, nextName + 1, ty) {
      }
    }

    /** The loop over the elements of a struct. */
    method ConvertElements(ty: Type) returns (newElements: seq<Type>, needConversion: bool)
      requires Valid() && NamesBelow(ty, nextName) && ty.Struct?
      modifies this`typeConversions, this`nextName
      ensures Valid() && Grown(old(typeConversions), typeConversions, Size(ty) - 1) && nextName >= old(nextName)
      ensures forall j :: 0 <= j < |ty.elements| ==> ty.elements[j] in typeConversions
      ensures newElements == PackedAll(typeConversions, ty.elements)
      ensures needConversion <==> exists j :: 0 <= j < |ty.elements| && !Unchanged(typeConversions, ty.elements[j])
      decreases ty, 0
    {
      hide AllConsistent;
      newElements := [];
      needConversion := false;
      var i := 0;
      while i < |ty.elements|
        invariant 0 <= i <= |ty.elements|
        invariant Valid() && Grown(old(typeConversions), typeConversions, Size(ty) - 1) && nextName >= old(nextName)
        invariant forall j :: 0 <= j < i ==> ty.elements[j] in typeConversions
        invariant newElements == PackedAll(typeConversions, ty.elements[..i])
        invariant needConversion <==> exists j :: 0 <= j < i && !Unchanged(typeConversions, ty.elements[j])
      {
        ElementIsSmaller(ty.elements, i);
        NamesBelowLater(ty.elements[i], old(nextName), nextName);
        ghost var before := typeConversions;
        var converted := ConvertType(ty.elements[i]);
        if |converted| != 1 || converted[0] != ty.elements[i] {
          needConversion := true;
        }
        newElements := newElements + [if |converted| == 1 then converted[0] else Struct(converted, Literal)];
        PackedNext(before, typeConversions, ty.elements, i);
        i := i + 1;
      }
      assert ty.elements[..i] == ty.elements;
    }
  }

  lemma PackedNext(m: Conversions, later: Conversions, types: seq<Type>, i: nat)
    requires i < |types| && Extends(m, later) && types[i] in later && forall j :: 0 <= j < i ==> types[j] in m
    ensures PackedAll(later, types[..i + 1]) == PackedAll(m, types[..i]) + [Packed(later[types[i]])]
    ensures forall j :: 0 <= j < i ==> Unchanged(m, types[j]) == Unchanged(later, types[j])
  {
  }

  // ----- indexing -----

  datatype Option<T> = None | Some(value: T)

  /** The type at an index path, as for extractvalue and insertvalue. */
  function At(ty: Type, path: seq<nat>): Option<Type>
    decreases |path|
  {
    if path == [] then Some(ty)
    else
      match ty
      case Leaf(_) => None
      case Array(element, count) => if path[0] < count then At(element, path[1..]) else None
      case Struct(elements, _) => if path[0] < |elements| then At(elements[path[0]], path[1..]) else None
  }

  /** The converted aggregate has the converted elements in the same places. */
  lemma ConvertedShape(rules: seq<Rule>, m: Conversions, next: nat, ty: Type)
    requires AllConsistent(rules, m, next) && LeafOnly(rules) && ty in m && !ty.Leaf?
    ensures |m[ty]| == 1
    ensures ty.Array? ==> ty.element in m && m[ty][0] == Array(Packed(m[ty.element]), ty.count)
    ensures ty.Struct? ==> (forall i :: 0 <= i < |ty.elements| ==> ty.elements[i] in m) &&
                           m[ty][0].Struct? && m[ty][0].elements == PackedAll(m, ty.elements)
  {
    assert Apply(rules, ty) == [];
    assert Consistent(rules, m, next, ty);
    if ty.Struct? && forall i :: 0 <= i < |ty.elements| ==> Unchanged(m, ty.elements[i]) {
      assert PackedAll(m, ty.elements) == ty.elements;
    }
  }

  /** An index path that is valid in a type is valid in its conversion and ends at the conversion of its element. */
  lemma {:induction false} ConversionCommutesWithIndexing(rules: seq<Rule>, m: Conversions, next: nat, ty: Type, path: seq<nat>)
    requires AllConsistent(rules, m, next) && LeafOnly(rules) && ty in m && At(ty, path).Some?
    ensures At(ty, path).value in m
    ensures At(Packed(m[ty]), path) == Some(Packed(m[At(ty, path).value]))
    decreases |path|
  {
    if path != [] {
      ConvertedShape(rules, m, next, ty);
      var element := if ty.Array? then ty.element else ty.elements[path[0]];
      ConversionCommutesWithIndexing(rules, m, next, element, path[1..]);
    }
  }

  // ----- converting again -----

  /** The rules leave all leaves of a type alone. */
  predicate Stable(rules: seq<Rule>, ty: Type)
  {
    match ty
    case Leaf(_) => Apply(rules, ty) == [] || Apply(rules, ty) == [ty]
    case Array(element, _) => Stable(rules, element)
    case Struct(elements, _) => forall i :: 0 <= i < |elements| ==> Stable(rules, elements[i])
  }

  ghost predicate StableRules(rules: seq<Rule>)
  {
    forall ty: Type, i: nat :: i < |Apply(rules, ty)| ==> Stable(rules, Apply(rules, ty)[i])
  }

  lemma {:induction false} StableIsUnchanged(rules: seq<Rule>, m: Conversions, next: nat, ty: Type)
    requires AllConsistent(rules, m, next) && LeafOnly(rules) && ty in m && Stable(rules, ty)
    ensures Unchanged(m, ty)
  {
    assert Consistent(rules, m, next, ty);
    match ty
    case Leaf(_) =>
    case Array(element, _) =>
      ConvertedShape(rules, m, next, ty);
      StableIsUnchanged(rules, m, next, element);
    case Struct(elements, _) =>
      ConvertedShape(rules, m, next, ty);
      forall i | 0 <= i < |elements| ensures Unchanged(m, elements[i]) {
        StableIsUnchanged(rules, m, next, elements[i]);
      }
  }

  lemma {:induction false} ConvertedIsStable(rules: seq<Rule>, m: Conversions, next: nat, ty: Type, i: nat)
    requires AllConsistent(rules, m, next) && LeafOnly(rules) && StableRules(rules) && ty in m && i < |m[ty]|
    ensures Stable(rules, m[ty][i])
    decreases ty, 0
  {
    assert Consistent(rules, m, next, ty);
    match ty
    case Leaf(_) =>
    case Array(element, _) =>
      ConvertedShape(rules, m, next, ty);
      PackedIsStable(rules, m, next, element);
    case Struct(elements, _) =>
      ConvertedShape(rules, m, next, ty);
      forall j | 0 <= j < |elements| ensures Stable(rules, m[ty][0].elements[j]) {
        PackedIsStable(rules, m, next, elements[j]);
      }
  }

  lemma PackedIsStable(rules: seq<Rule>, m: Conversions, next: nat, ty: Type)
    requires AllConsistent(rules, m, next) && LeafOnly(rules) && StableRules(rules) && ty in m
    ensures Stable(rules, Packed(m[ty]))
    decreases ty, 1
  {
    forall i | 0 <= i < |m[ty]| ensures Stable(rules, m[ty][i]) {
      ConvertedIsStable(rules, m, next, ty, i);
    }
  }

  /** If the rules are idempotent then so is the conversion. */
  lemma ConversionIsIdempotent(rules: seq<Rule>, m: Conversions, next: nat, ty: Type, i: nat)
    requires AllConsistent(rules, m, next) && LeafOnly(rules) && StableRules(rules)
    requires ty in m && i < |m[ty]| && m[ty][i] in m
    ensures m[m[ty][i]] == [m[ty][i]]
  {
    ConvertedIsStable(rules, m, next, ty, i);
    StableIsUnchanged(rules, m, next, m[ty][i]);
  }

  // ----- values -----

  datatype Value = Poison | Atom(id: int) | Aggregate(elements: seq<Value>)

  /** The value is an aggregate wherever the type is. */
  predicate HasShape(ty: Type, v: Value)
  {
    match ty
    case Leaf(_) => true
    case Array(element, count) => v.Aggregate? && |v.elements| == count && forall i :: 0 <= i < count ==> HasShape(element, v.elements[i])
    case Struct(elements, _) =>
      v.Aggregate? && |v.elements| == |elements| && forall i :: 0 <= i < |elements| ==> HasShape(elements[i], v.elements[i])
  }

  function PackedValue(values: seq<Value>): Value
  {
    if |values| == 1 then values[0] else Aggregate(values)
  }

  /** How values of converted leaf types are represented, which the user of the lowering decides. */
  type LeafConversion = (nat, Value) -> seq<Value>

  ghost predicate Represents(rules: seq<Rule>, leaf: LeafConversion)
  {
    forall id: nat, v: Value :: |leaf(id, v)| == |Apply(rules, Leaf(id))|
  }

  predicate LeafChanged(rules: seq<Rule>, id: nat)
  {
    Apply(rules, Leaf(id)) != [] && Apply(rules, Leaf(id)) != [Leaf(id)]
  }

  /** The values that represent a value of a converted type. */
  function Converted(rules: seq<Rule>, leaf: LeafConversion, ty: Type, v: Value): seq<Value>
    requires HasShape(ty, v)
  {
    match ty
    case Leaf(id) => if LeafChanged(rules, id) then leaf(id, v) else [v]
    case Array(element, count) =>
      [Aggregate(seq(count, i requires 0 <= i < count => PackedValue(Converted(rules, leaf, element, v.elements[i]))))]
    case Struct(elements, _) =>
      [Aggregate(seq(|elements|, i requires 0 <= i < |elements| => PackedValue(Converted(rules, leaf, elements[i], v.elements[i]))))]
  }

  function PackedConverted(rules: seq<Rule>, leaf: LeafConversion, ty: Type, v: Value): Value
    requires HasShape(ty, v)
  {
    PackedValue(Converted(rules, leaf, ty, v))
  }

  /** A value of an unchanged type represents itself. */
  lemma {:induction false} UnchangedValue(rules: seq<Rule>, leaf: LeafConversion, m: Conversions, next: nat, ty: Type, v: Value)
    requires AllConsistent(rules, m, next) && LeafOnly(rules) && Unchanged(m, ty) && HasShape(ty, v)
    ensures Converted(rules, leaf, ty, v) == [v]
  {
    assert Consistent(rules, m, next, ty);
    match ty
    case Leaf(_) =>
    case Array(element, count) =>
      forall i | 0 <= i < count ensures PackedConverted(rules, leaf, element, v.elements[i]) == v.elements[i] {
        UnchangedValue(rules, leaf, m, next, element, v.elements[i]);
      }
      assert Converted(rules, leaf, ty, v)[0].elements == v.elements;
    case Struct(elements, _) =>
      forall i | 0 <= i < |elements| ensures PackedConverted(rules, leaf, elements[i], v.elements[i]) == v.elements[i] {
        UnchangedValue(rules, leaf, m, next, elements[i], v.elements[i]);
      }
      assert Converted(rules, leaf, ty, v)[0].elements == v.elements;
  }

  /** The values that replace a leaf fit the types that replace its type. */
  ghost predicate FitsTypes(rules: seq<Rule>, leaf: LeafConversion)
  {
    Represents(rules, leaf) &&
    forall id: nat, v: Value, i: nat :: i < |leaf(id, v)| ==> HasShape(Apply(rules, Leaf(id))[i], leaf(id, v)[i])
  }

  /** The values that represent a value fit, one by one and packed, the types that its type is converted to. */
  lemma {:induction false} ConvertedFits(rules: seq<Rule>, leaf: LeafConversion, m: Conversions, next: nat, ty: Type, v: Value)
    requires AllConsistent(rules, m, next) && LeafOnly(rules) && FitsTypes(rules, leaf) && ty in m && HasShape(ty, v)
    ensures |Converted(rules, leaf, ty, v)| == |m[ty]|
    ensures forall i :: 0 <= i < |m[ty]| ==> HasShape(m[ty][i], Converted(rules, leaf, ty, v)[i])
    ensures HasShape(Packed(m[ty]), PackedConverted(rules, leaf, ty, v))
  {
    assert Consistent(rules, m, next, ty);
    match ty
    case Leaf(_) =>
    case Array(element, count) =>
      ConvertedShape(rules, m, next, ty);
      forall i | 0 <= i < count ensures HasShape(Packed(m[element]), PackedConverted(rules, leaf, element, v.elements[i])) {
        ConvertedFits(rules, leaf, m, next, element, v.elements[i]);
      }
    case Struct(elements, _) =>
      ConvertedShape(rules, m, next, ty);
      forall i | 0 <= i < |elements| ensures HasShape(Packed(m[elements[i]]), PackedConverted(rules, leaf, elements[i], v.elements[i])) {
        ConvertedFits(rules, leaf, m, next, elements[i], v.elements[i]);
      }
  }

  // ----- extractvalue and insertvalue -----

  function Extract(v: Value, path: seq<nat>): Value
    decreases |path|
  {
    if path == [] then v
    else if v.Aggregate? && path[0] < |v.elements| then Extract(v.elements[path[0]], path[1..])
    else Poison
  }

  function Insert(v: Value, x: Value, path: seq<nat>): Value
    decreases |path|
  {
    if path == [] then x
    else if v.Aggregate? && path[0] < |v.elements| then
      Aggregate(v.elements[path[0] := Insert(v.elements[path[0]], x, path[1..])])
    else Poison
  }

  lemma {:induction false} ShapeAt(ty: Type, v: Value, path: seq<nat>)
    requires HasShape(ty, v) && At(ty, path).Some?
    ensures HasShape(At(ty, path).value, Extract(v, path))
    decreases |path|
  {
    if path != [] {
      ShapeAt(if ty.Array? then ty.element else ty.elements[path[0]], v.elements[path[0]], path[1..]);
    }
  }

  lemma {:induction false} ShapeInserted(ty: Type, v: Value, x: Value, path: seq<nat>)
    requires HasShape(ty, v) && At(ty, path).Some? && HasShape(At(ty, path).value, x)
    ensures HasShape(ty, Insert(v, x, path))
    decreases |path|
  {
    if path != [] {
      ShapeInserted(if ty.Array? then ty.element else ty.elements[path[0]], v.elements[path[0]], x, path[1..]);
    }
  }

  /** Extracting from a converted aggregate with the same indices yields the converted element. */
  lemma {:induction false} ExtractConverted(rules: seq<Rule>, leaf: LeafConversion, ty: Type, v: Value, path: seq<nat>)
    requires HasShape(ty, v) && At(ty, path).Some?
    ensures HasShape(At(ty, path).value, Extract(v, path))
    ensures Extract(PackedConverted(rules, leaf, ty, v), path) == PackedConverted(rules, leaf, At(ty, path).value, Extract(v, path))
    decreases |path|
  {
    if path != [] {
      ExtractConverted(rules, leaf, if ty.Array? then ty.element else ty.elements[path[0]], v.elements[path[0]], path[1..]);
    }
  }

  /** Inserting a converted element with the same indices yields the converted aggregate. */
  lemma {:induction false} InsertConverted(rules: seq<Rule>, leaf: LeafConversion, ty: Type, v: Value, x: Value, path: seq<nat>)
    requires HasShape(ty, v) && At(ty, path).Some? && HasShape(At(ty, path).value, x)
    ensures HasShape(ty, Insert(v, x, path))
    ensures Insert(PackedConverted(rules, leaf, ty, v), PackedConverted(rules, leaf, At(ty, path).value, x), path) ==
            PackedConverted(rules, leaf, ty, Insert(v, x, path))
    decreases |path|
  {
    if path != [] {
      var element := if ty.Array? then ty.element else ty.elements[path[0]];
      InsertConverted(rules, leaf, element, v.elements[path[0]], x, path[1..]);
      var before, after := PackedConverted(rules, leaf, ty, v), PackedConverted(rules, leaf, ty, Insert(v, x, path));
      var y := PackedConverted(rules, leaf, element, Insert(v.elements[path[0]], x, path[1..]));
      assert before.elements[path[0] := y] == after.elements;
    }
  }

  /** visitExtract, on the values that the instructions compute: `value` is the converted aggregate and `types` are those that
      the type of the result is converted to. */
  method VisitExtract(value: Value, path: seq<nat>, types: seq<Type>, ghost rules: seq<Rule>, ghost leaf: LeafConversion,
                      ghost m: Conversions, ghost next: nat, ghost ty: Type, ghost v: Value)
    returns (converted: seq<Value>)
    requires AllConsistent(rules, m, next) && LeafOnly(rules) && Represents(rules, leaf) && ty in m
    requires HasShape(ty, v) && Converted(rules, leaf, ty, v) == [value]
    requires At(ty, path).Some? && At(ty, path).value in m && types == m[At(ty, path).value]
    ensures HasShape(At(ty, path).value, Extract(v, path))
    ensures converted == Converted(rules, leaf, At(ty, path).value, Extract(v, path))
  {
    var newExtract := Extract(value, path);
    ShapeAt(ty, v, path);
    ExtractConverted(rules, leaf, ty, v, path);
    ghost var all := Converted(rules, leaf, At(ty, path).value, Extract(v, path));
    hide AllConsistent;
    hide Converted;
    hide HasShape;
    hide Extract;
    if |types| == 1 {
      converted := [newExtract];
    } else {
      converted := [];
      for idx := 0 to |types|
        invariant converted == all[..idx]
      {
        OneIndex(newExtract, Poison, idx);
        converted := converted + [Extract(newExtract, [idx])];
      }
    }
  }

  /** visitInsert: `insertedValues` is empty if the type of the inserted value is unchanged. */
  method VisitInsert(value: Value, path: seq<nat>, inserted: Value, insertedValues: seq<Value>,
                     ghost rules: seq<Rule>, ghost leaf: LeafConversion, ghost m: Conversions, ghost next: nat, ghost ty: Type, ghost v: Value)
    returns (newInsert: Value)
    requires AllConsistent(rules, m, next) && LeafOnly(rules)
    requires HasShape(ty, v) && Converted(rules, leaf, ty, v) == [value]
    requires At(ty, path).Some? && HasShape(At(ty, path).value, inserted)
    requires if insertedValues == [] then Unchanged(m, At(ty, path).value)
             else insertedValues == Converted(rules, leaf, At(ty, path).value, inserted)
    ensures HasShape(ty, Insert(v, inserted, path))
    ensures newInsert == PackedConverted(rules, leaf, ty, Insert(v, inserted, path))
  {
    var insertedValue: Value;
    if insertedValues == [] {
      insertedValue := inserted;
      UnchangedValue(rules, leaf, m, next, At(ty, path).value, inserted);
    } else if |insertedValues| == 1 {
      insertedValue := insertedValues[0];
    } else {
      insertedValue := Aggregate(seq(|insertedValues|, _ => Poison));
      for i := 0 to |insertedValues|
        invariant insertedValue.Aggregate? && |insertedValue.elements| == |insertedValues|
        invariant forall j :: 0 <= j < i ==> insertedValue.elements[j] == insertedValues[j]
      {
        OneIndex(insertedValue, insertedValues[i], i);
        insertedValue := Insert(insertedValue, insertedValues[i], [i]);
      }
      assert insertedValue.elements == insertedValues;
    }
    InsertConverted(rules, leaf, ty, v, inserted, path);
    newInsert := Insert(value, insertedValue, path);
  }

  lemma OneIndex(v: Value, x: Value, i: nat)
    requires v.Aggregate? && i < |v.elements|
    ensures Extract(v, [i]) == v.elements[i]
    ensures Insert(v, x, [i]) == Aggregate(v.elements[i := x])
  {
    assert [i][1..] == [];
  }
}
