/** Replacing dwords in the memory image of a value: ValueSpecializer in
compilerutils/lib/ValueSpecialization.cpp.

The instructions that the specializer builds are kept as an expression over the value that is
specialized, and an expression is evaluated to the bytes of its memory image.  The module proves
which bytes the specialized value has, and that the reported count is right.
*/
module ValueSpecialization {
  datatype Option<T> = None | Some(value: T)

  // ----- types and their layout -----

  /** Arrays carry the allocation size of their element, structs the offsets and the size that the
      data layout assigns. */
  datatype Type =
    | IntTy(bits: nat)
    | FloatTy(bits: nat)
    | PtrTy(bits: nat)
    | VectorTy(element: Type, count: nat)
    | ScalableVectorTy
    | ArrayTy(element: Type, count: nat, stride: nat)
    | StructTy(fields: seq<Field>, size: nat)

  datatype Field = Field(offset: nat, ty: Type)

  predicate IsAggregate(ty: Type) { ty.ArrayTy? || ty.StructTy? }

  predicate IsScalar(ty: Type) { ty.IntTy? || ty.FloatTy? || ty.PtrTy? }

  function ScalarBits(ty: Type): nat
    requires IsScalar(ty)
  {
    ty.bits
  }

  function Product(a: nat, b: nat): nat { a * b }

  /** getTypeStoreSize. */
  function StoreSize(ty: Type): nat
  {
    match ty
    case IntTy(bits) => (bits + 7) / 8
    case FloatTy(bits) => (bits + 7) / 8
    case PtrTy(bits) => (bits + 7) / 8
    case VectorTy(e, n) => if IsScalar(e) then (Product(n, e.bits) + 7) / 8 else 0
    case ScalableVectorTy => 1
    case ArrayTy(_, n, stride) => Product(n, stride)
    case StructTy(_, size) => size
  }

  function ElementCount(ty: Type): nat
    requires IsAggregate(ty)
  {
    if ty.ArrayTy? then ty.count else |ty.fields|
  }

  function ElementType(ty: Type, i: nat): Type
    requires IsAggregate(ty) && i < ElementCount(ty)
  {
    if ty.ArrayTy? then ty.element else ty.fields[i].ty
  }

  function ElementOffset(ty: Type, i: nat): nat
    requires IsAggregate(ty) && i < ElementCount(ty)
  {
    if ty.ArrayTy? then Product(i, ty.stride) else ty.fields[i].offset
  }

  /** Elements do not overlap and lie within their aggregate. */
  ghost predicate WellFormed(ty: Type)
  {
    match ty
    case VectorTy(e, n) => IsScalar(e)
    case ArrayTy(e, n, stride) => WellFormed(e) && 0 < stride && StoreSize(e) <= stride
    case StructTy(fields, size) =>
      (forall i :: 0 <= i < |fields| ==> WellFormed(fields[i].ty) && fields[i].offset + StoreSize(fields[i].ty) <= size) &&
      (forall i, j :: 0 <= i < j < |fields| ==> fields[i].offset + StoreSize(fields[i].ty) <= fields[j].offset)
    case _ => true
  }

  // ----- images -----

  /** A byte of a memory image; Picked is whatever byte freezing poison has picked. */
  datatype Cell = Poison | Val(byte: bv8) | Picked(freeze: nat, index: nat)

  type Image = seq<Cell>

  type Dword = d: seq<bv8> | |d| == 4 witness [0, 0, 0, 0]

  datatype Kind = Keep | Constant | FrozenPoison

  /** DwordSpecializationInfo; the constant is given by its bytes, lowest first. */
  datatype DwordInfo = DwordInfo(kind: Kind, constant: Dword)

  // ----- what is expected -----

  /** A scalar that the specializer supports: `width` dwords from dword `start` on. */
  datatype Site = Site(start: nat, width: nat)

  function Shift(s: Option<Site>, dwords: nat): Option<Site>
  {
    match s
    case None => None
    case Some(Site(start, width)) => Some(Site(start + dwords, width))
  }

  function ScalarSite(bits: nat, d: nat): Option<Site>
  {
    if bits == 32 && d == 0 then Some(Site(0, 1))
    else if bits == 64 && d < 2 then Some(Site(0, 2))
    else None
  }

  function VectorElementSite(e: Type, n: nat, d: nat): Option<Site>
  {
    if (e.IntTy? || e.FloatTy?) && e.bits == 32 && d < n then Some(Site(d, 1))
    else if (e.IntTy? || e.FloatTy?) && e.bits == 64 && d / 2 < n then Some(Site(d / 2 * 2, 2))
    else None
  }

  /** Whether an element lies on dword boundaries. */
  predicate Aligned(offset: nat, ty: Type) { offset % 4 == 0 && StoreSize(ty) % 4 == 0 }

  /** The supported scalar that dword `d` of a type belongs to.  Scalars of 32 and 64 bits are supported
      where they and all elements around them lie on dword boundaries, and so are vectors of integers or
      floats of these widths. */
  function SiteOf(ty: Type, d: nat): Option<Site>
    decreases ty, 2, 0
  {
    match ty
    case IntTy(bits) => ScalarSite(bits, d)
    case FloatTy(bits) => ScalarSite(bits, d)
    case PtrTy(bits) => ScalarSite(bits, d)
    case ScalableVectorTy => None
    case VectorTy(e, n) => VectorElementSite(e, n, d)
    case ArrayTy(e, n, stride) =>
      if stride == 0 then None
      else
        var i := 4 * d / stride;
        var offset := Product(i, stride);
        if i < n && Aligned(offset, e) && offset <= 4 * d < offset + StoreSize(e) then Shift(SiteOf(e, d - offset / 4), offset / 4)
        else None
    case StructTy(fields, _) => SiteInFields(ty, |fields|, d)
  }

  function SiteInFields(ty: Type, n: nat, d: nat): Option<Site>
    requires ty.StructTy? && n <= |ty.fields|
    decreases ty, 1, n
  {
    if n == 0 then None
    else
      var f := ty.fields[n - 1];
      if f.offset <= 4 * d < f.offset + StoreSize(f.ty) then
        if Aligned(f.offset, f.ty) then Shift(SiteOf(f.ty, d - f.offset / 4), f.offset / 4) else None
      else SiteInFields(ty, n - 1, d)
  }

  /** A 64-bit scalar of which exactly one dword is kept is rebuilt from its two halves. */
  predicate Mixed(s: Site, infos: seq<DwordInfo>)
    requires s.start + s.width <= |infos|
  {
    s.width == 2 && ((infos[s.start].kind == Keep) != (infos[s.start + 1].kind == Keep))
  }

  predicate HasPoison(image: Image, first: nat, end: nat)
    requires first <= end <= |image|
  {
    exists b :: first <= b < end && image[b] == Poison
  }

  /** What byte `b` of the specialized value may be.  Bytes outside supported scalars and bytes of kept
      dwords are unchanged, constant dwords have their constant, and frozen poison is some defined
      byte; but rebuilding a 64-bit scalar that was poison gives poison. */
  ghost predicate Allowed(ty: Type, infos: seq<DwordInfo>, before: Image, b: nat, x: Cell)
    requires b < |before|
  {
    match SiteOf(ty, b / 4)
    case None => x == before[b]
    case Some(s) => AllowedInSite(s, infos, before, b, x)
  }

  ghost predicate AllowedInSite(s: Site, infos: seq<DwordInfo>, before: Image, b: nat, x: Cell)
    requires b < |before|
  {
    s.start + s.width <= |infos| && 4 * (s.start + s.width) <= |before| && b / 4 < |infos| &&
    if Mixed(s, infos) && HasPoison(before, 4 * s.start, 4 * (s.start + s.width)) then x == Poison
    else
      match infos[b / 4].kind
      case Keep => x == before[b]
      case Constant => x == Val(infos[b / 4].constant[b % 4])
      case FrozenPoison => x.Picked?
  }

  /** The image of a value of type `ty` after its dwords have been specialized. */
  ghost predicate Rewritten(ty: Type, infos: seq<DwordInfo>, before: Image, after: Image)
  {
    |after| == |before| == StoreSize(ty) && forall b :: 0 <= b < |before| ==> Allowed(ty, infos, before, b, after[b])
  }

  /** How many dwords in [lo, hi) are requested and lie in supported scalars. */
  function Requested(ty: Type, infos: seq<DwordInfo>, lo: nat, hi: nat): nat
    requires lo <= hi <= |infos|
    decreases hi - lo
  {
    if lo == hi then 0
    else Requested(ty, infos, lo, hi - 1) + if SiteOf(ty, hi - 1).Some? && infos[hi - 1].kind != Keep then 1 else 0
  }

  function DwordCount(size: nat): nat { (size + 3) / 4 }

  // ----- expressions -----

  /** The instructions of the IR builder, over the value `Root` of a fixed type. */
  datatype Value =
    | Root
    | ConstantInt(bytes: seq<bv8>)
    | Frozen(id: nat, size: nat)                              // freeze poison
    | ExtractValue(aggregate: Value, indices: seq<nat>)
    | InsertValue(aggregate: Value, inserted: Value, indices: seq<nat>)
    | ExtractElement(vector: Value, index: nat, size: nat)
    | InsertElement(vector: Value, inserted: Value, index: nat, size: nat)
    | And(operand: Value, mask: seq<bv8>)
    | Or(left: Value, right: Value)
    | Cast(operand: Value)                                    // bitcast, ptrtoint, inttoptr of equal width

  /** The type and image of the specialized value. */
  datatype Env = Env(ty: Type, root: Image)

  predicate ValidPath(ty: Type, indices: seq<nat>)
    decreases |indices|
  {
    indices != [] ==>
      IsAggregate(ty) && indices[0] < ElementCount(ty) && ValidPath(ElementType(ty, indices[0]), indices[1..])
  }

  function PathType(ty: Type, indices: seq<nat>): Type
    requires ValidPath(ty, indices)
    decreases |indices|
  {
    if indices == [] then ty else PathType(ElementType(ty, indices[0]), indices[1..])
  }

  function PathOffset(ty: Type, indices: seq<nat>): nat
    requires ValidPath(ty, indices)
    decreases |indices|
  {
    if indices == [] then 0 else ElementOffset(ty, indices[0]) + PathOffset(ElementType(ty, indices[0]), indices[1..])
  }

  function Slice(image: Image, offset: nat, size: nat): Image
  {
    if offset + size <= |image| then image[offset..offset + size] else []
  }

  function Splice(image: Image, offset: nat, part: Image): Image
  {
    if offset + |part| <= |image| then image[..offset] + part + image[offset + |part|..] else image
  }

  function AllPoison(n: nat): Image { seq(n, _ => Poison) }

  /** Bitwise operations on bytes.  Picked bytes are only ever kept or cleared as a whole, and joined with zero. */
  function CellAnd(x: Cell, m: Cell): Cell
  {
    if m == Val(255) then x
    else if m == Val(0) then m
    else if x.Val? && m.Val? then Val(x.byte & m.byte)
    else Poison
  }

  function CellOr(x: Cell, y: Cell): Cell
  {
    if y == Val(0) then x
    else if x == Val(0) then y
    else if x.Val? && y.Val? then Val(x.byte | y.byte)
    else Poison
  }

  /** Bitwise operations on integers; poison in an operand makes the whole result poison. */
  function BitwiseAnd(image: Image, other: Image): Image
  {
    if |image| != |other| || Poison in image || Poison in other then AllPoison(|image|)
    else seq(|image|, i requires 0 <= i < |image| => CellAnd(image[i], other[i]))
  }

  function BitwiseOr(image: Image, other: Image): Image
  {
    if |image| != |other| || Poison in image || Poison in other then AllPoison(|image|)
    else seq(|image|, i requires 0 <= i < |image| => CellOr(image[i], other[i]))
  }

  function Bytes(bytes: seq<bv8>): Image
  {
    seq(|bytes|, i requires 0 <= i < |bytes| => Val(bytes[i]))
  }

  function Eval(v: Value, env: Env): Image
  {
    match v
    case Root => env.root
    case ConstantInt(bytes) => Bytes(bytes)
    case Frozen(id, size) => seq(size, i requires 0 <= i => Picked(id, i))
    case ExtractValue(agg, indices) =>
      if ValidPath(env.ty, indices) then
        Slice(Eval(agg, env), PathOffset(env.ty, indices), StoreSize(PathType(env.ty, indices)))
      else []
    case InsertValue(agg, ins, indices) =>
      if ValidPath(env.ty, indices) then Splice(Eval(agg, env), PathOffset(env.ty, indices), Eval(ins, env))
      else Eval(agg, env)
    case ExtractElement(vec, i, size) => Slice(Eval(vec, env), Product(i, size), size)
    case InsertElement(vec, ins, i, size) => Splice(Eval(vec, env), Product(i, size), Eval(ins, env))
    case And(a, mask) => BitwiseAnd(Eval(a, env), Bytes(mask))
    case Or(a, b) => BitwiseOr(Eval(a, env), Eval(b, env))
    case Cast(a) => Eval(a, env)
  }

  // ----- types with leaves of one dword -----

  /** All leaves are integers or floats of 32 bits, or vectors of those. */
  predicate DwordLeaves(ty: Type)
  {
    match ty
    case IntTy(bits) => bits == 32
    case FloatTy(bits) => bits == 32
    case PtrTy(_) => false
    case ScalableVectorTy => false
    case VectorTy(e, _) => (e.IntTy? || e.FloatTy?) && e.bits == 32
    case ArrayTy(e, _, _) => DwordLeaves(e)
    case StructTy(fields, _) => forall i :: 0 <= i < |fields| ==> DwordLeaves(fields[i].ty)
  }

  /** The bytes of an expression over a value of type `ty`. */
  function Size(ty: Type, v: Value): nat
  {
    match v
    case Root => StoreSize(ty)
    case ConstantInt(bytes) => |bytes|
    case Frozen(_, size) => size
    case ExtractValue(_, indices) => if ValidPath(ty, indices) then StoreSize(PathType(ty, indices)) else 0
    case InsertValue(a, _, _) => Size(ty, a)
    case ExtractElement(_, _, size) => size
    case InsertElement(a, _, _, _) => Size(ty, a)
    case And(a, _) => Size(ty, a)
    case Or(a, _) => Size(ty, a)
    case Cast(a) => Size(ty, a)
  }

  /** An expression over a value of type `ty` that moves whole dwords around and does not compute with them; what it
      extracts and inserts has the size of its place. */
  predicate Plain(ty: Type, v: Value)
  {
    match v
    case Root => true
    case ConstantInt(bytes) => |bytes| == 4
    case Frozen(_, size) => size % 4 == 0
    case ExtractValue(a, indices) => Plain(ty, a) && DwordPath(ty, indices) && Size(ty, a) == StoreSize(ty)
    case InsertValue(a, b, indices) =>
      Plain(ty, a) && Plain(ty, b) && DwordPath(ty, indices) &&
      Size(ty, a) == StoreSize(ty) && Size(ty, b) == StoreSize(PathType(ty, indices))
    case ExtractElement(_, _, _) => false
    case InsertElement(a, b, i, size) =>
      Plain(ty, a) && Plain(ty, b) && size == 4 && Size(ty, b) == size && Product(i, size) + size <= Size(ty, a)
    case And(_, _) => false
    case Or(_, _) => false
    case Cast(a) => Plain(ty, a)
  }

  lemma {:induction false} PlainSize(v: Value, env: Env)
    requires WellFormed(env.ty) && Plain(env.ty, v) && |env.root| == StoreSize(env.ty)
    ensures |Eval(v, env)| == Size(env.ty, v)
    decreases v
  {
    hide StoreSize;
    hide Product;
    hide WellFormed;
    match v
    case Root =>
    case ConstantInt(_) =>
    case Frozen(_, _) =>
    case ExtractValue(a, indices) =>
      PlainSize(a, env);
      PathFits(env.ty, indices);
    case InsertValue(a, b, indices) =>
      PlainSize(a, env);
      PlainSize(b, env);
      PathFits(env.ty, indices);
    case InsertElement(a, b, _, _) =>
      PlainSize(a, env);
      PlainSize(b, env);
    case Cast(a) => PlainSize(a, env);
  }

  predicate DwordPath(ty: Type, indices: seq<nat>)
  {
    ValidPath(ty, indices) && PathOffset(ty, indices) % 4 == 0 && StoreSize(PathType(ty, indices)) % 4 == 0
  }

  /** From a plain base value, a type with leaves of one dword gets a plain replacement. */
  predicate StaysPlain(ty: Type, root: Type, base: Option<Value>, r: Option<Value>)
  {
    DwordLeaves(ty) && (base.Some? ==> Plain(root, base.value)) && r.Some? ==> Plain(root, r.value)
  }

  lemma PlainChain(ty: Type, root: Type, a: Option<Value>, b: Option<Value>, c: Option<Value>)
    requires StaysPlain(ty, root, a, b) && StaysPlain(ty, root, b, c) && (b.None? ==> a == b)
    ensures StaysPlain(ty, root, a, c)
  {
    hide Plain;
  }

  lemma PlainSame(ty: Type, root: Type, v: Option<Value>)
    ensures StaysPlain(ty, root, v, v) && StaysPlain(ty, root, v, None)
  {
  }

  lemma DwordOffset(ty: Type, indices: seq<nat>)
    requires DwordPath(ty, indices) || indices == []
    ensures ValidPath(ty, indices) && PathOffset(ty, indices) % 4 == 0
  {
  }

  lemma PlainLeaf(ty: Type, env: Env, rootVal: Value, base: Option<Value>, r: Value, indices: seq<nat>, infos: seq<DwordInfo>,
                  part: Image)
    requires WellFormed(env.ty) && |env.root| == StoreSize(env.ty)
    requires |Eval(rootVal, env)| == StoreSize(env.ty) && ValidPath(env.ty, indices) && PathType(env.ty, indices) == ty
    requires StaysPlain(ty, env.ty, base, Some(r)) && (DwordPath(env.ty, indices) || indices == [])
    requires Rewritten(ty, infos, part, Eval(r, env))
    requires base.Some? ==> base.value == if indices == [] then rootVal else ExtractValue(rootVal, indices)
    ensures StaysPlain(ty, env.ty, Some(rootVal), Some(if indices == [] then r else InsertValue(rootVal, r, indices)))
  {
    hide DwordPath;
    hide WellFormed;
    hide StoreSize;
    hide Eval;
    if DwordLeaves(ty) && Plain(env.ty, rootVal) {
      PlainSize(rootVal, env);
      PlainSize(r, env);
    }
  }

  lemma PlainElement(ty: Type, i: nat, root: Type, base: Value, r: Option<Value>)
    requires IsAggregate(ty) && i < ElementCount(ty) && StaysPlain(ElementType(ty, i), root, Some(base), r)
    ensures StaysPlain(ty, root, Some(base), if r.Some? then r else Some(base))
  {
    hide Plain;
  }

  lemma PlainVector(ty: Type, env: Env, vector: Option<Value>, base: Value, elemBase: Option<Value>, elem: Value, i: nat, w: nat,
                    infos: seq<DwordInfo>, before: Image, part: Image, kept: bool)
    requires WellFormed(env.ty) && |env.root| == StoreSize(env.ty)
    requires IsSupportedVector(ty) && ty.element.bits == 32 * w && StaysPlain(ty.element, env.ty, elemBase, Some(elem)) && i < ty.count
    requires VectorUpTo(ty, infos, before, Eval(base, env), Product(i, w), kept)
    requires Product(i, w) <= Product(i + 1, w) <= |infos|
    requires Rewritten(ty.element, infos[Product(i, w)..Product(i + 1, w)], part, Eval(elem, env))
    requires w == 1 ==> elemBase.None?
    requires base == (if vector.Some? then vector.value else base) && (vector.None? ==> base.Frozen? && base.size == StoreSize(ty))
    ensures StaysPlain(ty, env.ty, vector, Some(InsertElement(base, elem, i, 4 * w)))
  {
    if DwordLeaves(ty) && (vector.Some? ==> Plain(env.ty, vector.value)) {
      VectorSize(ty);
      VectorLayout(ty, w, i);
      hide StoreSize;
      hide WellFormed;
      hide Eval;
      PlainSize(base, env);
      PlainSize(elem, env);
    }
  }

  lemma DwordPathSnoc(ty: Type, indices: seq<nat>, i: nat)
    requires ValidPath(ty, indices) && PathOffset(ty, indices) % 4 == 0
    requires IsAggregate(PathType(ty, indices)) && i < ElementCount(PathType(ty, indices))
    requires Aligned(ElementOffset(PathType(ty, indices), i), ElementType(PathType(ty, indices), i))
    ensures DwordPath(ty, indices + [i])
  {
    hide StoreSize;
    hide ElementOffset;
    hide ElementType;
    PathSnoc(ty, indices, i);
  }

  function Depth(v: Value): nat
  {
    match v
    case InsertValue(agg, _, _) => Depth(agg) + 1
    case InsertElement(vec, _, _, _) => Depth(vec) + 1
    case _ => 0
  }

  // ----- layout -----

  lemma QuotientUnique(q: nat, n: nat, r: nat)
    requires r < n
    ensures (Product(q, n) + r) / n == q
  {
    var p := (q * n + r) / n;
    assert q * n + r == p * n + (q * n + r) % n;
    if p < q {
      MulDistributes(p, q - p, n);
      MulAtLeast(q - p, n);
      assert false;
    } else if q < p {
      MulDistributes(q, p - q, n);
      MulAtLeast(p - q, n);
      assert false;
    }
  }

  lemma MulDistributes(a: int, b: int, n: int)
    ensures (a + b) * n == a * n + b * n
  {
  }

  lemma MulAtLeast(a: nat, n: nat)
    requires 1 <= a
    ensures a * n >= n
  {
    MulDistributes(a - 1, 1, n);
    assert 0 <= (a - 1) * n;
  }

  lemma ProductStep(i: nat, n: nat)
    ensures Product(i + 1, n) == Product(i, n) + n && Product(0, n) == 0
  {
    MulDistributes(i, 1, n);
  }

  lemma ProductMonotone(i: nat, j: nat, n: nat)
    requires i <= j
    ensures Product(i, n) <= Product(j, n)
    ensures i < j ==> Product(i, n) + n <= Product(j, n)
  {
    MulDistributes(i, j - i, n);
    if i < j { MulAtLeast(j - i, n); }
  }

  /** Elements follow each other and fit. */
  lemma ElementOrder(ty: Type, i: nat, j: nat)
    requires WellFormed(ty) && IsAggregate(ty) && i < j < ElementCount(ty)
    ensures ElementOffset(ty, i) + StoreSize(ElementType(ty, i)) <= ElementOffset(ty, j)
  {
    if ty.ArrayTy? {
      ProductMonotone(i, j, ty.stride);
    }
  }

  lemma ElementFits(ty: Type, i: nat)
    requires WellFormed(ty) && IsAggregate(ty) && i < ElementCount(ty)
    ensures ElementOffset(ty, i) + StoreSize(ElementType(ty, i)) <= StoreSize(ty) && WellFormed(ElementType(ty, i))
  {
    if ty.ArrayTy? {
      ProductMonotone(i, ty.count, ty.stride);
    }
  }

  predicate InElement(ty: Type, i: nat, b: nat)
    requires IsAggregate(ty) && i < ElementCount(ty)
  {
    ElementOffset(ty, i) <= b < ElementOffset(ty, i) + StoreSize(ElementType(ty, i))
  }

  /** The site of a dword that starts in element `i`. */
  lemma ElementSite(ty: Type, i: nat, d: nat)
    requires WellFormed(ty) && IsAggregate(ty) && i < ElementCount(ty) && InElement(ty, i, 4 * d)
    ensures var offset, e := ElementOffset(ty, i), ElementType(ty, i);
            SiteOf(ty, d) == if Aligned(offset, e) then Shift(SiteOf(e, d - offset / 4), offset / 4) else None
  {
    if ty.ArrayTy? {
      QuotientUnique(i, ty.stride, 4 * d - Product(i, ty.stride));
    } else {
      FieldSite(ty, i, |ty.fields|, d);
    }
  }

  lemma {:induction false} FieldSite(ty: Type, i: nat, n: nat, d: nat)
    requires WellFormed(ty) && ty.StructTy? && i < n <= |ty.fields| && InElement(ty, i, 4 * d)
    ensures var f := ty.fields[i];
            SiteInFields(ty, n, d) == if Aligned(f.offset, f.ty) then Shift(SiteOf(f.ty, d - f.offset / 4), f.offset / 4) else None
    decreases n
  {
    if i < n - 1 {
      ElementOrder(ty, i, n - 1);
      FieldSite(ty, i, n - 1, d);
    }
  }

  lemma {:induction false} NoFieldSite(ty: Type, n: nat, d: nat)
    requires ty.StructTy? && n <= |ty.fields|
    ensures SiteInFields(ty, n, d).Some? ==> exists i :: 0 <= i < n && InElement(ty, i, 4 * d)
    decreases n
  {
    if n != 0 {
      if InElement(ty, n - 1, 4 * d) {
      } else {
        NoFieldSite(ty, n - 1, d);
      }
    }
  }

  /** A dword with a site starts in an element, and that element lies on dword boundaries. */
  lemma SiteInElement(ty: Type, d: nat) returns (i: nat)
    requires WellFormed(ty) && IsAggregate(ty) && SiteOf(ty, d).Some?
    ensures i < ElementCount(ty) && InElement(ty, i, 4 * d) && Aligned(ElementOffset(ty, i), ElementType(ty, i))
  {
    if ty.ArrayTy? {
      i := 4 * d / ty.stride;
    } else {
      NoFieldSite(ty, |ty.fields|, d);
      i :| 0 <= i < ElementCount(ty) && InElement(ty, i, 4 * d);
    }
    ElementSite(ty, i, d);
  }

  /** A site contains its dword, lies within the type, and is the site of each of its dwords. */
  ghost predicate SiteFitting(ty: Type, d: nat)
    requires SiteOf(ty, d).Some?
  {
    var s := SiteOf(ty, d).value;
    s.start <= d < s.start + s.width && s.width in {1, 2} && 4 * (s.start + s.width) <= StoreSize(ty) &&
    SiteOf(ty, s.start) == SiteOf(ty, s.start + s.width - 1) == Some(s)
  }

  lemma {:induction false} SiteFits(ty: Type, d: nat)
    requires WellFormed(ty) && SiteOf(ty, d).Some?
    ensures SiteFitting(ty, d)
    decreases ty
  {
    if IsAggregate(ty) {
      var i := SiteInElement(ty, d);
      var offset, e := ElementOffset(ty, i), ElementType(ty, i);
      ElementFits(ty, i);
      ElementSite(ty, i, d);
      SiteFits(e, d - offset / 4);
      SiteFitsShifted(ty, i, d);
    } else if ty.VectorTy? {
      VectorSite(ty, d);
    }
  }

  lemma SiteFitsShifted(ty: Type, i: nat, d: nat)
    requires WellFormed(ty) && IsAggregate(ty) && i < ElementCount(ty) && InElement(ty, i, 4 * d)
    requires Aligned(ElementOffset(ty, i), ElementType(ty, i))
    requires var e, d' := ElementType(ty, i), d - ElementOffset(ty, i) / 4;
             SiteOf(e, d').Some? && SiteFitting(e, d')
    ensures SiteOf(ty, d).Some? && SiteFitting(ty, d)
  {
    hide SiteOf;
    hide StoreSize;
    hide WellFormed;
    var offset, e := ElementOffset(ty, i), ElementType(ty, i);
    var s := SiteOf(e, d - offset / 4).value;
    ElementFits(ty, i);
    ElementSite(ty, i, d);
    ElementSite(ty, i, s.start + offset / 4);
    ElementSite(ty, i, s.start + offset / 4 + s.width - 1);
  }

  lemma VectorSize(ty: Type)
    requires ty.VectorTy? && IsScalar(ty.element) && ty.element.bits in {32, 64}
    ensures StoreSize(ty) == if ty.element.bits == 32 then 4 * ty.count else 8 * ty.count
  {
    var n := ty.count;
    if ty.element.bits == 32 {
      assert Product(n, 32) == 32 * n;
    } else {
      assert Product(n, 64) == 64 * n;
    }
  }

  lemma SiteOfVector(ty: Type, d: nat)
    requires ty.VectorTy?
    ensures SiteOf(ty, d) == VectorElementSite(ty.element, ty.count, d)
  {
  }

  lemma VectorElementSites(e: Type, n: nat, d: nat)
    requires VectorElementSite(e, n, d).Some?
    ensures var s := VectorElementSite(e, n, d).value;
            s.start <= d < s.start + s.width && s.width in {1, 2} && s.start + s.width <= n * s.width &&
            (e.bits == 32 <==> s.width == 1) && (e.bits == 64 <==> s.width == 2) &&
            VectorElementSite(e, n, s.start) == VectorElementSite(e, n, s.start + s.width - 1) == Some(s)
  {
    if e.bits == 64 {
      var k := d / 2;
      assert 2 * k / 2 == k && (2 * k + 1) / 2 == k;
    }
  }

  lemma VectorSite(ty: Type, d: nat)
    requires ty.VectorTy? && WellFormed(ty) && SiteOf(ty, d).Some?
    ensures SiteFitting(ty, d)
  {
    hide StoreSize;
    hide SiteOf;
    SiteOfVector(ty, d);
    VectorElementSites(ty.element, ty.count, d);
    hide VectorElementSite;
    VectorSize(ty);
    var s := SiteOf(ty, d).value;
    SiteOfVector(ty, s.start);
    SiteOfVector(ty, s.start + s.width - 1);
  }

  // ----- counting -----

  lemma {:induction false} RequestedSplit(ty: Type, infos: seq<DwordInfo>, a: nat, b: nat, c: nat)
    requires a <= b <= c <= |infos|
    ensures Requested(ty, infos, a, c) == Requested(ty, infos, a, b) + Requested(ty, infos, b, c)
    decreases c
  {
    if b < c { RequestedSplit(ty, infos, a, b, c - 1); }
  }

  lemma {:induction false} RequestedNone(ty: Type, infos: seq<DwordInfo>, a: nat, b: nat)
    requires a <= b <= |infos| && forall d :: a <= d < b ==> SiteOf(ty, d).None?
    ensures Requested(ty, infos, a, b) == 0
    decreases b
  {
    if a < b { RequestedNone(ty, infos, a, b - 1); }
  }

  lemma {:induction false} RequestedShift(ty: Type, infos: seq<DwordInfo>, e: Type, o: nat, m: nat, n: nat)
    requires o + n <= |infos| && m <= n
    requires forall d :: o <= d < o + n ==> (SiteOf(ty, d).Some? <==> SiteOf(e, d - o).Some?)
    ensures Requested(ty, infos, o, o + m) == Requested(e, infos[o..o + n], 0, m)
    decreases m
  {
    hide SiteOf;
    if m != 0 {
      RequestedShift(ty, infos, e, o, m - 1, n);
      var d := o + m - 1;
      assert SiteOf(ty, d).Some? <==> SiteOf(e, d - o).Some?;
      assert infos[o..o + n][m - 1] == infos[d];
    }
  }

  lemma {:induction false} RequestedZero(ty: Type, infos: seq<DwordInfo>, lo: nat, hi: nat, d: nat)
    requires lo <= d < hi <= |infos| && Requested(ty, infos, lo, hi) == 0 && SiteOf(ty, d).Some?
    ensures infos[d].kind == Keep
    decreases hi
  {
    if d < hi - 1 { RequestedZero(ty, infos, lo, hi - 1, d); }
  }

  /** When nothing is requested in a supported scalar, the value may stay as it is. */
  lemma NothingRequested(ty: Type, infos: seq<DwordInfo>, before: Image)
    requires WellFormed(ty) && |infos| == DwordCount(StoreSize(ty)) && |before| == StoreSize(ty)
    requires Requested(ty, infos, 0, |infos|) == 0
    ensures Rewritten(ty, infos, before, before)
  {
    hide SiteOf;
    hide StoreSize;
    hide WellFormed;
    forall b | 0 <= b < |before|
      ensures Allowed(ty, infos, before, b, before[b])
    {
      var d := b / 4;
      if SiteOf(ty, d).Some? {
        var s := SiteOf(ty, d).value;
        SiteFits(ty, d);
        RequestedZero(ty, infos, 0, |infos|, d);
        RequestedZero(ty, infos, 0, |infos|, s.start);
        RequestedZero(ty, infos, 0, |infos|, s.start + s.width - 1);
      }
    }
  }

  // ----- rewriting part by part -----

  /** The image after the elements that end at or before byte `n` have been handled. */
  ghost predicate RewrittenUpTo(ty: Type, infos: seq<DwordInfo>, before: Image, after: Image, n: nat)
  {
    |after| == |before| == StoreSize(ty) && n <= |before| &&
    (forall b :: 0 <= b < n ==> Allowed(ty, infos, before, b, after[b])) &&
    forall b :: n <= b < |before| ==> after[b] == before[b]
  }

  function EndOf(ty: Type, i: nat): nat
    requires IsAggregate(ty) && i <= ElementCount(ty)
  {
    if i == 0 then 0 else ElementOffset(ty, i - 1) + StoreSize(ElementType(ty, i - 1))
  }

  /** A byte between elements belongs to no site. */
  lemma GapByte(ty: Type, i: nat, b: nat)
    requires WellFormed(ty) && IsAggregate(ty) && i <= ElementCount(ty) && EndOf(ty, i) <= b
    requires i < ElementCount(ty) ==> b < ElementOffset(ty, i)
    ensures SiteOf(ty, b / 4).None?
    ensures forall d :: d * 4 == b ==> SiteOf(ty, d).None?
  {
    hide SiteOf;
    hide StoreSize;
    hide WellFormed;
    hide ElementOffset;
    if SiteOf(ty, b / 4).Some? {
      var j := SiteInElement(ty, b / 4);
      NotInElement(ty, i, j, b);
    }
  }

  lemma NotInElement(ty: Type, i: nat, j: nat, b: nat)
    requires WellFormed(ty) && IsAggregate(ty) && i <= ElementCount(ty) && EndOf(ty, i) <= b && j < ElementCount(ty)
    requires i < ElementCount(ty) ==> b < ElementOffset(ty, i)
    ensures !InElement(ty, j, b)
  {
    if j < i {
      if j < i - 1 { ElementOrder(ty, j, i - 1); }
    } else if i < j {
      ElementOrder(ty, i, j);
    }
  }

  /** A byte of an element that is not on dword boundaries belongs to no site. */
  lemma MisalignedByte(ty: Type, i: nat, b: nat)
    requires WellFormed(ty) && IsAggregate(ty) && i < ElementCount(ty) && InElement(ty, i, b)
    requires !Aligned(ElementOffset(ty, i), ElementType(ty, i))
    ensures SiteOf(ty, b / 4).None?
  {
    hide SiteOf;
    hide StoreSize;
    hide WellFormed;
    hide ElementOffset;
    hide ElementType;
    hide IsAggregate;
    if SiteOf(ty, b / 4).Some? {
      var j := SiteInElement(ty, b / 4);
      if j < i {
        ElementOrder(ty, j, i);
      } else if i < j {
        ElementOrder(ty, i, j);
      }
    }
  }

  lemma AllowedBySite(ty: Type, infos: seq<DwordInfo>, before: Image, b: nat, x: Cell, site: Option<Site>)
    requires b < |before| && SiteOf(ty, b / 4) == site
    ensures Allowed(ty, infos, before, b, x) <==>
            match site case None => x == before[b] case Some(s) => AllowedInSite(s, infos, before, b, x)
  {
  }

  /** What is allowed for a byte of a part at dword `o` is what is allowed within the whole. */
  lemma PartByte(ty: Type, e: Type, o: nat, end: nat, infos: seq<DwordInfo>, before: Image, b: nat, x: Cell)
    requires WellFormed(e) && o <= end <= |infos| && 4 * end <= |before| && 4 * o <= b < 4 * end
    requires SiteOf(ty, b / 4) == Shift(SiteOf(e, b / 4 - o), o)
    requires Allowed(e, infos[o..end], before[4 * o..4 * end], b - 4 * o, x)
    ensures Allowed(ty, infos, before, b, x)
  {
    hide SiteOf;
    hide WellFormed;
    hide AllowedInSite;
    hide Allowed;
    var part, image := infos[o..end], before[4 * o..4 * end];
    var site := SiteOf(e, b / 4 - o);
    assert (b - 4 * o) / 4 == b / 4 - o;
    AllowedBySite(e, part, image, b - 4 * o, x, site);
    AllowedBySite(ty, infos, before, b, x, Shift(site, o));
    if site.Some? {
      SiteFits(e, b / 4 - o);
      SiteByte(site.value, o, end, infos, before, b, x);
    }
  }

  /** What is allowed for a byte of an element is what is allowed within the aggregate. */
  lemma ElementByte(ty: Type, i: nat, infos: seq<DwordInfo>, before: Image, b: nat, x: Cell)
    requires WellFormed(ty) && IsAggregate(ty) && i < ElementCount(ty) && |before| == StoreSize(ty)
    requires |infos| == DwordCount(StoreSize(ty)) && Aligned(ElementOffset(ty, i), ElementType(ty, i))
    requires var offset, size := ElementOffset(ty, i), StoreSize(ElementType(ty, i));
             offset <= b < offset + size <= |before| && (offset + size) / 4 <= |infos| &&
             Allowed(ElementType(ty, i), infos[offset / 4..(offset + size) / 4], before[offset..offset + size], b - offset, x)
    ensures Allowed(ty, infos, before, b, x)
  {
    hide SiteOf;
    hide StoreSize;
    hide WellFormed;
    hide ElementOffset;
    hide Allowed;
    var offset, e := ElementOffset(ty, i), ElementType(ty, i);
    var o, end := offset / 4, (offset + StoreSize(e)) / 4;
    assert offset == 4 * o && offset + StoreSize(e) == 4 * end;
    ElementSite(ty, i, b / 4);
    ElementFits(ty, i);
    PartByte(ty, e, o, end, infos, before, b, x);
  }

  lemma SiteByte(s: Site, o: nat, end: nat, infos: seq<DwordInfo>, before: Image, b: nat, x: Cell)
    requires 1 <= s.width <= 2 && o <= end <= |infos| && 4 * end <= |before| && 4 * o <= b < 4 * end
    requires AllowedInSite(s, infos[o..end], before[4 * o..4 * end], b - 4 * o, x)
    ensures AllowedInSite(Site(s.start + o, s.width), infos, before, b, x)
  {
    var t := Site(s.start + o, s.width);
    hide HasPoison;
    PoisonShift(before, 4 * o, 4 * end, 4 * s.start, 4 * (s.start + s.width));
    var part := infos[o..end];
    assert part[b / 4 - o] == infos[b / 4] && (b - 4 * o) / 4 == b / 4 - o;
    assert part[s.start] == infos[t.start] && (s.width == 2 ==> part[s.start + 1] == infos[t.start + 1]);
  }

  lemma PoisonShift(before: Image, from: nat, to: nat, first: nat, end: nat)
    requires from <= to <= |before| && first <= end <= to - from
    ensures HasPoison(before[from..to], first, end) <==> HasPoison(before, first + from, end + from)
  {
    var part := before[from..to];
    if HasPoison(before, first + from, end + from) {
      var p :| first + from <= p < end + from && before[p] == Poison;
      assert part[p - from] == Poison;
    }
    if HasPoison(part, first, end) {
      var p :| first <= p < end && part[p] == Poison;
      assert before[p + from] == Poison;
    }
  }

  /** One element of the loop over an aggregate: `after` is the image with the element's new bytes. */
  lemma ElementStep(ty: Type, i: nat, infos: seq<DwordInfo>, before: Image, cur: Image, after: Image)
    requires WellFormed(ty) && IsAggregate(ty) && i < ElementCount(ty)
    requires |infos| == DwordCount(StoreSize(ty)) && RewrittenUpTo(ty, infos, before, cur, EndOf(ty, i)) && |after| == |cur|
    requires forall b :: 0 <= b < |cur| && !InElement(ty, i, b) ==> after[b] == cur[b]
    requires var offset, e := ElementOffset(ty, i), ElementType(ty, i);
             if Aligned(offset, e) then
               offset + StoreSize(e) <= |before| && (offset + StoreSize(e)) / 4 <= |infos| &&
               Rewritten(e, infos[offset / 4..(offset + StoreSize(e)) / 4], before[offset..offset + StoreSize(e)],
                         after[offset..offset + StoreSize(e)])
             else after == cur
    ensures RewrittenUpTo(ty, infos, before, after, EndOf(ty, i + 1))
  {
    hide SiteOf;
    hide StoreSize;
    hide WellFormed;
    hide ElementOffset;
    hide Allowed;
    var offset, e := ElementOffset(ty, i), ElementType(ty, i);
    ElementFits(ty, i);
    assert EndOf(ty, i) <= offset by {
      if i != 0 { ElementOrder(ty, i - 1, i); }
    }
    forall b | 0 <= b < EndOf(ty, i + 1)
      ensures Allowed(ty, infos, before, b, after[b])
    {
      if b < EndOf(ty, i) {
      } else if b < offset {
        GapByte(ty, i, b);
        UnsitedByte(ty, infos, before, b);
      } else if Aligned(offset, e) {
        assert after[b] == after[offset..offset + StoreSize(e)][b - offset];
        ElementByte(ty, i, infos, before, b, after[b]);
      } else {
        MisalignedByte(ty, i, b);
        UnsitedByte(ty, infos, before, b);
      }
    }
  }

  lemma UnsitedByte(ty: Type, infos: seq<DwordInfo>, before: Image, b: nat)
    requires b < |before| && SiteOf(ty, b / 4).None?
    ensures Allowed(ty, infos, before, b, before[b])
  {
  }

  lemma LastStep(ty: Type, infos: seq<DwordInfo>, before: Image, after: Image)
    requires WellFormed(ty) && IsAggregate(ty) && |infos| == DwordCount(StoreSize(ty))
    requires RewrittenUpTo(ty, infos, before, after, EndOf(ty, ElementCount(ty)))
    ensures Rewritten(ty, infos, before, after)
  {
    hide SiteOf;
    hide StoreSize;
    hide WellFormed;
    hide ElementOffset;
    hide Allowed;
    forall b | EndOf(ty, ElementCount(ty)) <= b < |before|
      ensures Allowed(ty, infos, before, b, after[b])
    {
      GapByte(ty, ElementCount(ty), b);
      UnsitedByte(ty, infos, before, b);
    }
  }

  lemma ElementBegins(ty: Type, i: nat)
    requires WellFormed(ty) && IsAggregate(ty) && i < ElementCount(ty)
    ensures EndOf(ty, i) <= ElementOffset(ty, i)
    ensures EndOf(ty, i + 1) == ElementOffset(ty, i) + StoreSize(ElementType(ty, i)) <= StoreSize(ty)
  {
    hide StoreSize;
    hide WellFormed;
    hide ElementOffset;
    ElementFits(ty, i);
    if i != 0 { ElementOrder(ty, i - 1, i); }
  }

  /** No requests in the gap before an element. */
  lemma CountGap(ty: Type, i: nat, infos: seq<DwordInfo>)
    requires WellFormed(ty) && IsAggregate(ty) && i < ElementCount(ty) && EndOf(ty, i) <= ElementOffset(ty, i)
    requires DwordCount(ElementOffset(ty, i)) <= |infos|
    ensures Requested(ty, infos, DwordCount(EndOf(ty, i)), DwordCount(ElementOffset(ty, i))) == 0
  {
    hide SiteOf;
    hide StoreSize;
    hide WellFormed;
    hide ElementOffset;
    hide Requested;
    hide EndOf;
    var a, b := DwordCount(EndOf(ty, i)), DwordCount(ElementOffset(ty, i));
    forall d | a <= d < b
      ensures SiteOf(ty, d).None?
    {
      GapByte(ty, i, 4 * d);
    }
    RequestedNone(ty, infos, a, b);
  }

  lemma CountElement(ty: Type, i: nat, infos: seq<DwordInfo>, b: nat, c: nat)
    requires WellFormed(ty) && IsAggregate(ty) && i < ElementCount(ty)
    requires b == DwordCount(ElementOffset(ty, i)) && c == DwordCount(ElementOffset(ty, i) + StoreSize(ElementType(ty, i))) <= |infos|
    ensures b <= c
    ensures var offset, e := ElementOffset(ty, i), ElementType(ty, i);
            (Aligned(offset, e) ==> offset / 4 == b && (offset + StoreSize(e)) / 4 == c && c - b == StoreSize(e) / 4) &&
            Requested(ty, infos, b, c) == if Aligned(offset, e) then Requested(e, infos[b..c], 0, c - b) else 0
  {
    hide SiteOf;
    hide StoreSize;
    hide WellFormed;
    hide ElementOffset;
    hide Requested;
    var offset, e := ElementOffset(ty, i), ElementType(ty, i);
    if Aligned(offset, e) {
      forall d | b <= d < b + (c - b)
        ensures SiteOf(ty, d).Some? <==> SiteOf(e, d - b).Some?
      {
        ElementSite(ty, i, d);
      }
      RequestedShift(ty, infos, e, b, c - b, c - b);
    } else {
      forall d | b <= d < c
        ensures SiteOf(ty, d).None?
      {
        ElementSite(ty, i, d);
      }
      RequestedNone(ty, infos, b, c);
    }
  }

  /** The number of requests grows by those of the element. */
  lemma CountStep(ty: Type, i: nat, infos: seq<DwordInfo>)
    requires WellFormed(ty) && IsAggregate(ty) && i < ElementCount(ty) && |infos| == DwordCount(StoreSize(ty))
    ensures DwordCount(EndOf(ty, i)) <= DwordCount(EndOf(ty, i + 1)) <= |infos|
    ensures var offset, e := ElementOffset(ty, i), ElementType(ty, i);
            (Aligned(offset, e) ==> offset / 4 <= (offset + StoreSize(e)) / 4 <= |infos|) &&
            Requested(ty, infos, 0, DwordCount(EndOf(ty, i + 1))) ==
            Requested(ty, infos, 0, DwordCount(EndOf(ty, i))) +
            if Aligned(offset, e) then Requested(e, infos[offset / 4..(offset + StoreSize(e)) / 4], 0, StoreSize(e) / 4) else 0
  {
    hide SiteOf;
    hide StoreSize;
    hide WellFormed;
    hide ElementOffset;
    hide Requested;
    ElementBegins(ty, i);
    hide EndOf;
    var a, b, c := DwordCount(EndOf(ty, i)), DwordCount(ElementOffset(ty, i)), DwordCount(EndOf(ty, i + 1));
    CountGap(ty, i, infos);
    CountElement(ty, i, infos, b, c);
    RequestedSplit(ty, infos, 0, a, c);
    RequestedSplit(ty, infos, a, b, c);
  }

  lemma CountLast(ty: Type, infos: seq<DwordInfo>)
    requires WellFormed(ty) && IsAggregate(ty) && |infos| == DwordCount(StoreSize(ty))
    ensures EndOf(ty, ElementCount(ty)) <= StoreSize(ty)
    ensures Requested(ty, infos, 0, |infos|) == Requested(ty, infos, 0, DwordCount(EndOf(ty, ElementCount(ty))))
  {
    hide SiteOf;
    hide StoreSize;
    hide WellFormed;
    hide ElementOffset;
    hide Requested;
    var n := ElementCount(ty);
    if n != 0 {
      ElementFits(ty, n - 1);
    }
    var a := DwordCount(EndOf(ty, n));
    RequestedSplit(ty, infos, 0, a, |infos|);
    forall d | a <= d < |infos|
      ensures SiteOf(ty, d).None?
    {
      GapByte(ty, n, 4 * d);
    }
    RequestedNone(ty, infos, a, |infos|);
  }

  // ----- scalars -----

  lemma ScalarCount(ty: Type, infos: seq<DwordInfo>)
    requires IsScalar(ty) && |infos| == DwordCount(StoreSize(ty))
    ensures Requested(ty, infos, 0, |infos|) ==
            if ty.bits == 32 then (if infos[0].kind != Keep then 1 else 0)
            else if ty.bits == 64 then (if infos[0].kind != Keep then 1 else 0) + (if infos[1].kind != Keep then 1 else 0)
            else 0
  {
    if ty.bits == 32 {
      assert Requested(ty, infos, 0, 1) == Requested(ty, infos, 0, 0) + if infos[0].kind != Keep then 1 else 0;
    } else if ty.bits == 64 {
      assert Requested(ty, infos, 0, 1) == Requested(ty, infos, 0, 0) + if infos[0].kind != Keep then 1 else 0;
      assert Requested(ty, infos, 0, 2) == Requested(ty, infos, 0, 1) + if infos[1].kind != Keep then 1 else 0;
    } else {
      RequestedNone(ty, infos, 0, |infos|);
    }
  }

  /** One dword of a scalar after specialization, when no poison spreads. */
  ghost predicate DwordAllowed(info: DwordInfo, before: Image, after: Image)
    requires |before| == |after| == 4
  {
    match info.kind
    case Keep => after == before
    case Constant => after == Bytes(info.constant)
    case FrozenPoison => forall c :: c in after ==> c.Picked?
  }

  lemma ScalarRewritten(ty: Type, infos: seq<DwordInfo>, before: Image, after: Image)
    requires IsScalar(ty) && ty.bits in {32, 64} && |before| == |after| == StoreSize(ty) && |infos| == DwordCount(StoreSize(ty))
    requires if ty.bits == 64 && Mixed(Site(0, 2), infos) && Poison in before then after == AllPoison(8)
             else forall d :: 0 <= d < |infos| ==> DwordAllowed(infos[d], before[4 * d..4 * d + 4], after[4 * d..4 * d + 4])
    ensures Rewritten(ty, infos, before, after)
  {
    forall b | 0 <= b < |before|
      ensures Allowed(ty, infos, before, b, after[b])
    {
      var d := b / 4;
      var s := Site(0, if ty.bits == 32 then 1 else 2);
      assert SiteOf(ty, d) == Some(s);
      if ty.bits == 64 && Mixed(s, infos) && Poison in before {
        assert HasPoison(before, 0, 8);
      } else {
        assert DwordAllowed(infos[d], before[4 * d..4 * d + 4], after[4 * d..4 * d + 4]);
        assert after[b] == after[4 * d..4 * d + 4][b % 4] && before[b] == before[4 * d..4 * d + 4][b % 4];
      }
    }
  }

  function ZeroDword(): Dword { [0, 0, 0, 0] }

  function FullDword(): Dword { [255, 255, 255, 255] }

  lemma Masked(image: Image, low: bool)
    requires |image| == 8
    ensures var mask := if low then FullDword() + ZeroDword() else ZeroDword() + FullDword();
            BitwiseAnd(image, Bytes(mask)) ==
            if Poison in image then AllPoison(8)
            else if low then image[..4] + Bytes(ZeroDword()) else Bytes(ZeroDword()) + image[4..]
  {
  }

  lemma Joined(low: Image, high: Image)
    requires |low| == |high| == 4 && Poison !in low && Poison !in high
    ensures BitwiseOr(low + Bytes(ZeroDword()), Bytes(ZeroDword()) + high) == low + high
  {
  }

  /** One half of a 64-bit integer, with zeros in the other half. */
  ghost predicate HalfOf(info: DwordInfo, low: bool, before: Image, image: Image)
    requires |before| == 8
  {
    |image| == 8 &&
    if info.kind == Keep && Poison in before then image == AllPoison(8)
    else
      var own, other := if low then 0 else 4, if low then 4 else 0;
      Poison !in image && image[other..other + 4] == Bytes(ZeroDword()) &&
      DwordAllowed(info, before[own..own + 4], image[own..own + 4])
  }

  /** The halves of a 64-bit integer, or'ed together. */
  lemma HalvesRewritten(infos: seq<DwordInfo>, before: Image, low: Image, high: Image)
    requires |infos| == 2 && |before| == 8 && (infos[0].kind != Keep || infos[1].kind != Keep)
    requires HalfOf(infos[0], true, before, low) && HalfOf(infos[1], false, before, high)
    ensures Rewritten(IntTy(64), infos, before, BitwiseOr(low, high))
  {
    hide Rewritten;
    var after := BitwiseOr(low, high);
    if Mixed(Site(0, 2), infos) && Poison in before {
      assert AllPoison(8)[0] == Poison;
      assert after == AllPoison(8);
    } else {
      Joined(low[..4], high[4..]);
      assert low == low[..4] + Bytes(ZeroDword()) && high == Bytes(ZeroDword()) + high[4..];
      assert after[0..4] == low[0..4] && after[4..8] == high[4..8];
    }
    ScalarRewritten(IntTy(64), infos, before, after);
  }

  /** Floats and pointers are specialized like the integer of their width. */
  lemma SameScalar(ty: Type, as': Type, infos: seq<DwordInfo>, before: Image, after: Image)
    requires IsScalar(ty) && as' == IntTy(ty.bits) && |infos| == DwordCount(StoreSize(ty))
    ensures Requested(ty, infos, 0, |infos|) == Requested(as', infos, 0, |infos|)
    ensures Rewritten(as', infos, before, after) ==> Rewritten(ty, infos, before, after)
  {
    ScalarCount(ty, infos);
    ScalarCount(as', infos);
    if Rewritten(as', infos, before, after) {
      forall b | 0 <= b < |before|
        ensures Allowed(ty, infos, before, b, after[b])
      {
        assert Allowed(as', infos, before, b, after[b]);
        assert SiteOf(ty, b / 4) == SiteOf(as', b / 4);
      }
    }
  }

  // ----- vectors -----

  predicate IsSupportedVector(ty: Type)
  {
    ty.VectorTy? && (ty.element.IntTy? || ty.element.FloatTy?) && ty.element.bits % 32 == 0 && 0 < ty.element.bits
  }

  lemma UnsupportedVector(ty: Type, infos: seq<DwordInfo>)
    requires ty.VectorTy? && !IsSupportedVector(ty)
    ensures Requested(ty, infos, 0, |infos|) == 0
  {
    RequestedNone(ty, infos, 0, |infos|);
  }

  /** Element `i` of a vector whose elements have `w` dwords each. */
  lemma VectorPart(ty: Type, i: nat, w: nat, d: nat)
    requires IsSupportedVector(ty) && i < ty.count && ty.element.bits == 32 * w
    requires Product(i, w) <= d < Product(i + 1, w)
    ensures SiteOf(ty, d) == Shift(SiteOf(ty.element, d - Product(i, w)), Product(i, w))
  {
    SiteOfVector(ty, d);
    ProductStep(i, w);
    if w == 1 {
      assert Product(i, 1) == i;
    } else if w == 2 {
      assert Product(i, 2) == 2 * i;
      assert (2 * i) / 2 == i && (2 * i + 1) / 2 == i;
    }
  }

  lemma VectorLayout(ty: Type, w: nat, i: nat)
    requires IsSupportedVector(ty) && ty.element.bits == 32 * w && i <= ty.count
    ensures StoreSize(ty.element) == 4 * w && StoreSize(ty) == 4 * Product(ty.count, w)
    ensures Product(i, w) <= Product(ty.count, w) && (i < ty.count ==> Product(i + 1, w) <= Product(ty.count, w))
    ensures Product(i + 1, w) == Product(i, w) + w && Product(i, 4 * w) == 4 * Product(i, w)
  {
    ProductStep(i, w);
    ProductMonotone(i, ty.count, w);
    if i < ty.count { ProductMonotone(i + 1, ty.count, w); }
    var n := ty.count;
    assert n * (32 * w) == 32 * (n * w);
    assert i * (4 * w) == 4 * (i * w);
  }

  /** The image of a vector after its first dwords, up to `n`, have been handled; `kept` says that it started
      from the original value. */
  ghost predicate VectorUpTo(ty: Type, infos: seq<DwordInfo>, before: Image, after: Image, n: nat, kept: bool)
  {
    |after| == |before| == StoreSize(ty) && 4 * n <= |before| &&
    (forall b :: 0 <= b < 4 * n ==> Allowed(ty, infos, before, b, after[b])) &&
    (kept ==> forall b :: 4 * n <= b < |before| ==> after[b] == before[b])
  }

  lemma VectorStep(ty: Type, i: nat, w: nat, infos: seq<DwordInfo>, before: Image, cur: Image, after: Image, kept: bool)
    requires IsSupportedVector(ty) && i < ty.count && ty.element.bits == 32 * w && |infos| == DwordCount(StoreSize(ty))
    requires VectorUpTo(ty, infos, before, cur, Product(i, w), kept) && |after| == |cur|
    requires 4 * Product(i + 1, w) <= |before| && Product(i, w) <= Product(i + 1, w) <= |infos|
    requires forall b :: 0 <= b < |cur| && !(4 * Product(i, w) <= b < 4 * Product(i + 1, w)) ==> after[b] == cur[b]
    requires var o, end := Product(i, w), Product(i + 1, w);
             Rewritten(ty.element, infos[o..end], before[4 * o..4 * end], after[4 * o..4 * end])
    ensures VectorUpTo(ty, infos, before, after, Product(i + 1, w), kept)
  {
    hide SiteOf;
    hide StoreSize;
    hide Allowed;
    hide Product;
    var o, end := Product(i, w), Product(i + 1, w);
    forall b | 4 * o <= b < 4 * end
      ensures Allowed(ty, infos, before, b, after[b])
    {
      VectorPart(ty, i, w, b / 4);
      assert after[b] == after[4 * o..4 * end][b - 4 * o];
      PartByte(ty, ty.element, o, end, infos, before, b, after[b]);
    }
  }

  lemma VectorCount(ty: Type, i: nat, w: nat, infos: seq<DwordInfo>)
    requires IsSupportedVector(ty) && i < ty.count && ty.element.bits == 32 * w && |infos| == DwordCount(StoreSize(ty))
    ensures Product(i, w) <= Product(i + 1, w) == Product(i, w) + w <= |infos|
    ensures Requested(ty, infos, 0, Product(i + 1, w)) ==
            Requested(ty, infos, 0, Product(i, w)) + Requested(ty.element, infos[Product(i, w)..Product(i + 1, w)], 0, w)
  {
    hide SiteOf;
    hide Requested;
    VectorLayout(ty, w, i);
    hide StoreSize;
    hide Product;
    var o, end := Product(i, w), Product(i + 1, w);
    forall d | o <= d < end
      ensures SiteOf(ty, d).Some? <==> SiteOf(ty.element, d - o).Some?
    {
      VectorPart(ty, i, w, d);
    }
    RequestedSplit(ty, infos, 0, o, end);
    RequestedShift(ty, infos, ty.element, o, w, w);
  }

  /** The start of the loop over a vector. */
  lemma VectorStart(ty: Type, infos: seq<DwordInfo>, before: Image, w: nat, image: Image)
    requires |image| == |before| == StoreSize(ty)
    ensures Product(0, w) == 0 && Requested(ty, infos, 0, 0) == 0
    ensures VectorUpTo(ty, infos, before, image, Product(0, w), image == before)
    ensures VectorUpTo(ty, infos, before, image, Product(0, w), false)
  {
    ProductStep(0, w);
  }

  lemma VectorDwords(ty: Type, w: nat, infos: seq<DwordInfo>)
    requires IsSupportedVector(ty) && ty.element.bits == 32 * w && |infos| == DwordCount(StoreSize(ty))
    ensures |infos| == Product(ty.count, w)
  {
    VectorLayout(ty, w, ty.count);
  }

  lemma VectorDone(ty: Type, infos: seq<DwordInfo>, before: Image, after: Image, w: nat, kept: bool)
    requires IsSupportedVector(ty) && ty.element.bits == 32 * w
    requires VectorUpTo(ty, infos, before, after, Product(ty.count, w), kept)
    ensures Rewritten(ty, infos, before, after)
  {
    hide Allowed;
    VectorLayout(ty, w, ty.count);
  }

  /** The bytes of the next element are still the original ones. */
  lemma VectorPartKept(ty: Type, i: nat, w: nat, infos: seq<DwordInfo>, before: Image, cur: Image)
    requires IsSupportedVector(ty) && i < ty.count && ty.element.bits == 32 * w
    requires VectorUpTo(ty, infos, before, cur, Product(i, w), true)
    ensures 4 * Product(i, w) <= 4 * Product(i + 1, w) <= |before| && 4 * Product(i + 1, w) == Product(i, 4 * w) + 4 * w
    ensures Product(i, 4 * w) == 4 * Product(i, w)
    ensures cur[4 * Product(i, w)..4 * Product(i + 1, w)] == before[4 * Product(i, w)..4 * Product(i + 1, w)]
  {
    hide Allowed;
    VectorLayout(ty, w, i);
  }

  lemma VectorKept(ty: Type, i: nat, w: nat, infos: seq<DwordInfo>, before: Image, cur: Image)
    requires IsSupportedVector(ty) && i < ty.count && ty.element.bits == 32 * w && |infos| == DwordCount(StoreSize(ty))
    requires VectorUpTo(ty, infos, before, cur, Product(i, w), true)
    requires Product(i, w) <= Product(i + 1, w) <= |infos| && 4 * Product(i + 1, w) <= |before|
    requires var part := before[4 * Product(i, w)..4 * Product(i + 1, w)];
             Rewritten(ty.element, infos[Product(i, w)..Product(i + 1, w)], part, part)
    ensures VectorUpTo(ty, infos, before, cur, Product(i + 1, w), true)
  {
    hide Rewritten;
    hide VectorUpTo;
    hide Product;
    VectorPartKept(ty, i, w, infos, before, cur);
    VectorLength(ty, infos, before, cur, Product(i, w), true);
    VectorStep(ty, i, w, infos, before, cur, cur, true);
  }

  lemma VectorLength(ty: Type, infos: seq<DwordInfo>, before: Image, cur: Image, n: nat, kept: bool)
    requires VectorUpTo(ty, infos, before, cur, n, kept)
    ensures |cur| == |before| == StoreSize(ty)
  {
  }

  lemma VectorInserted(ty: Type, i: nat, w: nat, infos: seq<DwordInfo>, before: Image, cur: Image, element: Image, kept: bool)
    requires IsSupportedVector(ty) && i < ty.count && ty.element.bits == 32 * w && |infos| == DwordCount(StoreSize(ty))
    requires VectorUpTo(ty, infos, before, cur, Product(i, w), kept)
    requires Product(i, w) <= Product(i + 1, w) <= |infos| && 4 * Product(i + 1, w) <= |before|
    requires Rewritten(ty.element, infos[Product(i, w)..Product(i + 1, w)],
                       before[4 * Product(i, w)..4 * Product(i + 1, w)], element)
    ensures VectorUpTo(ty, infos, before, Splice(cur, Product(i, 4 * w), element), Product(i + 1, w), kept)
  {
    VectorLength(ty, infos, before, cur, Product(i, w), kept);
    VectorLayout(ty, w, i);
    assert |element| == 4 * w;
    hide VectorUpTo;
    hide Rewritten;
    hide Product;
    hide StoreSize;
    var o := 4 * Product(i, w);
    var after := Splice(cur, o, element);
    assert after[o..o + 4 * w] == element;
    VectorStep(ty, i, w, infos, before, cur, after, kept);
  }

  /** What the loop over a vector keeps: `cur` is the current replaced vector. */
  ghost predicate VectorInvariant(ty: Type, val: Option<Value>, cur: Option<Value>, infos: seq<DwordInfo>, before: Image,
                                  env: Env, i: nat, w: nat)
    requires ty.VectorTy? && IsScalar(ty.element) && Product(i, w) <= |infos|
  {
    (cur.Some? ==> VectorUpTo(ty, infos, before, Eval(cur.value, env), Product(i, w), val.Some?)) &&
    (Requested(ty, infos, 0, Product(i, w)) == 0 <==> cur == val) &&
    (val.Some? ==> cur.Some?) &&
    (cur != val ==> cur.value != Root && ty.element.bits in {32, 64}) &&
    (val.None? && 0 < i && ty.element.bits in {32, 64} ==> cur.Some?) &&
    (val.Some? && cur != val ==> Depth(cur.value) > Depth(val.value))
  }

  lemma InsertedInvariant(ty: Type, val: Option<Value>, base: Value, infos: seq<DwordInfo>, before: Image, env: Env,
                          i: nat, w: nat, element: Value)
    requires IsSupportedVector(ty) && i < ty.count && ty.element.bits == 32 * w && ty.element.bits in {32, 64}
    requires |infos| == DwordCount(StoreSize(ty)) && |before| == StoreSize(ty)
    requires Product(i, w) <= Product(i + 1, w) <= |infos| && 4 * Product(i + 1, w) <= |before|
    requires VectorUpTo(ty, infos, before, Eval(base, env), Product(i, w), val.Some?)
    requires val.Some? ==> Depth(base) >= Depth(val.value)
    requires Rewritten(ty.element, infos[Product(i, w)..Product(i + 1, w)],
                       before[4 * Product(i, w)..4 * Product(i + 1, w)], Eval(element, env))
    requires Requested(ty, infos, 0, Product(i + 1, w)) > 0
    ensures VectorInvariant(ty, val, Some(InsertElement(base, element, i, 4 * w)), infos, before, env, i + 1, w)
  {
    hide VectorUpTo;
    hide Rewritten;
    hide Requested;
    hide StoreSize;
    hide Product;
    VectorInserted(ty, i, w, infos, before, Eval(base, env), Eval(element, env), val.Some?);
    var r := InsertElement(base, element, i, 4 * w);
    assert val.Some? ==> Depth(r) > Depth(val.value);
  }

  predicate AnySpecialized(infos: seq<DwordInfo>)
  {
    exists d :: 0 <= d < |infos| && infos[d].kind != Keep
  }

  predicate AllSpecialized(infos: seq<DwordInfo>)
  {
    forall d :: 0 <= d < |infos| ==> infos[d].kind != Keep
  }

  /** computeSpecializationSummary. */
  method ComputeSpecializationSummary(infos: seq<DwordInfo>) returns (all: bool, any: bool)
    ensures all == AllSpecialized(infos) && any == AnySpecialized(infos)
  {
    all, any := true, false;
    for i := 0 to |infos|
      invariant all == forall d :: 0 <= d < i ==> infos[d].kind != Keep
      invariant any == exists d :: 0 <= d < i && infos[d].kind != Keep
    {
      if infos[i].kind != Keep {
        any := true;
      } else {
        all := false;
      }
    }
  }

  lemma {:induction false} NoneSpecialized(ty: Type, infos: seq<DwordInfo>, n: nat)
    requires n <= |infos| && !AnySpecialized(infos)
    ensures Requested(ty, infos, 0, n) == 0
  {
    if n != 0 { NoneSpecialized(ty, infos, n - 1); }
  }

  lemma OneDword(infos: seq<DwordInfo>)
    ensures |infos| == 1 && AnySpecialized(infos) ==> AllSpecialized(infos)
  {
  }

  /** The requests of an element of a supported vector. */
  lemma ElementRequests(e: Type, infos: seq<DwordInfo>, w: nat)
    requires IsScalar(e) && e.bits == 32 * w && |infos| == w
    ensures Requested(e, infos, 0, w) > 0 ==> e.bits in {32, 64}
    ensures e.bits in {32, 64} && AllSpecialized(infos) ==> Requested(e, infos, 0, w) > 0
  {
    ScalarCount(e, infos);
  }

  // ----- parts of the specialized value -----

  lemma {:induction false} PathFits(ty: Type, indices: seq<nat>)
    requires WellFormed(ty) && ValidPath(ty, indices)
    ensures WellFormed(PathType(ty, indices))
    ensures PathOffset(ty, indices) + StoreSize(PathType(ty, indices)) <= StoreSize(ty)
    decreases |indices|
  {
    if indices != [] {
      ElementFits(ty, indices[0]);
      PathFits(ElementType(ty, indices[0]), indices[1..]);
    }
  }

  lemma {:induction false} PathSnoc(ty: Type, indices: seq<nat>, i: nat)
    requires ValidPath(ty, indices) && IsAggregate(PathType(ty, indices)) && i < ElementCount(PathType(ty, indices))
    ensures ValidPath(ty, indices + [i])
    ensures PathType(ty, indices + [i]) == ElementType(PathType(ty, indices), i)
    ensures PathOffset(ty, indices + [i]) == PathOffset(ty, indices) + ElementOffset(PathType(ty, indices), i)
    decreases |indices|
  {
    var longer := indices + [i];
    if indices == [] {
      assert longer[1..] == [];
    } else {
      assert longer[1..] == indices[1..] + [i];
      PathSnoc(ElementType(ty, indices[0]), indices[1..], i);
    }
  }

  /** Only the part at `offset` has changed, and it has been specialized. */
  ghost predicate PartRewritten(ty: Type, infos: seq<DwordInfo>, before: Image, after: Image, offset: nat)
  {
    |after| == |before| && offset + StoreSize(ty) <= |before| &&
    (forall b :: 0 <= b < |before| && !(offset <= b < offset + StoreSize(ty)) ==> after[b] == before[b]) &&
    Rewritten(ty, infos, before[offset..offset + StoreSize(ty)], after[offset..offset + StoreSize(ty)])
  }

  lemma SplicedPart(ty: Type, infos: seq<DwordInfo>, before: Image, offset: nat, part: Image)
    requires offset + StoreSize(ty) <= |before| && Rewritten(ty, infos, before[offset..offset + StoreSize(ty)], part)
    ensures PartRewritten(ty, infos, before, Splice(before, offset, part), offset)
  {
    assert |part| == StoreSize(ty);
    hide Rewritten;
    hide StoreSize;
    var after := Splice(before, offset, part);
    assert after[offset..offset + StoreSize(ty)] == part;
  }

  /** The state of the loop over an aggregate that lies at `offset`. */
  ghost predicate PartUpTo(ty: Type, infos: seq<DwordInfo>, before: Image, after: Image, offset: nat, n: nat)
  {
    |after| == |before| && offset + StoreSize(ty) <= |before| &&
    (forall b :: 0 <= b < |before| && !(offset <= b < offset + StoreSize(ty)) ==> after[b] == before[b]) &&
    RewrittenUpTo(ty, infos, before[offset..offset + StoreSize(ty)], after[offset..offset + StoreSize(ty)], n)
  }

  lemma PartStart(ty: Type, infos: seq<DwordInfo>, before: Image, offset: nat)
    requires IsAggregate(ty) && offset + StoreSize(ty) <= |before|
    ensures PartUpTo(ty, infos, before, before, offset, EndOf(ty, 0))
  {
  }

  /** The bytes of the next element are still the original ones. */
  lemma ElementKept(ty: Type, i: nat, infos: seq<DwordInfo>, before: Image, cur: Image)
    requires WellFormed(ty) && IsAggregate(ty) && i < ElementCount(ty)
    requires RewrittenUpTo(ty, infos, before, cur, EndOf(ty, i))
    ensures var offset, size := ElementOffset(ty, i), StoreSize(ElementType(ty, i));
            offset + size <= |cur| == |before| && cur[offset..offset + size] == before[offset..offset + size]
  {
    hide WellFormed;
    hide ElementOffset;
    hide Allowed;
    hide StoreSize;
    ElementFits(ty, i);
    if i != 0 { ElementOrder(ty, i - 1, i); }
  }

  lemma ElementUnrequested(ty: Type, i: nat, infos: seq<DwordInfo>, before: Image, cur: Image)
    requires WellFormed(ty) && IsAggregate(ty) && i < ElementCount(ty) && |infos| == DwordCount(StoreSize(ty))
    requires RewrittenUpTo(ty, infos, before, cur, EndOf(ty, i))
    requires var eo, e := ElementOffset(ty, i), ElementType(ty, i);
             Aligned(eo, e) ==> eo / 4 <= (eo + StoreSize(e)) / 4 <= |infos| &&
                                Requested(e, infos[eo / 4..(eo + StoreSize(e)) / 4], 0, StoreSize(e) / 4) == 0
    ensures RewrittenUpTo(ty, infos, before, cur, EndOf(ty, i + 1))
  {
    hide Requested;
    hide Rewritten;
    hide WellFormed;
    hide ElementOffset;
    hide StoreSize;
    ElementKept(ty, i, infos, before, cur);
    ElementFits(ty, i);
    var eo, e := ElementOffset(ty, i), ElementType(ty, i);
    if Aligned(eo, e) {
      assert |infos[eo / 4..(eo + StoreSize(e)) / 4]| == StoreSize(e) / 4 == DwordCount(StoreSize(e));
      NothingRequested(e, infos[eo / 4..(eo + StoreSize(e)) / 4], before[eo..eo + StoreSize(e)]);
    }
    hide RewrittenUpTo;
    ElementStep(ty, i, infos, before, cur, cur);
  }

  lemma PartKept(ty: Type, i: nat, infos: seq<DwordInfo>, before: Image, cur: Image, offset: nat)
    requires WellFormed(ty) && IsAggregate(ty) && i < ElementCount(ty) && |infos| == DwordCount(StoreSize(ty))
    requires PartUpTo(ty, infos, before, cur, offset, EndOf(ty, i))
    requires var eo, e := ElementOffset(ty, i), ElementType(ty, i);
             Aligned(eo, e) ==> eo / 4 <= (eo + StoreSize(e)) / 4 <= |infos| &&
                                Requested(e, infos[eo / 4..(eo + StoreSize(e)) / 4], 0, StoreSize(e) / 4) == 0
    ensures PartUpTo(ty, infos, before, cur, offset, EndOf(ty, i + 1))
  {
    hide RewrittenUpTo;
    hide Requested;
    hide StoreSize;
    hide ElementOffset;
    hide WellFormed;
    var size := StoreSize(ty);
    ElementUnrequested(ty, i, infos, before[offset..offset + size], cur[offset..offset + size]);
  }

  lemma PartReplaced(ty: Type, i: nat, infos: seq<DwordInfo>, before: Image, cur: Image, after: Image, offset: nat)
    requires WellFormed(ty) && IsAggregate(ty) && i < ElementCount(ty) && |infos| == DwordCount(StoreSize(ty))
    requires PartUpTo(ty, infos, before, cur, offset, EndOf(ty, i))
    requires var eo, e := ElementOffset(ty, i), ElementType(ty, i);
             Aligned(eo, e) && eo / 4 <= (eo + StoreSize(e)) / 4 <= |infos| &&
             PartRewritten(e, infos[eo / 4..(eo + StoreSize(e)) / 4], cur, after, offset + eo)
    ensures PartUpTo(ty, infos, before, after, offset, EndOf(ty, i + 1))
  {
    hide Rewritten;
    hide WellFormed;
    hide ElementOffset;
    hide StoreSize;
    hide RewrittenUpTo;
    var eo, e, size := ElementOffset(ty, i), ElementType(ty, i), StoreSize(ty);
    var es := StoreSize(e);
    ElementFits(ty, i);
    var part, now, next := before[offset..offset + size], cur[offset..offset + size], after[offset..offset + size];
    ElementKept(ty, i, infos, part, now);
    SliceOfSlice(after, offset, size, eo, es);
    SliceOfSlice(cur, offset, size, eo, es);
    forall b | 0 <= b < size && !InElement(ty, i, b)
      ensures next[b] == now[b]
    {
      assert next[b] == after[offset + b] && now[b] == cur[offset + b];
    }
    ElementStep(ty, i, infos, part, now, next);
  }

  lemma SliceOfSlice(image: Image, a: nat, n: nat, b: nat, m: nat)
    requires a + n <= |image| && b + m <= n
    ensures image[a..a + n][b..b + m] == image[a + b..a + b + m]
  {
    var inner, outer := image[a..a + n][b..b + m], image[a + b..a + b + m];
    forall k | 0 <= k < m
      ensures inner[k] == outer[k]
    {
      assert inner[k] == image[a..a + n][b + k] == image[a + (b + k)];
    }
  }

  lemma PartDone(ty: Type, infos: seq<DwordInfo>, before: Image, after: Image, offset: nat)
    requires WellFormed(ty) && IsAggregate(ty) && |infos| == DwordCount(StoreSize(ty))
    requires PartUpTo(ty, infos, before, after, offset, EndOf(ty, ElementCount(ty)))
    ensures PartRewritten(ty, infos, before, after, offset)
  {
    LastStep(ty, infos, before[offset..offset + StoreSize(ty)], after[offset..offset + StoreSize(ty)]);
  }

  lemma OddSize(ty: Type, infos: seq<DwordInfo>)
    requires !IsAggregate(ty) && WellFormed(ty) && StoreSize(ty) % 4 != 0
    ensures Requested(ty, infos, 0, |infos|) == 0
  {
    if ty.VectorTy? {
      if ty.element.bits in {32, 64} {
        VectorSize(ty);
        assert false;
      }
      hide StoreSize;
    }
    forall d | 0 <= d < |infos|
      ensures SiteOf(ty, d).None?
    {
    }
    RequestedNone(ty, infos, 0, |infos|);
  }

  /** The image of the part of the root value that a path leads to. */
  lemma LeafImage(rootVal: Value, indices: seq<nat>, ty: Type, env: Env) returns (part: Image)
    requires WellFormed(env.ty) && ValidPath(env.ty, indices) && PathType(env.ty, indices) == ty
    requires |Eval(rootVal, env)| == StoreSize(env.ty)
    ensures var whole, offset := Eval(rootVal, env), PathOffset(env.ty, indices);
            offset + StoreSize(ty) <= |whole| && part == whole[offset..offset + StoreSize(ty)] && |part| == StoreSize(ty)
    ensures part == Eval(if indices == [] then rootVal else ExtractValue(rootVal, indices), env)
  {
    PathFits(env.ty, indices);
    hide StoreSize;
    hide WellFormed;
    var whole, offset := Eval(rootVal, env), PathOffset(env.ty, indices);
    part := whole[offset..offset + StoreSize(ty)];
  }

  lemma WholeDwords(size: nat)
    requires size % 4 == 0
    ensures DwordCount(size) == size / 4
  {
  }

  /** What the loop over an aggregate keeps: `cur` is the current replaced root value. */
  ghost predicate AggregateInvariant(ty: Type, infos: seq<DwordInfo>, env: Env, rootVal: Value, cur: Value, offset: nat, i: nat)
    requires IsAggregate(ty) && i <= ElementCount(ty) && DwordCount(EndOf(ty, i)) <= |infos|
  {
    |Eval(cur, env)| == |Eval(rootVal, env)| &&
    PartUpTo(ty, infos, Eval(rootVal, env), Eval(cur, env), offset, EndOf(ty, i)) &&
    (Requested(ty, infos, 0, DwordCount(EndOf(ty, i))) == 0 <==> cur == rootVal) &&
    (cur != rootVal ==> Depth(cur) > Depth(rootVal))
  }

  class ValueSpecializer {
    var NumReplacedDwords: nat
    var nextId: nat

    constructor ()
      ensures NumReplacedDwords == 0
    {
      NumReplacedDwords := 0;
      nextId := 0;
    }

    /** getFrozenPoison. */
    method GetFrozenPoison(size: nat, ghost env: Env) returns (r: Value)
      modifies this`nextId
      ensures r.Frozen? && |Eval(r, env)| == size && forall c :: c in Eval(r, env) ==> c.Picked?
    {
      r := Frozen(nextId, size);
      nextId := nextId + 1;
    }

    /** The integer case of replaceDwordsInNonAggregate. */
    method ReplaceDwordsInInteger(ty: Type, val: Option<Value>, infos: seq<DwordInfo>, ghost env: Env, ghost before: Image)
      returns (r: Option<Value>)
      requires ty.IntTy? && StoreSize(ty) % 4 == 0 && |infos| == DwordCount(StoreSize(ty)) && |before| == StoreSize(ty)
      requires WellFormed(env.ty) && |env.root| == StoreSize(env.ty)
      requires val.Some? ==> Eval(val.value, env) == before
      requires val.None? ==> AllSpecialized(infos)
      requires AnySpecialized(infos)
      modifies this
      ensures NumReplacedDwords == old(NumReplacedDwords) + Requested(ty, infos, 0, |infos|)
      ensures r.Some? <==> Requested(ty, infos, 0, |infos|) > 0
      ensures r.Some? ==> Rewritten(ty, infos, before, Eval(r.value, env)) && r.value != Root
      ensures StaysPlain(ty, env.ty, val, r)
    {
      ScalarCount(ty, infos);
      if ty.bits < 32 {
        return None;
      }
      if ty.bits == 32 {
        var dwi := infos[0];
        if dwi.kind == Constant {
          NumReplacedDwords := NumReplacedDwords + 1;
          r := Some(ConstantInt(dwi.constant));
        } else if dwi.kind == FrozenPoison {
          NumReplacedDwords := NumReplacedDwords + 1;
          var frozen := GetFrozenPoison(4, env);
          r := Some(frozen);
        } else {
          return None;
        }
        ScalarRewritten(ty, infos, before, Eval(r.value, env));
        return;
      }
      if ty.bits == 64 {
        r := ReplaceDwordsInI64(ty, val, infos, env, before);
        return;
      }
      return None;
    }

    method ReplaceDwordsInI64(ty: Type, val: Option<Value>, infos: seq<DwordInfo>, ghost env: Env, ghost before: Image)
      returns (r: Option<Value>)
      requires ty == IntTy(64) && |infos| == 2 && |before| == 8
      requires val.Some? ==> Eval(val.value, env) == before
      requires val.None? ==> infos[0].kind != Keep && infos[1].kind != Keep
      requires infos[0].kind != Keep || infos[1].kind != Keep
      modifies this
      ensures NumReplacedDwords == old(NumReplacedDwords) +
                                   (if infos[0].kind != Keep then 1 else 0) + (if infos[1].kind != Keep then 1 else 0)
      ensures r.Some? && Rewritten(ty, infos, before, Eval(r.value, env)) && r.value != Root
    {
      var lowKind, highKind := infos[0].kind, infos[1].kind;
      if lowKind == highKind {
        NumReplacedDwords := NumReplacedDwords + 2;
        if lowKind == Constant {
          r := Some(ConstantInt(infos[0].constant + infos[1].constant));
        } else {
          var frozen := GetFrozenPoison(8, env);
          r := Some(frozen);
        }
        ScalarRewritten(ty, infos, before, Eval(r.value, env));
        return;
      }
      var lowDword := GetHalf(val, infos[0], true, env, before);
      var highDword := GetHalf(val, infos[1], false, env, before);
      r := Some(Or(lowDword, highDword));
      HalvesRewritten(infos, before, Eval(lowDword, env), Eval(highDword, env));
    }

    /** One half of a 64-bit integer that is put together from its low and high dwords. */
    method GetHalf(val: Option<Value>, info: DwordInfo, low: bool, ghost env: Env, ghost before: Image) returns (half: Value)
      requires |before| == 8 && (val.Some? ==> Eval(val.value, env) == before) && (val.None? ==> info.kind != Keep)
      modifies this
      ensures NumReplacedDwords == old(NumReplacedDwords) + if info.kind != Keep then 1 else 0
      ensures HalfOf(info, low, before, Eval(half, env))
    {
      var mask := if low then FullDword() + ZeroDword() else ZeroDword() + FullDword();
      if info.kind == Keep {
        half := And(val.value, mask);
        Masked(before, low);
      } else {
        NumReplacedDwords := NumReplacedDwords + 1;
        if info.kind == Constant {
          half := ConstantInt(if low then info.constant + ZeroDword() else ZeroDword() + info.constant);
          assert Eval(half, env) == if low then Bytes(info.constant) + Bytes(ZeroDword())
                                    else Bytes(ZeroDword()) + Bytes(info.constant);
        } else {
          var frozen := GetFrozenPoison(8, env);
          half := And(frozen, mask);
          Masked(Eval(frozen, env), low);
        }
      }
    }

    /** The cases of replaceDwordsInNonAggregate other than vectors. */
    method ReplaceDwordsInScalar(ty: Type, val: Option<Value>, infos: seq<DwordInfo>, ghost env: Env, ghost before: Image)
      returns (r: Option<Value>)
      requires IsScalar(ty) && |infos| == DwordCount(StoreSize(ty)) && |before| == StoreSize(ty)
      requires WellFormed(env.ty) && |env.root| == StoreSize(env.ty)
      requires val.Some? ==> Eval(val.value, env) == before
      requires val.None? ==> AllSpecialized(infos)
      requires AnySpecialized(infos)
      modifies this
      ensures NumReplacedDwords == old(NumReplacedDwords) + Requested(ty, infos, 0, |infos|)
      ensures r.Some? <==> Requested(ty, infos, 0, |infos|) > 0
      ensures r.Some? ==> Rewritten(ty, infos, before, Eval(r.value, env)) && r.value != Root
      ensures StaysPlain(ty, env.ty, val, r)
    {
      hide Requested;
      hide Rewritten;
      hide SiteOf;
      ScalarCount(ty, infos);
      if StoreSize(ty) % 4 != 0 {
        return None;
      }
      if ty.IntTy? {
        r := ReplaceDwordsInInteger(ty, val, infos, env, before);
        return;
      }
      if ty.bits < 32 {
        return None;
      }
      var intTy := IntTy(ty.bits);
      var baseValue := None;
      if val.Some? {
        baseValue := Some(Cast(val.value));
      }
      var specializedAsInt := ReplaceDwordsInInteger(intTy, baseValue, infos, env, before);
      SameScalar(ty, intTy, infos, before, before);
      if specializedAsInt.None? {
        return None;
      }
      SameScalar(ty, intTy, infos, before, Eval(specializedAsInt.value, env));
      r := Some(Cast(specializedAsInt.value));
    }

    /** The vector case of replaceDwordsInNonAggregate. */
    method ReplaceDwordsInVector(ty: Type, val: Option<Value>, infos: seq<DwordInfo>, ghost env: Env, ghost before: Image)
      returns (r: Option<Value>)
      requires ty.VectorTy? && WellFormed(ty) && |infos| == DwordCount(StoreSize(ty)) && |before| == StoreSize(ty)
      requires WellFormed(env.ty) && |env.root| == StoreSize(env.ty)
      requires val.Some? ==> Eval(val.value, env) == before
      requires val.None? ==> AllSpecialized(infos)
      modifies this
      ensures NumReplacedDwords == old(NumReplacedDwords) + Requested(ty, infos, 0, |infos|)
      ensures r.Some? <==> Requested(ty, infos, 0, |infos|) > 0
      ensures r.Some? ==> Rewritten(ty, infos, before, Eval(r.value, env)) && r.value != Root
      ensures StaysPlain(ty, env.ty, val, r)
    {
      if !IsSupportedVector(ty) {
        UnsupportedVector(ty, infos);
        return None;
      }
      hide Requested;
      hide SiteOf;
      hide Allowed;
      hide Rewritten;
      var w := ty.element.bits / 32;
      VectorLayout(ty, w, 0);
      VectorStart(ty, infos, before, w, if val.Some? then Eval(val.value, env) else before);
      hide StoreSize;
      hide Product;
      hide VectorUpTo;
      var replacedVector := val;
      var elemIdx := 0;
      while elemIdx < ty.count
        invariant elemIdx <= ty.count && Product(elemIdx, w) <= |infos|
        invariant NumReplacedDwords == old(NumReplacedDwords) + Requested(ty, infos, 0, Product(elemIdx, w))
        invariant VectorInvariant(ty, val, replacedVector, infos, before, env, elemIdx, w)
        invariant StaysPlain(ty, env.ty, val, replacedVector)
      {
        replacedVector := ReplaceVectorElement(ty, val, replacedVector, infos, env, before, elemIdx, w);
        elemIdx := elemIdx + 1;
      }
      if replacedVector != val {
        VectorDone(ty, infos, before, Eval(replacedVector.value, env), w, val.Some?);
      }
      VectorDwords(ty, w, infos);
      r := if replacedVector != val then replacedVector else None;
    }

    /** One iteration of the loop over the elements of a vector. */
    method ReplaceVectorElement(ty: Type, val: Option<Value>, replacedVector: Option<Value>, infos: seq<DwordInfo>,
                                ghost env: Env, ghost before: Image, elemIdx: nat, w: nat) returns (r: Option<Value>)
      requires IsSupportedVector(ty) && elemIdx < ty.count && ty.element.bits == 32 * w
      requires |infos| == DwordCount(StoreSize(ty)) && |before| == StoreSize(ty) && Product(elemIdx, w) <= |infos|
      requires val.None? ==> AllSpecialized(infos)
      requires WellFormed(env.ty) && |env.root| == StoreSize(env.ty)
      requires VectorInvariant(ty, val, replacedVector, infos, before, env, elemIdx, w)
      modifies this
      ensures Product(elemIdx, w) <= Product(elemIdx + 1, w) <= |infos|
      ensures NumReplacedDwords - old(NumReplacedDwords) ==
              Requested(ty, infos, 0, Product(elemIdx + 1, w)) - Requested(ty, infos, 0, Product(elemIdx, w))
      ensures VectorInvariant(ty, val, r, infos, before, env, elemIdx + 1, w)
      ensures StaysPlain(ty, env.ty, replacedVector, r)
    {
      hide StaysPlain;
      hide Requested;
      hide SiteOf;
      hide Allowed;
      hide Rewritten;
      r := replacedVector;
      PlainSame(ty, env.ty, r);
      VectorLayout(ty, w, elemIdx);
      VectorCount(ty, elemIdx, w, infos);
      hide StoreSize;
      hide Product;
      hide VectorUpTo;
      var begin, end := Product(elemIdx, w), Product(elemIdx + 1, w);
      var elemInfos := infos[begin..end];
      ghost var part := before[4 * begin..4 * end];
      ElementRequests(ty.element, elemInfos, w);
      assert val.None? ==> AllSpecialized(elemInfos);
      OneDword(elemInfos);
      var all, any := ComputeSpecializationSummary(elemInfos);
      if !any {
        NoneSpecialized(ty.element, elemInfos, w);
        assert elemInfos[0].kind == Keep;
        NothingRequested(ty.element, elemInfos, part);
        VectorKept(ty, elemIdx, w, infos, before, Eval(replacedVector.value, env));
        assert VectorInvariant(ty, val, r, infos, before, env, elemIdx + 1, w);
        return;
      }
      var elemBaseValue := None;
      if !all {
        elemBaseValue := Some(ExtractElement(replacedVector.value, elemIdx, 4 * w));
        VectorPartKept(ty, elemIdx, w, infos, before, Eval(replacedVector.value, env));
        VectorLength(ty, infos, before, Eval(replacedVector.value, env), begin, true);
      }
      var replacedElem := ReplaceDwordsInScalar(ty.element, elemBaseValue, elemInfos, env, part);
      if replacedElem.None? {
        NothingRequested(ty.element, elemInfos, part);
        if replacedVector.Some? {
          VectorKept(ty, elemIdx, w, infos, before, Eval(replacedVector.value, env));
        }
        assert VectorInvariant(ty, val, r, infos, before, env, elemIdx + 1, w);
        return;
      }
      if replacedVector.None? {
        var frozen := GetFrozenPoison(StoreSize(ty), env);
        r := Some(frozen);
        VectorStart(ty, infos, before, w, Eval(frozen, env));
      }
      InsertedInvariant(ty, val, r.value, infos, before, env, elemIdx, w, replacedElem.value);
      PlainVector(ty, env, replacedVector, r.value, elemBaseValue, replacedElem.value, elemIdx, w,
                  infos, before, part, val.Some?);
      r := Some(InsertElement(r.value, replacedElem.value, elemIdx, 4 * w));
    }

    /** replaceDwordsInNonAggregate. */
    method ReplaceDwordsInNonAggregate(ty: Type, val: Option<Value>, infos: seq<DwordInfo>, ghost env: Env, ghost before: Image)
      returns (r: Option<Value>)
      requires !IsAggregate(ty) && WellFormed(ty) && |infos| == DwordCount(StoreSize(ty)) && |before| == StoreSize(ty)
      requires WellFormed(env.ty) && |env.root| == StoreSize(env.ty)
      requires val.Some? ==> Eval(val.value, env) == before
      requires val.None? ==> AllSpecialized(infos)
      requires AnySpecialized(infos)
      modifies this
      ensures NumReplacedDwords == old(NumReplacedDwords) + Requested(ty, infos, 0, |infos|)
      ensures r.Some? <==> Requested(ty, infos, 0, |infos|) > 0
      ensures r.Some? ==> Rewritten(ty, infos, before, Eval(r.value, env)) && r.value != Root
      ensures StaysPlain(ty, env.ty, val, r)
    {
      hide Requested;
      hide Rewritten;
      hide SiteOf;
      if StoreSize(ty) % 4 != 0 {
        OddSize(ty, infos);
        return None;
      }
      hide StoreSize;
      if ty.VectorTy? {
        r := ReplaceDwordsInVector(ty, val, infos, env, before);
      } else if ty.ScalableVectorTy? {
        ScalableUnsupported(ty, infos);
        return None;
      } else {
        r := ReplaceDwordsInScalar(ty, val, infos, env, before);
      }
    }

    /** replaceDwordsImpl, for the part of the root value that `indices` leads to. */
    method ReplaceDwordsImpl(rootVal: Value, indices: seq<nat>, curTy: Type, infos: seq<DwordInfo>, ghost env: Env)
      returns (r: Option<Value>)
      requires WellFormed(env.ty) && ValidPath(env.ty, indices) && PathType(env.ty, indices) == curTy
      requires |env.root| == StoreSize(env.ty)
      requires |Eval(rootVal, env)| == StoreSize(env.ty) && |infos| == DwordCount(StoreSize(curTy))
      modifies this
      ensures NumReplacedDwords == old(NumReplacedDwords) + Requested(curTy, infos, 0, |infos|)
      ensures r.Some? <==> Requested(curTy, infos, 0, |infos|) > 0
      ensures r.Some? ==> PartRewritten(curTy, infos, Eval(rootVal, env), Eval(r.value, env), PathOffset(env.ty, indices))
      ensures DwordPath(env.ty, indices) || indices == [] ==> StaysPlain(curTy, env.ty, Some(rootVal), r)
      ensures r.Some? ==> r.value != Root && (Depth(r.value) > Depth(rootVal) || (indices == [] && !IsAggregate(curTy)))
      decreases curTy, 2
    {
      hide StaysPlain;
      hide DwordPath;
      hide Requested;
      hide Rewritten;
      hide SiteOf;
      hide PartRewritten;
      PathFits(env.ty, indices);
      hide StoreSize;
      hide WellFormed;
      PlainSame(curTy, env.ty, Some(rootVal));
      var all, any := ComputeSpecializationSummary(infos);
      if !any {
        NoneSpecialized(curTy, infos, |infos|);
        return None;
      }
      if IsAggregate(curTy) {
        r := ReplaceDwordsInAggregate(rootVal, indices, curTy, infos, env);
        return;
      }
      r := ReplaceLeaf(rootVal, indices, curTy, infos, env, all);
    }

    /** A part that is not an aggregate. */
    method ReplaceLeaf(rootVal: Value, indices: seq<nat>, curTy: Type, infos: seq<DwordInfo>, ghost env: Env, all: bool)
      returns (r: Option<Value>)
      requires WellFormed(env.ty) && ValidPath(env.ty, indices) && PathType(env.ty, indices) == curTy && !IsAggregate(curTy)
      requires |env.root| == StoreSize(env.ty)
      requires |Eval(rootVal, env)| == StoreSize(env.ty) && |infos| == DwordCount(StoreSize(curTy))
      requires all == AllSpecialized(infos) && AnySpecialized(infos)
      modifies this
      ensures NumReplacedDwords == old(NumReplacedDwords) + Requested(curTy, infos, 0, |infos|)
      ensures r.Some? <==> Requested(curTy, infos, 0, |infos|) > 0
      ensures r.Some? ==> PartRewritten(curTy, infos, Eval(rootVal, env), Eval(r.value, env), PathOffset(env.ty, indices))
      ensures DwordPath(env.ty, indices) || indices == [] ==> StaysPlain(curTy, env.ty, Some(rootVal), r)
      ensures r.Some? ==> r.value != Root && (Depth(r.value) > Depth(rootVal) || indices == [])
    {
      hide StaysPlain;
      hide DwordPath;
      hide Requested;
      hide Rewritten;
      hide SiteOf;
      hide PartRewritten;
      ghost var offset, whole := PathOffset(env.ty, indices), Eval(rootVal, env);
      PathFits(env.ty, indices);
      hide StoreSize;
      hide WellFormed;
      PlainSame(curTy, env.ty, Some(rootVal));
      var baseValue := None;
      if !all {
        baseValue := Some(if indices == [] then rootVal else ExtractValue(rootVal, indices));
      }
      ghost var part := LeafImage(rootVal, indices, curTy, env);
      var replaced := ReplaceDwordsInNonAggregate(curTy, baseValue, infos, env, part);
      if replaced.None? {
        return None;
      }
      SplicedPart(curTy, infos, whole, offset, Eval(replaced.value, env));
      hide Splice;
      if DwordPath(env.ty, indices) || indices == [] { PlainLeaf(curTy, env, rootVal, baseValue, replaced.value, indices, infos, part); }
      if indices == [] {
        SplicedWhole(curTy, infos, whole, Eval(replaced.value, env));
        return replaced;
      }
      r := Some(InsertValue(rootVal, replaced.value, indices));
    }

    /** The loop over the elements of an aggregate. */
    method ReplaceDwordsInAggregate(rootVal: Value, indices: seq<nat>, curTy: Type, infos: seq<DwordInfo>, ghost env: Env)
      returns (r: Option<Value>)
      requires WellFormed(env.ty) && ValidPath(env.ty, indices) && PathType(env.ty, indices) == curTy && IsAggregate(curTy)
      requires |env.root| == StoreSize(env.ty)
      requires |Eval(rootVal, env)| == StoreSize(env.ty) && |infos| == DwordCount(StoreSize(curTy))
      modifies this
      ensures NumReplacedDwords == old(NumReplacedDwords) + Requested(curTy, infos, 0, |infos|)
      ensures r.Some? <==> Requested(curTy, infos, 0, |infos|) > 0
      ensures r.Some? ==> PartRewritten(curTy, infos, Eval(rootVal, env), Eval(r.value, env), PathOffset(env.ty, indices))
      ensures DwordPath(env.ty, indices) || indices == [] ==> StaysPlain(curTy, env.ty, Some(rootVal), r)
      ensures r.Some? ==> r.value != Root && Depth(r.value) > Depth(rootVal)
      decreases curTy, 1
    {
      hide StaysPlain;
      hide DwordPath;
      hide Requested;
      hide Rewritten;
      hide SiteOf;
      hide PartRewritten;
      hide PartUpTo;
      ghost var offset, whole := PathOffset(env.ty, indices), Eval(rootVal, env);
      PathFits(env.ty, indices);
      PartStart(curTy, infos, whole, offset);
      CountLast(curTy, infos);
      EmptyCount(curTy, infos);
      hide StoreSize;
      hide WellFormed;
      hide DwordCount;
      PlainSame(curTy, env.ty, Some(rootVal));
      if DwordPath(env.ty, indices) || indices == [] { DwordOffset(env.ty, indices); }
      var numElements := ElementCount(curTy);
      var replacedRootVal := rootVal;
      var elemIdx := 0;
      while elemIdx < numElements
        invariant elemIdx <= numElements && DwordCount(EndOf(curTy, elemIdx)) <= |infos|
        invariant NumReplacedDwords == old(NumReplacedDwords) + Requested(curTy, infos, 0, DwordCount(EndOf(curTy, elemIdx)))
        invariant AggregateInvariant(curTy, infos, env, rootVal, replacedRootVal, offset, elemIdx)
        invariant offset % 4 == 0 ==> StaysPlain(curTy, env.ty, Some(rootVal), Some(replacedRootVal))
      {
        ghost var previous := replacedRootVal;
        replacedRootVal := ReplaceElement(rootVal, replacedRootVal, indices, curTy, infos, elemIdx, env);
        if offset % 4 == 0 { PlainChain(curTy, env.ty, Some(rootVal), Some(previous), Some(replacedRootVal)); }
        elemIdx := elemIdx + 1;
      }
      PartDone(curTy, infos, whole, Eval(replacedRootVal, env), offset);
      r := if replacedRootVal != rootVal then Some(replacedRootVal) else None;
    }

    /** One iteration of the loop over the elements of an aggregate. */
    method ReplaceElement(rootVal: Value, replacedRootVal: Value, indices: seq<nat>, curTy: Type, infos: seq<DwordInfo>,
                          elemIdx: nat, ghost env: Env) returns (r: Value)
      requires WellFormed(env.ty) && ValidPath(env.ty, indices) && PathType(env.ty, indices) == curTy && IsAggregate(curTy)
      requires WellFormed(curTy) && elemIdx < ElementCount(curTy)
      requires |env.root| == StoreSize(env.ty)
      requires |Eval(rootVal, env)| == StoreSize(env.ty) && |infos| == DwordCount(StoreSize(curTy))
      requires DwordCount(EndOf(curTy, elemIdx)) <= |infos|
      requires AggregateInvariant(curTy, infos, env, rootVal, replacedRootVal, PathOffset(env.ty, indices), elemIdx)
      modifies this
      ensures DwordCount(EndOf(curTy, elemIdx + 1)) <= |infos|
      ensures NumReplacedDwords - old(NumReplacedDwords) ==
              Requested(curTy, infos, 0, DwordCount(EndOf(curTy, elemIdx + 1))) -
              Requested(curTy, infos, 0, DwordCount(EndOf(curTy, elemIdx)))
      ensures AggregateInvariant(curTy, infos, env, rootVal, r, PathOffset(env.ty, indices), elemIdx + 1)
      ensures PathOffset(env.ty, indices) % 4 == 0 ==> StaysPlain(curTy, env.ty, Some(replacedRootVal), Some(r))
      decreases curTy, 0
    {
      hide StaysPlain;
      hide DwordPath;
      hide Requested;
      hide Rewritten;
      hide SiteOf;
      hide PartRewritten;
      hide PartUpTo;
      hide StoreSize;
      hide WellFormed;
      hide DwordCount;
      hide EndOf;
      r := replacedRootVal;
      PlainSame(curTy, env.ty, Some(r));
      var elemTy, elemByteOffset := ElementType(curTy, elemIdx), ElementOffset(curTy, elemIdx);
      var elemByteSize := StoreSize(elemTy);
      CountStep(curTy, elemIdx, infos);
      ghost var offset, whole, cur := PathOffset(env.ty, indices), Eval(rootVal, env), Eval(r, env);
      if elemByteOffset % 4 != 0 || elemByteSize % 4 != 0 {
        // Small and misaligned types are left alone.
        PartKept(curTy, elemIdx, infos, whole, cur, offset);
        return;
      }
      var elemDwordBegin, elemNumDwords := elemByteOffset / 4, elemByteSize / 4;
      var elemInfos := infos[elemDwordBegin..elemDwordBegin + elemNumDwords];
      assert elemDwordBegin + elemNumDwords == (elemByteOffset + elemByteSize) / 4;
      WholeDwords(elemByteSize);
      PathSnoc(env.ty, indices, elemIdx);
      var replaced := ReplaceDwordsImpl(r, indices + [elemIdx], elemTy, elemInfos, env);
      if PathOffset(env.ty, indices) % 4 == 0 {
        DwordPathSnoc(env.ty, indices, elemIdx);
        PlainElement(curTy, elemIdx, env.ty, r, replaced);
      }
      if replaced.Some? {
        PartReplaced(curTy, elemIdx, infos, whole, cur, Eval(replaced.value, env), offset);
        PartLength(elemTy, elemInfos, cur, Eval(replaced.value, env), offset + elemByteOffset);
        r := replaced.value;
      } else {
        PartKept(curTy, elemIdx, infos, whole, cur, offset);
      }
    }

    /** replaceDwords on a whole value: the replacement, or None when nothing was replaced, and the number of
        replaced dwords.  It holds for every image of the value. */
    method ReplaceDwords(ty: Type, infos: seq<DwordInfo>, ghost env: Env) returns (replacement: Option<Value>, count: nat)
      requires WellFormed(ty) && env.ty == ty && |env.root| == StoreSize(ty) && |infos| == DwordCount(StoreSize(ty))
      modifies this
      ensures count == Requested(ty, infos, 0, |infos|) == |RequestedDwords(ty, infos, |infos|)|
      ensures replacement.None? <==> count == 0
      ensures replacement.Some? ==> replacement.value != Root && Rewritten(ty, infos, env.root, Eval(replacement.value, env))
      ensures Rewritten(ty, infos, env.root, if replacement.Some? then Eval(replacement.value, env) else env.root)
      ensures DwordLeaves(ty) && replacement.Some? ==> Plain(ty, replacement.value)
    {
      hide Requested;
      hide Rewritten;
      hide SiteOf;
      RequestedCounts(ty, infos, |infos|);
      NumReplacedDwords := 0;
      replacement := ReplaceDwordsImpl(Root, [], ty, infos, env);
      count := NumReplacedDwords;
      if replacement.Some? {
        var after := Eval(replacement.value, env);
        assert env.root[0..StoreSize(ty)] == env.root && after[0..StoreSize(ty)] == after;
      } else {
        NothingRequested(ty, infos, env.root);
      }
    }
  }

  lemma EmptyCount(ty: Type, infos: seq<DwordInfo>)
    requires IsAggregate(ty)
    ensures DwordCount(EndOf(ty, 0)) == 0 && Requested(ty, infos, 0, 0) == 0
  {
  }

  lemma ScalableUnsupported(ty: Type, infos: seq<DwordInfo>)
    requires ty.ScalableVectorTy?
    ensures Requested(ty, infos, 0, |infos|) == 0
  {
    RequestedNone(ty, infos, 0, |infos|);
  }

  lemma SplicedWhole(ty: Type, infos: seq<DwordInfo>, before: Image, part: Image)
    requires |before| == StoreSize(ty) && Rewritten(ty, infos, before[0..StoreSize(ty)], part)
    ensures Splice(before, 0, part) == part
  {
  }

  lemma PartLength(ty: Type, infos: seq<DwordInfo>, before: Image, after: Image, offset: nat)
    requires PartRewritten(ty, infos, before, after, offset)
    ensures |after| == |before|
  {
  }

  // ----- when dwords are as requested -----

  function DwordAt(image: Image, d: nat): (r: Image)
    requires 4 * d + 4 <= |image|
    ensures |r| == 4
  {
    image[4 * d..4 * d + 4]
  }

  /** The dword belongs to a 64-bit scalar that contains poison and of which exactly one dword is kept. */
  predicate Poisoned(ty: Type, infos: seq<DwordInfo>, before: Image, d: nat)
  {
    SiteOf(ty, d).Some? &&
    var s := SiteOf(ty, d).value;
    s.start + s.width <= |infos| && 4 * (s.start + s.width) <= |before| &&
    Mixed(s, infos) && HasPoison(before, 4 * s.start, 4 * (s.start + s.width))
  }

  lemma DwordFits(ty: Type, infos: seq<DwordInfo>, d: nat)
    requires WellFormed(ty) && |infos| == DwordCount(StoreSize(ty)) && SiteOf(ty, d).Some?
    ensures d < |infos| && 4 * d + 4 <= StoreSize(ty)
    ensures var s := SiteOf(ty, d).value; s.start <= d < s.start + s.width <= |infos| && 4 * (s.start + s.width) <= StoreSize(ty)
  {
    hide SiteOf;
    hide StoreSize;
    hide WellFormed;
    SiteFits(ty, d);
  }

  /** What byte `k` of a dword becomes. */
  predicate CellAllowed(info: DwordInfo, poisoned: bool, k: nat, before: Cell, after: Cell)
    requires k < 4
  {
    if poisoned then after == Poison
    else
      match info.kind
      case Keep => after == before
      case Constant => after == Val(info.constant[k])
      case FrozenPoison => after.Picked?
  }

  lemma ByteOfDword(ty: Type, infos: seq<DwordInfo>, before: Image, after: Image, d: nat, k: nat)
    requires WellFormed(ty) && |infos| == DwordCount(StoreSize(ty)) && Rewritten(ty, infos, before, after)
    requires SiteOf(ty, d).Some? && k < 4
    ensures d < |infos| && 4 * d + 4 <= |before| == |after|
    ensures CellAllowed(infos[d], Poisoned(ty, infos, before, d), k, DwordAt(before, d)[k], DwordAt(after, d)[k])
  {
    hide SiteOf;
    hide StoreSize;
    hide WellFormed;
    hide HasPoison;
    hide Mixed;
    hide AllowedInSite;
    hide CellAllowed;
    hide Poisoned;
    DwordFits(ty, infos, d);
    assert (4 * d + k) / 4 == d && (4 * d + k) % 4 == k;
    assert Allowed(ty, infos, before, 4 * d + k, after[4 * d + k]);
    ByteInSite(ty, infos, before, d, k, after[4 * d + k]);
  }

  lemma ByteInSite(ty: Type, infos: seq<DwordInfo>, before: Image, d: nat, k: nat, x: Cell)
    requires SiteOf(ty, d).Some? && k < 4 && d < |infos| && 4 * d + 4 <= |before|
    requires (4 * d + k) / 4 == d && (4 * d + k) % 4 == k
    requires AllowedInSite(SiteOf(ty, d).value, infos, before, 4 * d + k, x)
    ensures CellAllowed(infos[d], Poisoned(ty, infos, before, d), k, DwordAt(before, d)[k], x)
  {
    hide SiteOf;
    hide HasPoison;
    hide Mixed;
  }

  lemma CellsAllowed(info: DwordInfo, poisoned: bool, before: Image, after: Image)
    requires |before| == |after| == 4 && forall k: nat :: k < 4 ==> CellAllowed(info, poisoned, k, before[k], after[k])
    ensures DwordAllowed(info, before, after) <==> !poisoned || (info.kind == Keep && before == AllPoison(4))
  {
    if poisoned {
      assert after == AllPoison(4);
      assert after[0] in after;
      if info.kind == Constant {
        assert Bytes(info.constant)[0] != after[0];
      }
    }
  }

  /** A dword of a supported scalar is as requested exactly if its scalar is not poisoned; where it is, a kept dword is as
      before only if it was poison throughout. */
  lemma AsRequestedExactly(ty: Type, infos: seq<DwordInfo>, before: Image, after: Image, d: nat)
    requires WellFormed(ty) && |infos| == DwordCount(StoreSize(ty)) && Rewritten(ty, infos, before, after)
    requires SiteOf(ty, d).Some?
    ensures d < |infos| && 4 * d + 4 <= |before| == |after|
    ensures DwordAllowed(infos[d], DwordAt(before, d), DwordAt(after, d)) <==>
            !Poisoned(ty, infos, before, d) || (infos[d].kind == Keep && DwordAt(before, d) == AllPoison(4))
  {
    DwordFits(ty, infos, d);
    hide SiteOf;
    hide StoreSize;
    hide WellFormed;
    hide Rewritten;
    hide Poisoned;
    hide DwordAt;
    hide CellAllowed;
    forall k: nat | k < 4
      ensures CellAllowed(infos[d], Poisoned(ty, infos, before, d), k, DwordAt(before, d)[k], DwordAt(after, d)[k])
    {
      ByteOfDword(ty, infos, before, after, d, k);
    }
    CellsAllowed(infos[d], Poisoned(ty, infos, before, d), DwordAt(before, d), DwordAt(after, d));
  }

  /** Every requested dword of a supported scalar is as requested exactly if none of them is in a poisoned scalar. */
  lemma AllAsRequestedExactly(ty: Type, infos: seq<DwordInfo>, before: Image, after: Image)
    requires WellFormed(ty) && |infos| == DwordCount(StoreSize(ty)) && Rewritten(ty, infos, before, after)
    ensures forall d: nat :: SiteOf(ty, d).Some? ==> d < |infos| && 4 * d + 4 <= |before| == |after|
    ensures (forall d: nat :: SiteOf(ty, d).Some? && infos[d].kind != Keep ==>
                                DwordAllowed(infos[d], DwordAt(before, d), DwordAt(after, d))) <==>
            (forall d: nat :: SiteOf(ty, d).Some? ==> !Poisoned(ty, infos, before, d))
  {
    assert |before| == StoreSize(ty);
    hide SiteOf;
    hide StoreSize;
    hide WellFormed;
    hide Rewritten;
    hide DwordAllowed;
    hide DwordAt;
    hide Poisoned;
    forall d: nat | SiteOf(ty, d).Some?
      ensures d < |infos| && 4 * d + 4 <= |before| == |after|
      ensures infos[d].kind != Keep ==> 
                (DwordAllowed(infos[d], DwordAt(before, d), DwordAt(after, d)) <==> !Poisoned(ty, infos, before, d))
      ensures Poisoned(ty, infos, before, d) ==>
                exists r: nat :: SiteOf(ty, r).Some? && r < |infos| && infos[r].kind != Keep && Poisoned(ty, infos, before, r)
    {
      AsRequestedExactly(ty, infos, before, after, d);
      if Poisoned(ty, infos, before, d) {
        PoisonedRequest(ty, infos, before, d);
      }
    }
  }

  /** One of the two dwords of a poisoned scalar is requested. */
  lemma PoisonedRequest(ty: Type, infos: seq<DwordInfo>, before: Image, d: nat)
    requires WellFormed(ty) && |infos| == DwordCount(StoreSize(ty)) && |before| == StoreSize(ty) && Poisoned(ty, infos, before, d)
    ensures exists r: nat :: SiteOf(ty, r).Some? && r < |infos| && infos[r].kind != Keep && Poisoned(ty, infos, before, r)
  {
    SiteFits(ty, d);
    hide SiteOf;
    hide StoreSize;
    hide WellFormed;
    var s := SiteOf(ty, d).value;
    var r := if infos[s.start].kind == Keep then s.start + 1 else s.start;
    assert SiteOf(ty, r) == Some(s);
  }

  /** The low dword of a 64-bit integer that is poison is kept, and its high dword is to become a constant. */
  lemma PoisonedHalf(constant: Dword, after: Image)
    requires Rewritten(IntTy(64), [DwordInfo(Keep, constant), DwordInfo(Constant, constant)], AllPoison(8), after)
    ensures after == AllPoison(8)
    ensures !DwordAllowed(DwordInfo(Constant, constant), DwordAt(AllPoison(8), 1), DwordAt(after, 1))
  {
    var infos := [DwordInfo(Keep, constant), DwordInfo(Constant, constant)];
    assert infos[0].kind == Keep && infos[1].kind == Constant;
    assert Poisoned(IntTy(64), infos, AllPoison(8), 1) && Poisoned(IntTy(64), infos, AllPoison(8), 0) by {
      assert AllPoison(8)[0] == Poison;
    }
    forall b: nat | b < 8
      ensures after[b] == Poison
    {
      ByteOfDword(IntTy(64), infos, AllPoison(8), after, b / 4, b % 4);
      assert DwordAt(after, b / 4)[b % 4] == after[b];
    }
    assert DwordAt(after, 1)[0] == Poison;
  }

  // ----- which dwords are supported -----

  /** All elements on the way lie on dword boundaries and consist of whole dwords. */
  predicate DwordAligned(ty: Type, indices: seq<nat>)
    requires ValidPath(ty, indices)
    decreases |indices|
  {
    indices != [] ==>
      ElementOffset(ty, indices[0]) % 4 == 0 && StoreSize(ElementType(ty, indices[0])) % 4 == 0 &&
      DwordAligned(ElementType(ty, indices[0]), indices[1..])
  }

  /** Scalar `j` of a leaf: an integer, float or pointer of 32 or 64 bits, or such an integer or float in a vector. */
  predicate HasScalar(leaf: Type, j: nat, width: nat)
  {
    || ((leaf.IntTy? || leaf.FloatTy? || leaf.PtrTy?) && leaf.bits in {32, 64} && leaf.bits == 32 * width && j == 0)
    || (leaf.VectorTy? && (leaf.element.IntTy? || leaf.element.FloatTy?) && leaf.element.bits in {32, 64} &&
        leaf.element.bits == 32 * width && j < leaf.count)
  }

  /** Every dword of a supported scalar belongs to that scalar. */
  lemma {:induction false} ScalarsAreSites(ty: Type, indices: seq<nat>, j: nat, width: nat, k: nat)
    requires WellFormed(ty) && ValidPath(ty, indices) && DwordAligned(ty, indices)
    requires HasScalar(PathType(ty, indices), j, width) && k < width
    ensures PathOffset(ty, indices) % 4 == 0
    ensures var first := PathOffset(ty, indices) / 4 + Product(j, width);
            SiteOf(ty, first + k) == Some(Site(first, width)) && 4 * (first + width) <= StoreSize(ty)
    decreases |indices|
  {
    hide Product;
    hide StoreSize;
    hide WellFormed;
    hide SiteOf;
    hide HasScalar;
    if indices == [] {
      LeafIsSite(ty, j, width, k);
    } else {
      var i, rest := indices[0], indices[1..];
      var e := ElementType(ty, i);
      ElementFits(ty, i);
      ScalarsAreSites(e, rest, j, width, k);
      SiteFromElement(ty, i, PathOffset(e, rest) / 4 + Product(j, width), width, k);
    }
  }

  lemma SiteFromElement(ty: Type, i: nat, first: nat, width: nat, k: nat)
    requires WellFormed(ty) && IsAggregate(ty) && i < ElementCount(ty) && k < width
    requires ElementOffset(ty, i) % 4 == 0 && StoreSize(ElementType(ty, i)) % 4 == 0
    requires SiteOf(ElementType(ty, i), first + k) == Some(Site(first, width)) && 4 * (first + width) <= StoreSize(ElementType(ty, i))
    ensures var start := ElementOffset(ty, i) / 4 + first;
            SiteOf(ty, start + k) == Some(Site(start, width)) && 4 * (start + width) <= StoreSize(ty)
  {
    ElementFits(ty, i);
    hide StoreSize;
    hide WellFormed;
    hide SiteOf;
    hide ElementOffset;
    ElementSite(ty, i, ElementOffset(ty, i) / 4 + first + k);
  }

  lemma LeafIsSite(ty: Type, j: nat, width: nat, k: nat)
    requires WellFormed(ty) && HasScalar(ty, j, width) && k < width
    ensures SiteOf(ty, Product(j, width) + k) == Some(Site(Product(j, width), width)) && 4 * (Product(j, width) + width) <= StoreSize(ty)
  {
    if ty.VectorTy? {
      VectorSize(ty);
      hide StoreSize;
      assert width == 1 || width == 2;
      assert (j * width + k) / width == j;
    }
  }

  /** Every supported dword belongs to a scalar that some path leads to, by aligned elements only. */
  lemma {:induction false} SitesAreScalars(ty: Type, d: nat) returns (indices: seq<nat>, j: nat)
    requires WellFormed(ty) && SiteOf(ty, d).Some?
    ensures ValidPath(ty, indices) && DwordAligned(ty, indices) && PathOffset(ty, indices) % 4 == 0
    ensures var s := SiteOf(ty, d).value;
            HasScalar(PathType(ty, indices), j, s.width) && s.start == PathOffset(ty, indices) / 4 + Product(j, s.width) &&
            s.start <= d < s.start + s.width
    decreases ty
  {
    hide Product;
    hide StoreSize;
    hide WellFormed;
    hide SiteOf;
    hide HasScalar;
    SiteFits(ty, d);
    if IsAggregate(ty) {
      var i := SiteInElement(ty, d);
      var rest: seq<nat>;
      var e, offset := ElementType(ty, i), ElementOffset(ty, i);
      ElementFits(ty, i);
      ElementSite(ty, i, d);
      SmallerElement(ty, i);
      rest, j := SitesAreScalars(e, d - offset / 4);
      indices := [i] + rest;
      assert indices[1..] == rest;
    } else {
      indices := [];
      j := LeafOfSite(ty, d);
    }
  }

  lemma SmallerElement(ty: Type, i: nat)
    requires IsAggregate(ty) && i < ElementCount(ty)
    ensures ElementType(ty, i) < ty
  {
  }

  lemma LeafOfSite(ty: Type, d: nat) returns (j: nat)
    requires WellFormed(ty) && !IsAggregate(ty) && SiteOf(ty, d).Some?
    ensures var s := SiteOf(ty, d).value; HasScalar(ty, j, s.width) && s.start == Product(j, s.width)
  {
    hide StoreSize;
    j := if ty.VectorTy? then d / (ty.element.bits / 32) else 0;
  }

  /** The second field of a struct of two dwords is supported. */
  lemma SecondDword()
    ensures var ty := StructTy([Field(0, IntTy(32)), Field(4, FloatTy(32))], 8);
            WellFormed(ty) && SiteOf(ty, 0) == Some(Site(0, 1)) && SiteOf(ty, 1) == Some(Site(1, 1)) && SiteOf(ty, 2) == None
  {
  }

  /** The supported dwords that are requested. */
  function RequestedDwords(ty: Type, infos: seq<DwordInfo>, n: nat): set<nat>
    requires n <= |infos|
  {
    set d | 0 <= d < n && infos[d].kind != Keep && SiteOf(ty, d).Some?
  }

  lemma {:induction false} RequestedCounts(ty: Type, infos: seq<DwordInfo>, n: nat)
    requires n <= |infos|
    ensures Requested(ty, infos, 0, n) == |RequestedDwords(ty, infos, n)|
    decreases n
  {
    if n == 0 {
      assert RequestedDwords(ty, infos, 0) == {};
    } else {
      RequestedCounts(ty, infos, n - 1);
      RequestedNext(ty, infos, n - 1);
    }
  }

  lemma RequestedNext(ty: Type, infos: seq<DwordInfo>, d: nat)
    requires d < |infos|
    ensures |RequestedDwords(ty, infos, d + 1)| ==
            |RequestedDwords(ty, infos, d)| + if infos[d].kind != Keep && SiteOf(ty, d).Some? then 1 else 0
  {
    var before, after := RequestedDwords(ty, infos, d), RequestedDwords(ty, infos, d + 1);
    NotYet(ty, infos, d);
    forall x: nat ensures x in after <==> x in before || (x == d && infos[d].kind != Keep && SiteOf(ty, d).Some?) {
      SameDwords(ty, infos, d, x);
    }
    hide *;
    if infos[d].kind != Keep && SiteOf(ty, d).Some? {
      assert after == before + {d};
    } else {
      assert after == before;
    }
  }

  lemma SameDwords(ty: Type, infos: seq<DwordInfo>, d: nat, x: nat)
    requires d < |infos|
    ensures x in RequestedDwords(ty, infos, d + 1) <==>
            x in RequestedDwords(ty, infos, d) || (x == d && infos[d].kind != Keep && SiteOf(ty, d).Some?)
  {
    hide SiteOf;
  }

  lemma NotYet(ty: Type, infos: seq<DwordInfo>, d: nat)
    requires d <= |infos|
    ensures d !in RequestedDwords(ty, infos, d)
  {
  }
}
