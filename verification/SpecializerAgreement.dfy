/** The specializer and the origin analysis agree: the check that compilerutils/lib/ValueSpecializationTestPass.cpp makes of
every replacement. */
module SpecializerAgreement {
  import VS = ValueSpecialization
  import opened OriginTracking
  import opened ValueInfoBuilding
  import opened OriginTracker

  // ----- constants -----

  function BitOf(byte: bv8, k: nat): bool
    requires k < 8
  {
    (byte >> k) & 1 == 1
  }

  /** The bits of a constant, lowest first. */
  function BitsOf(bytes: seq<bv8>): (r: seq<bool>)
    ensures |r| == 8 * |bytes|
  {
    seq(8 * |bytes|, k requires 0 <= k < 8 * |bytes| => BitOf(bytes[k / 8], k % 8))
  }

  function Complement(bits: seq<bool>): (r: seq<bool>)
    ensures |r| == |bits|
  {
    seq(|bits|, k requires 0 <= k < |bits| => !bits[k])
  }

  function WordOf(bytes: seq<bv8>): Word
    requires |bytes| == 4
  {
    BitsOf(bytes)
  }

  // ----- the replacement as a program -----

  /** A constant integer or float with these bytes; zero counts as a null constant. */
  function ConstantDef(bytes: seq<bv8>): Def
  {
    if forall k :: 0 <= k < |bytes| ==> bytes[k] == 0 then NullConstant
    else ScalarConstant(KnownBits(BitsOf(bytes), Complement(BitsOf(bytes))))
  }

  /** Value `v` of the program is what the IR builder makes of the expression over a value that is not a constant.  A cast of a
      constant is folded. */
  predicate Represents(P: Program, v: Id, e: VS.Value, ty: VS.Type)
    requires P.Shaped()
    decreases e
  {
    && v < |P.defs| && v !in P.assumptions && P.bits[v] == 8 * VS.Size(ty, e)
    && match e
       case Root => true
       case ConstantInt(bytes) => P.defs[v] == ConstantDef(bytes)
       case Frozen(_, _) => P.defs[v].Freeze? && P.defs[v].operand < |P.defs| && P.defs[P.defs[v].operand].Undef?
       case ExtractValue(a, indices) =>
         && VS.ValidPath(ty, indices)
         && P.defs[v].Extract? && P.defs[v].offset == Some(VS.PathOffset(ty, indices)) && Represents(P, P.defs[v].aggregate, a, ty)
       case InsertValue(a, b, indices) =>
         && VS.ValidPath(ty, indices) && VS.Size(ty, b) == VS.StoreSize(VS.PathType(ty, indices))
         && P.defs[v].Insert? && P.defs[v].offset == Some(VS.PathOffset(ty, indices))
         && Represents(P, P.defs[v].aggregate, a, ty) && Represents(P, P.defs[v].inserted, b, ty)
       case ExtractElement(a, i, size) =>
         P.defs[v].Extract? && P.defs[v].offset == Some(VS.Product(i, size)) && Represents(P, P.defs[v].aggregate, a, ty)
       case InsertElement(a, b, i, size) =>
         && VS.Size(ty, b) == size && P.defs[v].Insert? && P.defs[v].offset == Some(VS.Product(i, size))
         && Represents(P, P.defs[v].aggregate, a, ty) && Represents(P, P.defs[v].inserted, b, ty)
       case And(_, _) => false
       case Or(_, _) => false
       case Cast(ConstantInt(bytes)) => P.defs[v] == ConstantDef(bytes)
       case Cast(a) => P.defs[v].Cast? && Represents(P, P.defs[v].operand, a, ty)
  }

  /** An evaluation in which nothing is known about the original value. */
  function Unknown(ty: VS.Type): VS.Env { VS.Env(ty, VS.AllPoison(VS.StoreSize(ty))) }

  /** The options of the check, and results of the analysis as the driver keeps them. */
  ghost predicate Analyzed(P: Program, infos: map<Id, ValueInfo>)
  {
    && TypedProgram(P) && NoTruncation(P) && P.bytesPerSlice == 4 && P.freezeMode == ForwardMode
    && forall v :: v in infos ==> v < |P.defs| && |infos[v]| == P.NumSlices(v) && Settled(P, infos, v)
  }

  lemma SliceCount(P: Program, v: Id, size: nat)
    requires P.Shaped() && P.bytesPerSlice == 4 && v < |P.defs| && Untruncated(P, v) && P.bits[v] == 8 * size
    ensures P.NumBytes(v) == size && P.NumSlices(v) == (size + 3) / 4
  {
  }

  lemma Slices(P: Program, v: Id, size: nat)
    requires TypedProgram(P) && NoTruncation(P) && P.bytesPerSlice == 4 && v < |P.defs| && P.bits[v] == 8 * size
    ensures P.NumBytes(v) == size && P.NumSlices(v) == (size + 3) / 4
  {
    SliceCount(P, v, size);
  }

  lemma ExtractFits(P: Program, v: Id)
    requires TypedProgram(P) && v < |P.defs| && P.defs[v].Extract? && P.defs[v].offset.Some?
    ensures P.defs[v].aggregate < |P.defs|
    ensures P.defs[v].offset.value + P.NumBytes(v) <= P.NumBytes(P.defs[v].aggregate)
  {
    assert WellTyped(P, v);
  }

  lemma InsertFits(P: Program, v: Id)
    requires TypedProgram(P) && v < |P.defs| && P.defs[v].Insert? && P.defs[v].offset.Some?
    ensures P.defs[v].aggregate < |P.defs| && P.defs[v].inserted < |P.defs| && P.bits[v] == P.bits[P.defs[v].aggregate]
    ensures P.defs[v].offset.value + P.NumBytes(P.defs[v].inserted) <= P.NumBytes(v)
  {
    assert WellTyped(P, v);
  }

  lemma {:induction false} EvalSize(P: Program, v: Id, e: VS.Value, ty: VS.Type)
    requires TypedProgram(P) && Represents(P, v, e, ty)
    ensures |VS.Eval(e, Unknown(ty))| == VS.Size(ty, e)
    decreases e
  {
    hide TypedProgram;
    hide VS.ValidPath;
    hide VS.PathOffset;
    hide VS.PathType;
    hide VS.StoreSize;
    hide VS.Product;
    hide VS.Slice;
    hide VS.Splice;
    match e
    case Root =>
    case ConstantInt(_) =>
    case Frozen(_, _) =>
    case ExtractValue(a, indices) =>
      ExtractFits(P, v);
      EvalSize(P, P.defs[v].aggregate, a, ty);
      SliceSize(VS.Eval(a, Unknown(ty)), VS.PathOffset(ty, indices), VS.Size(ty, e));
    case InsertValue(a, b, indices) =>
      InsertFits(P, v);
      EvalSize(P, P.defs[v].aggregate, a, ty);
      EvalSize(P, P.defs[v].inserted, b, ty);
      SpliceSize(VS.Eval(a, Unknown(ty)), VS.PathOffset(ty, indices), VS.Eval(b, Unknown(ty)));
    case ExtractElement(a, i, size) =>
      ExtractFits(P, v);
      EvalSize(P, P.defs[v].aggregate, a, ty);
      SliceSize(VS.Eval(a, Unknown(ty)), VS.Product(i, size), size);
    case InsertElement(a, b, i, size) =>
      InsertFits(P, v);
      EvalSize(P, P.defs[v].aggregate, a, ty);
      EvalSize(P, P.defs[v].inserted, b, ty);
      SpliceSize(VS.Eval(a, Unknown(ty)), VS.Product(i, size), VS.Eval(b, Unknown(ty)));
    case Cast(a) =>
      if !a.ConstantInt? {
        CastFits(P, v);
        EvalSize(P, P.defs[v].operand, a, ty);
      }
  }

  lemma SliceSize(image: VS.Image, offset: nat, size: nat)
    requires offset + size <= |image|
    ensures |VS.Slice(image, offset, size)| == size
  {
  }

  lemma SpliceSize(image: VS.Image, offset: nat, part: VS.Image)
    ensures |VS.Splice(image, offset, part)| == |image|
  {
  }

  lemma CastFits(P: Program, v: Id)
    requires TypedProgram(P) && v < |P.defs| && (P.defs[v].Cast? || P.defs[v].Freeze?)
    ensures P.defs[v].operand < |P.defs| && P.bits[v] == P.bits[P.defs[v].operand]
  {
    assert WellTyped(P, v);
  }

  // ----- what the analysis reports for a dword -----

  function DwordAt(image: VS.Image, d: nat): (r: VS.Image)
    ensures 4 * d + 4 <= |image| ==> |r| == 4
  {
    if 4 * d + 4 <= |image| then image[4 * d..4 * d + 4] else []
  }

  predicate IsConstant(dword: VS.Image) { |dword| == 4 && forall k :: 0 <= k < 4 ==> dword[k].Val? }

  predicate IsPicked(dword: VS.Image) { |dword| == 4 && forall k :: 0 <= k < 4 ==> dword[k].Picked? }

  function BytesOf(dword: VS.Image): (r: seq<bv8>)
    requires IsConstant(dword)
    ensures |r| == 4
  {
    [dword[0].byte, dword[1].byte, dword[2].byte, dword[3].byte]
  }

  /** A constant dword is reported as that constant, and a dword of frozen poison as undef. */
  predicate Reports(s: SliceInfo, dword: VS.Image)
  {
    && (IsConstant(dword) ==> s.status == {Constant} && s.constantValue == WordOf(BytesOf(dword)))
    && (IsPicked(dword) ==> s.status == {UndefOrPoison})
  }

  lemma TransferOf(P: Program, infos: map<Id, ValueInfo>, v: Id) returns (late: set<Id>)
    requires Analyzed(P, infos) && v in infos
    ensures v < |P.defs| && |infos[v]| == P.NumSlices(v) && Transferred(P, infos, v, infos[v], late)
  {
    assert Settled(P, infos, v);
    late :| AllLate(P, v, late) && Transferred(P, infos, v, infos[v], late);
  }

  lemma ExtractTransfer(P: Program, infos: map<Id, ValueInfo>, v: Id)
    requires Analyzed(P, infos) && v in infos && v < |P.defs| && v !in P.assumptions && P.defs[v].Extract? && P.defs[v].offset.Some?
    ensures |infos[v]| == P.NumSlices(v)
    ensures P.defs[v].aggregate in infos && IsExtraction(P, v, infos[P.defs[v].aggregate], P.defs[v].offset.value, infos[v])
  {
    hide TypedProgram;
    hide NoTruncation;
    var late := TransferOf(P, infos, v);
  }

  lemma InsertTransfer(P: Program, infos: map<Id, ValueInfo>, v: Id)
    requires Analyzed(P, infos) && v in infos && v < |P.defs| && v !in P.assumptions && P.defs[v].Insert? && P.defs[v].offset.Some?
    ensures P.defs[v].aggregate in infos && P.defs[v].inserted in infos && P.defs[v].inserted < |P.defs|
    ensures |infos[v]| == P.NumSlices(v) && |infos[P.defs[v].inserted]| == P.NumSlices(P.defs[v].inserted)
    ensures IsInsertion(P, v, infos[P.defs[v].aggregate], infos[P.defs[v].inserted], P.defs[v].offset.value,
                        P.NumBytes(P.defs[v].inserted), infos[v])
  {
    hide TypedProgram;
    hide NoTruncation;
    var late := TransferOf(P, infos, v);
  }

  lemma ConstantReported(P: Program, infos: map<Id, ValueInfo>, v: Id, bytes: seq<bv8>)
    requires Analyzed(P, infos) && v in infos && |bytes| == 4 && v < |P.defs| && v !in P.assumptions
    requires P.bits[v] == 32 && P.defs[v] == ConstantDef(bytes)
    ensures |infos[v]| == 1 && Reports(infos[v][0], VS.Bytes(bytes))
  {
    Slices(P, v, 4);
    IsShaped(P);
    var late := TransferOf(P, infos, v);
    if P.defs[v].NullConstant? {
      ZeroWordOf(bytes);
    } else {
      assert IsKnownBits(P, v, P.defs[v].known, infos[v]);
      hide KnownBitsSlice;
      hide BitsOf;
      hide Reports;
      KnownConstantSlice(P, v, bytes);
    }
    hide Analyzed;
    BytesReported(infos[v][0], bytes);
  }

  lemma ZeroWordOf(bytes: seq<bv8>)
    requires |bytes| == 4 && forall k :: 0 <= k < 4 ==> bytes[k] == 0
    ensures WordOf(bytes) == ZeroWord()
  {
    forall k | 0 <= k < 32 ensures !WordOf(bytes)[k] {
      NoBit(k % 8);
    }
  }

  lemma NoBit(k: nat)
    requires k < 8
    ensures !BitOf(0, k)
  {
  }

  lemma IsShaped(P: Program)
    requires TypedProgram(P)
    ensures P.Shaped()
  {
  }

  lemma KnownConstantSlice(P: Program, v: Id, bytes: seq<bv8>)
    requires P.Shaped() && P.bytesPerSlice == 4 && v < |P.defs| && P.bits[v] == 32 && |bytes| == 4
    ensures KnownBitsSlice(P, v, KnownBits(BitsOf(bytes), Complement(BitsOf(bytes))), 0) ==
            SliceInfo({Constant}, WordOf(bytes), None, 0)
  {
    hide BitsOf;
    hide GetSliceFromAPInt;
    hide WordsKnown;
    WordOfConstant(P, v, bytes);
  }

  lemma BytesReported(s: SliceInfo, bytes: seq<bv8>)
    requires |bytes| == 4 && s.status == {Constant} && s.constantValue == WordOf(bytes)
    ensures Reports(s, VS.Bytes(bytes))
  {
    hide BitsOf;
    assert BytesOf(VS.Bytes(bytes)) == bytes;
  }

  lemma WordOfConstant(P: Program, v: Id, bytes: seq<bv8>)
    requires P.Shaped() && P.bytesPerSlice == 4 && v < |P.defs| && P.bits[v] == 32 && |bytes| == 4
    ensures WordsKnown(P, v, KnownBits(BitsOf(bytes), Complement(BitsOf(bytes))), 0)
    ensures GetSliceFromAPInt(P, BitsOf(bytes), 0) == WordOf(bytes)
  {
    hide GetSliceFromAPInt;
    hide BitsOf;
    var one := BitsOf(bytes);
    var kb := KnownBits(one, Complement(one));
    SliceOfAPInt(P, one, 0);
    assert FullyKnown(P, v, kb, 0);
    WordsKnownExactly(P, v, kb, 0);
    var w := GetSliceFromAPInt(P, one, 0);
    forall k | 0 <= k < 32 ensures w[k] == one[k] {
      assert Position(P, 0, k) == k;
      assert BitSet(one, Position(P, 0, k)) == one[k];
    }
  }

  lemma FrozenReported(P: Program, infos: map<Id, ValueInfo>, v: Id, id: nat, size: nat, ty: VS.Type, d: nat)
    requires Analyzed(P, infos) && v in infos && Represents(P, v, VS.Frozen(id, size), ty) && d < |infos[v]|
    ensures infos[v][d].status == {UndefOrPoison}
  {
    var late := TransferOf(P, infos, v);
    var op := P.defs[v].operand;
    assert op in infos && IsFreeze(P, v, infos[op], infos[v]);
    late := TransferOf(P, infos, op);
  }

  // ----- moving dwords -----

  lemma SlicedDword(image: VS.Image, offset: nat, size: nat, d: nat)
    requires offset % 4 == 0 && offset + size <= |image| && 4 * d + 4 <= size
    ensures DwordAt(VS.Slice(image, offset, size), d) == DwordAt(image, offset / 4 + d)
  {
    assert 4 * (offset / 4 + d) == offset + 4 * d;
  }

  lemma SplicedDword(image: VS.Image, offset: nat, part: VS.Image, d: nat)
    requires offset % 4 == 0 && |part| % 4 == 0 && offset + |part| <= |image| && 4 * d + 4 <= |image|
    ensures DwordAt(VS.Splice(image, offset, part), d) ==
            if offset / 4 <= d < (offset + |part|) / 4 then DwordAt(part, d - offset / 4) else DwordAt(image, d)
  {
    var r := VS.Splice(image, offset, part);
    var x, y := DwordAt(r, d), if offset / 4 <= d < (offset + |part|) / 4 then DwordAt(part, d - offset / 4) else DwordAt(image, d);
    assert |x| == 4 && |y| == 4;
    forall k | 0 <= k < 4 ensures x[k] == y[k] {
      assert x[k] == r[4 * d + k];
    }
  }

  lemma ExtractionReported(P: Program, infos: map<Id, ValueInfo>, v: Id, image: VS.Image, size: nat, d: nat)
    requires Analyzed(P, infos) && v in infos && v !in P.assumptions && P.defs[v].Extract? && P.defs[v].offset.Some?
    requires P.bits[v] == 8 * size && 4 * d + 4 <= size
    requires var agg, offset := P.defs[v].aggregate, P.defs[v].offset.value;
             agg < |P.defs| && P.bits[agg] == 8 * |image| && offset % 4 == 0 &&
             (agg in infos && offset / 4 + d < |infos[agg]| ==> Reports(infos[agg][offset / 4 + d], DwordAt(image, offset / 4 + d)))
    ensures d < |infos[v]| && Reports(infos[v][d], DwordAt(VS.Slice(image, P.defs[v].offset.value, size), d))
  {
    hide Reports;
    hide Settled;
    hide TypedProgram;
    hide NoTruncation;
    var agg, offset := P.defs[v].aggregate, P.defs[v].offset.value;
    ExtractFits(P, v);
    Slices(P, v, size);
    Slices(P, agg, |image|);
    ExtractTransfer(P, infos, v);
    IsShaped(P);
    hide Analyzed;
    SlicedDword(image, offset, size, d);
  }

  lemma InsertionReported(P: Program, infos: map<Id, ValueInfo>, v: Id, image: VS.Image, part: VS.Image, d: nat)
    requires Analyzed(P, infos) && v in infos && v !in P.assumptions && P.defs[v].Insert? && P.defs[v].offset.Some?
    requires 4 * d + 4 <= |image| && |part| % 4 == 0
    requires var agg, ins, offset := P.defs[v].aggregate, P.defs[v].inserted, P.defs[v].offset.value;
             && agg < |P.defs| && ins < |P.defs| && P.bits[agg] == 8 * |image| && P.bits[ins] == 8 * |part| && offset % 4 == 0
             && (agg in infos && d < |infos[agg]| ==> Reports(infos[agg][d], DwordAt(image, d)))
             && (ins in infos && offset / 4 <= d < (offset + |part|) / 4 && d - offset / 4 < |infos[ins]| ==>
                   Reports(infos[ins][d - offset / 4], DwordAt(part, d - offset / 4)))
    ensures d < |infos[v]| && Reports(infos[v][d], DwordAt(VS.Splice(image, P.defs[v].offset.value, part), d))
  {
    hide Reports;
    hide Settled;
    hide TypedProgram;
    hide NoTruncation;
    hide InsertedSlice;
    var agg, ins, offset := P.defs[v].aggregate, P.defs[v].inserted, P.defs[v].offset.value;
    InsertFits(P, v);
    Slices(P, v, |image|);
    Slices(P, ins, |part|);
    InsertTransfer(P, infos, v);
    IsShaped(P);
    hide Analyzed;
    SplicedDword(image, offset, part, d);
    InsertedDword(P, v, infos[agg], infos[ins], offset, |part|, d);
  }

  /** With whole dwords, an insertion takes over the dwords of the inserted value. */
  lemma InsertedDword(P: Program, v: Id, agg: ValueInfo, ins: ValueInfo, offset: nat, count: nat, d: nat)
    requires P.Shaped() && P.bytesPerSlice == 4 && offset % 4 == 0 && count % 4 == 0 && |ins| == count / 4
    requires d < |agg| && (offset + count) / 4 <= |agg|
    ensures InsertedSlice(P, v, agg, ins, offset, count, d) ==
            if offset / 4 <= d < (offset + count) / 4 then ins[d - offset / 4] else agg[d]
  {
  }

  lemma WholeElements(i: nat)
    ensures VS.Product(i, 4) % 4 == 0
  {
    assert VS.Product(i, 4) == 4 * i;
  }

  lemma UnknownReported(s: SliceInfo, ty: VS.Type, d: nat)
    ensures Reports(s, DwordAt(Unknown(ty).root, d))
  {
    var dword := DwordAt(Unknown(ty).root, d);
    if |dword| == 4 {
      assert dword[0] == VS.Poison;
    }
  }

  lemma FrozenDword(s: SliceInfo, id: nat, size: nat, ty: VS.Type, d: nat)
    requires s.status == {UndefOrPoison} && 4 * d + 4 <= size
    ensures Reports(s, DwordAt(VS.Eval(VS.Frozen(id, size), Unknown(ty)), d))
  {
    assert DwordAt(VS.Eval(VS.Frozen(id, size), Unknown(ty)), d)[0].Picked?;
  }

  function Nodes(e: VS.Value): nat
  {
    match e
    case ExtractValue(a, _) => Nodes(a) + 1
    case InsertValue(a, b, _) => Nodes(a) + Nodes(b) + 1
    case ExtractElement(a, _, _) => Nodes(a) + 1
    case InsertElement(a, b, _, _) => Nodes(a) + Nodes(b) + 1
    case Cast(a) => Nodes(a) + 1
    case _ => 0
  }

  lemma LeafReported(P: Program, infos: map<Id, ValueInfo>, v: Id, e: VS.Value, ty: VS.Type, d: nat)
    requires Analyzed(P, infos) && v in infos && Represents(P, v, e, ty) && VS.Plain(ty, e) && 4 * d + 4 <= VS.Size(ty, e)
    requires e.Root? || e.ConstantInt? || e.Frozen?
    ensures d < |infos[v]| && Reports(infos[v][d], DwordAt(VS.Eval(e, Unknown(ty)), d))
  {
    hide Reports;
    hide Settled;
    hide TypedProgram;
    hide NoTruncation;
    hide VS.StoreSize;
    hide DwordAt;
    hide Unknown;
    Slices(P, v, VS.Size(ty, e));
    match e
    case Root =>
      assert VS.Eval(e, Unknown(ty)) == Unknown(ty).root;
      UnknownReported(infos[v][d], ty, d);
    case ConstantInt(bytes) =>
      ConstantReported(P, infos, v, bytes);
      WholeDword(VS.Bytes(bytes));
    case Frozen(id, size) =>
      FrozenReported(P, infos, v, id, size, ty, d);
      FrozenDword(infos[v][d], id, size, ty, d);
  }

  /** The analysis reports every constant dword and every dword of frozen poison of a replacement. */
  lemma {:induction false} ReplacementReported(P: Program, infos: map<Id, ValueInfo>, v: Id, e: VS.Value, ty: VS.Type, d: nat)
    requires Analyzed(P, infos) && v in infos && Represents(P, v, e, ty) && VS.Plain(ty, e) && 4 * d + 4 <= VS.Size(ty, e)
    ensures d < |infos[v]| && Reports(infos[v][d], DwordAt(VS.Eval(e, Unknown(ty)), d))
    decreases Nodes(e), 0
  {
    assert Unknown(ty).ty == ty;
    hide Reports;
    hide Analyzed;
    hide VS.Slice;
    hide VS.Splice;
    hide VS.Product;
    hide VS.StoreSize;
    hide VS.ValidPath;
    hide VS.PathOffset;
    hide VS.PathType;
    hide DwordAt;
    hide Unknown;
    match e
    case ExtractValue(a, indices) => ExtractStep(P, infos, v, a, ty, d, VS.PathOffset(ty, indices), VS.Size(ty, e));
    case InsertValue(a, b, indices) => InsertStep(P, infos, v, a, b, ty, d, VS.PathOffset(ty, indices));
    case InsertElement(a, b, i, size) =>
      WholeElements(i);
      InsertStep(P, infos, v, a, b, ty, d, VS.Product(i, size));
    case Cast(a) =>
      if a.ConstantInt? {
        ConstantReported(P, infos, v, a.bytes);
        assert d == 0;
        WholeDword(VS.Bytes(a.bytes));
      } else {
        ReplacementReported(P, infos, P.defs[v].operand, a, ty, d);
      }
    case _ => LeafReported(P, infos, v, e, ty, d);
  }

  lemma WholeDword(image: VS.Image)
    requires |image| == 4
    ensures DwordAt(image, 0) == image
  {
  }

  lemma ExtractStep(P: Program, infos: map<Id, ValueInfo>, v: Id, a: VS.Value, ty: VS.Type, d: nat, offset: nat, size: nat)
    requires Analyzed(P, infos) && v in infos && v < |P.defs| && v !in P.assumptions && P.defs[v].Extract?
    requires P.defs[v].offset == Some(offset) && offset % 4 == 0 && P.bits[v] == 8 * size && 4 * d + 4 <= size
    requires Represents(P, P.defs[v].aggregate, a, ty) && VS.Plain(ty, a)
    ensures d < |infos[v]| && Reports(infos[v][d], DwordAt(VS.Slice(VS.Eval(a, Unknown(ty)), offset, size), d))
    decreases Nodes(a), 1
  {
    hide Reports;
    hide Settled;
    hide TypedProgram;
    hide NoTruncation;
    hide DwordAt;
    hide Unknown;
    hide VS.Eval;
    hide VS.Size;
    hide VS.Plain;
    var agg := P.defs[v].aggregate;
    IsShaped(P);
    ExtractTransfer(P, infos, v);
    ExtractFits(P, v);
    RepresentedBits(P, agg, a, ty);
    EvalSize(P, agg, a, ty);
    Slices(P, agg, VS.Size(ty, a));
    Slices(P, v, size);
    ReplacementReported(P, infos, agg, a, ty, offset / 4 + d);
    ExtractionReported(P, infos, v, VS.Eval(a, Unknown(ty)), size, d);
  }

  lemma InsertStep(P: Program, infos: map<Id, ValueInfo>, v: Id, a: VS.Value, b: VS.Value, ty: VS.Type, d: nat, offset: nat)
    requires Analyzed(P, infos) && v in infos && v < |P.defs| && v !in P.assumptions && P.defs[v].Insert?
    requires P.defs[v].offset == Some(offset) && offset % 4 == 0 && 4 * d + 4 <= VS.Size(ty, a) && VS.Size(ty, b) % 4 == 0
    requires Represents(P, P.defs[v].aggregate, a, ty) && VS.Plain(ty, a)
    requires Represents(P, P.defs[v].inserted, b, ty) && VS.Plain(ty, b)
    ensures d < |infos[v]| && Reports(infos[v][d], DwordAt(VS.Splice(VS.Eval(a, Unknown(ty)), offset, VS.Eval(b, Unknown(ty))), d))
    decreases Nodes(a) + Nodes(b), 1
  {
    hide Reports;
    hide Settled;
    hide TypedProgram;
    hide NoTruncation;
    hide DwordAt;
    hide Unknown;
    hide VS.Eval;
    hide VS.Size;
    hide VS.Plain;
    var agg, ins := P.defs[v].aggregate, P.defs[v].inserted;
    IsShaped(P);
    InsertTransfer(P, infos, v);
    InsertFits(P, v);
    RepresentedBits(P, agg, a, ty);
    RepresentedBits(P, ins, b, ty);
    EvalSize(P, agg, a, ty);
    EvalSize(P, ins, b, ty);
    ReplacementReported(P, infos, agg, a, ty, d);
    if offset / 4 <= d < (offset + VS.Size(ty, b)) / 4 {
      ReplacementReported(P, infos, ins, b, ty, d - offset / 4);
    }
    InsertionReported(P, infos, v, VS.Eval(a, Unknown(ty)), VS.Eval(b, Unknown(ty)), d);
  }

  lemma RepresentedBits(P: Program, v: Id, e: VS.Value, ty: VS.Type)
    requires P.Shaped() && Represents(P, v, e, ty)
    ensures v < |P.defs| && v !in P.assumptions && P.bits[v] == 8 * VS.Size(ty, e)
  {
  }

  // ----- the check -----

  /** Every requested dword lies in a supported leaf, as the count of replaced dwords tells. */
  ghost predicate AllSupported(ty: VS.Type, dwordInfos: seq<VS.DwordInfo>)
  {
    forall d :: 0 <= d < |dwordInfos| && dwordInfos[d].kind != VS.Keep ==> VS.SiteOf(ty, d).Some?
  }

  /** What the specializer promises for a requested dword that belongs to a leaf of one dword. */
  lemma RequestedDword(ty: VS.Type, dwordInfos: seq<VS.DwordInfo>, before: VS.Image, after: VS.Image, d: nat)
    requires VS.WellFormed(ty) && VS.DwordLeaves(ty) && VS.Rewritten(ty, dwordInfos, before, after)
    requires d < |dwordInfos| && VS.SiteOf(ty, d).Some?
    ensures 4 * d + 4 <= |after|
    ensures dwordInfos[d].kind == VS.Constant ==>
              IsConstant(DwordAt(after, d)) && BytesOf(DwordAt(after, d)) == dwordInfos[d].constant
    ensures dwordInfos[d].kind == VS.FrozenPoison ==> IsPicked(DwordAt(after, d))
  {
    hide VS.SiteOf;
    hide VS.StoreSize;
    hide VS.WellFormed;
    hide VS.DwordLeaves;
    hide VS.Allowed;
    VS.SiteFits(ty, d);
    DwordSites(ty, d);
    var dword := DwordAt(after, d);
    forall k | 0 <= k < 4
      ensures dwordInfos[d].kind == VS.Constant ==> dword[k] == VS.Val(dwordInfos[d].constant[k])
      ensures dwordInfos[d].kind == VS.FrozenPoison ==> dword[k].Picked?
    {
      assert VS.Allowed(ty, dwordInfos, before, 4 * d + k, after[4 * d + k]);
      RequestedByte(ty, dwordInfos, before, d, k, after[4 * d + k]);
    }
  }

  lemma RequestedByte(ty: VS.Type, dwordInfos: seq<VS.DwordInfo>, before: VS.Image, d: nat, k: nat, x: VS.Cell)
    requires d < |dwordInfos| && k < 4 && 4 * d + k < |before| && VS.Allowed(ty, dwordInfos, before, 4 * d + k, x)
    requires VS.SiteOf(ty, d).Some? && VS.SiteOf(ty, d).value.width == 1
    ensures dwordInfos[d].kind == VS.Constant ==> x == VS.Val(dwordInfos[d].constant[k])
    ensures dwordInfos[d].kind == VS.FrozenPoison ==> x.Picked?
  {
    hide VS.SiteOf;
    assert (4 * d + k) / 4 == d && (4 * d + k) % 4 == k;
  }

  /** In a type with leaves of one dword, every supported dword is a leaf of its own. */
  lemma {:induction false} DwordSites(ty: VS.Type, d: nat)
    requires VS.DwordLeaves(ty) && VS.WellFormed(ty) && VS.SiteOf(ty, d).Some?
    ensures VS.SiteOf(ty, d).value.width == 1
    decreases ty
  {
    if VS.IsAggregate(ty) {
      var i := VS.SiteInElement(ty, d);
      VS.ElementSite(ty, i, d);
      hide VS.SiteOf;
      hide VS.WellFormed;
      hide VS.StoreSize;
      hide VS.ElementOffset;
      DwordSites(VS.ElementType(ty, i), d - VS.ElementOffset(ty, i) / 4);
    } else {
      hide VS.StoreSize;
      hide VS.WellFormed;
    }
  }

  /** The analysis reports what was requested. */
  lemma RequestReported(P: Program, infos: map<Id, ValueInfo>, v: Id, dwordInfos: seq<VS.DwordInfo>, ty: VS.Type, e: VS.Value, d: nat)
    requires Analyzed(P, infos) && v in infos && Represents(P, v, e, ty) && VS.Plain(ty, e)
    requires VS.WellFormed(ty) && VS.DwordLeaves(ty) && VS.Rewritten(ty, dwordInfos, Unknown(ty).root, VS.Eval(e, Unknown(ty)))
    requires d < |dwordInfos| && VS.SiteOf(ty, d).Some?
    ensures d < |infos[v]|
    ensures dwordInfos[d].kind == VS.Constant ==>
              infos[v][d].status == {Constant} && infos[v][d].constantValue == WordOf(dwordInfos[d].constant)
    ensures dwordInfos[d].kind == VS.FrozenPoison ==> infos[v][d].status == {UndefOrPoison}
  {
    RequestedDword(ty, dwordInfos, Unknown(ty).root, VS.Eval(e, Unknown(ty)), d);
    hide VS.Rewritten;
    hide VS.SiteOf;
    hide VS.WellFormed;
    hide Settled;
    hide NoTruncation;
    hide VS.Eval;
    hide DwordAt;
    hide BitsOf;
    EvalSize(P, v, e, ty);
    ReplacementReported(P, infos, v, e, ty, d);
  }

  lemma ReplacementSlices(P: Program, v: Id, dwordInfos: seq<VS.DwordInfo>, ty: VS.Type, e: VS.Value)
    requires TypedProgram(P) && NoTruncation(P) && P.bytesPerSlice == 4 && Represents(P, v, e, ty)
    requires VS.Rewritten(ty, dwordInfos, Unknown(ty).root, VS.Eval(e, Unknown(ty)))
    requires |dwordInfos| == VS.DwordCount(VS.StoreSize(ty))
    ensures v < |P.defs| && P.NumSlices(v) == |dwordInfos|
  {
    EvalSize(P, v, e, ty);
    Slices(P, v, VS.StoreSize(ty));
  }

  lemma ResultsAnalyzed(P: Program, infos: map<Id, ValueInfo>)
    requires TypedProgram(P) && NoTruncation(P) && P.bytesPerSlice == 4 && P.freezeMode == ForwardMode
    requires forall w :: w in infos ==> w < |P.defs| && Correct(P, w, infos[w]) && Settled(P, infos, w)
    ensures Analyzed(P, infos)
    ensures forall w :: w in infos ==> |infos[w]| == P.NumSlices(w)
  {
    hide Settled;
    hide TypedProgram;
    hide NoTruncation;
  }

  /** The self-check that follows a specialization: the analysis of the replacement must report exactly the requested constants
      and undef for frozen poison. */
  method CheckReplacement(tracker: ValueOriginTracker, v: Id, dwordInfos: seq<VS.DwordInfo>, ghost ty: VS.Type, ghost e: VS.Value)
    returns (ok: bool)
    requires tracker.Valid() && Ordered(tracker.P) && tracker.P.bytesPerSlice == 4 && tracker.P.freezeMode == ForwardMode
    requires VS.WellFormed(ty) && VS.DwordLeaves(ty) && |dwordInfos| == VS.DwordCount(VS.StoreSize(ty)) && AllSupported(ty, dwordInfos)
    requires VS.Plain(ty, e) && VS.Rewritten(ty, dwordInfos, Unknown(ty).root, VS.Eval(e, Unknown(ty)))
    requires Represents(tracker.P, v, e, ty)
    modifies tracker
    ensures ok
  {
    hide Correct;
    hide Settled;
    hide TypedProgram;
    hide NoTruncation;
    hide Represents;
    hide VS.Rewritten;
    hide VS.SiteOf;
    hide VS.WellFormed;
    hide VS.Eval;
    hide VS.Plain;
    hide VS.DwordLeaves;
    hide BitsOf;
    ghost var P := tracker.P;
    ReplacementSlices(P, v, dwordInfos, ty, e);
    var vi := tracker.GetValueInfo(v);
    ghost var infos := tracker.ValueInfos;
    IsShaped(P);
    ResultsAnalyzed(P, infos);
    forall d: nat | d < |dwordInfos| && dwordInfos[d].kind != VS.Keep
      ensures Reported(dwordInfos[d], vi[d])
    {
      RequestReported(P, infos, v, dwordInfos, ty, e, d);
    }
    ok := CompareSlices(vi, dwordInfos);
  }

  predicate Reported(request: VS.DwordInfo, si: SliceInfo)
  {
    && (request.kind == VS.Constant ==> si.status == {Constant} && si.constantValue == WordOf(request.constant))
    && (request.kind == VS.FrozenPoison ==> si.status == {UndefOrPoison})
  }

  /** The comparison of any analysis result with any requests. */
  method CompareSlices(vi: ValueInfo, dwordInfos: seq<VS.DwordInfo>) returns (ok: bool)
    ensures ok <==>
            && |vi| == |dwordInfos|
            && forall i :: 0 <= i < |vi| ==>
                             && (dwordInfos[i].kind == VS.Constant ==>
                                   vi[i].status == {Constant} && vi[i].constantValue == WordOf(dwordInfos[i].constant))
                             && (dwordInfos[i].kind == VS.FrozenPoison ==> vi[i].status == {UndefOrPoison})
  {
    hide WordOf;
    if |vi| != |dwordInfos| {
      return false;
    }
    for dwordIdx := 0 to |vi|
      invariant forall i :: 0 <= i < dwordIdx ==> Reported(dwordInfos[i], vi[i])
    {
      var si, request := vi[dwordIdx], dwordInfos[dwordIdx];
      if request.kind == VS.Constant {
        if si.status != {Constant} || si.constantValue != WordOf(request.constant) {
          return false;
        }
      }
      if request.kind == VS.FrozenPoison {
        if si.status != {UndefOrPoison} {
          return false;
        }
      }
    }
    return true;
  }

  // ----- building the replacement -----

  /** A list of definitions with their sizes in bytes; the first one is the specialized value. */
  datatype Listing = Listing(defs: seq<Def>, sizes: seq<nat>)

  function Append(l: Listing, def: Def, size: nat): Listing { Listing(l.defs + [def], l.sizes + [size]) }

  /** Builds an expression: a list that extends the given one, and the position of the value. */
  function Emit(ty: VS.Type, e: VS.Value, l: Listing): (Listing, Id)
  {
    match e
    case Root => (l, 0)
    case ConstantInt(bytes) => (Append(l, ConstantDef(bytes), |bytes|), |l.defs|)
    case Frozen(_, size) => (Append(Append(l, Undef, size), Freeze(|l.defs|), size), |l.defs| + 1)
    case InsertValue(a, b, indices) =>
      var (l1, agg) := Emit(ty, a, l);
      var (l2, ins) := Emit(ty, b, l1);
      var offset := if VS.ValidPath(ty, indices) then VS.PathOffset(ty, indices) else 0;
      (Append(l2, Insert(agg, ins, Some(offset)), VS.Size(ty, e)), |l2.defs|)
    case InsertElement(a, b, i, size) =>
      var (l1, agg) := Emit(ty, a, l);
      var (l2, ins) := Emit(ty, b, l1);
      (Append(l2, Insert(agg, ins, Some(VS.Product(i, size))), VS.Size(ty, e)), |l2.defs|)
    case ExtractValue(a, indices) =>
      var (l1, agg) := Emit(ty, a, l);
      var offset := if VS.ValidPath(ty, indices) then VS.PathOffset(ty, indices) else 0;
      (Append(l1, Extract(agg, Some(offset)), VS.Size(ty, e)), |l1.defs|)
    case Cast(ConstantInt(bytes)) => (Append(l, ConstantDef(bytes), |bytes|), |l.defs|)
    case Cast(a) =>
      var (l1, operand) := Emit(ty, a, l);
      (Append(l1, Cast(operand), VS.Size(ty, e)), |l1.defs|)
    case _ => (l, 0)
  }

  /** The definition fits those before it. */
  predicate GoodDef(l: Listing, v: Id)
    requires |l.defs| == |l.sizes| && v < |l.defs|
  {
    match l.defs[v]
    case Undef => true
    case NullConstant => true
    case Argument => true
    case ScalarConstant(known) => |known.one| == |known.zero| == 8 * l.sizes[v]
    case Cast(op) => op < v && l.sizes[v] == l.sizes[op]
    case Freeze(op) => op < v && l.sizes[v] == l.sizes[op]
    case Extract(agg, Some(offset)) => agg < v && offset + l.sizes[v] <= l.sizes[agg]
    case Insert(agg, ins, Some(offset)) =>
      agg < v && ins < v && l.sizes[v] == l.sizes[agg] && offset + l.sizes[ins] <= l.sizes[v]
    case _ => false
  }

  predicate Good(ty: VS.Type, l: Listing)
  {
    && |l.defs| == |l.sizes| && 0 < |l.defs| && l.defs[0] == Argument && l.sizes[0] == VS.StoreSize(ty)
    && forall v :: 0 <= v < |l.defs| ==> GoodDef(l, v) && l.sizes[v] <= VS.StoreSize(ty)
  }

  predicate Extension(l: Listing, more: Listing)
  {
    && |l.defs| == |l.sizes| <= |more.defs| == |more.sizes|
    && more.defs[..|l.defs|] == l.defs && more.sizes[..|l.sizes|] == l.sizes
  }

  lemma Extends2(l: Listing, m: Listing, n: Listing)
    requires Extension(l, m) && Extension(m, n)
    ensures Extension(l, n)
  {
    assert n.defs[..|l.defs|] == n.defs[..|m.defs|][..|l.defs|];
    assert n.sizes[..|l.sizes|] == n.sizes[..|m.sizes|][..|l.sizes|];
  }

  lemma AppendGood(ty: VS.Type, l: Listing, def: Def, size: nat)
    requires Good(ty, l) && size <= VS.StoreSize(ty) && GoodDef(Append(l, def, size), |l.defs|)
    ensures Good(ty, Append(l, def, size)) && Extension(l, Append(l, def, size))
  {
    var more := Append(l, def, size);
    forall v | 0 <= v < |more.defs|
      ensures GoodDef(more, v) && more.sizes[v] <= VS.StoreSize(ty)
    {
      if v < |l.defs| {
        assert GoodDef(l, v) && more.defs[v] == l.defs[v];
      }
    }
  }

  lemma GoodLength(ty: VS.Type, l: Listing)
    requires Good(ty, l)
    ensures |l.defs| == |l.sizes| && 0 < |l.defs| && l.sizes[0] == VS.StoreSize(ty)
  {
  }

  lemma ExtensionKeeps(l: Listing, more: Listing, v: Id)
    requires Extension(l, more) && v < |l.defs|
    ensures more.defs[v] == l.defs[v] && more.sizes[v] == l.sizes[v]
  {
    assert more.defs[v] == more.defs[..|l.defs|][v] && more.sizes[v] == more.sizes[..|l.sizes|][v];
  }

  lemma SelfExtension(ty: VS.Type, l: Listing)
    requires Good(ty, l)
    ensures Extension(l, l)
  {
  }

  /** A definition with one operand. */
  lemma AppendUnary(ty: VS.Type, l: Listing, l1: Listing, operand: Id, def: Def, size: nat)
    requires Good(ty, l1) && Extension(l, l1) && operand < |l1.defs| == |l1.sizes| && size <= VS.StoreSize(ty)
    requires def == Freeze(operand) || def == Cast(operand) || (def.Extract? && def.aggregate == operand && def.offset.Some?)
    requires if def.Extract? then def.offset.value + size <= l1.sizes[operand] else size == l1.sizes[operand]
    ensures Good(ty, Append(l1, def, size)) && Extension(l, Append(l1, def, size))
  {
    AppendGood(ty, l1, def, size);
    Extends2(l, l1, Append(l1, def, size));
  }

  lemma AppendInsert(ty: VS.Type, l: Listing, l1: Listing, l2: Listing, agg: Id, ins: Id, offset: nat, size: nat)
    requires Good(ty, l2) && Extension(l, l1) && Extension(l1, l2) && size <= VS.StoreSize(ty)
    requires agg < |l1.defs| && l1.sizes[agg] == size && ins < |l2.defs| && offset + l2.sizes[ins] <= size
    ensures var r := Append(l2, Insert(agg, ins, Some(offset)), size); Good(ty, r) && Extension(l, r) && Extension(l2, r)
  {
    ExtensionKeeps(l1, l2, agg);
    AppendGood(ty, l2, Insert(agg, ins, Some(offset)), size);
    Extends2(l, l1, l2);
    Extends2(l, l2, Append(l2, Insert(agg, ins, Some(offset)), size));
  }

  lemma AppendConstant(ty: VS.Type, l: Listing, bytes: seq<bv8>)
    requires Good(ty, l) && |bytes| <= VS.StoreSize(ty)
    ensures Good(ty, Append(l, ConstantDef(bytes), |bytes|)) && Extension(l, Append(l, ConstantDef(bytes), |bytes|))
  {
    hide BitsOf;
    hide Complement;
    AppendGood(ty, l, ConstantDef(bytes), |bytes|);
  }

  /** What is built fits, and has the size of the expression. */
  lemma {:induction false} EmitGood(ty: VS.Type, e: VS.Value, l: Listing)
    requires VS.WellFormed(ty) && VS.Plain(ty, e) && VS.Size(ty, e) <= VS.StoreSize(ty) && Good(ty, l)
    ensures var (r, v) := Emit(ty, e, l);
            Good(ty, r) && Extension(l, r) && v < |r.defs| == |r.sizes| && r.sizes[v] == VS.Size(ty, e)
    decreases Nodes(e), 0
  {
    GoodLength(ty, l);
    SelfExtension(ty, l);
    hide VS.StoreSize;
    hide VS.WellFormed;
    hide VS.Product;
    hide VS.PathOffset;
    hide VS.PathType;
    hide VS.ValidPath;
    hide ConstantDef;
    hide Good;
    hide Extension;
    match e
    case InsertValue(a, b, indices) =>
      VS.PathFits(ty, indices);
      EmitBoth(ty, a, b, l, VS.PathOffset(ty, indices));
    case InsertElement(a, b, i, size) =>
      EmitBoth(ty, a, b, l, VS.Product(i, size));
    case ExtractValue(a, indices) =>
      VS.PathFits(ty, indices);
      EmitOne(ty, a, l, Some(VS.PathOffset(ty, indices)), VS.Size(ty, e));
    case Cast(a) =>
      if a.ConstantInt? {
        AppendConstant(ty, l, a.bytes);
      } else {
        EmitOne(ty, a, l, None, VS.Size(ty, e));
      }
    case _ => EmitLeaf(ty, e, l);
  }

  lemma EmitLeaf(ty: VS.Type, e: VS.Value, l: Listing)
    requires e.Root? || e.ConstantInt? || e.Frozen?
    requires VS.Size(ty, e) <= VS.StoreSize(ty) && Good(ty, l)
    ensures var (r, v) := Emit(ty, e, l);
            Good(ty, r) && Extension(l, r) && v < |r.defs| == |r.sizes| && r.sizes[v] == VS.Size(ty, e)
  {
    GoodLength(ty, l);
    SelfExtension(ty, l);
    hide VS.StoreSize;
    hide ConstantDef;
    hide Good;
    hide Extension;
    match e
    case Root =>
    case ConstantInt(bytes) => AppendConstant(ty, l, bytes);
    case Frozen(_, size) =>
      AppendUndef(ty, l, size);
      AppendUnary(ty, l, Append(l, Undef, size), |l.defs|, Freeze(|l.defs|), size);
  }

  /** A cast or, at an offset, an extraction. */
  function UnaryDef(operand: Id, offset: Option<nat>): Def { if offset.None? then Cast(operand) else Extract(operand, offset) }

  lemma EmitOne(ty: VS.Type, a: VS.Value, l: Listing, offset: Option<nat>, size: nat)
    requires VS.WellFormed(ty) && VS.Plain(ty, a) && VS.Size(ty, a) <= VS.StoreSize(ty) && Good(ty, l) && size <= VS.StoreSize(ty)
    requires if offset.None? then size == VS.Size(ty, a) else offset.value + size <= VS.Size(ty, a)
    ensures var (l1, operand) := Emit(ty, a, l);
            var r := Append(l1, UnaryDef(operand, offset), size);
            Good(ty, r) && Extension(l, r) && Extension(l1, r) && Good(ty, l1) && |l1.defs| == |l1.sizes| && operand < |l1.defs|
    decreases Nodes(a), 1
  {
    hide VS.StoreSize;
    hide VS.WellFormed;
    hide VS.Plain;
    hide VS.Size;
    hide Emit;
    hide Good;
    EmitGood(ty, a, l);
    var (l1, operand) := Emit(ty, a, l);
    AppendUnary(ty, l, l1, operand, UnaryDef(operand, offset), size);
    SelfExtension(ty, l1);
    AppendUnary(ty, l1, l1, operand, UnaryDef(operand, offset), size);
  }

  lemma AppendUndef(ty: VS.Type, l: Listing, size: nat)
    requires Good(ty, l) && size <= VS.StoreSize(ty)
    ensures var r := Append(l, Undef, size); Good(ty, r) && Extension(l, r)
  {
    AppendGood(ty, l, Undef, size);
  }

  lemma EmitBoth(ty: VS.Type, a: VS.Value, b: VS.Value, l: Listing, offset: nat)
    requires VS.WellFormed(ty) && VS.Plain(ty, a) && VS.Plain(ty, b) && Good(ty, l)
    requires VS.Size(ty, a) <= VS.StoreSize(ty) && offset + VS.Size(ty, b) <= VS.Size(ty, a)
    ensures var (l1, agg) := Emit(ty, a, l);
            var (l2, ins) := Emit(ty, b, l1);
            var r := Append(l2, Insert(agg, ins, Some(offset)), VS.Size(ty, a));
            Good(ty, r) && Extension(l, r) && Extension(l1, r) && Extension(l2, r) && Good(ty, l1) && Good(ty, l2) &&
            |l2.defs| == |l2.sizes| && |r.defs| == |r.sizes| && agg < |l1.defs| && ins < |l2.defs|
    decreases Nodes(a) + Nodes(b), 1
  {
    hide VS.StoreSize;
    hide VS.WellFormed;
    hide VS.Plain;
    hide VS.Size;
    hide Emit;
    hide Good;
    EmitGood(ty, a, l);
    var (l1, agg) := Emit(ty, a, l);
    EmitGood(ty, b, l1);
    var (l2, ins) := Emit(ty, b, l1);
    AppendInsert(ty, l, l1, l2, agg, ins, offset, VS.Size(ty, a));
    Extends2(l1, l2, Append(l2, Insert(agg, ins, Some(offset)), VS.Size(ty, a)));
    GoodLength(ty, Append(l2, Insert(agg, ins, Some(offset)), VS.Size(ty, a)));
  }

  /** The program of a list, with the options of the check. */
  function ProgramOf(l: Listing, maxBytesPerValue: nat): Program
  {
    Program(l.defs, seq(|l.sizes|, v requires 0 <= v < |l.sizes| => 8 * l.sizes[v]),
            seq(|l.sizes|, v requires 0 <= v < |l.sizes| => seq(8 * l.sizes[v], _ => true)),
            map[], seq(|l.defs|, v => v), 4, maxBytesPerValue, ForwardMode)
  }

  lemma ProgramIsOrdered(ty: VS.Type, l: Listing, maxBytesPerValue: nat)
    requires Good(ty, l) && TypedProgram(ProgramOf(l, maxBytesPerValue))
    ensures Ordered(ProgramOf(l, maxBytesPerValue))
  {
    var P := ProgramOf(l, maxBytesPerValue);
    hide TypedProgram;
    forall v | 0 <= v < |P.defs|
      ensures v in P.rpo
    {
      assert P.rpo[v] == v;
    }
    forall i, o: Id | 0 <= i < |P.rpo| && o < |P.defs| && P.defs[o].IsInstruction() && Needs(P, P.rpo[i], o)
      ensures o in P.rpo[..i]
    {
      assert P.rpo[i] == i && GoodDef(l, i);
      assert o < i && P.rpo[..i][o] == o;
    }
  }

  lemma DefIsTyped(ty: VS.Type, l: Listing, maxBytesPerValue: nat, v: Id)
    requires Good(ty, l) && VS.StoreSize(ty) <= maxBytesPerValue && v < |l.defs|
    ensures var P := ProgramOf(l, maxBytesPerValue); P.Shaped() && v < |P.defs| && WellTyped(P, v) && Untruncated(P, v)
  {
    assert GoodDef(l, v);
    hide VS.StoreSize;
  }

  lemma ProgramIsTyped(ty: VS.Type, l: Listing, maxBytesPerValue: nat)
    requires Good(ty, l) && VS.StoreSize(ty) <= maxBytesPerValue
    ensures var P := ProgramOf(l, maxBytesPerValue); TypedProgram(P) && NoTruncation(P) && Ordered(P)
  {
    var P := ProgramOf(l, maxBytesPerValue);
    assert 0 < |l.defs| == |P.defs| && P.assumptions == map[];
    hide Good;
    hide WellTyped;
    hide Untruncated;
    hide Ordered;
    hide ProgramOf;
    hide VS.StoreSize;
    forall v | 0 <= v < |P.defs|
      ensures P.Shaped() && WellTyped(P, v) && Untruncated(P, v)
    {
      DefIsTyped(ty, l, maxBytesPerValue, v);
    }
    DefIsTyped(ty, l, maxBytesPerValue, 0);
    ProgramIsOrdered(ty, l, maxBytesPerValue);
  }

  /** What the list says about a value is what every program that extends it says. */
  lemma ProgramAt(ty: VS.Type, r: Listing, l: Listing, maxBytesPerValue: nat, v: Id)
    requires Good(ty, l) && Extension(r, l) && v < |r.defs|
    ensures var P := ProgramOf(l, maxBytesPerValue);
            P.Shaped() && v < |P.defs| && v !in P.assumptions && P.bits[v] == 8 * r.sizes[v] && P.defs[v] == r.defs[v]
  {
    ExtensionKeeps(r, l, v);
  }

  /** The built value represents the expression in every program that extends the list. */
  lemma {:induction false} EmitRepresents(ty: VS.Type, e: VS.Value, l: Listing, l': Listing, maxBytesPerValue: nat)
    requires VS.WellFormed(ty) && VS.Plain(ty, e) && VS.Size(ty, e) <= VS.StoreSize(ty) && Good(ty, l) && Good(ty, l')
    requires Extension(Emit(ty, e, l).0, l')
    ensures ProgramOf(l', maxBytesPerValue).Shaped()
    ensures Represents(ProgramOf(l', maxBytesPerValue), Emit(ty, e, l).1, e, ty)
    decreases Nodes(e), 1
  {
    hide VS.Plain;
    hide VS.Size;
    hide Emit;
    hide Represents;
    hide ProgramOf;
    match e
    case InsertValue(_, _, _) => InsertValueRepresents(ty, e, l, l', maxBytesPerValue);
    case InsertElement(_, _, _, _) => InsertElementRepresents(ty, e, l, l', maxBytesPerValue);
    case ExtractValue(_, _) => UnaryRepresents(ty, e, l, l', maxBytesPerValue);
    case Cast(_) => UnaryRepresents(ty, e, l, l', maxBytesPerValue);
    case _ => LeafRepresents(ty, e, l, l', maxBytesPerValue);
  }

  lemma LeafRepresents(ty: VS.Type, e: VS.Value, l: Listing, l': Listing, maxBytesPerValue: nat)
    requires VS.WellFormed(ty) && VS.Plain(ty, e) && VS.Size(ty, e) <= VS.StoreSize(ty) && Good(ty, l) && Good(ty, l')
    requires Extension(Emit(ty, e, l).0, l')
    requires e.Root? || e.ConstantInt? || e.Frozen? || e.ExtractElement? || e.And? || e.Or?
    ensures ProgramOf(l', maxBytesPerValue).Shaped()
    ensures Represents(ProgramOf(l', maxBytesPerValue), Emit(ty, e, l).1, e, ty)
  {
    EmitGood(ty, e, l);
    var (r, v) := Emit(ty, e, l);
    var P := ProgramOf(l', maxBytesPerValue);
    ProgramAt(ty, r, l', maxBytesPerValue, v);
    if e.Frozen? {
      ProgramAt(ty, r, l', maxBytesPerValue, |l.defs|);
    }
    hide ProgramOf;
    hide VS.StoreSize;
    hide VS.WellFormed;
    hide VS.Product;
    hide VS.PathOffset;
    hide VS.PathType;
    hide VS.ValidPath;
    hide ConstantDef;
    hide Good;
    hide Extension;
  }

  lemma UnaryRepresents(ty: VS.Type, e: VS.Value, l: Listing, l': Listing, maxBytesPerValue: nat)
    requires VS.WellFormed(ty) && VS.Plain(ty, e) && VS.Size(ty, e) <= VS.StoreSize(ty) && Good(ty, l) && Good(ty, l')
    requires Extension(Emit(ty, e, l).0, l')
    requires e.ExtractValue? || e.Cast?
    ensures ProgramOf(l', maxBytesPerValue).Shaped()
    ensures Represents(ProgramOf(l', maxBytesPerValue), Emit(ty, e, l).1, e, ty)
    decreases Nodes(e), 0
  {
    EmitGood(ty, e, l);
    var (r, v) := Emit(ty, e, l);
    var P := ProgramOf(l', maxBytesPerValue);
    ProgramAt(ty, r, l', maxBytesPerValue, v);
    hide ProgramOf;
    hide VS.StoreSize;
    hide VS.WellFormed;
    hide VS.Product;
    hide VS.PathOffset;
    hide VS.PathType;
    hide VS.ValidPath;
    hide ConstantDef;
    hide Good;
    hide Extension;
    match e
    case ExtractValue(a, indices) =>
      VS.PathFits(ty, indices);
      EmitOne(ty, a, l, Some(VS.PathOffset(ty, indices)), VS.Size(ty, e));
      Extends2(Emit(ty, a, l).0, r, l');
      EmitRepresents(ty, a, l, l', maxBytesPerValue);
    case Cast(a) =>
      if !a.ConstantInt? {
        EmitOne(ty, a, l, None, VS.Size(ty, e));
        Extends2(Emit(ty, a, l).0, r, l');
        EmitRepresents(ty, a, l, l', maxBytesPerValue);
      }
  }

  lemma InsertValueRepresents(ty: VS.Type, e: VS.Value, l: Listing, l': Listing, maxBytesPerValue: nat)
    requires VS.WellFormed(ty) && VS.Plain(ty, e) && VS.Size(ty, e) <= VS.StoreSize(ty) && Good(ty, l) && Good(ty, l')
    requires Extension(Emit(ty, e, l).0, l')
    requires e.InsertValue?
    ensures ProgramOf(l', maxBytesPerValue).Shaped()
    ensures Represents(ProgramOf(l', maxBytesPerValue), Emit(ty, e, l).1, e, ty)
    decreases Nodes(e), 0
  {
    EmitGood(ty, e, l);
    var (r, v) := Emit(ty, e, l);
    var P := ProgramOf(l', maxBytesPerValue);
    ProgramAt(ty, r, l', maxBytesPerValue, v);
    hide ProgramOf;
    hide VS.StoreSize;
    hide VS.WellFormed;
    hide VS.Product;
    hide VS.PathOffset;
    hide VS.PathType;
    hide VS.ValidPath;
    hide ConstantDef;
    hide Good;
    hide Extension;
    VS.PathFits(ty, e.indices);
    EmitBoth(ty, e.aggregate, e.inserted, l, VS.PathOffset(ty, e.indices));
    RepresentsBoth(ty, e.aggregate, e.inserted, l, l', r, maxBytesPerValue);
  }

  lemma InsertElementRepresents(ty: VS.Type, e: VS.Value, l: Listing, l': Listing, maxBytesPerValue: nat)
    requires VS.WellFormed(ty) && VS.Plain(ty, e) && VS.Size(ty, e) <= VS.StoreSize(ty) && Good(ty, l) && Good(ty, l')
    requires Extension(Emit(ty, e, l).0, l')
    requires e.InsertElement?
    ensures ProgramOf(l', maxBytesPerValue).Shaped()
    ensures Represents(ProgramOf(l', maxBytesPerValue), Emit(ty, e, l).1, e, ty)
    decreases Nodes(e), 0
  {
    EmitGood(ty, e, l);
    var (r, v) := Emit(ty, e, l);
    var P := ProgramOf(l', maxBytesPerValue);
    ProgramAt(ty, r, l', maxBytesPerValue, v);
    hide ProgramOf;
    hide VS.StoreSize;
    hide VS.WellFormed;
    hide VS.Product;
    hide VS.PathOffset;
    hide VS.PathType;
    hide VS.ValidPath;
    hide ConstantDef;
    hide Good;
    hide Extension;
    EmitBoth(ty, e.vector, e.inserted, l, VS.Product(e.index, e.size));
    RepresentsBoth(ty, e.vector, e.inserted, l, l', r, maxBytesPerValue);
  }

  lemma RepresentsBoth(ty: VS.Type, a: VS.Value, b: VS.Value, l: Listing, l': Listing, r: Listing, maxBytesPerValue: nat)
    requires VS.WellFormed(ty) && VS.Plain(ty, a) && VS.Plain(ty, b) && Good(ty, l) && Good(ty, l') && Extension(r, l')
    requires VS.Size(ty, a) <= VS.StoreSize(ty) && VS.Size(ty, b) <= VS.StoreSize(ty)
    requires var (l1, agg) := Emit(ty, a, l); Good(ty, l1) && Extension(l1, r) && Extension(Emit(ty, b, l1).0, r)
    ensures ProgramOf(l', maxBytesPerValue).Shaped()
    ensures var (l1, agg) := Emit(ty, a, l);
            Represents(ProgramOf(l', maxBytesPerValue), agg, a, ty) &&
            Represents(ProgramOf(l', maxBytesPerValue), Emit(ty, b, l1).1, b, ty)
    decreases Nodes(a) + Nodes(b), 2
  {
    var (l1, agg) := Emit(ty, a, l);
    Extends2(l1, r, l');
    Extends2(Emit(ty, b, l1).0, r, l');
    hide Emit;
    hide Good;
    hide VS.Plain;
    EmitRepresents(ty, a, l, l', maxBytesPerValue);
    EmitRepresents(ty, b, l1, l', maxBytesPerValue);
  }

  /** How many dwords are to be replaced. */
  function ToBeReplaced(dwordInfos: seq<VS.DwordInfo>, n: nat): nat
    requires n <= |dwordInfos|
  {
    if n == 0 then 0 else ToBeReplaced(dwordInfos, n - 1) + if dwordInfos[n - 1].kind != VS.Keep then 1 else 0
  }

  /** The counts agree exactly if every requested dword lies in a supported leaf. */
  lemma {:induction false} CountsAgree(ty: VS.Type, dwordInfos: seq<VS.DwordInfo>, n: nat)
    requires n <= |dwordInfos|
    ensures VS.Requested(ty, dwordInfos, 0, n) <= ToBeReplaced(dwordInfos, n)
    ensures VS.Requested(ty, dwordInfos, 0, n) == ToBeReplaced(dwordInfos, n) <==>
            forall d :: 0 <= d < n && dwordInfos[d].kind != VS.Keep ==> VS.SiteOf(ty, d).Some?
  {
    hide VS.SiteOf;
    if n != 0 {
      CountsAgree(ty, dwordInfos, n - 1);
    }
  }

  /** A specialization request with its check, for a value that is not a constant: replace the dwords, compare the counts, build
      the replacement, analyse it, and compare what is reported with the requests.  It succeeds exactly if all requested dwords lie
      in supported leaves. */
  method SpecializeAndCheck(ty: VS.Type, dwordInfos: seq<VS.DwordInfo>, maxBytesPerValue: nat) returns (ok: bool)
    requires VS.WellFormed(ty) && VS.DwordLeaves(ty) && |dwordInfos| == VS.DwordCount(VS.StoreSize(ty))
    requires VS.StoreSize(ty) <= maxBytesPerValue
    ensures ok <==> AllSupported(ty, dwordInfos)
  {
    hide VS.Rewritten;
    hide VS.Plain;
    hide VS.Size;
    hide VS.WellFormed;
    hide VS.DwordLeaves;
    hide VS.StoreSize;
    hide VS.SiteOf;
    hide VS.Requested;
    hide TypedProgram;
    hide NoTruncation;
    hide Ordered;
    hide Good;
    hide Emit;
    var toBeReplaced := 0;
    for i := 0 to |dwordInfos|
      invariant toBeReplaced == ToBeReplaced(dwordInfos, i)
    {
      if dwordInfos[i].kind != VS.Keep {
        toBeReplaced := toBeReplaced + 1;
      }
    }
    var specializer := new VS.ValueSpecializer();
    var replacement, count := specializer.ReplaceDwords(ty, dwordInfos, Unknown(ty));
    CountsAgree(ty, dwordInfos, |dwordInfos|);
    if count != toBeReplaced {
      return false;
    }
    if replacement.None? {
      return true;
    }
    var e := replacement.value;
    var start := Listing([Argument], [VS.StoreSize(ty)]);
    var (l, v) := Emit(ty, e, start);
    ReplacementBuilt(ty, dwordInfos, e, start, maxBytesPerValue);
    var tracker := new ValueOriginTracker(ProgramOf(l, maxBytesPerValue));
    ok := CheckReplacement(tracker, v, dwordInfos, ty, e);
  }

  lemma ReplacementBuilt(ty: VS.Type, dwordInfos: seq<VS.DwordInfo>, e: VS.Value, start: Listing, maxBytesPerValue: nat)
    requires VS.WellFormed(ty) && VS.Plain(ty, e) && VS.Rewritten(ty, dwordInfos, Unknown(ty).root, VS.Eval(e, Unknown(ty)))
    requires start == Listing([Argument], [VS.StoreSize(ty)]) && VS.StoreSize(ty) <= maxBytesPerValue
    ensures var (l, v) := Emit(ty, e, start);
            var P := ProgramOf(l, maxBytesPerValue);
            TypedProgram(P) && NoTruncation(P) && Ordered(P) && Represents(P, v, e, ty)
  {
    VS.PlainSize(e, Unknown(ty));
    assert Good(ty, start);
    hide VS.Plain;
    hide VS.Size;
    hide VS.WellFormed;
    hide VS.StoreSize;
    hide Good;
    hide Emit;
    EmitGood(ty, e, start);
    var (l, v) := Emit(ty, e, start);
    ProgramIsTyped(ty, l, maxBytesPerValue);
    SelfExtension(ty, l);
    EmitRepresents(ty, e, start, l, maxBytesPerValue);
    hide TypedProgram;
    hide NoTruncation;
    hide Ordered;
    hide Represents;
  }

  /** Had the value been a constant struct, then the insertions would have been folded, and nothing but a null struct is reported as
      constant. */
  lemma ConstantStructNotReported(P: Program, infos: map<Id, ValueInfo>, v: Id, d: nat, constant: seq<bv8>)
    requires Analyzed(P, infos) && v in infos && v !in P.assumptions && v < |P.defs| && P.defs[v].OpaqueConstant?
    requires d < |infos[v]| && |constant| == 4
    ensures infos[v][d].status == {Dynamic} && !Reports(infos[v][d], VS.Bytes(constant))
  {
    var late := TransferOf(P, infos, v);
    assert AllDynamic(P, v, infos[v]);
    hide Analyzed;
    hide BitsOf;
    assert Constant !in infos[v][d].status;
  }
}
