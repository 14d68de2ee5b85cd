/** The driver of the origin analysis: computeValueInfo, getOrComputeValueInfo and analyzeValues
(compilerutils/lib/ValueOriginTracking.cpp). */
module OriginTracker {
  import opened OriginTracking
  import opened ValueInfoBuilding

  ghost predicate TypedProgram(P: Program)
  {
    P.Shaped() && (forall v :: 0 <= v < |P.defs| ==> WellTyped(P, v)) &&
    (forall v :: v in P.assumptions ==> v < |P.defs| && P.defs[v].IsInstruction() && NamesValues(P, P.assumptions[v]))
  }

  ghost predicate NamesValues(P: Program, assumption: ValueInfo)
  {
    Named(assumption) && forall i :: 0 <= i < |assumption| && assumption[i].dynamicValue.Some? ==>
                                       assumption[i].dynamicValue.value < |P.defs|
  }

  ghost predicate NoTruncation(P: Program)
    requires P.Shaped()
  {
    forall v :: 0 <= v < |P.defs| ==> Untruncated(P, v)
  }

  /** One run of the program, in which every value fits its definition and the client's assumptions hold. */
  ghost predicate Execution(P: Program, env: seq<Image>)
    requires TypedProgram(P)
  {
    |env| == |P.defs| && (forall v :: 0 <= v < |P.defs| ==> Evaluates(P, env, v)) &&
    forall v :: v in P.assumptions ==> AssumptionHolds(P, env, v, P.assumptions[v])
  }

  /** The values that an assumption on `v` names, other than `v` itself. */
  function Referenced(P: Program, v: Id): set<Id>
  {
    if v !in P.assumptions then {}
    else set i | 0 <= i < |P.assumptions[v]| && P.assumptions[v][i].dynamicValue.Some? &&
                 P.assumptions[v][i].dynamicValue.value != v :: P.assumptions[v][i].dynamicValue.value
  }

  /** The values whose analysis must precede that of `v`.  A phi takes what is there. */
  ghost predicate Needs(P: Program, v: Id, o: Id)
    requires v < |P.defs|
  {
    if v in P.assumptions then o in Referenced(P, v)
    else !P.defs[v].Phi? && o in P.defs[v].Operands()
  }

  /** Reverse post order: instructions come after the instructions they need. */
  ghost predicate Ordered(P: Program)
    requires TypedProgram(P)
  {
    (forall v :: 0 <= v < |P.defs| && P.defs[v].IsInstruction() ==> v in P.rpo) &&
    (forall i :: 0 <= i < |P.rpo| ==> P.rpo[i] < |P.defs|) &&
    forall i, o: Id :: 0 <= i < |P.rpo| && o < |P.defs| && P.defs[o].IsInstruction() && Needs(P, P.rpo[i], o) ==>
                         o in P.rpo[..i]
  }

  /** The meaning of an analysis result: a full set of slices, each right in every execution. */
  ghost predicate Correct(P: Program, v: Id, info: ValueInfo)
    requires TypedProgram(P) && v < |P.defs|
  {
    |info| == P.NumSlices(v) && Named(info) && forall env :: Execution(P, env) ==> Sound(P, env, v, info)
  }

  // ----- the transfer functions -----

  ghost predicate AllDynamic(P: Program, v: Id, r: ValueInfo)
    requires P.Shaped() && v < |P.defs|
  {
    |r| == P.NumSlices(v) && forall i :: 0 <= i < |r| ==> r[i] == DynamicSlice(P, v, i)
  }

  ghost predicate IsKnownBits(P: Program, v: Id, known: KnownBits, r: ValueInfo)
    requires P.Shaped() && v < |P.defs|
  {
    |r| == P.NumSlices(v) && forall i :: 0 <= i < |r| ==> r[i] == KnownBitsSlice(P, v, known, i)
  }

  ghost predicate IsNull(P: Program, v: Id, r: ValueInfo)
    requires P.Shaped() && v < |P.defs|
  {
    |r| == P.NumSlices(v) && forall i :: 0 <= i < |r| ==> r[i].status == {Constant} && r[i].constantValue == ZeroWord()
  }

  ghost predicate IsSequence(P: Program, infos: map<Id, ValueInfo>, elements: seq<Id>, elementBits: nat, r: ValueInfo)
    requires P.Shaped()
  {
    && (forall e :: 0 <= e < |elements| ==> elements[e] in infos)
    && Tiled(r, InfosOf(infos, elements), elementBits / (8 * P.bytesPerSlice))
  }

  function InfosOf(infos: map<Id, ValueInfo>, vs: seq<Id>): (r: seq<ValueInfo>)
    requires forall e :: 0 <= e < |vs| ==> vs[e] in infos
    ensures |r| == |vs|
  {
    seq(|vs|, e requires 0 <= e < |vs| => infos[vs[e]])
  }

  ghost predicate IsFreeze(P: Program, v: Id, frozen: ValueInfo, r: ValueInfo)
  {
    |r| == |frozen| &&
    forall i :: 0 <= i < |r| ==>
                  r[i] == if P.freezeMode == DynamicMode && UndefOrPoison in frozen[i].status
                          then DynamicSlice(P, v, i) else frozen[i]
  }

  ghost predicate IsExtraction(P: Program, v: Id, aggInfo: ValueInfo, byteOffset: nat, r: ValueInfo)
    requires P.Shaped() && v < |P.defs|
  {
    |r| == P.NumSlices(v) &&
    forall i :: 0 <= i < |r| ==>
                  var begin := byteOffset / P.bytesPerSlice;
                  if byteOffset % P.bytesPerSlice == 0 && begin < |aggInfo| then begin + i < |aggInfo| && r[i] == aggInfo[begin + i]
                  else r[i] == DynamicSlice(P, v, i)
  }

  ghost predicate IsInsertion(P: Program, v: Id, agg: ValueInfo, inserted: ValueInfo, byteOffset: nat, count: nat, r: ValueInfo)
    requires P.Shaped() && v < |P.defs|
  {
    |r| == |agg| == P.NumSlices(v) && forall i :: 0 <= i < |r| ==> r[i] == InsertedSlice(P, v, agg, inserted, byteOffset, count, i)
  }

  ghost predicate IsSelect(P: Program, v: Id, infos: seq<ValueInfo>, r: ValueInfo)
    requires P.Shaped() && v < |P.defs|
  {
    if infos == [] then AllDynamic(P, v, r)
    else if |infos| == 1 then r == infos[0]
    else
      |r| == P.NumSlices(v) && (forall j :: 0 <= j < |infos| ==> |r| <= |infos[j]|) &&
      forall i :: 0 <= i < |r| ==> SelectedSlice(P, v, SlicesAt(infos, i), i, r[i])
  }

  /** The analysis of the values that an assumption names, other than `v` itself. */
  function ReferencedInfos(infos: map<Id, ValueInfo>, v: Id, assumption: ValueInfo): (r: seq<Option<ValueInfo>>)
    ensures |r| == |assumption|
  {
    seq(|assumption|, i requires 0 <= i < |assumption| => ReferencedInfo(infos, v, assumption[i]))
  }

  function ReferencedInfo(infos: map<Id, ValueInfo>, v: Id, a: SliceInfo): Option<ValueInfo>
  {
    if a.dynamicValue.Some? && a.dynamicValue.value != v && a.dynamicValue.value in infos then Some(infos[a.dynamicValue.value])
    else None
  }

  ghost predicate IsAssumed(P: Program, v: Id, infos: map<Id, ValueInfo>, assumption: ValueInfo, r: ValueInfo)
    requires P.Shaped() && v < |P.defs|
  {
    && Referenced(P, v) <= infos.Keys
    && |r| == P.NumSlices(v)
    && forall i :: 0 <= i < |r| ==> r[i] == AssumedSlice(P, v, assumption, ReferencedInfos(infos, v, assumption), i)
  }

  /** What computeValueInfo reports for `v`, given the results for other values.  The values in `late` had not been
      analyzed when `v` was; a phi of such a value refers to itself. */
  ghost predicate Transferred(P: Program, infos: map<Id, ValueInfo>, v: Id, r: ValueInfo, late: set<Id>)
    requires P.Shaped() && v < |P.defs|
  {
    if v in P.assumptions && P.defs[v].IsInstruction() then IsAssumed(P, v, infos, P.assumptions[v], r)
    else
      match P.defs[v]
      case Undef => r == seq(P.NumSlices(v), _ => SliceInfo({UndefOrPoison}, ZeroWord(), None, 0))
      case NullConstant => IsNull(P, v, r)
      case OpaqueConstant => AllDynamic(P, v, r)
      case ScalarConstant(known) => IsKnownBits(P, v, known, r)
      case ConstantSequence(elements, elementBits, packed) =>
        if !packed || elementBits % (8 * P.bytesPerSlice) != 0 then AllDynamic(P, v, r)
        else IsSequence(P, infos, elements, elementBits, r)
      case Argument => AllDynamic(P, v, r)
      case Cast(op) => op in infos && r == infos[op]
      case Freeze(op) => op in infos && IsFreeze(P, v, infos[op], r)
      case Extract(agg, offset) =>
        if offset.None? then AllDynamic(P, v, r) else agg in infos && IsExtraction(P, v, infos[agg], offset.value, r)
      case Insert(agg, ins, offset) =>
        if offset.None? then AllDynamic(P, v, r)
        else agg in infos && ins in infos && ins < |P.defs| &&
             IsInsertion(P, v, infos[agg], infos[ins], offset.value, P.NumBytes(ins), r)
      case Phi(incoming) =>
        if exists j :: 0 <= j < |incoming| && incoming[j] in late then AllDynamic(P, v, r)
        else (forall j :: 0 <= j < |incoming| ==> incoming[j] in infos) && IsSelect(P, v, InfosOf(infos, incoming), r)
      case Select(t, f, _) => t in infos && f in infos && IsSelect(P, v, [infos[t], infos[f]], r)
      case Opaque(_) => AllDynamic(P, v, r)
      case Other(_, known) => if known.Some? then IsKnownBits(P, v, known.value, r) else AllDynamic(P, v, r)
  }

  ghost predicate Extends(infos: map<Id, ValueInfo>, later: map<Id, ValueInfo>)
  {
    forall w :: w in infos ==> w in later && later[w] == infos[w]
  }

  /** Later results do not change what was reported. */
  lemma TransferredLater(P: Program, infos: map<Id, ValueInfo>, later: map<Id, ValueInfo>, v: Id, r: ValueInfo, late: set<Id>)
    requires P.Shaped() && v < |P.defs| && Transferred(P, infos, v, r, late) && Extends(infos, later)
    ensures Transferred(P, later, v, r, late)
  {
    hide AllDynamic;
    hide IsKnownBits;
    hide IsNull;
    hide IsFreeze;
    hide IsExtraction;
    hide IsInsertion;
    hide IsSelect;
    hide Tiled;
    if v in P.assumptions && P.defs[v].IsInstruction() {
      AssumedLater(P, infos, later, v, P.assumptions[v], r);
    } else if P.defs[v].ConstantSequence? {
      if forall e :: 0 <= e < |P.defs[v].elements| ==> P.defs[v].elements[e] in infos {
        assert InfosOf(infos, P.defs[v].elements) == InfosOf(later, P.defs[v].elements);
      }
    } else if P.defs[v].Phi? {
      if forall e :: 0 <= e < |P.defs[v].incoming| ==> P.defs[v].incoming[e] in infos {
        assert InfosOf(infos, P.defs[v].incoming) == InfosOf(later, P.defs[v].incoming);
      }
    }
  }

  lemma AssumedLater(P: Program, infos: map<Id, ValueInfo>, later: map<Id, ValueInfo>, v: Id, assumption: ValueInfo, r: ValueInfo)
    requires P.Shaped() && v < |P.defs| && v in P.assumptions && assumption == P.assumptions[v]
    requires IsAssumed(P, v, infos, assumption, r) && Extends(infos, later)
    ensures IsAssumed(P, v, later, assumption, r)
  {
    hide AssumedSlice;
    forall i | 0 <= i < |assumption|
      ensures ReferencedInfo(infos, v, assumption[i]) == ReferencedInfo(later, v, assumption[i])
    {
      var a := assumption[i];
      assert a.dynamicValue.Some? && a.dynamicValue.value != v ==> a.dynamicValue.value in Referenced(P, v);
    }
    assert ReferencedInfos(infos, v, assumption) == ReferencedInfos(later, v, assumption);
  }

  /** `o` is an instruction that is not before `v` in reverse post order. */
  ghost predicate Late(P: Program, v: Id, o: Id)
  {
    o < |P.defs| && P.defs[o].IsInstruction() && exists i :: 0 <= i < |P.rpo| && P.rpo[i] == v && o !in P.rpo[..i]
  }

  ghost predicate AllLate(P: Program, v: Id, late: set<Id>)
  {
    forall o :: o in late ==> Late(P, v, o)
  }

  /** The result for `v` is the one of its transfer function; only a phi of a value that comes later may ignore that value. */
  ghost predicate Settled(P: Program, infos: map<Id, ValueInfo>, v: Id)
    requires P.Shaped() && v < |P.defs| && v in infos
  {
    exists late: set<Id> :: AllLate(P, v, late) && Transferred(P, infos, v, infos[v], late)
  }

  lemma SettledLater(P: Program, infos: map<Id, ValueInfo>, later: map<Id, ValueInfo>, v: Id)
    requires P.Shaped() && v < |P.defs| && v in infos && Settled(P, infos, v) && Extends(infos, later)
    ensures Settled(P, later, v)
  {
    hide Transferred;
    var late: set<Id> :| AllLate(P, v, late) && Transferred(P, infos, v, infos[v], late);
    TransferredLater(P, infos, later, v, infos[v], late);
  }

  /** What a settled result says, instruction by instruction: casts, freezes and aligned extractions pass slices on. */
  lemma SettledCopies(P: Program, infos: map<Id, ValueInfo>, v: Id)
    requires P.Shaped() && v < |P.defs| && v in infos && Settled(P, infos, v) && v !in P.assumptions
    ensures P.defs[v].Cast? || P.defs[v].Freeze? ==> P.defs[v].operand in infos
    ensures P.defs[v].Cast? || (P.defs[v].Freeze? && P.freezeMode == ForwardMode) ==> infos[v] == infos[P.defs[v].operand]
    ensures P.defs[v].Freeze? && P.freezeMode == DynamicMode ==>
              var frozen := infos[P.defs[v].operand];
              |infos[v]| == |frozen| &&
              forall i :: 0 <= i < |frozen| ==>
                            infos[v][i] == if UndefOrPoison in frozen[i].status then SliceInfo({Dynamic}, ZeroWord(), Some(v), P.bytesPerSlice * i)
                                           else frozen[i]
  {
    hide IsKnownBits;
    hide IsInsertion;
    hide IsSelect;
    hide IsSequence;
    var late: set<Id> :| AllLate(P, v, late) && Transferred(P, infos, v, infos[v], late);
  }

  /** Aligned extractions take the slices from their offset on. */
  lemma SettledExtraction(P: Program, infos: map<Id, ValueInfo>, v: Id, agg: Id, offset: nat, i: nat)
    requires P.Shaped() && v < |P.defs| && v in infos && Settled(P, infos, v) && v !in P.assumptions
    requires P.defs[v] == Extract(agg, Some(offset)) && offset % P.bytesPerSlice == 0 && i < P.NumSlices(v)
    ensures agg in infos && |infos[v]| == P.NumSlices(v)
    ensures var j := offset / P.bytesPerSlice; j < |infos[agg]| ==> j + i < |infos[agg]| && infos[v][i] == infos[agg][j + i]
  {
    hide IsKnownBits;
    hide IsInsertion;
    hide IsFreeze;
    hide IsSelect;
    hide IsSequence;
    var late: set<Id> :| AllLate(P, v, late) && Transferred(P, infos, v, infos[v], late);
    if offset / P.bytesPerSlice < |infos[agg]| {
      ExtractedAt(P, v, infos[agg], offset, infos[v], i);
    }
  }

  lemma ExtractedAt(P: Program, v: Id, aggInfo: ValueInfo, offset: nat, r: ValueInfo, i: nat)
    requires P.Shaped() && v < |P.defs| && IsExtraction(P, v, aggInfo, offset, r) && i < P.NumSlices(v)
    requires offset % P.bytesPerSlice == 0 && offset / P.bytesPerSlice < |aggInfo|
    ensures i < |r| && offset / P.bytesPerSlice + i < |aggInfo| && r[i] == aggInfo[offset / P.bytesPerSlice + i]
  {
    var s := r[i];
    assert s == r[i];
  }

  /** Insertions take the slices that they cover completely from the inserted value. */
  lemma SettledInsertion(P: Program, infos: map<Id, ValueInfo>, v: Id, agg: Id, ins: Id, offset: nat)
    requires P.Shaped() && v < |P.defs| && v in infos && Settled(P, infos, v) && v !in P.assumptions
    requires P.defs[v] == Insert(agg, ins, Some(offset)) && ins < |P.defs| && Untruncated(P, ins)
    requires ins in infos ==> |infos[ins]| == P.NumSlices(ins)
    ensures agg in infos && ins in infos && |infos[v]| == |infos[agg]| == P.NumSlices(v)
    ensures var s, end := P.bytesPerSlice, offset + P.NumBytes(ins);
            forall i :: 0 <= i < |infos[v]| ==>
                          && (FirstByte(P, i) + s <= offset || end <= FirstByte(P, i) ==> infos[v][i] == infos[agg][i])
                          && (offset % s == 0 && offset <= FirstByte(P, i) && FirstByte(P, i) + s <= end &&
                              (P.NumBytes(ins) % s == 0 || i + 1 < |infos[agg]|) ==>
                                0 <= i - offset / s < |infos[ins]| && infos[v][i] == infos[ins][i - offset / s])
  {
    hide IsKnownBits;
    hide IsExtraction;
    hide IsFreeze;
    hide IsSelect;
    hide IsSequence;
    hide InsertedSlice;
    hide FirstByte;
    var late: set<Id> :| AllLate(P, v, late) && Transferred(P, infos, v, infos[v], late);
    UntruncatedInsertion(P, v, ins, infos[ins], offset, |infos[agg]|);
    InsertedExactly(P, v, infos[agg], infos[ins], offset, P.NumBytes(ins), infos[v]);
  }

  /** Selections, and phis that no later instruction comes into, combine the slices of their alternatives. */
  lemma SettledSelection(P: Program, infos: map<Id, ValueInfo>, v: Id, alternatives: seq<Id>)
    requires P.Shaped() && v < |P.defs| && v in infos && Settled(P, infos, v) && v !in P.assumptions
    requires SelectsFrom(P, v, alternatives)
    requires P.defs[v].Phi? ==> forall i, j :: 0 <= i < |P.rpo| && 0 <= j < |alternatives| && P.rpo[i] == v &&
                                               alternatives[j] < |P.defs| && P.defs[alternatives[j]].IsInstruction() ==>
                                                 alternatives[j] in P.rpo[..i]
    ensures forall j :: 0 <= j < |alternatives| ==> alternatives[j] in infos
    ensures |alternatives| == 1 ==> infos[v] == infos[alternatives[0]]
    ensures |alternatives| > 1 ==> |infos[v]| == P.NumSlices(v) && forall j :: 0 <= j < |alternatives| ==> |infos[v]| <= |infos[alternatives[j]]|
    ensures |alternatives| > 1 ==>
              forall i :: 0 <= i < |infos[v]| ==> SelectedSlice(P, v, SlicesAt(InfosOf(infos, alternatives), i), i, infos[v][i])
  {
    hide IsKnownBits;
    hide IsExtraction;
    hide IsFreeze;
    hide IsInsertion;
    hide IsSequence;
    hide SelectedSlice;
    var late: set<Id> :| AllLate(P, v, late) && Transferred(P, infos, v, infos[v], late);
    if P.defs[v].Select? {
      assert InfosOf(infos, alternatives) == [infos[alternatives[0]], infos[alternatives[1]]];
    }
    assert IsSelect(P, v, InfosOf(infos, alternatives), infos[v]);
    forall j | 0 <= j < |alternatives| && |alternatives| > 1
      ensures |infos[v]| <= |infos[alternatives[j]]|
    {
      assert InfosOf(infos, alternatives)[j] == infos[alternatives[j]];
    }
  }

  /** Undef, null and values with known bits. */
  lemma SettledConstants(P: Program, infos: map<Id, ValueInfo>, v: Id)
    requires P.Shaped() && v < |P.defs| && v in infos && Settled(P, infos, v) && v !in P.assumptions
    ensures P.defs[v].Undef? ==> |infos[v]| == P.NumSlices(v) && forall i :: 0 <= i < |infos[v]| ==> infos[v][i].status == {UndefOrPoison}
    ensures P.defs[v].NullConstant? ==>
              |infos[v]| == P.NumSlices(v) && forall i :: 0 <= i < |infos[v]| ==> infos[v][i].status == {Constant} && infos[v][i].constantValue == ZeroWord()
    ensures P.defs[v].ScalarConstant? ==>
              |infos[v]| == P.NumSlices(v) && forall i :: 0 <= i < |infos[v]| ==> infos[v][i] == KnownBitsSlice(P, v, P.defs[v].known, i)
    ensures P.defs[v].Other? && P.defs[v].integerBits.Some? ==>
              |infos[v]| == P.NumSlices(v) && forall i :: 0 <= i < |infos[v]| ==> infos[v][i] == KnownBitsSlice(P, v, P.defs[v].integerBits.value, i)
  {
    hide IsExtraction;
    hide IsFreeze;
    hide IsInsertion;
    hide IsSelect;
    hide IsSequence;
    hide KnownBitsSlice;
    var late: set<Id> :| AllLate(P, v, late) && Transferred(P, infos, v, infos[v], late);
  }

  /** Packed sequences of constants with `m` whole slices each are laid out one after the other. */
  lemma SettledSequence(P: Program, infos: map<Id, ValueInfo>, v: Id, elements: seq<Id>, m: nat, e: nat, t: nat)
    requires P.Shaped() && v < |P.defs| && v in infos && Settled(P, infos, v)
    requires P.defs[v] == ConstantSequence(elements, 8 * Times(P.bytesPerSlice, m), true)
    requires e < |elements| && t < m
    ensures |infos[v]| == |elements| * m && elements[e] in infos && |infos[elements[e]]| == m
    ensures e * m + t < |infos[v]| && infos[v][e * m + t] == infos[elements[e]][t]
  {
    hide IsExtraction;
    hide IsFreeze;
    hide IsInsertion;
    hide IsSelect;
    hide Times;
    var late: set<Id> :| AllLate(P, v, late) && Transferred(P, infos, v, infos[v], late);
    SliceBits(P.bytesPerSlice, m);
    TiledAt(infos[v], InfosOf(infos, elements), m, e, t);
  }

  /** An assumption is taken over slice by slice, and where it names another value at the start of a slice, that slice of the value's
      analysis is taken instead. */
  lemma SettledAssumption(P: Program, infos: map<Id, ValueInfo>, v: Id, i: nat)
    requires P.Shaped() && v < |P.defs| && v in infos && Settled(P, infos, v) && v in P.assumptions && P.defs[v].IsInstruction()
    requires i < |P.assumptions[v]| && i < P.NumSlices(v)
    ensures |infos[v]| == P.NumSlices(v)
    ensures Dynamic !in P.assumptions[v][i].status ==> infos[v][i] == P.assumptions[v][i]
    ensures forall w, j :: Dynamic in P.assumptions[v][i].status && P.assumptions[v][i].dynamicValue == Some(w) && w != v &&
                           0 <= j && P.assumptions[v][i].byteOffset == FirstByte(P, j) ==>
                             w in infos && (j < |infos[w]| ==> infos[v][i] == infos[w][j])
  {
    hide AssumedSlice;
    hide FirstByte;
    hide IsKnownBits;
    hide IsExtraction;
    hide IsFreeze;
    hide IsInsertion;
    hide IsSelect;
    hide IsSequence;
    var late: set<Id> :| AllLate(P, v, late) && Transferred(P, infos, v, infos[v], late);
    var assumption := P.assumptions[v];
    var referenced := ReferencedInfos(infos, v, assumption);
    AssumedExactly(P, v, assumption, referenced, infos[v]);
    var a := assumption[i];
    assert referenced[i] == ReferencedInfo(infos, v, a);
    if a.dynamicValue.Some? && a.dynamicValue.value != v {
      assert a.dynamicValue.value in Referenced(P, v);
    }
  }

  lemma SliceBits(s: nat, m: nat)
    requires 0 < s
    ensures 8 * Times(s, m) % (8 * s) == 0 && 8 * Times(s, m) / (8 * s) == m
  {
    assert 8 * Times(s, m) == m * (8 * s);
    QuotientUnique(m, 8 * s, 0);
  }

  lemma TiledAt(r: ValueInfo, infos: seq<ValueInfo>, m: nat, e: nat, t: nat)
    requires Tiled(r, infos, m) && e < |infos| && t < m
    ensures |r| == |infos| * m && |infos[e]| == m
    ensures e * m + t < |r| && r[e * m + t] == infos[e][t]
  {
    TimesAt(e, m, t, |infos|);
  }

  lemma TimesAt(e: nat, m: nat, t: nat, n: nat)
    requires t < m && e < n
    ensures e * m + t < n * m && (e * m + t) / m == e && (e * m + t) % m == t
  {
    QuotientUnique(e, m, t);
    MulMonotone(e + 1, n, m);
    MulDistributes(e, 1, m);
  }

  /** The incoming values of a phi without results so far. */
  ghost function Missing(P: Program, infos: map<Id, ValueInfo>, v: Id): set<Id>
    requires v < |P.defs|
  {
    if P.defs[v].Phi? then set o | o in P.defs[v].incoming && o !in infos else {}
  }

  class ValueOriginTracker {
    const P: Program
    var ValueInfos: map<Id, ValueInfo>

    ghost predicate Valid()
      reads this
    {
      TypedProgram(P) && NoTruncation(P) &&
      forall v :: v in ValueInfos ==> v < |P.defs| && Correct(P, v, ValueInfos[v]) && Settled(P, ValueInfos, v)
    }

    constructor (P: Program)
      requires TypedProgram(P) && NoTruncation(P)
      ensures Valid() && this.P == P && ValueInfos == map[]
    {
      this.P := P;
      ValueInfos := map[];
    }

    /** The fallback: every slice refers to the value itself. */
    method Fallback(v: Id) returns (r: ValueInfo)
      requires Valid() && v < |P.defs|
      ensures Correct(P, v, r) && AllDynamic(P, v, r)
    {
      r := CreateDynamic(P, v);
      forall env | Execution(P, env)
        ensures Sound(P, env, v, r)
      {
        DynamicSound(P, env, v, r);
      }
    }

    method ComputeFromKnownBits(v: Id, known: KnownBits) returns (r: ValueInfo)
      requires Valid() && v < |P.defs|
      requires P.defs[v] == ScalarConstant(known) || (P.defs[v].Other? && P.defs[v].integerBits == Some(known))
      ensures Correct(P, v, r) && IsKnownBits(P, v, known, r)
    {
      hide Settled;
      assert WellTyped(P, v);
      r := CreateConstant(P, v, known);
      forall env | Execution(P, env)
        ensures Sound(P, env, v, r)
      {
        assert Evaluates(P, env, v);
        KnownSound(P, env, v, known, r);
      }
    }

    /** computeConstantValueInfo. */
    method ComputeConstantValueInfo(v: Id) returns (r: ValueInfo)
      requires Valid() && v < |P.defs|
      requires !P.defs[v].IsInstruction() && !P.defs[v].Undef? && !P.defs[v].Argument?
      modifies this
      ensures Valid() && Correct(P, v, r)
      ensures Transferred(P, ValueInfos, v, r, {})
      ensures forall w :: w in old(ValueInfos) ==> w in ValueInfos && ValueInfos[w] == old(ValueInfos)[w]
      ensures forall w :: w in ValueInfos && w !in old(ValueInfos) ==> w < v && !P.defs[w].IsInstruction()
      decreases v, 1
    {
      hide Settled;
      match P.defs[v] {
        case NullConstant =>
          r := CreateUniformConstant(P, v, ZeroWord());
          forall i, k | 0 <= i < |r| && 0 <= k < 32
            ensures !r[i].constantValue[k]
          {
            assert !ZeroWord()[k];
          }
          forall i | 0 <= i < |r| ensures r[i].constantValue == ZeroWord() {
          }
          forall env | Execution(P, env)
            ensures Sound(P, env, v, r)
          {
            assert Evaluates(P, env, v);
            NullSound(P, env, v, r);
          }
        case ScalarConstant(known) =>
          r := ComputeFromKnownBits(v, known);
        case ConstantSequence(elements, elementBits, packed) =>
          if !packed || elementBits % (8 * P.bytesPerSlice) != 0 {
            r := Fallback(v);
          } else {
            r := ConcatenateElements(v, elements, elementBits);
          }
        case _ =>
          r := Fallback(v);
      }
    }

    /** The element loop of computeConstantValueInfo. */
    method ConcatenateElements(v: Id, elements: seq<Id>, elementBits: nat) returns (r: ValueInfo)
      requires Valid() && v < |P.defs| && P.defs[v] == ConstantSequence(elements, elementBits, true)
      requires elementBits % (8 * P.bytesPerSlice) == 0
      modifies this
      ensures Valid() && Correct(P, v, r) && IsSequence(P, ValueInfos, elements, elementBits, r)
      ensures forall w :: w in old(ValueInfos) ==> w in ValueInfos && ValueInfos[w] == old(ValueInfos)[w]
      ensures forall w :: w in ValueInfos && w !in old(ValueInfos) ==> w < v && !P.defs[w].IsInstruction()
      decreases v, 0
    {
      hide Settled;
      hide Correct;
      hide Sound;
      hide Evaluates;
      hide Tiled;
      r := [];
      ghost var infos: seq<ValueInfo> := [];
      ghost var m := elementBits / (8 * P.bytesPerSlice);
      ElementSlices(P, elementBits, m);
      NothingTiled(m);
      for elemIdx := 0 to |elements|
        invariant Valid()
        invariant |infos| == elemIdx && Tiled(r, infos, m) && Named(r)
        invariant forall e :: 0 <= e < elemIdx ==> elements[e] < |P.defs| && Correct(P, elements[e], infos[e])
        invariant forall e :: 0 <= e < elemIdx ==> elements[e] in ValueInfos && ValueInfos[elements[e]] == infos[e]
        invariant forall w :: w in old(ValueInfos) ==> w in ValueInfos && ValueInfos[w] == old(ValueInfos)[w]
        invariant forall w :: w in ValueInfos && w !in old(ValueInfos) ==> w < v && !P.defs[w].IsInstruction()
      {
        assert WellTyped(P, v);
        var info := GetOrComputeValueInfo(elements[elemIdx], false);
        CorrectLength(P, elements[elemIdx], info);
        ElementNumSlices(P, elements[elemIdx], elementBits, m);
        TileAppend(r, infos, m, info);
        r := r + info;
        infos := infos + [info];
      }
      assert InfosOf(ValueInfos, elements) == infos;
      assert Untruncated(P, v);
      SequenceCorrect(P, v, elements, elementBits, m, infos, r);
    }

    /** getOrComputeValueInfo. */
    method GetOrComputeValueInfo(v: Id, knownToBeNew: bool) returns (r: ValueInfo)
      requires Valid() && v < |P.defs| && (knownToBeNew ==> v !in ValueInfos)
      requires forall o :: Needs(P, v, o) ==> o in ValueInfos
      requires AllLate(P, v, Missing(P, ValueInfos, v))
      modifies this
      ensures Valid() && v in ValueInfos && r == ValueInfos[v]
      ensures forall w :: w in old(ValueInfos) ==> w in ValueInfos && ValueInfos[w] == old(ValueInfos)[w]
      ensures forall w :: w in ValueInfos && w !in old(ValueInfos) ==> w == v || (w < v && !P.defs[w].IsInstruction())
      decreases v, 3
    {
      hide Settled;
      hide Transferred;
      hide Correct;
      if !knownToBeNew && v in ValueInfos {
        return ValueInfos[v];
      }
      ghost var late := Missing(P, ValueInfos, v);
      r := ComputeValueInfo(v);
      assert v !in ValueInfos;
      RecordedSettled(P, ValueInfos, v, r, late);
      ValueInfos := ValueInfos[v := r];
    }

    /** computeValueInfoFromAssumption. */
    method ComputeValueInfoFromAssumption(v: Id, assumption: ValueInfo) returns (r: ValueInfo)
      requires Valid() && v < |P.defs| && v in P.assumptions && P.assumptions[v] == assumption
      requires forall o :: Needs(P, v, o) ==> o in ValueInfos
      ensures Correct(P, v, r) && IsAssumed(P, v, ValueInfos, assumption, r)
    {
      hide Settled;
      var referenced: seq<Option<ValueInfo>> := [];
      for i := 0 to |assumption|
        invariant |referenced| == i
        invariant forall j :: 0 <= j < i ==> referenced[j] == ReferencedInfo(ValueInfos, v, assumption[j])
        invariant forall j :: 0 <= j < i && referenced[j].Some? ==>
                                assumption[j].dynamicValue.Some? && assumption[j].dynamicValue.value < |P.defs| &&
                                Correct(P, assumption[j].dynamicValue.value, referenced[j].value)
      {
        var info: Option<ValueInfo> := None;
        if assumption[i].dynamicValue.Some? && assumption[i].dynamicValue.value != v {
          assert assumption[i].dynamicValue.value in Referenced(P, v);
          assert Needs(P, v, assumption[i].dynamicValue.value);
          info := Some(ValueInfos[assumption[i].dynamicValue.value]);
        }
        referenced := referenced + [info];
      }
      assert referenced == ReferencedInfos(ValueInfos, v, assumption);
      ReferencedNeeded(P, ValueInfos, v);
      r := CreateFromAssumption(P, v, assumption, referenced);
      assert NamesValues(P, assumption);
      forall env | Execution(P, env)
        ensures Sound(P, env, v, r)
      {
        AssumptionSound(P, env, v, assumption, referenced, r);
      }
    }

    /** computeValueInfo.  Every lookup that the source asserts to succeed does. */
    method ComputeValueInfo(v: Id) returns (r: ValueInfo)
      requires Valid() && v < |P.defs|
      requires forall o :: Needs(P, v, o) ==> o in ValueInfos
      modifies this
      ensures Valid() && Correct(P, v, r)
      ensures Transferred(P, ValueInfos, v, r, Missing(P, old(ValueInfos), v))
      ensures forall w :: w in old(ValueInfos) ==> w in ValueInfos && ValueInfos[w] == old(ValueInfos)[w]
      ensures forall w :: w in ValueInfos && w !in old(ValueInfos) ==> w < v && !P.defs[w].IsInstruction()
      decreases v, 2
    {
      hide Settled;
      if P.defs[v].Undef? {
        r := CreateUndef(P, v);
        forall env | Execution(P, env)
          ensures Sound(P, env, v, r)
        {
          assert Evaluates(P, env, v);
          UndefSound(P, env, v, r);
        }
        return;
      }
      if P.defs[v].Argument? {
        r := Fallback(v);
        return;
      }
      if !P.defs[v].IsInstruction() {
        r := ComputeConstantValueInfo(v);
        return;
      }
      if v in P.assumptions {
        r := ComputeValueInfoFromAssumption(v, P.assumptions[v]);
        return;
      }
      r := ComputeInstruction(v);
    }

    /** The instruction switch of computeValueInfo. */
    method ComputeInstruction(v: Id) returns (r: ValueInfo)
      requires Valid() && v < |P.defs| && P.defs[v].IsInstruction() && v !in P.assumptions
      requires forall o :: Needs(P, v, o) ==> o in ValueInfos
      ensures Correct(P, v, r) && Transferred(P, ValueInfos, v, r, Missing(P, ValueInfos, v))
    {
      hide Correct;
      hide Settled;
      hide WellTyped;
      match P.defs[v] {
        case Cast(op) =>
          assert Needs(P, v, op);
          r := ComputeCast(v, op);
        case Freeze(op) =>
          assert Needs(P, v, op);
          r := ComputeFreeze(v, op);
        case Extract(agg, offset) =>
          r := ComputeExtraction(v, agg, offset);
        case Insert(agg, ins, offset) =>
          r := ComputeInsertion(v, agg, ins, offset);
        case Phi(incoming) =>
          r := ComputePhi(v, incoming);
          assert forall j :: 0 <= j < |incoming| ==> (incoming[j] in Missing(P, ValueInfos, v) <==> incoming[j] !in ValueInfos);
        case Select(t, f, _) =>
          assert Needs(P, v, t) && Needs(P, v, f);
          r := ComputeSelection(v, [t, f]);
          assert InfosOf(ValueInfos, [t, f]) == [ValueInfos[t], ValueInfos[f]];
        case Opaque(_) =>
          r := Fallback(v);
        case Other(_, integerBits) =>
          if integerBits.Some? {
            r := ComputeFromKnownBits(v, integerBits.value);
          } else {
            r := Fallback(v);
          }
      }
    }

    method ComputeCast(v: Id, op: Id) returns (r: ValueInfo)
      requires Valid() && v < |P.defs| && P.defs[v] == Cast(op) && op in ValueInfos
      ensures Correct(P, v, r) && r == ValueInfos[op]
    {
      hide Settled;
      assert WellTyped(P, v);
      r := ValueInfos[op];
      forall env | Execution(P, env)
        ensures Sound(P, env, v, r)
      {
        assert Evaluates(P, env, v);
        CastSound(P, env, v, op, r);
      }
    }

    method ComputeFreeze(v: Id, op: Id) returns (r: ValueInfo)
      requires Valid() && v < |P.defs| && P.defs[v] == Freeze(op) && op in ValueInfos
      ensures Correct(P, v, r) && IsFreeze(P, v, ValueInfos[op], r)
    {
      hide Settled;
      assert WellTyped(P, v);
      r := CreateFreeze(P, v, ValueInfos[op]);
      forall env | Execution(P, env)
        ensures Sound(P, env, v, r)
      {
        assert Evaluates(P, env, v);
        FreezeSound(P, env, v, op, ValueInfos[op], r);
      }
    }

    method ComputeExtraction(v: Id, agg: Id, offset: Option<nat>) returns (r: ValueInfo)
      requires Valid() && v < |P.defs| && P.defs[v] == Extract(agg, offset)
      requires agg in ValueInfos
      ensures Correct(P, v, r) && (if offset.None? then AllDynamic(P, v, r) else IsExtraction(P, v, ValueInfos[agg], offset.value, r))
    {
      hide Settled;
      hide Evaluates;
      hide Sound;
      if offset.None? {
        r := Fallback(v);
        return;
      }
      assert WellTyped(P, v) && Untruncated(P, agg);
      UntruncatedExtraction(P, v, agg, ValueInfos[agg], offset.value);
      r := CreateExtraction(P, v, ValueInfos[agg], offset.value);
      forall env | Execution(P, env)
        ensures Sound(P, env, v, r)
      {
        assert Evaluates(P, env, v);
        ExtractionSound(P, env, v, agg, offset.value, ValueInfos[agg], r);
      }
    }

    method ComputeInsertion(v: Id, agg: Id, ins: Id, offset: Option<nat>) returns (r: ValueInfo)
      requires Valid() && v < |P.defs| && P.defs[v] == Insert(agg, ins, offset)
      requires agg in ValueInfos && ins in ValueInfos
      ensures Correct(P, v, r) && ins < |P.defs|
      ensures if offset.None? then AllDynamic(P, v, r)
              else IsInsertion(P, v, ValueInfos[agg], ValueInfos[ins], offset.value, P.NumBytes(ins), r)
    {
      hide Settled;
      hide Evaluates;
      hide Sound;
      if offset.None? {
        r := Fallback(v);
        return;
      }
      assert WellTyped(P, v) && Untruncated(P, ins);
      UntruncatedInsertion(P, v, ins, ValueInfos[ins], offset.value, |ValueInfos[agg]|);
      r := CreateInsertion(P, v, ValueInfos[agg], ValueInfos[ins], offset.value, P.NumBytes(ins));
      forall env | Execution(P, env)
        ensures Sound(P, env, v, r)
      {
        assert Evaluates(P, env, v);
        InsertionSound(P, env, v, agg, ins, offset.value, ValueInfos[agg], ValueInfos[ins], r);
      }
    }

    method ComputePhi(v: Id, incoming: seq<Id>) returns (r: ValueInfo)
      requires Valid() && v < |P.defs| && P.defs[v] == Phi(incoming)
      ensures Correct(P, v, r)
      ensures if exists j :: 0 <= j < |incoming| && incoming[j] !in ValueInfos then AllDynamic(P, v, r)
              else IsSelect(P, v, InfosOf(ValueInfos, incoming), r)
    {
      hide Settled;
      for i := 0 to |incoming|
        invariant forall j :: 0 <= j < i ==> incoming[j] in ValueInfos
      {
        if incoming[i] !in ValueInfos {
          // Not analyzed yet: a loop, which is treated conservatively.
          r := Fallback(v);
          return;
        }
      }
      r := ComputeSelection(v, incoming);
    }

    /** createSelect for a phi or select whose alternatives have all been analyzed. */
    method ComputeSelection(v: Id, alternatives: seq<Id>) returns (r: ValueInfo)
      requires Valid() && v < |P.defs|
      requires SelectsFrom(P, v, alternatives)
      requires forall j :: 0 <= j < |alternatives| ==> alternatives[j] in ValueInfos
      ensures Correct(P, v, r) && IsSelect(P, v, InfosOf(ValueInfos, alternatives), r)
    {
      hide Settled;
      var infos := InfosOf(ValueInfos, alternatives);
      SelectionTyped(P, v, alternatives);
      r := CreateSelect(P, v, infos);
      SelectionCorrect(P, v, alternatives, infos, r);
    }

    /** AddToWorkList: instructions are queued once, other values are analyzed at once. */
    method AddToWorkList(v: Id, worklist: seq<Id>, pending: set<Id>) returns (worklist': seq<Id>, pending': set<Id>)
      requires Valid() && v < |P.defs|
      requires forall w :: w in pending ==> w < |P.defs| && P.defs[w].IsInstruction() && w !in ValueInfos
      modifies this
      ensures Valid() && (v in ValueInfos || v in pending')
      ensures forall w :: w in old(ValueInfos) ==> w in ValueInfos && ValueInfos[w] == old(ValueInfos)[w]
      ensures forall w :: w in pending' ==> w < |P.defs| && P.defs[w].IsInstruction() && w !in ValueInfos
      ensures (worklist', pending') == (worklist, pending) ||
              (v !in pending && pending' == pending + {v} && worklist' == worklist + [v])
    {
      worklist', pending' := worklist, pending;
      if v in ValueInfos {
        return;
      }
      if P.defs[v].IsInstruction() {
        if v !in pending {
          pending' := pending' + {v};
          worklist' := worklist' + [v];
        }
      } else {
        var info := GetOrComputeValueInfo(v, true);
      }
    }

    /** Queues every value of a list. */
    method AddAll(vs: seq<Id>, worklist: seq<Id>, pending: set<Id>) returns (worklist': seq<Id>, pending': set<Id>)
      requires Valid() && forall i :: 0 <= i < |vs| ==> vs[i] < |P.defs|
      requires forall w :: w in pending ==> w < |P.defs| && P.defs[w].IsInstruction() && w !in ValueInfos
      modifies this
      ensures Valid() && forall i :: 0 <= i < |vs| ==> vs[i] in ValueInfos || vs[i] in pending'
      ensures forall w :: w in old(ValueInfos) ==> w in ValueInfos && ValueInfos[w] == old(ValueInfos)[w]
      ensures forall w :: w in pending' ==> w < |P.defs| && P.defs[w].IsInstruction() && w !in ValueInfos
      ensures pending <= pending' && (pending' == pending ==> worklist' == worklist)
      ensures forall w :: w in worklist' <==> w in worklist || w in pending' - pending
    {
      hide Settled;
      hide Correct;
      hide WellTyped;
      worklist', pending' := worklist, pending;
      for i := 0 to |vs|
        invariant Valid() && forall j :: 0 <= j < i ==> vs[j] in ValueInfos || vs[j] in pending'
        invariant forall w :: w in old(ValueInfos) ==> w in ValueInfos && ValueInfos[w] == old(ValueInfos)[w]
        invariant forall w :: w in pending' ==> w < |P.defs| && P.defs[w].IsInstruction() && w !in ValueInfos
        invariant pending <= pending' && (pending' == pending ==> worklist' == worklist)
        invariant forall w :: w in worklist' <==> w in worklist || w in pending' - pending
      {
        worklist', pending' := AddToWorkList(vs[i], worklist', pending');
      }
    }

    /** What the collection phase of analyzeValues reaches: everything an element depends on is analyzed or collected. */
    ghost predicate Collected(pending: set<Id>)
      reads this
    {
      (forall w :: w in pending ==> w < |P.defs| && P.defs[w].IsInstruction()) &&
      forall w, o :: w in pending && o in Visits(P, w) ==> o in ValueInfos || o in pending
    }

    /** The worklist loop of analyzeValues. */
    method CollectDependencies(values: seq<Id>) returns (pending: set<Id>)
      requires Valid() && forall i :: 0 <= i < |values| ==> values[i] < |P.defs|
      modifies this
      ensures Valid() && Collected(pending) && forall w :: w in pending ==> w !in ValueInfos
      ensures forall i :: 0 <= i < |values| ==> values[i] in ValueInfos || values[i] in pending
      ensures forall w :: w in old(ValueInfos) ==> w in ValueInfos && ValueInfos[w] == old(ValueInfos)[w]
    {
      hide Settled;
      hide Correct;
      hide WellTyped;
      hide Visits;
      var worklist: seq<Id> := [];
      worklist, pending := AddAll(values, worklist, {});
      ghost var all := set v: Id | 0 <= v < |P.defs| && P.defs[v].IsInstruction();
      while worklist != []
        invariant Valid()
        invariant forall w :: w in old(ValueInfos) ==> w in ValueInfos && ValueInfos[w] == old(ValueInfos)[w]
        invariant forall i :: 0 <= i < |values| ==> values[i] in ValueInfos || values[i] in pending
        invariant forall w :: w in pending ==> w < |P.defs| && P.defs[w].IsInstruction() && w !in ValueInfos
        invariant forall w :: w in worklist ==> w in pending
        invariant forall w, o :: w in pending && w !in worklist && o in Visits(P, w) ==> o in ValueInfos || o in pending
        decreases all - pending, |worklist|
      {
        var inst := worklist[|worklist| - 1];
        ghost var before := worklist;
        worklist := worklist[..|worklist| - 1];
        assert before == worklist + [inst] && inst in before;
        VisitsExist(P, inst);
        worklist, pending := AddAll(Visits(P, inst), worklist, pending);
      }
    }

    /** The reverse post order loop of analyzeValues. */
    method AnalyzePending(collected: set<Id>)
      requires Valid() && Ordered(P) && Collected(collected) && forall w :: w in collected ==> w !in ValueInfos
      modifies this
      ensures Valid() && forall w :: w in collected ==> w in ValueInfos
      ensures forall w :: w in old(ValueInfos) ==> w in ValueInfos && ValueInfos[w] == old(ValueInfos)[w]
    {
      hide Settled;
      hide Correct;
      hide WellTyped;
      hide Visits;
      hide Needs;
      var pending := collected;
      for i := 0 to |P.rpo|
        invariant Valid() && Collected(collected)
        invariant forall w :: w in old(ValueInfos) ==> w in ValueInfos && ValueInfos[w] == old(ValueInfos)[w]
        invariant forall w :: w in collected ==> (w in pending <==> w !in ValueInfos)
        invariant pending <= collected
        invariant forall w :: w in P.rpo[..i] && w in collected ==> w in ValueInfos
      {
        var inst := P.rpo[i];
        if inst in pending {
          pending := pending - {inst};
          forall o | Needs(P, inst, o)
            ensures o in ValueInfos
          {
            NeedsAreVisited(P, inst, o);
            if o in collected {
              assert o in P.rpo[..i];
            }
          }
          MissingAreLate(P, ValueInfos, collected, i);
          var info := GetOrComputeValueInfo(inst, true);
        }
      }
      assert P.rpo[..|P.rpo|] == P.rpo;
    }

    /** analyzeValues: collect everything the values depend on, then analyze in reverse post order. */
    method AnalyzeValues(values: seq<Id>)
      requires Valid() && Ordered(P) && forall i :: 0 <= i < |values| ==> values[i] < |P.defs|
      modifies this
      ensures Valid() && forall i :: 0 <= i < |values| ==> values[i] in ValueInfos
      ensures forall w :: w in old(ValueInfos) ==> w in ValueInfos && ValueInfos[w] == old(ValueInfos)[w]
    {
      hide Correct;
      hide TypedProgram;
      var pending := CollectDependencies(values);
      AnalyzePending(pending);
    }

    /** getValueInfo. */
    method GetValueInfo(v: Id) returns (r: ValueInfo)
      requires Valid() && Ordered(P) && v < |P.defs|
      modifies this
      ensures Valid() && Correct(P, v, r) && v in ValueInfos && r == ValueInfos[v]
    {
      AnalyzeValues([v]);
      assert [v][0] in ValueInfos;
      r := ValueInfos[v];
    }
  }

  /** A slice with a single status is right without qualification about the other statuses. */
  lemma SingleConstant(P: Program, env: seq<Image>, v: Id, info: ValueInfo, i: nat, k: nat)
    requires TypedProgram(P) && v < |P.defs| && Correct(P, v, info) && Execution(P, env)
    requires i < |info| && info[i].status == {Constant}
    requires k < 8 * P.bytesPerSlice && P.Live(v, Start(P, i), k)
    ensures BitAt(env[v], Start(P, i), k) == Known(info[i].constantValue[k])
  {
    assert Sound(P, env, v, info);
    var bit :| bit in info[i].status && Explains(P, env, info[i], bit, v, Start(P, i));
  }

  /** A frozen value agrees with the origin that its dynamic slice names exactly where that origin is
      defined: a freeze of an argument that is undef at run time does not have the argument's bits. */
  lemma FrozenOriginExactly(P: Program, env: seq<Image>, v: Id, op: Id, w: Id, info: ValueInfo, i: nat, k: nat)
    requires TypedProgram(P) && v < |P.defs| && P.defs[v] == Freeze(op) && Correct(P, v, info) && Execution(P, env)
    requires i < |info| && info[i].status == {Dynamic} && info[i].dynamicValue == Some(w)
    requires k < 8 * P.bytesPerSlice && P.Live(v, Start(P, i), k) && w < |env|
    ensures BitAt(env[v], Start(P, i), k) == BitAt(env[w], 8 * info[i].byteOffset, k) <==>
            BitAt(env[w], 8 * info[i].byteOffset, k).Known?
  {
    assert Sound(P, env, v, info) && Evaluates(P, env, v) && WellTyped(P, v);
    var bit :| bit in info[i].status && Explains(P, env, info[i], bit, v, Start(P, i));
    assert BitAt(env[v], Start(P, i), k) == env[v][Start(P, i) + k];
  }

  ghost predicate SelectsFrom(P: Program, v: Id, alternatives: seq<Id>)
    requires v < |P.defs|
  {
    P.defs[v] == Phi(alternatives) || (P.defs[v].Select? && alternatives == [P.defs[v].trueValue, P.defs[v].falseValue])
  }

  lemma SelectionTyped(P: Program, v: Id, alternatives: seq<Id>)
    requires TypedProgram(P) && v < |P.defs| && SelectsFrom(P, v, alternatives)
    ensures forall j :: 0 <= j < |alternatives| ==>
                          SameType(P, v, alternatives[j]) && P.NumSlices(alternatives[j]) == P.NumSlices(v)
  {
    assert WellTyped(P, v);
    forall j | 0 <= j < |alternatives|
      ensures SameType(P, v, alternatives[j])
    {
    }
  }

  lemma SelectionCorrect(P: Program, v: Id, alternatives: seq<Id>, infos: seq<ValueInfo>, r: ValueInfo)
    requires TypedProgram(P) && v < |P.defs| && SelectsFrom(P, v, alternatives)
    requires |infos| == |alternatives|
    requires forall j :: 0 <= j < |infos| ==> alternatives[j] < |P.defs| && Correct(P, alternatives[j], infos[j])
    requires |r| == P.NumSlices(v) && Named(r) && IsSelect(P, v, infos, r)
    ensures Correct(P, v, r)
  {
    SelectionTyped(P, v, alternatives);
    forall i, j | 0 <= i < |r| && 0 <= j < |infos|
      ensures i < |infos[j]| && (r[i] == DynamicSlice(P, v, i) || Includes(r[i], infos[j][i]))
    {
      if |infos| > 1 { SelectedIncludes(P, v, infos, i, r[i], j); }
    }
    hide Sound;
    hide Includes;
    forall env | Execution(P, env)
      ensures Sound(P, env, v, r)
    {
      assert Evaluates(P, env, v);
      if alternatives == [] {
        DynamicSound(P, env, v, r);
      } else {
        var j := ChosenAlternative(P, env, v, alternatives);
        assert Correct(P, alternatives[j], infos[j]);
        SelectSound(P, env, v, alternatives[j], infos, j, r);
      }
    }
  }

  lemma ChosenAlternative(P: Program, env: seq<Image>, v: Id, alternatives: seq<Id>) returns (j: nat)
    requires TypedProgram(P) && v < |P.defs| && SelectsFrom(P, v, alternatives) && alternatives != []
    requires |env| == |P.defs| && WellTyped(P, v) && Evaluates(P, env, v)
    ensures j < |alternatives| && alternatives[j] < |env| && env[v] == env[alternatives[j]]
  {
    if P.defs[v].Phi? {
      j :| 0 <= j < |alternatives| && env[v] == env[alternatives[j]];
    } else {
      j := if env[v] == env[alternatives[0]] then 0 else 1;
    }
  }

  lemma SequenceCorrect(P: Program, v: Id, elements: seq<Id>, n: nat, m: nat, infos: seq<ValueInfo>, r: ValueInfo)
    requires TypedProgram(P) && v < |P.defs| && P.defs[v] == ConstantSequence(elements, n, true) && Untruncated(P, v)
    requires n == 8 * Times(P.bytesPerSlice, m) && |infos| == |elements| && Tiled(r, infos, m) && Named(r)
    requires forall e :: 0 <= e < |elements| ==> elements[e] < |P.defs| && Correct(P, elements[e], infos[e])
    ensures Correct(P, v, r)
  {
    hide Sound;
    assert WellTyped(P, v);
    SequenceSlices(P, v, |elements|, n, m);
    forall env | Execution(P, env)
      ensures Sound(P, env, v, r)
    {
      assert Evaluates(P, env, v);
      forall e | 0 <= e < |elements|
        ensures Sound(P, env, elements[e], infos[e])
      {
        assert Correct(P, elements[e], infos[e]);
      }
      SequenceSound(P, env, v, elements, n, m, infos, r);
    }
  }

  /** An incoming value of the phi at position `i` that has no result yet comes at that position or later. */
  lemma MissingAreLate(P: Program, infos: map<Id, ValueInfo>, collected: set<Id>, i: nat)
    requires i < |P.rpo| && P.rpo[i] < |P.defs|
    requires forall o :: o in Visits(P, P.rpo[i]) ==> o in infos || o in collected
    requires forall o :: o in collected ==> o < |P.defs| && P.defs[o].IsInstruction()
    requires forall w :: w in P.rpo[..i] && w in collected ==> w in infos
    ensures AllLate(P, P.rpo[i], Missing(P, infos, P.rpo[i]))
  {
    var v := P.rpo[i];
    if P.defs[v].Phi? {
      forall o | o in P.defs[v].incoming && o !in infos ensures Late(P, v, o) {
        assert o in P.defs[v].Operands();
        assert o in Visits(P, v);
        assert P.rpo[i] == v && o !in P.rpo[..i];
      }
    }
  }

  lemma CorrectLength(P: Program, v: Id, info: ValueInfo)
    requires TypedProgram(P) && v < |P.defs| && Correct(P, v, info)
    ensures |info| == P.NumSlices(v) && Named(info)
  {
  }

  lemma ReferencedNeeded(P: Program, infos: map<Id, ValueInfo>, v: Id)
    requires v < |P.defs| && v in P.assumptions && forall o :: Needs(P, v, o) ==> o in infos
    ensures Referenced(P, v) <= infos.Keys
  {
    forall i | 0 <= i < |P.assumptions[v]| && P.assumptions[v][i].dynamicValue.Some? && P.assumptions[v][i].dynamicValue.value != v
      ensures P.assumptions[v][i].dynamicValue.value in infos
    {
      assert Needs(P, v, P.assumptions[v][i].dynamicValue.value);
    }
  }

  /** A new result that the transfer function gives is settled, and the earlier ones stay settled. */
  lemma RecordedSettled(P: Program, infos: map<Id, ValueInfo>, v: Id, r: ValueInfo, late: set<Id>)
    requires P.Shaped() && v < |P.defs| && v !in infos && Transferred(P, infos, v, r, late)
    requires AllLate(P, v, late)
    requires forall w :: w in infos ==> w < |P.defs| && Settled(P, infos, w)
    ensures forall w :: w in infos || w == v ==> Settled(P, infos[v := r], w)
  {
    hide Transferred;
    var later := infos[v := r];
    TransferredLater(P, infos, later, v, r, late);
    forall w | w in infos ensures Settled(P, later, w) {
      SettledLater(P, infos, later, w);
    }
  }

  /** The values that the worklist loop visits from instruction `v`: operands, and what an assumption names. */
  function Visits(P: Program, v: Id): seq<Id>
    requires v < |P.defs|
  {
    P.defs[v].Operands() + if v in P.assumptions then AssumedIds(P.assumptions[v]) else []
  }

  lemma VisitsExist(P: Program, v: Id)
    requires TypedProgram(P) && v < |P.defs|
    ensures forall i :: 0 <= i < |Visits(P, v)| ==> Visits(P, v)[i] < |P.defs|
  {
    assert WellTyped(P, v);
    forall i | 0 <= i < |Visits(P, v)|
      ensures Visits(P, v)[i] < |P.defs|
    {
      if i >= |P.defs[v].Operands()| {
        var o := Visits(P, v)[i];
        assert o == AssumedIds(P.assumptions[v])[i - |P.defs[v].Operands()|];
        AssumedIdsAre(P.assumptions[v], o);
      }
    }
  }

  lemma NeedsAreVisited(P: Program, v: Id, o: Id)
    requires v < |P.defs| && Needs(P, v, o)
    ensures o in Visits(P, v)
  {
    if v in P.assumptions {
      AssumedIdsAre(P.assumptions[v], o);
    }
  }

  function AssumedIds(assumption: ValueInfo): seq<Id>
  {
    if assumption == [] then []
    else (if assumption[0].dynamicValue.Some? then [assumption[0].dynamicValue.value] else []) + AssumedIds(assumption[1..])
  }

  lemma {:induction false} AssumedIdsAre(assumption: ValueInfo, o: Id)
    ensures o in AssumedIds(assumption) <==>
            exists i :: 0 <= i < |assumption| && assumption[i].dynamicValue == Some(o)
  {
    if assumption != [] {
      AssumedIdsAre(assumption[1..], o);
      if exists i :: 0 <= i < |assumption[1..]| && assumption[1..][i].dynamicValue == Some(o) {
        var i :| 0 <= i < |assumption[1..]| && assumption[1..][i].dynamicValue == Some(o);
        assert assumption[i + 1].dynamicValue == Some(o);
      }
      if exists i :: 0 < i < |assumption| && assumption[i].dynamicValue == Some(o) {
        var i :| 0 < i < |assumption| && assumption[i].dynamicValue == Some(o);
        assert assumption[1..][i - 1].dynamicValue == Some(o);
      }
    }
  }

  lemma NothingTiled(m: nat)
    ensures Tiled([], [], m)
  {
  }

  lemma ElementSlices(P: Program, elementBits: nat, m: nat)
    requires P.Shaped() && elementBits % (8 * P.bytesPerSlice) == 0 && m == elementBits / (8 * P.bytesPerSlice)
    ensures elementBits == 8 * Times(P.bytesPerSlice, m) && elementBits % 8 == 0
  {
    var w := 8 * P.bytesPerSlice;
    assert elementBits == m * w;
    assert m * (8 * P.bytesPerSlice) == 8 * (P.bytesPerSlice * m);
  }

  lemma ElementNumSlices(P: Program, e: Id, n: nat, m: nat)
    requires P.Shaped() && e < |P.defs| && P.bits[e] == n && n == 8 * Times(P.bytesPerSlice, m) && Untruncated(P, e)
    ensures P.NumSlices(e) == m
  {
    var s := P.bytesPerSlice;
    TimesLaws(s, m, 0);
    QuotientUnique(m, s, s - 1);
  }
}
