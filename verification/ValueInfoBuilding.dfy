/** ValueInfoBuilder: the functions that build the analysis result of one value
(compilerutils/lib/ValueOriginTracking.cpp), each with the proof that its result is sound. */
module ValueInfoBuilding {
  import opened OriginTracking

  // ----- slice positions -----

  lemma StartAdds(P: Program, i: nat, j: nat)
    ensures Start(P, i + j) == Start(P, i) + Start(P, j)
  {
    var s := P.bytesPerSlice;
    assert s * (i + j) == s * i + s * j;
  }

  lemma StartOfAligned(P: Program, offset: nat)
    requires 0 < P.bytesPerSlice && offset % P.bytesPerSlice == 0
    ensures Start(P, offset / P.bytesPerSlice) == 8 * offset
  {
  }

  lemma StartNext(P: Program, i: nat)
    ensures Start(P, i + 1) == Start(P, i) + 8 * P.bytesPerSlice && Start(P, 0) == 0
  {
    StartAdds(P, i, 1);
  }

  /** The first byte of slice `i`. */
  function FirstByte(P: Program, i: nat): nat { P.bytesPerSlice * i }

  /** The value is small enough that no slice is cut off. */
  predicate Untruncated(P: Program, v: Id)
    requires v < |P.bits|
  {
    P.NumBytes(v) <= P.maxBytesPerValue
  }

  lemma QuotientUnique(q: nat, b: nat, r: nat)
    requires r < b
    ensures (q * b + r) / b == q
  {
    var p := (q * b + r) / b;
    assert q * b + r == p * b + (q * b + r) % b;
    if p < q {
      assert (q - p) * b == q * b - p * b;
      assert (q - p) * b >= b by { MulAtLeast(q - p, b); }
      assert false;
    } else if q < p {
      assert (p - q) * b == p * b - q * b;
      assert (p - q) * b >= b by { MulAtLeast(p - q, b); }
      assert false;
    }
  }

  lemma MulAtLeast(a: nat, b: nat)
    requires 1 <= a
    ensures a * b >= b
  {
    assert a * b == (a - 1) * b + b;
  }

  // ----- the fallback -----

  /** A slice that refers to the value itself. */
  function DynamicSlice(P: Program, v: Id, i: nat): SliceInfo
  {
    SliceInfo({Dynamic}, ZeroWord(), Some(v), P.bytesPerSlice * i)
  }

  lemma DynamicSliceCovers(P: Program, env: seq<Image>, v: Id, i: nat)
    requires P.Shaped() && |env| == |P.defs| && v < |env|
    ensures Covers(P, env, DynamicSlice(P, v, i), v, Start(P, i))
  {
    assert Explains(P, env, DynamicSlice(P, v, i), Dynamic, v, Start(P, i));
  }

  method CreateDynamic(P: Program, v: Id) returns (r: ValueInfo)
    requires P.Shaped() && v < |P.defs|
    ensures |r| == P.NumSlices(v)
    ensures forall i :: 0 <= i < |r| ==> r[i] == DynamicSlice(P, v, i)
    ensures forall i :: 0 <= i < |r| ==> r[i] == SliceInfo({Dynamic}, ZeroWord(), Some(v), P.bytesPerSlice * i)
  {
    r := [];
    var sliceIdx := 0;
    while sliceIdx < P.NumSlices(v)
      invariant |r| == sliceIdx <= P.NumSlices(v)
      invariant forall i :: 0 <= i < |r| ==> r[i] == DynamicSlice(P, v, i)
    {
      r := r + [DynamicSlice(P, v, sliceIdx)];
      sliceIdx := sliceIdx + 1;
    }
  }

  lemma DynamicSound(P: Program, env: seq<Image>, v: Id, r: ValueInfo)
    requires P.Shaped() && |env| == |P.defs| && v < |env|
    requires |r| == P.NumSlices(v) && forall i :: 0 <= i < |r| ==> r[i] == DynamicSlice(P, v, i)
    ensures Sound(P, env, v, r)
  {
    forall i | 0 <= i < |r|
      ensures Covers(P, env, r[i], v, Start(P, i))
    {
      DynamicSliceCovers(P, env, v, i);
    }
  }

  // ----- undef -----

  method CreateUndef(P: Program, v: Id) returns (r: ValueInfo)
    requires P.Shaped() && v < |P.defs|
    ensures r == seq(P.NumSlices(v), _ => SliceInfo({UndefOrPoison}, ZeroWord(), None, 0))
  {
    r := seq(P.NumSlices(v), _ => SliceInfo({UndefOrPoison}, ZeroWord(), None, 0));
  }

  lemma UndefSound(P: Program, env: seq<Image>, v: Id, r: ValueInfo)
    requires P.Shaped() && |env| == |P.defs| && v < |env| && WellTyped(P, v) && P.defs[v].Undef? && Evaluates(P, env, v)
    requires r == seq(P.NumSlices(v), _ => SliceInfo({UndefOrPoison}, ZeroWord(), None, 0))
    ensures Sound(P, env, v, r)
  {
    forall i | 0 <= i < |r|
      ensures Covers(P, env, r[i], v, Start(P, i))
    {
      assert Explains(P, env, r[i], UndefOrPoison, v, Start(P, i));
    }
  }

  // ----- constants -----

  function MaskLow(w: Word, n: nat): Word
  {
    seq(32, k requires 0 <= k < 32 => k < n && w[k])
  }

  /** createUniformConstant: the same constant on every slice, without the dead bits of the last one. */
  method CreateUniformConstant(P: Program, v: Id, uniformConstantValue: Word) returns (r: ValueInfo)
    requires P.Shaped() && v < |P.defs|
    ensures |r| == P.NumSlices(v)
    ensures forall i :: 0 <= i < |r| ==> r[i].status == {Constant}
    ensures forall i, k :: 0 <= i < |r| && 0 <= k < 8 * P.bytesPerSlice && Start(P, i) + k < P.bits[v] ==>
                             r[i].constantValue[k] == uniformConstantValue[k]
    ensures forall i, k :: 0 <= i < |r| && 0 <= k < 32 && r[i].constantValue[k] ==> uniformConstantValue[k]
    ensures forall i, k :: 0 <= i < |r| && 0 <= k < 32 ==>
                             (r[i].constantValue[k] <==>
                              uniformConstantValue[k] &&
                              (Start(P, i) + 8 * P.bytesPerSlice <= P.bits[v] || Start(P, i) + k < P.bits[v]))
    ensures forall i :: 0 <= i < |r| ==> r[i].dynamicValue == None
  {
    var si := SliceInfo({Constant}, uniformConstantValue, None, 0);
    r := [];
    var bitsPerSlice := 8 * P.bytesPerSlice;
    var numRemainingBits: int := P.bits[v];
    var sliceIdx := 0;
    StartNext(P, 0);
    while sliceIdx < P.NumSlices(v)
      invariant |r| == sliceIdx <= P.NumSlices(v)
      invariant numRemainingBits == P.bits[v] - Start(P, sliceIdx)
      invariant forall i :: 0 <= i < |r| ==> r[i] == si && Start(P, i) + bitsPerSlice <= P.bits[v]
      invariant si == SliceInfo({Constant}, uniformConstantValue, None, 0)
    {
      if numRemainingBits < bitsPerSlice {
        LastSlice(P, v, sliceIdx);
        si := si.(constantValue := MaskLow(si.constantValue, numRemainingBits));
        r := r + [si];
        break;
      }
      r := r + [si];
      StartNext(P, sliceIdx);
      numRemainingBits := numRemainingBits - bitsPerSlice;
      sliceIdx := sliceIdx + 1;
    }
  }

  /** The slice that a value does not fill is its last one, and it is not empty. */
  lemma LastSlice(P: Program, v: Id, i: nat)
    requires P.Shaped() && v < |P.defs| && i < P.NumSlices(v)
    ensures 0 < P.bits[v] - Start(P, i)
    ensures P.bits[v] - Start(P, i) < 8 * P.bytesPerSlice ==> i + 1 == P.NumSlices(v)
  {
    var s := P.bytesPerSlice;
    var n := Min(P.NumBytes(v), P.maxBytesPerValue);
    var q := P.NumSlices(v);
    assert i <= q - 1;
    assert s * i <= s * (q - 1) by { assert s * (q - 1) == s * i + s * (q - 1 - i); }
    if i + 1 < q {
      assert s * (i + 1) <= s * (q - 1) by { assert s * (q - 1) == s * (i + 1) + s * (q - 2 - i); }
      StartNext(P, i);
    }
  }

  lemma NullSound(P: Program, env: seq<Image>, v: Id, r: ValueInfo)
    requires P.Shaped() && |env| == |P.defs| && v < |env| && WellTyped(P, v) && P.defs[v].NullConstant? && Evaluates(P, env, v)
    requires |r| == P.NumSlices(v) && forall i :: 0 <= i < |r| ==> r[i].status == {Constant}
    requires forall i, k :: 0 <= i < |r| && 0 <= k < 32 ==> !r[i].constantValue[k]
    ensures Sound(P, env, v, r)
  {
    forall i | 0 <= i < |r|
      ensures Covers(P, env, r[i], v, Start(P, i))
    {
      assert Explains(P, env, r[i], Constant, v, Start(P, i));
    }
  }

  /** One 64-bit word of an arbitrary-width integer; bits beyond the integer are zero. */
  function RawWord(ai: seq<bool>, q: nat): seq<bool>
  {
    seq(64, k requires 0 <= k < 64 => 64 * q + k < |ai| && ai[64 * q + k])
  }

  function ShiftRight(w: seq<bool>, n: nat): (r: seq<bool>)
    ensures |r| == |w|
  {
    seq(|w|, k requires 0 <= k < |w| => k + n < |w| && w[k + n])
  }

  /** The 32 bits that start at byte `b`, as far as they lie in one 64-bit word. */
  function BitsAtByte(ai: seq<bool>, b: nat): Word
  {
    var dwIdx := b / 4;
    var byteOffsetInDW := b % 4;
    var qw := RawWord(ai, dwIdx / 2);
    var dw := if dwIdx % 2 != 0 then ShiftRight(qw, 32) else qw;
    ShiftRight(dw, 8 * byteOffsetInDW)[..32]
  }

  /** The lambda GetSliceFromAPInt. */
  function GetSliceFromAPInt(P: Program, ai: seq<bool>, sliceIdx: nat): Word
    requires P.Shaped()
  {
    MaskLow(BitsAtByte(ai, P.bytesPerSlice * sliceIdx), 8 * P.bytesPerSlice)
  }

  /** The bit of the whole value that bit `k` of slice `i` is. */
  function Position(P: Program, i: nat, k: nat): nat { Start(P, i) + k }

  predicate BitSet(ai: seq<bool>, p: nat) { p < |ai| && ai[p] }

  lemma BitsAtByteAre(ai: seq<bool>, b: nat, k: nat)
    requires k < 32
    ensures BitsAtByte(ai, b)[k] <==> 32 * (b / 4 % 2) + 8 * (b % 4) + k < 64 && BitSet(ai, 8 * b + k)
  {
    var q, o := b / 4 / 2, b % 4;
    var qw := RawWord(ai, q);
    if b / 4 % 2 != 0 {
      assert 8 * b == 64 * q + 32 + 8 * o;
      assert BitsAtByte(ai, b)[k] == ShiftRight(ShiftRight(qw, 32), 8 * o)[k];
    } else {
      assert 8 * b == 64 * q + 8 * o;
      assert BitsAtByte(ai, b)[k] == ShiftRight(qw, 8 * o)[k];
    }
  }

  /** The extracted slice holds the bits of the integer at that slice, as far as they lie in the 64-bit word of its first byte;
      only three-byte slices can straddle two words. */
  lemma SliceOfAPInt(P: Program, ai: seq<bool>, i: nat)
    requires P.Shaped()
    ensures forall k :: 0 <= k < 32 ==>
                          (GetSliceFromAPInt(P, ai, i)[k] <==>
                           k < 8 * P.bytesPerSlice && 8 * (P.bytesPerSlice * i % 8) + k < 64 && BitSet(ai, Position(P, i, k)))
    ensures forall k :: 0 <= k < 32 && GetSliceFromAPInt(P, ai, i)[k] ==>
                          k < 8 * P.bytesPerSlice && BitSet(ai, Position(P, i, k))
    ensures P.bytesPerSlice != 3 ==>
              forall k :: 0 <= k < 8 * P.bytesPerSlice && BitSet(ai, Position(P, i, k)) ==> GetSliceFromAPInt(P, ai, i)[k]
  {
    hide GetSliceFromAPInt;
    hide BitSet;
    hide Position;
    if P.bytesPerSlice != 3 {
      SliceInWord(P.bytesPerSlice, i);
    }
    forall k | 0 <= k < 32
      ensures GetSliceFromAPInt(P, ai, i)[k] <==>
              k < 8 * P.bytesPerSlice && 8 * (P.bytesPerSlice * i % 8) + k < 64 && BitSet(ai, Position(P, i, k))
    {
      SliceBit(P, ai, i, k);
    }
  }

  /** All bits of the slice that belong to the value are known. */
  ghost predicate FullyKnown(P: Program, v: Id, kb: KnownBits, i: nat)
    requires P.Shaped() && v < |P.defs|
  {
    forall k :: 0 <= k < 8 * P.bytesPerSlice && Position(P, i, k) < P.bits[v] ==>
                  BitSet(kb.one, Position(P, i, k)) || BitSet(kb.zero, Position(P, i, k))
  }

  /** All bits of the slice that belong to the value lie in the 64-bit word that its first byte is in.  A three-byte slice
      can straddle two words. */
  ghost predicate InOneWord(P: Program, v: Id, i: nat)
    requires P.Shaped() && v < |P.defs|
  {
    forall k :: 0 <= k < 8 * P.bytesPerSlice && Position(P, i, k) < P.bits[v] ==> 8 * (P.bytesPerSlice * i % 8) + k < 64
  }

  /** The extracted words leave no bit of the slice unknown. */
  ghost predicate WordsKnown(P: Program, v: Id, kb: KnownBits, i: nat)
    requires P.Shaped() && v < |P.defs|
  {
    var one, zero := GetSliceFromAPInt(P, kb.one, i), GetSliceFromAPInt(P, kb.zero, i);
    forall k :: 0 <= k < 8 * P.bytesPerSlice && Position(P, i, k) < P.bits[v] ==> one[k] || zero[k]
  }

  /** The slices that become constants are exactly the known ones in one word. */
  lemma WordsKnownExactly(P: Program, v: Id, kb: KnownBits, i: nat)
    requires P.Shaped() && v < |P.defs|
    ensures WordsKnown(P, v, kb, i) <==> FullyKnown(P, v, kb, i) && InOneWord(P, v, i)
    ensures P.bytesPerSlice != 3 ==> InOneWord(P, v, i)
  {
    hide GetSliceFromAPInt;
    hide BitSet;
    hide Position;
    if P.bytesPerSlice != 3 {
      SliceInWord(P.bytesPerSlice, i);
    }
    var one, zero := GetSliceFromAPInt(P, kb.one, i), GetSliceFromAPInt(P, kb.zero, i);
    SliceOfAPInt(P, kb.one, i);
    SliceOfAPInt(P, kb.zero, i);
    if WordsKnown(P, v, kb, i) {
      forall k | 0 <= k < 8 * P.bytesPerSlice && Position(P, i, k) < P.bits[v]
        ensures BitSet(kb.one, Position(P, i, k)) || BitSet(kb.zero, Position(P, i, k))
      {
        assert one[k] || zero[k];
      }
    }
  }

  /** one | zero has exactly the lowest `mask` bits set. */
  predicate IsMask(one: Word, zero: Word, mask: nat)
  {
    forall k :: 0 <= k < 32 ==> ((one[k] || zero[k]) <==> k < mask)
  }

  /** createConstant: constant slices where all bits are known, dynamic slices elsewhere. */
  method CreateConstant(P: Program, v: Id, kb: KnownBits) returns (r: ValueInfo)
    requires P.Shaped() && v < |P.defs| && |kb.one| == |kb.zero| == P.bits[v]
    ensures |r| == P.NumSlices(v)
    ensures forall i :: 0 <= i < |r| ==> r[i] == KnownBitsSlice(P, v, kb, i)
    ensures forall i :: 0 <= i < |r| ==>
                          (r[i].status == {Constant} <==> FullyKnown(P, v, kb, i) && InOneWord(P, v, i))
    ensures P.bytesPerSlice != 3 ==>
              forall i :: 0 <= i < |r| ==> (r[i].status == {Constant} <==> FullyKnown(P, v, kb, i))
    ensures forall i, k :: 0 <= i < |r| && r[i].status == {Constant} && 0 <= k < 32 ==>
                             (r[i].constantValue[k] <==> k < 8 * P.bytesPerSlice && BitSet(kb.one, Position(P, i, k)))
    ensures forall i :: 0 <= i < |r| && r[i].status == {Constant} ==> r[i].dynamicValue == None
    ensures forall i :: 0 <= i < |r| && r[i].status != {Constant} ==>
                          r[i] == SliceInfo({Dynamic}, ZeroWord(), Some(v), P.bytesPerSlice * i)
  {
    hide GetSliceFromAPInt;
    hide IsMask;
    hide WordsKnown;
    hide FullyKnown;
    hide InOneWord;
    hide BitSet;
    hide Start;
    r := [];
    var bitsPerSlice := 8 * P.bytesPerSlice;
    var sliceMask := bitsPerSlice;  // the number of ones, all of them low
    var numRemainingBits: int := P.bits[v];
    var sliceIdx := 0;
    StartNext(P, 0);
    while sliceIdx < P.NumSlices(v)
      invariant |r| == sliceIdx <= P.NumSlices(v)
      invariant numRemainingBits == P.bits[v] - Start(P, sliceIdx)
      invariant sliceIdx < P.NumSlices(v) ==> sliceMask == bitsPerSlice
      invariant forall i :: 0 <= i < |r| ==> r[i] == KnownBitsSlice(P, v, kb, i)
    {
      var one, zero := GetSliceFromAPInt(P, kb.one, sliceIdx), GetSliceFromAPInt(P, kb.zero, sliceIdx);
      LastSlice(P, v, sliceIdx);
      if numRemainingBits < bitsPerSlice {
        sliceMask := sliceMask - (bitsPerSlice - numRemainingBits);
      }
      MaskDecides(P, v, kb, sliceIdx, sliceMask);
      if IsMask(one, zero, sliceMask) {
        r := r + [SliceInfo({Constant}, one, None, 0)];
      } else {
        r := r + [DynamicSlice(P, v, sliceIdx)];
      }
      StartNext(P, sliceIdx);
      numRemainingBits := numRemainingBits - bitsPerSlice;
      sliceIdx := sliceIdx + 1;
    }
    KnownBitsExactly(P, v, kb, r);
  }

  /** The exact answer for every slice size: a slice is constant if and only if its bits are known and lie in one
      64-bit word, and then it has the bits known to be one. */
  lemma KnownBitsExactly(P: Program, v: Id, kb: KnownBits, r: ValueInfo)
    requires P.Shaped() && v < |P.defs| && |kb.one| == |kb.zero| == P.bits[v]
    requires forall i :: 0 <= i < |r| ==> r[i] == KnownBitsSlice(P, v, kb, i)
    ensures forall i :: 0 <= i < |r| ==>
                          (r[i].status == {Constant} <==> FullyKnown(P, v, kb, i) && InOneWord(P, v, i))
    ensures P.bytesPerSlice != 3 ==>
              forall i :: 0 <= i < |r| ==> (r[i].status == {Constant} <==> FullyKnown(P, v, kb, i))
    ensures forall i, k :: 0 <= i < |r| && r[i].status == {Constant} && 0 <= k < 32 ==>
                             (r[i].constantValue[k] <==> k < 8 * P.bytesPerSlice && BitSet(kb.one, Position(P, i, k)))
    ensures forall i :: 0 <= i < |r| && r[i].status == {Constant} ==> r[i].dynamicValue == None
    ensures forall i :: 0 <= i < |r| && r[i].status != {Constant} ==>
                          r[i] == SliceInfo({Dynamic}, ZeroWord(), Some(v), P.bytesPerSlice * i)
  {
    hide KnownBitsSlice;
    hide FullyKnown;
    hide InOneWord;
    forall i | 0 <= i < |r|
      ensures IsKnownSlice(P, v, kb, i, r[i])
      ensures P.bytesPerSlice != 3 ==> InOneWord(P, v, i)
    {
      KnownBitsSliceIs(P, v, kb, i);
    }
  }

  /** What slice `i` of known bits says, bit by bit. */
  ghost predicate IsKnownSlice(P: Program, v: Id, kb: KnownBits, i: nat, si: SliceInfo)
    requires P.Shaped() && v < |P.defs|
  {
    if FullyKnown(P, v, kb, i) && InOneWord(P, v, i) then
      si.status == {Constant} && si.dynamicValue == None &&
      forall k :: 0 <= k < 32 ==> (si.constantValue[k] <==> k < 8 * P.bytesPerSlice && BitSet(kb.one, Position(P, i, k)))
    else si == SliceInfo({Dynamic}, ZeroWord(), Some(v), P.bytesPerSlice * i)
  }

  lemma KnownBitsSliceIs(P: Program, v: Id, kb: KnownBits, i: nat)
    requires P.Shaped() && v < |P.defs| && |kb.one| == |kb.zero| == P.bits[v]
    ensures IsKnownSlice(P, v, kb, i, KnownBitsSlice(P, v, kb, i))
    ensures P.bytesPerSlice != 3 ==> InOneWord(P, v, i)
  {
    hide GetSliceFromAPInt;
    hide WordsKnown;
    hide Position;
    hide BitSet;
    WordsKnownExactly(P, v, kb, i);
    SliceOfAPInt(P, kb.one, i);
    forall k | 0 <= k < 8 * P.bytesPerSlice && InOneWord(P, v, i) && BitSet(kb.one, Position(P, i, k))
      ensures 8 * (P.bytesPerSlice * i % 8) + k < 64
    {
      BitExists(P, kb.one, i, k);
    }
  }

  lemma BitExists(P: Program, ai: seq<bool>, i: nat, k: nat)
    requires BitSet(ai, Position(P, i, k))
    ensures Position(P, i, k) < |ai|
  {
  }

  /** Slices of one, two or four bytes do not straddle 64-bit words. */
  lemma SliceInWord(s: nat, i: nat)
    requires s == 1 || s == 2 || s == 4
    ensures 8 * (s * i % 8) + 8 * s <= 64
  {
    if s == 1 {
      assert s * i == i;
    } else if s == 2 {
      TwiceOf(i, i / 4, i % 4);
      assert s * i == 2 * i;
    } else {
      FourTimes(i, i / 2, i % 2);
      assert s * i == 4 * i;
    }
  }

  lemma TwiceOf(i: nat, q: nat, r: nat)
    requires i == 4 * q + r && r < 4
    ensures 2 * i % 8 == 2 * r
  {
  }

  lemma FourTimes(i: nat, q: nat, r: nat)
    requires i == 2 * q + r && r < 2
    ensures 4 * i % 8 == 4 * r
  {
  }

  lemma ByteOfWord(b: nat)
    ensures 4 * (b / 4 % 2) + b % 4 == b % 8
  {
  }

  lemma SliceBit(P: Program, ai: seq<bool>, i: nat, k: nat)
    requires P.Shaped() && k < 32
    ensures GetSliceFromAPInt(P, ai, i)[k] <==>
            k < 8 * P.bytesPerSlice && 8 * (P.bytesPerSlice * i % 8) + k < 64 && BitSet(ai, Position(P, i, k))
  {
    hide BitsAtByte;
    hide BitSet;
    var b := P.bytesPerSlice * i;
    BitsAtByteAre(ai, b, k);
    ByteOfWord(b);
  }

  ghost function KnownBitsSlice(P: Program, v: Id, kb: KnownBits, i: nat): SliceInfo
    requires P.Shaped() && v < |P.defs|
  {
    if WordsKnown(P, v, kb, i) then SliceInfo({Constant}, GetSliceFromAPInt(P, kb.one, i), None, 0)
    else DynamicSlice(P, v, i)
  }

  /** Comparing one | zero with the mask decides whether the slice is known. */
  lemma MaskDecides(P: Program, v: Id, kb: KnownBits, i: nat, mask: nat)
    requires P.Shaped() && v < |P.defs| && |kb.one| == |kb.zero| == P.bits[v] && Start(P, i) < P.bits[v]
    requires mask == Min(8 * P.bytesPerSlice, P.bits[v] - Start(P, i))
    ensures var one, zero := GetSliceFromAPInt(P, kb.one, i), GetSliceFromAPInt(P, kb.zero, i);
            IsMask(one, zero, mask) <==> WordsKnown(P, v, kb, i)
  {
    hide GetSliceFromAPInt;
    SliceOfAPInt(P, kb.one, i);
    SliceOfAPInt(P, kb.zero, i);
    var one, zero := GetSliceFromAPInt(P, kb.one, i), GetSliceFromAPInt(P, kb.zero, i);
    if WordsKnown(P, v, kb, i) {
      forall k | 0 <= k < 32
        ensures (one[k] || zero[k]) <==> k < mask
      {
      }
    }
  }

  lemma KnownSound(P: Program, env: seq<Image>, v: Id, kb: KnownBits, r: ValueInfo)
    requires P.Shaped() && |env| == |P.defs| && v < |env| && WellTyped(P, v)
    requires |env[v]| == |P.live[v]| && |kb.one| == |kb.zero| == P.bits[v] && KnownBitsHold(kb, env[v])
    requires |r| == P.NumSlices(v) && forall i :: 0 <= i < |r| ==> r[i] == KnownBitsSlice(P, v, kb, i)
    ensures Sound(P, env, v, r)
  {
    forall i | 0 <= i < |r|
      ensures Covers(P, env, r[i], v, Start(P, i))
    {
      if WordsKnown(P, v, kb, i) {
        KnownSliceCovers(P, env, v, kb, i);
      } else {
        DynamicSliceCovers(P, env, v, i);
      }
    }
  }

  lemma KnownSliceCovers(P: Program, env: seq<Image>, v: Id, kb: KnownBits, i: nat)
    requires P.Shaped() && |env| == |P.defs| && v < |env| && WellTyped(P, v)
    requires |env[v]| == |P.live[v]| && |kb.one| == |kb.zero| == P.bits[v] && KnownBitsHold(kb, env[v])
    requires WordsKnown(P, v, kb, i)
    ensures Covers(P, env, KnownBitsSlice(P, v, kb, i), v, Start(P, i))
  {
    hide GetSliceFromAPInt;
    var si := KnownBitsSlice(P, v, kb, i);
    SliceOfAPInt(P, kb.one, i);
    SliceOfAPInt(P, kb.zero, i);
    forall k | 0 <= k < 8 * P.bytesPerSlice && P.Live(v, Start(P, i), k)
      ensures BitAt(env[v], Start(P, i), k) == Known(si.constantValue[k])
    {
      assert env[v][Position(P, i, k)] == BitAt(env[v], Start(P, i), k);
      assert GetSliceFromAPInt(P, kb.one, i)[k] || GetSliceFromAPInt(P, kb.zero, i)[k];
    }
    assert Explains(P, env, si, Constant, v, Start(P, i));
  }

  // ----- extraction -----

  /** The slices that an aligned extraction copies exist, or none of them does.  The source reads past
      the end of a shortened analysis result otherwise (line 278 copies NumSlices slices). */
  predicate ExtractionInBounds(P: Program, v: Id, aggInfo: ValueInfo, byteOffset: nat)
    requires P.Shaped() && v < |P.defs|
  {
    byteOffset % P.bytesPerSlice != 0 || |aggInfo| <= byteOffset / P.bytesPerSlice ||
    byteOffset / P.bytesPerSlice + P.NumSlices(v) <= |aggInfo|
  }

  /** createExtraction: a sub-range of the slices of an aggregate. */
  method CreateExtraction(P: Program, v: Id, aggInfo: ValueInfo, byteOffset: nat) returns (r: ValueInfo)
    requires P.Shaped() && v < |P.defs| && ExtractionInBounds(P, v, aggInfo, byteOffset)
    ensures |r| == P.NumSlices(v)
    ensures var begin := byteOffset / P.bytesPerSlice;
            forall i :: 0 <= i < |r| ==>
                          r[i] == if byteOffset % P.bytesPerSlice == 0 && begin < |aggInfo| then aggInfo[begin + i]
                                  else DynamicSlice(P, v, i)
  {
    if byteOffset % P.bytesPerSlice != 0 {
      r := CreateDynamic(P, v);
      return;
    }
    r := [];
    var beginSlice := byteOffset / P.bytesPerSlice;
    var resultNumSlices := P.NumSlices(v);
    if beginSlice < |aggInfo| {
      resultNumSlices := Min(P.NumSlices(v), |aggInfo| - beginSlice);
      r := aggInfo[beginSlice..beginSlice + P.NumSlices(v)];
    }
    var sliceIdx := |r|;
    while sliceIdx < resultNumSlices
      invariant |r| == sliceIdx <= resultNumSlices == P.NumSlices(v)
      invariant forall i :: 0 <= i < |r| ==>
                              r[i] == if beginSlice < |aggInfo| then aggInfo[beginSlice + i] else DynamicSlice(P, v, i)
    {
      r := r + [DynamicSlice(P, v, sliceIdx)];
      sliceIdx := sliceIdx + 1;
    }
  }

  lemma MulDistributes(a: int, b: int, s: int)
    ensures (a + b) * s == a * s + b * s
  {
  }

  lemma MulMonotone(a: int, b: int, s: nat)
    requires a <= b
    ensures a * s <= b * s
  {
    MulDistributes(a, b - a, s);
    assert 0 <= (b - a) * s;
  }

  /** Without truncation an extraction stays within the aggregate's slices. */
  lemma UntruncatedExtraction(P: Program, v: Id, agg: Id, aggInfo: ValueInfo, offset: nat)
    requires P.Shaped() && v < |P.defs| && agg < |P.defs| && Untruncated(P, agg)
    requires offset + P.NumBytes(v) <= P.NumBytes(agg) && |aggInfo| == P.NumSlices(agg)
    ensures ExtractionInBounds(P, v, aggInfo, offset)
  {
  }

  lemma CeilDivAtMost(a: nat, n: nat, s: nat)
    requires 0 < s
    ensures CeilDiv(a, s) <= n <==> a <= n * s
  {
    var q := CeilDiv(a, s);
    hide CeilDiv;
    if a == 0 {
      assert 0 <= n * s;
    } else if q <= n {
      MulMonotone(q, n, s);
    } else {
      MulMonotone(n, q - 1, s);
    }
  }

  /** When the aggregate's result has been shortened to the limit, an aligned extraction stays within it exactly if it lies
      wholly before the end of the last slice or wholly behind it. */
  lemma ShortenedExtraction(P: Program, v: Id, agg: Id, aggInfo: ValueInfo, offset: nat)
    requires P.Shaped() && v < |P.defs| && agg < |P.defs| && P.maxBytesPerValue < P.NumBytes(agg)
    requires offset % P.bytesPerSlice == 0 && |aggInfo| == P.NumSlices(agg)
    ensures ExtractionInBounds(P, v, aggInfo, offset) <==>
            var end := Times(|aggInfo|, P.bytesPerSlice);
            end <= offset || offset + Min(P.NumBytes(v), P.maxBytesPerValue) <= end
  {
    var s := P.bytesPerSlice;
    var n := Min(P.NumBytes(v), P.maxBytesPerValue);
    hide CeilDiv;
    ShortenedBounds(n, offset, |aggInfo|, WholeSlices(offset, s), s);
  }

  function WholeSlices(bytes: nat, s: nat): (q: nat)
    requires 0 < s && bytes % s == 0
    ensures bytes == q * s && q == bytes / s
  {
    bytes / s
  }

  lemma ShortenedBounds(n: nat, offset: nat, q: nat, begin: nat, s: nat)
    requires 0 < s && offset == begin * s
    ensures (q <= begin || begin + CeilDiv(n, s) <= q) <==> (q * s <= offset || offset + n <= q * s)
  {
    hide CeilDiv;
    if begin < q {
      MulMonotone(begin + 1, q, s);
      MulDistributes(begin, 1, s);
      MulDistributes(begin, q - begin, s);
      CeilDivAtMost(n, q - begin, s);
    } else {
      MulMonotone(q, begin, s);
    }
  }

  /** With slices of four bytes and a limit of eight bytes, eight bytes are extracted from the second slice of a longer value: a slice
      that does not exist would be copied. */
  lemma ShortenedExtractionFails(aggInfo: ValueInfo)
    requires |aggInfo| == 2
    ensures var P := Program([Argument, Extract(0, Some(4))], [96, 64], [seq(96, _ => true), seq(64, _ => true)], map[], [], 4, 8, DynamicMode);
            P.Shaped() && P.NumSlices(0) == |aggInfo| && !ExtractionInBounds(P, 1, aggInfo, 4)
  {
    var P := Program([Argument, Extract(0, Some(4))], [96, 64], [seq(96, _ => true), seq(64, _ => true)], map[], [], 4, 8, DynamicMode);
    assert P.NumBytes(0) == 12 && P.NumBytes(1) == 8;
  }

  lemma ExtractionSound(P: Program, env: seq<Image>, v: Id, agg: Id, offset: nat, aggInfo: ValueInfo, r: ValueInfo)
    requires P.Shaped() && |env| == |P.defs| && v < |env| && WellTyped(P, v) && Evaluates(P, env, v)
    requires P.defs[v] == Extract(agg, Some(offset)) && Sound(P, env, agg, aggInfo)
    requires |r| == P.NumSlices(v)
    requires forall i :: 0 <= i < |r| ==>
                           r[i] == DynamicSlice(P, v, i) ||
                           (offset % P.bytesPerSlice == 0 && offset / P.bytesPerSlice + i < |aggInfo| &&
                            r[i] == aggInfo[offset / P.bytesPerSlice + i])
    ensures Sound(P, env, v, r)
  {
    hide Covers;
    forall i | 0 <= i < |r|
      ensures Covers(P, env, r[i], v, Start(P, i))
    {
      if r[i] == DynamicSlice(P, v, i) {
        DynamicSliceCovers(P, env, v, i);
      } else {
        ExtractedSlice(P, env, v, agg, offset, aggInfo, i);
      }
    }
  }

  lemma ExtractedSlice(P: Program, env: seq<Image>, v: Id, agg: Id, offset: nat, aggInfo: ValueInfo, i: nat)
    requires P.Shaped() && |env| == |P.defs| && v < |env| && WellTyped(P, v) && Evaluates(P, env, v)
    requires P.defs[v] == Extract(agg, Some(offset)) && Sound(P, env, agg, aggInfo)
    requires offset % P.bytesPerSlice == 0 && offset / P.bytesPerSlice + i < |aggInfo|
    ensures Covers(P, env, aggInfo[offset / P.bytesPerSlice + i], v, Start(P, i))
  {
    hide Covers;
    hide LiveInto;
    hide SameBits;
    var begin := offset / P.bytesPerSlice;
    StartAdds(P, begin, i);
    StartOfAligned(P, offset);
    Shifted(P, env, v, 0, agg, 8 * offset, |P.live[v]|, Start(P, i), Start(P, i), Start(P, begin + i));
    Transfer(P, env, aggInfo[begin + i], v, Start(P, i), agg, Start(P, begin + i));
  }

  /** Equality of two ranges of data bits, seen from `shift` bits further on. */
  lemma Shifted(P: Program, env: seq<Image>, v: Id, vBase: nat, w: Id, wBase: nat, count: nat, shift: nat,
                vFrom: nat, wFrom: nat)
    requires P.Shaped() && |env| == |P.defs| && v < |env| && w < |env|
    requires LiveInto(P, v, vBase, w, wBase, count) && SameBits(P, env, v, vBase, w, wBase, count)
    requires vBase + count >= |P.live[v]| || shift + 8 * P.bytesPerSlice <= count
    requires vFrom == vBase + shift && wFrom == wBase + shift
    ensures LiveInto(P, v, vFrom, w, wFrom, 8 * P.bytesPerSlice)
    ensures SameBits(P, env, v, vFrom, w, wFrom, 8 * P.bytesPerSlice)
  {
    forall k | 0 <= k < 8 * P.bytesPerSlice && P.Live(v, vFrom, k)
      ensures P.Live(w, wFrom, k) && BitAt(env[v], vFrom, k) == BitAt(env[w], wFrom, k)
    {
      assert P.Live(v, vBase, shift + k);
      assert P.Live(w, wBase, shift + k);
    }
  }

  // ----- insertion -----

  /** The slices that an insertion of `count` bytes at `offset` touches: [begin, end). */
  function SliceBegin(P: Program, offset: nat): nat
    requires P.Shaped()
  {
    offset / P.bytesPerSlice
  }

  function SliceEnd(P: Program, offset: nat, count: nat, limit: nat): nat
    requires P.Shaped()
  {
    Min(CeilDiv(offset + count, P.bytesPerSlice), limit)
  }

  /** What an insertion leaves in slice `i`. */
  function InsertedSlice(P: Program, v: Id, agg: ValueInfo, inserted: ValueInfo, offset: nat, count: nat, i: nat): SliceInfo
    requires P.Shaped() && i < |agg|
  {
    var begin, end := SliceBegin(P, offset), SliceEnd(P, offset, count, |agg|);
    if !(begin <= i < end) then agg[i]
    else if offset % P.bytesPerSlice != 0 || (count % P.bytesPerSlice != 0 && i == end - 1) || i - begin >= |inserted|
    then DynamicSlice(P, v, i)
    else inserted[i - begin]
  }

  /** createInsertion.  The result must have as many slices as the value has (the final assertion at
      line 320), so every touched slice must exist in the inserted value's result: the push at line
      311 would add a slice. */
  method CreateInsertion(P: Program, v: Id, agg: ValueInfo, inserted: ValueInfo, byteOffset: nat, insertedByteCount: nat)
    returns (r: ValueInfo)
    requires P.Shaped() && v < |P.defs| && |agg| == P.NumSlices(v)
    requires byteOffset % P.bytesPerSlice == 0 ==>
               SliceEnd(P, byteOffset, insertedByteCount, |agg|) <= SliceBegin(P, byteOffset) + |inserted|
    ensures |r| == P.NumSlices(v)
    ensures forall i :: 0 <= i < |r| ==> r[i] == InsertedSlice(P, v, agg, inserted, byteOffset, insertedByteCount, i)
    ensures var s, end := P.bytesPerSlice, byteOffset + insertedByteCount;
            && (forall i :: 0 <= i < |r| && (FirstByte(P, i) + s <= byteOffset || end <= FirstByte(P, i)) ==> r[i] == agg[i])
            && forall i :: 0 <= i < |r| && byteOffset < FirstByte(P, i) + s && FirstByte(P, i) < end ==>
                             if byteOffset % s == 0 && (insertedByteCount % s == 0 || (FirstByte(P, i) + s <= end && i + 1 < |agg|))
                             then 0 <= i - byteOffset / s < |inserted| && r[i] == inserted[i - byteOffset / s]
                             else r[i] == SliceInfo({Dynamic}, ZeroWord(), Some(v), FirstByte(P, i))
  {
    hide FirstByte;
    r := agg;
    var sliceBegin := SliceBegin(P, byteOffset);
    var sliceEnd := SliceEnd(P, byteOffset, insertedByteCount, |r|);
    var sliceIdx := sliceBegin;
    if byteOffset % P.bytesPerSlice != 0 {
      while sliceIdx < sliceEnd
        invariant sliceBegin <= sliceIdx <= sliceEnd || sliceEnd < sliceIdx == sliceBegin
        invariant |r| == |agg|
        invariant forall i :: 0 <= i < |r| ==>
                                r[i] == if sliceBegin <= i < sliceIdx then DynamicSlice(P, v, i) else agg[i]
      {
        r := r[sliceIdx := DynamicSlice(P, v, sliceIdx)];
        sliceIdx := sliceIdx + 1;
      }
      InsertedExactly(P, v, agg, inserted, byteOffset, insertedByteCount, r);
      return;
    }
    while sliceIdx < sliceEnd
      invariant sliceBegin <= sliceIdx <= sliceEnd || sliceEnd < sliceIdx == sliceBegin
      invariant |r| == |agg|
      invariant forall i :: 0 <= i < |r| ==>
                              r[i] == if sliceBegin <= i < sliceIdx then inserted[i - sliceBegin] else agg[i]
    {
      r := r[sliceIdx := inserted[sliceIdx - sliceBegin]];
      sliceIdx := sliceIdx + 1;
    }
    if insertedByteCount % P.bytesPerSlice != 0 && sliceBegin < sliceEnd {
      r := r[sliceEnd - 1 := DynamicSlice(P, v, sliceEnd - 1)];
    }
    InsertedExactly(P, v, agg, inserted, byteOffset, insertedByteCount, r);
  }

  /** In terms of bytes: slices outside the inserted range stay, those wholly inside an aligned one come from the inserted value,
      and the others refer to the value itself. */
  lemma InsertedExactly(P: Program, v: Id, agg: ValueInfo, inserted: ValueInfo, byteOffset: nat, count: nat, r: ValueInfo)
    requires P.Shaped() && |r| == |agg|
    requires byteOffset % P.bytesPerSlice == 0 ==> SliceEnd(P, byteOffset, count, |agg|) <= SliceBegin(P, byteOffset) + |inserted|
    requires forall i :: 0 <= i < |r| ==> r[i] == InsertedSlice(P, v, agg, inserted, byteOffset, count, i)
    ensures var s, end := P.bytesPerSlice, byteOffset + count;
            && (forall i :: 0 <= i < |r| && (FirstByte(P, i) + s <= byteOffset || end <= FirstByte(P, i)) ==> r[i] == agg[i])
            && forall i :: 0 <= i < |r| && byteOffset < FirstByte(P, i) + s && FirstByte(P, i) < end ==>
                             if byteOffset % s == 0 && (count % s == 0 || (FirstByte(P, i) + s <= end && i + 1 < |agg|))
                             then 0 <= i - byteOffset / s < |inserted| && r[i] == inserted[i - byteOffset / s]
                             else r[i] == SliceInfo({Dynamic}, ZeroWord(), Some(v), FirstByte(P, i))
  {
    hide InsertedSlice;
    hide SliceEnd;
    hide FirstByte;
    forall i | 0 <= i < |agg|
      ensures IsInsertedSlice(P, v, agg, inserted, byteOffset, count, i, r[i])
    {
      InsertedSliceIs(P, v, agg, inserted, byteOffset, count, i);
    }
    var s, end := P.bytesPerSlice, byteOffset + count;
    forall i | 0 <= i < |r| && byteOffset < FirstByte(P, i) + s && FirstByte(P, i) < end
      ensures if byteOffset % s == 0 && (count % s == 0 || (FirstByte(P, i) + s <= end && i + 1 < |agg|))
              then 0 <= i - byteOffset / s < |inserted| && r[i] == inserted[i - byteOffset / s]
              else r[i] == SliceInfo({Dynamic}, ZeroWord(), Some(v), FirstByte(P, i))
    {
      assert IsInsertedSlice(P, v, agg, inserted, byteOffset, count, i, r[i]);
    }
  }

  ghost predicate IsInsertedSlice(P: Program, v: Id, agg: ValueInfo, inserted: ValueInfo, offset: nat, count: nat, i: nat, r: SliceInfo)
    requires P.Shaped() && i < |agg|
  {
    var s, end := P.bytesPerSlice, offset + count;
    if FirstByte(P, i) + s <= offset || end <= FirstByte(P, i) then r == agg[i]
    else if offset % s == 0 && (count % s == 0 || (FirstByte(P, i) + s <= end && i + 1 < |agg|))
    then 0 <= i - offset / s < |inserted| && r == inserted[i - offset / s]
    else r == SliceInfo({Dynamic}, ZeroWord(), Some(v), FirstByte(P, i))
  }

  lemma InsertedSliceIs(P: Program, v: Id, agg: ValueInfo, inserted: ValueInfo, offset: nat, count: nat, i: nat)
    requires P.Shaped() && i < |agg|
    requires offset % P.bytesPerSlice == 0 ==> SliceEnd(P, offset, count, |agg|) <= SliceBegin(P, offset) + |inserted|
    ensures IsInsertedSlice(P, v, agg, inserted, offset, count, i, InsertedSlice(P, v, agg, inserted, offset, count, i))
  {
    hide CeilDiv;
    var s, end := P.bytesPerSlice, offset + count;
    AtLeastSlices(offset, s, i + 1);
    CeilDivAtMost(end, i, s);
    CeilDivAtMost(end, i + 1, s);
    MulDistributes(i, 1, s);
    if offset % s == 0 {
      AlignedEnd(offset, count, s, i + 1);
    }
  }

  /** Slice `n - 1` is wholly before an offset exactly if the offset is in slice `n` or later. */
  lemma AtLeastSlices(offset: nat, s: nat, n: nat)
    requires 0 < s
    ensures n <= offset / s <==> n * s <= offset
  {
    var q := offset / s;
    assert offset == q * s + offset % s;
    if n <= q {
      MulMonotone(n, q, s);
    } else {
      MulMonotone(q + 1, n, s);
      MulDistributes(q, 1, s);
    }
  }

  /** An aligned range with a partial last slice does not end between slices, and one without does. */
  lemma AlignedEnd(offset: nat, count: nat, s: nat, n: nat)
    requires 0 < s && offset % s == 0
    ensures count % s != 0 ==> n * s != offset + count
  {
    if n * s == offset + count {
      var q := offset / s;
      assert offset == q * s;
      MulDistributes(n, -q, s);
      assert (-q) * s == -(q * s);
      assert count == (n - q) * s;
      MulMonotone(0, s, 1);
      if n < q { MulMonotone(n + 1, q, s); MulDistributes(n, 1, s); assert false; }
      QuotientUnique(n - q, s, 0);
    }
  }

  lemma DivShift(b: nat, x: nat, s: nat)
    requires 0 < s
    ensures (b * s + x) / s == b + x / s
  {
    var q, r := x / s, x % s;
    assert x == q * s + r;
    MulDistributes(b, q, s);
    QuotientUnique(b + q, s, r);
  }

  lemma AlignedCeil(offset: nat, n: nat, s: nat)
    requires 0 < s && offset % s == 0
    ensures CeilDiv(offset + n, s) == offset / s + CeilDiv(n, s)
  {
    assert offset == offset / s * s;
    DivShift(offset / s, n + s - 1, s);
  }

  /** Without truncation every slice that an insertion touches exists in the inserted value's result. */
  lemma UntruncatedInsertion(P: Program, v: Id, ins: Id, inserted: ValueInfo, offset: nat, limit: nat)
    requires P.Shaped() && v < |P.defs| && ins < |P.defs| && Untruncated(P, ins) && |inserted| == P.NumSlices(ins)
    ensures offset % P.bytesPerSlice == 0 ==>
              SliceEnd(P, offset, P.NumBytes(ins), limit) <= SliceBegin(P, offset) + |inserted|
  {
    if offset % P.bytesPerSlice == 0 {
      AlignedCeil(offset, P.NumBytes(ins), P.bytesPerSlice);
    }
  }

  lemma InsertionSound(P: Program, env: seq<Image>, v: Id, agg: Id, ins: Id, offset: nat,
                       aggInfo: ValueInfo, inserted: ValueInfo, r: ValueInfo)
    requires P.Shaped() && |env| == |P.defs| && v < |env| && WellTyped(P, v) && Evaluates(P, env, v)
    requires P.defs[v] == Insert(agg, ins, Some(offset)) && Sound(P, env, agg, aggInfo) && Sound(P, env, ins, inserted)
    requires |r| == P.NumSlices(v) == |aggInfo|
    requires forall i :: 0 <= i < |r| ==> r[i] == InsertedSlice(P, v, aggInfo, inserted, offset, P.NumBytes(ins), i)
    ensures Sound(P, env, v, r)
  {
    hide Covers;
    var count := P.NumBytes(ins);
    forall i | 0 <= i < |r|
      ensures Covers(P, env, r[i], v, Start(P, i))
    {
      var begin, end := SliceBegin(P, offset), SliceEnd(P, offset, count, |aggInfo|);
      if !(begin <= i < end) {
        KeptSlice(P, env, v, agg, ins, offset, aggInfo, i);
      } else if r[i] == DynamicSlice(P, v, i) {
        DynamicSliceCovers(P, env, v, i);
      } else {
        ReplacedSlice(P, env, v, agg, ins, offset, inserted, |aggInfo|, i);
      }
    }
  }

  lemma SliceBounds(P: Program, offset: nat, n: nat, i: nat)
    requires P.Shaped()
    ensures i < SliceBegin(P, offset) ==> Start(P, i) + 8 * P.bytesPerSlice <= 8 * offset
    ensures i >= CeilDiv(offset + n, P.bytesPerSlice) ==> Start(P, i) >= 8 * (offset + n)
  {
    var s := P.bytesPerSlice;
    var begin := offset / s;
    if i < begin {
      MulMonotone(i + 1, begin, s);
      MulDistributes(i, 1, s);
      assert begin * s <= offset;
    }
    if i >= CeilDiv(offset + n, s) {
      MulMonotone(CeilDiv(offset + n, s), i, s);
    }
  }

  lemma KeptSlice(P: Program, env: seq<Image>, v: Id, agg: Id, ins: Id, offset: nat, aggInfo: ValueInfo, i: nat)
    requires P.Shaped() && |env| == |P.defs| && v < |env| && WellTyped(P, v) && Evaluates(P, env, v)
    requires P.defs[v] == Insert(agg, ins, Some(offset)) && Sound(P, env, agg, aggInfo) && i < |aggInfo|
    requires !(SliceBegin(P, offset) <= i < SliceEnd(P, offset, P.NumBytes(ins), |aggInfo|))
    ensures Covers(P, env, aggInfo[i], v, Start(P, i))
  {
    hide Covers;
    hide SameBits;
    var n := P.NumBytes(ins);
    SliceBounds(P, offset, n, i);
    if i < SliceBegin(P, offset) {
      Shifted(P, env, v, 0, agg, 0, 8 * offset, Start(P, i), Start(P, i), Start(P, i));
    } else {
      assert i >= CeilDiv(offset + n, P.bytesPerSlice);
      var end := 8 * (offset + n);
      Shifted(P, env, v, end, agg, end, |env[v]|, Start(P, i) - end, Start(P, i), Start(P, i));
    }
    Transfer(P, env, aggInfo[i], v, Start(P, i), agg, Start(P, i));
  }

  /** Slice `j` of `n` bytes is complete, unless it is the last and `n` is not a multiple of the slice size. */
  lemma WholeSlice(P: Program, n: nat, j: nat)
    requires P.Shaped() && j < CeilDiv(n, P.bytesPerSlice)
    requires n % P.bytesPerSlice != 0 ==> j + 1 < CeilDiv(n, P.bytesPerSlice)
    ensures Start(P, j) + 8 * P.bytesPerSlice <= 8 * n
  {
    var s := P.bytesPerSlice;
    var m := CeilDiv(n, s);
    MulDistributes(j, 1, s);
    if n % s == 0 {
      MulMonotone(j + 1, m, s);
      assert n == n / s * s;
    } else {
      MulMonotone(j + 1, m - 1, s);
    }
  }

  lemma ReplacedSlice(P: Program, env: seq<Image>, v: Id, agg: Id, ins: Id, offset: nat, inserted: ValueInfo, limit: nat, i: nat)
    requires P.Shaped() && |env| == |P.defs| && v < |env| && WellTyped(P, v) && Evaluates(P, env, v)
    requires P.defs[v] == Insert(agg, ins, Some(offset)) && Sound(P, env, ins, inserted)
    requires offset % P.bytesPerSlice == 0
    requires var begin, end := SliceBegin(P, offset), SliceEnd(P, offset, P.NumBytes(ins), limit);
             begin <= i < end && i - begin < |inserted| && (P.NumBytes(ins) % P.bytesPerSlice != 0 ==> i != end - 1)
    ensures Covers(P, env, inserted[i - SliceBegin(P, offset)], v, Start(P, i))
  {
    hide Covers;
    hide SameBits;
    hide LiveInto;
    var s, n, begin := P.bytesPerSlice, P.NumBytes(ins), SliceBegin(P, offset);
    var j := i - begin;
    StartAdds(P, begin, j);
    StartOfAligned(P, offset);
    AlignedCeil(offset, n, s);
    WholeSlice(P, n, j);
    Shifted(P, env, v, 8 * offset, ins, 0, 8 * n, Start(P, j), Start(P, i), Start(P, j));
    Transfer(P, env, inserted[j], v, Start(P, i), ins, Start(P, j));
  }

  // ----- constant arrays and vectors -----

  /** The results of the elements one after the other, `m` slices each. */
  ghost predicate Tiled(r: ValueInfo, infos: seq<ValueInfo>, m: nat)
  {
    |r| == |infos| * m && (forall e :: 0 <= e < |infos| ==> |infos[e]| == m) &&
    forall i :: 0 <= i < |r| ==> 0 < m && i / m < |infos| && r[i] == infos[i / m][i % m]
  }

  lemma TileAppend(r: ValueInfo, infos: seq<ValueInfo>, m: nat, info: ValueInfo)
    requires Tiled(r, infos, m) && |info| == m
    ensures Tiled(r + info, infos + [info], m)
  {
    MulDistributes(|infos|, 1, m);
    forall i | 0 <= i < |r + info|
      ensures 0 < m && i / m < |infos| + 1 && (r + info)[i] == (infos + [info])[i / m][i % m]
    {
      if i >= |r| {
        var t := i - |r|;
        QuotientUnique(|infos|, m, t);
        assert i == i / m * m + i % m;
      }
    }
  }

  lemma SequenceSound(P: Program, env: seq<Image>, v: Id, elements: seq<Id>, n: nat, m: nat, infos: seq<ValueInfo>, r: ValueInfo)
    requires P.Shaped() && |env| == |P.defs| && v < |env| && WellTyped(P, v) && Evaluates(P, env, v)
    requires P.defs[v] == ConstantSequence(elements, n, true) && n == 8 * Times(P.bytesPerSlice, m) && Untruncated(P, v)
    requires |infos| == |elements| && forall e :: 0 <= e < |elements| ==> Sound(P, env, elements[e], infos[e])
    requires Tiled(r, infos, m)
    ensures Sound(P, env, v, r)
  {
    hide Covers;
    hide Times;
    hide Start;
    SequenceSlices(P, v, |elements|, n, m);
    forall i | 0 <= i < |r|
      ensures Covers(P, env, r[i], v, Start(P, i))
    {
      var e, t := i / m, i % m;
      ElementStart(P, m, n, i, e, t);
      ElementSlice(P, env, v, elements, n, infos[e], e, t, Start(P, i));
    }
  }

  lemma TimesLaws(a: nat, b: nat, c: nat)
    ensures Times(a, 8 * Times(b, c)) == 8 * Times(Times(a, c), b)
    ensures Times(a, b) == Times(b, a)
  {
    assert a * (8 * (b * c)) == 8 * (a * (b * c));
    assert a * (b * c) == a * (c * b) == a * c * b;
  }

  lemma SequenceSlices(P: Program, v: Id, count: nat, n: nat, m: nat)
    requires P.Shaped() && v < |P.defs| && P.bits[v] == Times(count, n) && n == 8 * Times(P.bytesPerSlice, m)
    requires Untruncated(P, v)
    ensures P.NumSlices(v) == count * m
  {
    var s := P.bytesPerSlice;
    TimesLaws(count, s, m);
    assert P.NumBytes(v) == Times(Times(count, m), s) by {
      hide Times;
    }
    QuotientUnique(count * m, s, s - 1);
  }

  lemma ElementStart(P: Program, m: nat, n: nat, i: nat, e: nat, t: nat)
    requires n == 8 * Times(P.bytesPerSlice, m) && 0 < m && e == i / m && t == i % m
    ensures Start(P, i) == Times(e, n) + Start(P, t) && Start(P, t) + 8 * P.bytesPerSlice <= n
  {
    var s := P.bytesPerSlice;
    assert i == Times(e, m) + t;
    StartAdds(P, Times(e, m), t);
    TimesLaws(e, s, m);
    TimesLaws(s, Times(e, m), 0);
    MulMonotone(t + 1, m, s);
    MulDistributes(t, 1, s);
  }

  lemma ElementSlice(P: Program, env: seq<Image>, v: Id, elements: seq<Id>, n: nat, info: ValueInfo, e: nat, t: nat, start: nat)
    requires P.Shaped() && |env| == |P.defs| && v < |env| && WellTyped(P, v) && Evaluates(P, env, v)
    requires P.defs[v] == ConstantSequence(elements, n, true) && n % 8 == 0
    requires e < |elements| && Sound(P, env, elements[e], info) && t < |info|
    requires start == Times(e, n) + Start(P, t) && Start(P, t) + 8 * P.bytesPerSlice <= n
    ensures Covers(P, env, info[t], v, start)
  {
    hide Covers;
    hide SameBits;
    hide LiveInto;
    hide Times;
    hide Start;
    Shifted(P, env, v, Times(e, n), elements[e], 0, n, Start(P, t), start, Start(P, t));
    Transfer(P, env, info[t], v, start, elements[e], Start(P, t));
  }

  // ----- select and phi -----

  /** Slice `i` of every alternative. */
  function SlicesAt(infos: seq<ValueInfo>, i: nat): seq<SliceInfo>
    requires forall j :: 0 <= j < |infos| ==> i < |infos[j]|
  {
    seq(|infos|, j requires 0 <= j < |infos| => infos[j][i])
  }

  /** Every dynamic slice names its origin. */
  predicate Named(info: ValueInfo)
  {
    forall i :: 0 <= i < |info| && Dynamic in info[i].status ==> info[i].dynamicValue.Some?
  }

  /** Slice `i` of a selection: what the alternatives say together, or a reference to the value itself if they
      contradict each other. */
  ghost predicate SelectedSlice(P: Program, v: Id, slices: seq<SliceInfo>, i: nat, s: SliceInfo)
  {
    if Conflicting(slices) then s == DynamicSlice(P, v, i) else Combined(slices, s)
  }

  /** createSelect: each slice combines the slices of the alternatives; it stops where one has no more slices. */
  method CreateSelect(P: Program, v: Id, infos: seq<ValueInfo>) returns (r: ValueInfo)
    requires P.Shaped() && v < |P.defs|
    requires forall j :: 0 <= j < |infos| ==> Named(infos[j])
    ensures Named(r) && (|infos| != 1 ==> |r| <= P.NumSlices(v))
    ensures |r| < P.NumSlices(v) ==> exists j :: 0 <= j < |infos| && |infos[j]| == |r|
    ensures infos == [] ==> forall i :: 0 <= i < |r| ==> r[i] == DynamicSlice(P, v, i)
    ensures |infos| == 1 ==> r == infos[0]
    ensures |infos| > 1 ==> forall j :: 0 <= j < |infos| ==> |r| <= |infos[j]|
    ensures |infos| > 1 ==> forall i :: 0 <= i < |r| ==> SelectedSlice(P, v, SlicesAt(infos, i), i, r[i])
    ensures (forall j :: 0 <= j < |infos| ==> |infos[j]| == P.NumSlices(v)) ==> |r| == P.NumSlices(v)
  {
    if |infos| == 0 {
      r := CreateDynamic(P, v);
      return;
    }
    if |infos| == 1 {
      return infos[0];
    }
    r := [];
    var sliceIdx := 0;
    while sliceIdx < P.NumSlices(v)
      invariant |r| == sliceIdx <= P.NumSlices(v)
      invariant forall j :: 0 <= j < |infos| ==> sliceIdx <= |infos[j]|
      invariant forall i :: 0 <= i < |r| ==> SelectedSlice(P, v, SlicesAt(infos, i), i, r[i])
      invariant Named(r)
    {
      if exists j :: 0 <= j < |infos| && |infos[j]| <= sliceIdx {
        break;
      }
      var sliceInfos := SlicesAt(infos, sliceIdx);
      var optSliceInfo := CombineSliceInfosForSelect(sliceInfos);
      if optSliceInfo.Some? {
        r := r + [optSliceInfo.value];
      } else {
        r := r + [DynamicSlice(P, v, sliceIdx)];
      }
      sliceIdx := sliceIdx + 1;
    }
  }

  /** Slice `i` of a selection: two alternatives that contradict each other make it refer to the value itself; if no two do, it has every
      status of an alternative, with the constant and the origin on which they agree. */
  lemma SelectedExactly(P: Program, v: Id, infos: seq<ValueInfo>, i: nat, s: SliceInfo)
    requires forall j :: 0 <= j < |infos| ==> i < |infos[j]|
    requires SelectedSlice(P, v, SlicesAt(infos, i), i, s)
    ensures forall j, k :: 0 <= j < |infos| && 0 <= k < |infos| && Constant in infos[j][i].status && Constant in infos[k][i].status &&
                           infos[j][i].constantValue != infos[k][i].constantValue ==>
                             s == SliceInfo({Dynamic}, ZeroWord(), Some(v), P.bytesPerSlice * i)
    ensures forall j, k :: 0 <= j < |infos| && 0 <= k < |infos| && Dynamic in infos[j][i].status && Dynamic in infos[k][i].status &&
                           (infos[j][i].dynamicValue, infos[j][i].byteOffset) != (infos[k][i].dynamicValue, infos[k][i].byteOffset) ==>
                             s == SliceInfo({Dynamic}, ZeroWord(), Some(v), P.bytesPerSlice * i)
    ensures (forall j, k :: 0 <= j < |infos| && 0 <= k < |infos| ==>
                              && (Constant in infos[j][i].status && Constant in infos[k][i].status ==>
                                    infos[j][i].constantValue == infos[k][i].constantValue)
                              && (Dynamic in infos[j][i].status && Dynamic in infos[k][i].status ==>
                                    (infos[j][i].dynamicValue, infos[j][i].byteOffset) == (infos[k][i].dynamicValue, infos[k][i].byteOffset))) ==>
              && (forall bit :: bit in s.status <==> exists j :: 0 <= j < |infos| && bit in infos[j][i].status)
              && forall j :: 0 <= j < |infos| ==>
                               && (Constant in infos[j][i].status ==> s.constantValue == infos[j][i].constantValue)
                               && (Dynamic in infos[j][i].status ==>
                                     (s.dynamicValue, s.byteOffset) == (infos[j][i].dynamicValue, infos[j][i].byteOffset))
  {
    var slices := SlicesAt(infos, i);
    forall j | 0 <= j < |infos| ensures slices[j] == infos[j][i] {
    }
    if Conflicting(slices) {
      var j, k :| 0 <= j < k < |slices| && Conflict(slices, j, k);
      assert slices[j] == infos[j][i] && slices[k] == infos[k][i];
    } else {
      forall j, k | 0 <= j < |infos| && 0 <= k < |infos|
        ensures !Conflict(slices, j, k)
      {
      }
      forall bit | bit in s.status
        ensures exists j :: 0 <= j < |infos| && bit in infos[j][i].status
      {
        var j :| 0 <= j < |slices| && bit in slices[j].status;
        assert bit in infos[j][i].status;
      }
    }
  }

  /** A selection is dynamic or includes what each alternative says. */
  lemma SelectedIncludes(P: Program, v: Id, infos: seq<ValueInfo>, i: nat, s: SliceInfo, j: nat)
    requires j < |infos| && forall k :: 0 <= k < |infos| ==> i < |infos[k]|
    requires SelectedSlice(P, v, SlicesAt(infos, i), i, s)
    ensures s == DynamicSlice(P, v, i) || Includes(s, infos[j][i])
  {
    assert SlicesAt(infos, i)[j] == infos[j][i];
  }

  /** The result of a selection is sound for a value that equals alternative `j`. */
  lemma SelectSound(P: Program, env: seq<Image>, v: Id, w: Id, infos: seq<ValueInfo>, j: nat, r: ValueInfo)
    requires P.Shaped() && |env| == |P.defs| && v < |env| && SameType(P, v, w) && env[v] == env[w]
    requires j < |infos| && Sound(P, env, w, infos[j]) && |r| == P.NumSlices(v)
    requires forall i :: 0 <= i < |r| ==> r[i] == DynamicSlice(P, v, i) || (i < |infos[j]| && Includes(r[i], infos[j][i]))
    ensures Sound(P, env, v, r)
  {
    hide Covers;
    hide Includes;
    forall i | 0 <= i < |r|
      ensures Covers(P, env, r[i], v, Start(P, i))
    {
      if r[i] == DynamicSlice(P, v, i) {
        DynamicSliceCovers(P, env, v, i);
      } else {
        Transfer(P, env, infos[j][i], v, Start(P, i), w, Start(P, i));
        IncludesCovers(P, env, r[i], infos[j][i], v, Start(P, i));
      }
    }
  }

  lemma CastSound(P: Program, env: seq<Image>, v: Id, op: Id, info: ValueInfo)
    requires P.Shaped() && |env| == |P.defs| && v < |env| && WellTyped(P, v) && Evaluates(P, env, v)
    requires P.defs[v] == Cast(op) && Sound(P, env, op, info)
    ensures Sound(P, env, v, info)
  {
    hide Covers;
    hide SameBits;
    hide LiveInto;
    forall i | 0 <= i < |info|
      ensures Covers(P, env, info[i], v, Start(P, i))
    {
      Shifted(P, env, v, 0, op, 0, |P.live[v]|, Start(P, i), Start(P, i), Start(P, i));
      Transfer(P, env, info[i], v, Start(P, i), op, Start(P, i));
    }
  }

  // ----- freeze -----

  /** createFreeze. */
  method CreateFreeze(P: Program, v: Id, frozen: ValueInfo) returns (r: ValueInfo)
    requires P.Shaped() && v < |P.defs|
    ensures |r| == |frozen|
    ensures forall i :: 0 <= i < |r| ==>
                          r[i] == if P.freezeMode == DynamicMode && UndefOrPoison in frozen[i].status
                                  then DynamicSlice(P, v, i) else frozen[i]
  {
    if P.freezeMode == ForwardMode {
      return frozen;
    }
    r := frozen;
    var sliceIdx := 0;
    while sliceIdx < |r|
      invariant sliceIdx <= |r| == |frozen|
      invariant forall i :: 0 <= i < |r| ==>
                              r[i] == if i < sliceIdx && UndefOrPoison in frozen[i].status
                                      then DynamicSlice(P, v, i) else frozen[i]
    {
      if UndefOrPoison in r[sliceIdx].status {
        r := r[sliceIdx := DynamicSlice(P, v, sliceIdx)];
      }
      sliceIdx := sliceIdx + 1;
    }
  }

  lemma FreezeSound(P: Program, env: seq<Image>, v: Id, op: Id, frozen: ValueInfo, r: ValueInfo)
    requires P.Shaped() && |env| == |P.defs| && v < |env| && WellTyped(P, v) && Evaluates(P, env, v)
    requires P.defs[v] == Freeze(op) && Sound(P, env, op, frozen) && |r| == |frozen|
    requires forall i :: 0 <= i < |r| ==>
                           r[i] == if P.freezeMode == DynamicMode && UndefOrPoison in frozen[i].status
                                   then DynamicSlice(P, v, i) else frozen[i]
    ensures Sound(P, env, v, r)
  {
    forall i | 0 <= i < |r|
      ensures Covers(P, env, r[i], v, Start(P, i))
    {
      if r[i] == frozen[i] {
        if r[i] == DynamicSlice(P, v, i) {
          DynamicSliceCovers(P, env, v, i);
        }
      } else {
        DynamicSliceCovers(P, env, v, i);
      }
    }
  }

  // ----- assumptions -----

  /** An assumption states the truth about a value: each slice has one status, constants and undef
      slices are right, and a dynamic slice has the data bits of the value that it names. */
  ghost predicate AssumptionHolds(P: Program, env: seq<Image>, v: Id, assumption: ValueInfo)
    requires P.Shaped() && |env| == |P.defs| && v < |env|
  {
    forall i :: 0 <= i < |assumption| ==>
                  var a := assumption[i];
                  |a.status| == 1 && (a.dynamicValue.Some? ==> a.dynamicValue.value < |P.defs|) &&
                  if Dynamic in a.status then
                    a.dynamicValue.Some? &&
                    (var w := a.dynamicValue.value;
                     var count := 8 * P.bytesPerSlice;
                     LiveInto(P, v, Start(P, i), w, 8 * a.byteOffset, count) &&
                     SameBits(P, env, v, Start(P, i), w, 8 * a.byteOffset, count))
                  else Covers(P, env, a, v, Start(P, i))
  }

  /** What createFromAssumption reports for slice `i`; `referenced` is the analysis of the named value. */
  function AssumedSlice(P: Program, v: Id, assumption: ValueInfo, referenced: seq<Option<ValueInfo>>, i: nat): SliceInfo
    requires P.Shaped() && |assumption| == |referenced|
  {
    if i >= |assumption| then DynamicSlice(P, v, i)
    else if Dynamic !in assumption[i].status then assumption[i]
    else if referenced[i].None? || assumption[i].byteOffset % P.bytesPerSlice != 0 then DynamicSlice(P, v, i)
    else
      var j := assumption[i].byteOffset / P.bytesPerSlice;
      if j >= |referenced[i].value| then DynamicSlice(P, v, i) else referenced[i].value[j]
  }

  /** createFromAssumption. */
  method CreateFromAssumption(P: Program, v: Id, assumption: ValueInfo, referenced: seq<Option<ValueInfo>>)
    returns (r: ValueInfo)
    requires P.Shaped() && v < |P.defs| && |assumption| == |referenced|
    ensures |r| == P.NumSlices(v)
    ensures forall i :: 0 <= i < |r| ==> r[i] == AssumedSlice(P, v, assumption, referenced, i)
    ensures forall i :: 0 <= i < |r| && i < |assumption| && Dynamic !in assumption[i].status ==> r[i] == assumption[i]
    ensures forall i, j :: 0 <= i < |r| && i < |assumption| && Dynamic in assumption[i].status && referenced[i].Some? &&
                           0 <= j < |referenced[i].value| && assumption[i].byteOffset == FirstByte(P, j) ==>
                             r[i] == referenced[i].value[j]
    ensures forall i :: 0 <= i < |r| ==>
                          || (i < |assumption| && Dynamic !in assumption[i].status)
                          || (i < |assumption| && referenced[i].Some? &&
                              exists j :: 0 <= j < |referenced[i].value| && assumption[i].byteOffset == FirstByte(P, j))
                          || r[i] == SliceInfo({Dynamic}, ZeroWord(), Some(v), FirstByte(P, i))
  {
    hide FirstByte;
    r := [];
    var sliceIdx := 0;
    while sliceIdx < P.NumSlices(v)
      invariant |r| == sliceIdx <= P.NumSlices(v)
      invariant forall i :: 0 <= i < |r| ==> r[i] == AssumedSlice(P, v, assumption, referenced, i)
    {
      var si := DynamicSlice(P, v, sliceIdx);
      if sliceIdx < |assumption| {
        var assumptionSI := assumption[sliceIdx];
        if Dynamic !in assumptionSI.status {
          si := assumptionSI;
        } else if referenced[sliceIdx].Some? && assumptionSI.byteOffset % P.bytesPerSlice == 0 {
          var referencedSliceIdx := assumptionSI.byteOffset / P.bytesPerSlice;
          if referencedSliceIdx < |referenced[sliceIdx].value| {
            si := referenced[sliceIdx].value[referencedSliceIdx];
          }
        }
      }
      r := r + [si];
      sliceIdx := sliceIdx + 1;
    }
    AssumedExactly(P, v, assumption, referenced, r);
  }

  /** Slices with a constant or undefined assumption are those of the assumption, those that name the start of a slice of an analysed value
      are that slice, and the others refer to the value itself. */
  lemma AssumedExactly(P: Program, v: Id, assumption: ValueInfo, referenced: seq<Option<ValueInfo>>, r: ValueInfo)
    requires P.Shaped() && |assumption| == |referenced|
    requires forall i :: 0 <= i < |r| ==> r[i] == AssumedSlice(P, v, assumption, referenced, i)
    ensures forall i :: 0 <= i < |r| && i < |assumption| && Dynamic !in assumption[i].status ==> r[i] == assumption[i]
    ensures forall i, j :: 0 <= i < |r| && i < |assumption| && Dynamic in assumption[i].status && referenced[i].Some? &&
                           0 <= j < |referenced[i].value| && assumption[i].byteOffset == FirstByte(P, j) ==>
                             r[i] == referenced[i].value[j]
    ensures forall i :: 0 <= i < |r| ==>
                          || (i < |assumption| && Dynamic !in assumption[i].status)
                          || (i < |assumption| && referenced[i].Some? &&
                              exists j :: 0 <= j < |referenced[i].value| && assumption[i].byteOffset == FirstByte(P, j))
                          || r[i] == SliceInfo({Dynamic}, ZeroWord(), Some(v), FirstByte(P, i))
  {
    hide AssumedSlice;
    hide FirstByte;
    forall i | 0 <= i < |r|
      ensures IsAssumedSlice(P, v, assumption, referenced, i, r[i])
    {
      AssumedSliceIs(P, v, assumption, referenced, i);
    }
  }

  ghost predicate IsAssumedSlice(P: Program, v: Id, assumption: ValueInfo, referenced: seq<Option<ValueInfo>>, i: nat, r: SliceInfo)
    requires P.Shaped() && |assumption| == |referenced|
  {
    && (i < |assumption| && Dynamic !in assumption[i].status ==> r == assumption[i])
    && (i < |assumption| && Dynamic in assumption[i].status && referenced[i].Some? ==>
          forall j :: 0 <= j < |referenced[i].value| && assumption[i].byteOffset == FirstByte(P, j) ==> r == referenced[i].value[j])
    && (|| (i < |assumption| && Dynamic !in assumption[i].status)
        || (i < |assumption| && referenced[i].Some? &&
            exists j :: 0 <= j < |referenced[i].value| && assumption[i].byteOffset == FirstByte(P, j))
        || r == SliceInfo({Dynamic}, ZeroWord(), Some(v), FirstByte(P, i)))
  }

  lemma AssumedSliceIs(P: Program, v: Id, assumption: ValueInfo, referenced: seq<Option<ValueInfo>>, i: nat)
    requires P.Shaped() && |assumption| == |referenced|
    ensures IsAssumedSlice(P, v, assumption, referenced, i, AssumedSlice(P, v, assumption, referenced, i))
  {
    if i < |assumption| && Dynamic in assumption[i].status && referenced[i].Some? {
      var s, offset := P.bytesPerSlice, assumption[i].byteOffset;
      forall j: nat | offset == FirstByte(P, j)
        ensures offset % s == 0 && j == offset / s
      {
        MultipleOf(offset, s, j);
      }
      if offset % s == 0 {
        assert offset == FirstByte(P, offset / s);
      }
    }
  }

  lemma MultipleOf(offset: nat, s: nat, j: nat)
    requires 0 < s && offset == s * j
    ensures offset % s == 0 && j == offset / s
  {
    QuotientUnique(j, s, 0);
  }

  lemma AssumptionSound(P: Program, env: seq<Image>, v: Id, assumption: ValueInfo, referenced: seq<Option<ValueInfo>>, r: ValueInfo)
    requires P.Shaped() && |env| == |P.defs| && v < |env| && AssumptionHolds(P, env, v, assumption)
    requires |assumption| == |referenced| && |r| == P.NumSlices(v)
    requires forall i :: 0 <= i < |assumption| && referenced[i].Some? ==>
                           assumption[i].dynamicValue.Some? &&
                           Sound(P, env, assumption[i].dynamicValue.value, referenced[i].value)
    requires forall i :: 0 <= i < |r| ==> r[i] == AssumedSlice(P, v, assumption, referenced, i)
    ensures Sound(P, env, v, r)
  {
    hide Covers;
    hide SameBits;
    hide LiveInto;
    forall i | 0 <= i < |r|
      ensures Covers(P, env, r[i], v, Start(P, i))
    {
      if r[i] == DynamicSlice(P, v, i) {
        DynamicSliceCovers(P, env, v, i);
      } else if Dynamic in assumption[i].status {
        var w, offset := assumption[i].dynamicValue.value, assumption[i].byteOffset;
        StartOfAligned(P, offset);
        Transfer(P, env, r[i], v, Start(P, i), w, Start(P, offset / P.bytesPerSlice));
      }
    }
  }
}
