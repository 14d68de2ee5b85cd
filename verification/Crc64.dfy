/** The checksum of util/vkgcUtil.cpp: calculateCrc64 with its reflectByte and reflect64. */
module Crc64 {
  const POLY: bv64 := 0x42F0E1EBA9EA3693
  /** The polynomial of CRC-64/XZ for a register that shifts right (section 6 of the .xz File Format). */
  const REFLECTED_POLY: bv64 := 0xC96C5795D7870F42
  const ALL_ONES: bv64 := 0xFFFF_FFFF_FFFF_FFFF

  // ----- reflection -----

  function ReflectByte(byte: bv8): bv8
  {
    var b := ((byte & 0xF0) >> 4) | ((byte & 0x0F) << 4);
    var c := ((b & 0xCC) >> 2) | ((b & 0x33) << 2);
    ((c & 0xAA) >> 1) | ((c & 0x55) << 1)
  }

  /** Reflection by exchanging ever smaller halves, as a reference for the loop over single bits. */
  function Reflect(value: bv64): bv64
  {
    var a := (value >> 32) | (value << 32);
    var b := ((a & 0xFFFF0000FFFF0000) >> 16) | ((a & 0x0000FFFF0000FFFF) << 16);
    var c := ((b & 0xFF00FF00FF00FF00) >> 8) | ((b & 0x00FF00FF00FF00FF) << 8);
    var d := ((c & 0xF0F0F0F0F0F0F0F0) >> 4) | ((c & 0x0F0F0F0F0F0F0F0F) << 4);
    var e := ((d & 0xCCCCCCCCCCCCCCCC) >> 2) | ((d & 0x3333333333333333) << 2);
    ((e & 0xAAAAAAAAAAAAAAAA) >> 1) | ((e & 0x5555555555555555) << 1)
  }

  // ----- exclusive or -----

  /** Named so that proofs about the register can treat it algebraically. */
  function Xor(a: bv64, b: bv64): bv64 { a ^ b }

  lemma XorCommutes(a: bv64, b: bv64)
    ensures Xor(a, b) == Xor(b, a)
  {
  }

  lemma XorMeaning(a: bv64, b: bv64)
    ensures Xor(a, b) == a ^ b
  {
  }

  lemma XorRegroups(a: bv64, b: bv64, c: bv64)
    ensures Xor(a ^ b, c) == Xor(a, b ^ c)
  {
  }

  lemma XorAssociates(a: bv64, b: bv64, c: bv64)
    ensures Xor(Xor(a, b), c) == Xor(a, Xor(b, c))
  {
    hide Xor;
    XorRegroups(a, b, c);
    XorMeaning(a, b);
    XorMeaning(b, c);
  }

  lemma XorSelf(a: bv64)
    ensures Xor(a, a) == 0 && Xor(a, 0) == a
  {
  }

  lemma XorExchange(a: bv64, b: bv64, c: bv64, d: bv64)
    ensures Xor(Xor(a, b), Xor(c, d)) == Xor(Xor(a, c), Xor(b, d))
  {
    hide Xor;
    XorAssociates(a, b, Xor(c, d));
    XorAssociates(b, c, d);
    XorCommutes(b, c);
    XorAssociates(c, b, d);
    XorAssociates(a, c, Xor(b, d));
  }

  lemma XorCancels(a: bv64, b: bv64, c: bv64)
    ensures Xor(Xor(a, b), b) == a
    ensures Xor(a, b) == Xor(c, b) ==> a == c
  {
    hide Xor;
    XorAssociates(a, b, b);
    XorAssociates(c, b, b);
    XorSelf(b);
    XorSelf(a);
    XorSelf(c);
  }

  lemma XorZero(a: bv64, b: bv64)
    ensures Xor(a, b) == 0 <==> a == b
  {
    hide Xor;
    XorSelf(b);
    XorCancels(a, b, b);
  }

  // ----- the register -----

  function Double(crc: bv64): bv64 { crc << 1 }

  function Feedback(crc: bv64): bv64
  {
    if crc & 0x8000000000000000 != 0 then POLY else 0
  }

  /** One bit of the division by the polynomial. */
  function Step(crc: bv64): bv64
  {
    Xor(Double(crc), Feedback(crc))
  }

  function Steps(crc: bv64, n: nat): bv64
  {
    if n == 0 then crc else Step(Steps(crc, n - 1))
  }

  /** The register after one more byte. */
  function Feed(crc: bv64, byte: bv8): bv64
  {
    Steps(Xor(crc, (byte as bv64) << 56), 8)
  }

  // ----- the register that shifts right -----

  function Halve(crc: bv64): bv64 { crc >> 1 }

  function FeedbackLow(crc: bv64): bv64
  {
    if crc & 1 != 0 then REFLECTED_POLY else 0
  }

  function StepLow(crc: bv64): bv64
  {
    Xor(Halve(crc), FeedbackLow(crc))
  }

  function StepsLow(crc: bv64, n: nat): bv64
  {
    if n == 0 then crc else StepLow(StepsLow(crc, n - 1))
  }

  function FeedLow(crc: bv64, byte: bv8): bv64
  {
    StepsLow(Xor(crc, byte as bv64), 8)
  }

  lemma ReflectXor(a: bv64, b: bv64)
    ensures Reflect(Xor(a, b)) == Xor(Reflect(a), Reflect(b))
  {
  }

  lemma ReflectTwice(a: bv64)
    ensures Reflect(Reflect(a)) == a
  {
  }

  lemma ReflectFeedback(crc: bv64)
    ensures Reflect(Feedback(crc)) == FeedbackLow(Reflect(crc))
  {
    assert Reflect(POLY) == REFLECTED_POLY && Reflect(0) == 0;
  }

  lemma ReflectDouble(crc: bv64)
    ensures Reflect(Double(crc)) == Halve(Reflect(crc))
  {
    hide Reflect;
    ReflectShift(crc);
  }

  lemma ReflectShift(crc: bv64)
    ensures Reflect(crc << 1) == Reflect(crc) >> 1
  {
  }

  lemma StepReflected(crc: bv64)
    ensures Reflect(Step(crc)) == StepLow(Reflect(crc))
  {
    hide Reflect;
    hide Feedback;
    hide FeedbackLow;
    hide Double;
    hide Halve;
    hide Xor;
    ReflectXor(Double(crc), Feedback(crc));
    ReflectDouble(crc);
    ReflectFeedback(crc);
  }

  lemma {:induction false} StepsReflected(crc: bv64, n: nat)
    ensures Reflect(Steps(crc, n)) == StepsLow(Reflect(crc), n)
  {
    hide Reflect;
    hide Step;
    hide StepLow;
    if n != 0 {
      StepsReflected(crc, n - 1);
      StepReflected(Steps(crc, n - 1));
    }
  }

  lemma ReflectTopByte(byte: bv8)
    ensures Reflect((ReflectByte(byte) as bv64) << 56) == byte as bv64
  {
  }

  /** Feeding a reflected byte to the register is feeding the byte to the reflected register. */
  lemma FeedReflected(crc: bv64, byte: bv8)
    ensures Reflect(Feed(crc, ReflectByte(byte))) == FeedLow(Reflect(crc), byte)
  {
    hide Reflect;
    hide ReflectByte;
    hide Steps;
    hide StepsLow;
    hide Xor;
    var shifted := (ReflectByte(byte) as bv64) << 56;
    StepsReflected(Xor(crc, shifted), 8);
    ReflectXor(crc, shifted);
    ReflectTopByte(byte);
  }

  // ----- linearity -----

  lemma DoubleXor(a: bv64, b: bv64)
    ensures Double(Xor(a, b)) == Xor(Double(a), Double(b))
  {
  }

  lemma FeedbackXor(a: bv64, b: bv64)
    ensures Feedback(Xor(a, b)) == Xor(Feedback(a), Feedback(b))
  {
  }

  lemma StepXor(a: bv64, b: bv64)
    ensures Step(Xor(a, b)) == Xor(Step(a), Step(b))
  {
    hide Feedback;
    hide Double;
    hide Xor;
    DoubleXor(a, b);
    FeedbackXor(a, b);
    XorExchange(Double(a), Double(b), Feedback(a), Feedback(b));
  }

  lemma {:induction false} StepsXor(a: bv64, b: bv64, n: nat)
    ensures Steps(Xor(a, b), n) == Xor(Steps(a, n), Steps(b, n))
  {
    hide Step;
    hide Xor;
    if n != 0 {
      StepsXor(a, b, n - 1);
      StepXor(Steps(a, n - 1), Steps(b, n - 1));
    }
  }

  lemma StepZero(a: bv64)
    ensures Step(a) == 0 <==> a == 0
  {
  }

  lemma {:induction false} StepsZero(a: bv64, n: nat)
    ensures Steps(a, n) == 0 <==> a == 0
  {
    hide Step;
    if n != 0 {
      StepsZero(a, n - 1);
      StepZero(Steps(a, n - 1));
    }
  }

  lemma StepsInjective(a: bv64, b: bv64, n: nat)
    requires Steps(a, n) == Steps(b, n)
    ensures a == b
  {
    hide Steps;
    hide Xor;
    StepsXor(a, b, n);
    StepsZero(Xor(a, b), n);
    XorZero(Steps(a, n), Steps(b, n));
    XorZero(a, b);
  }

  // ----- the checksum of a byte string -----

  /** The register after the bytes `data`, starting from `crc`. */
  function Register(crc: bv64, data: seq<bv8>): bv64
    decreases |data|
  {
    if data == [] then crc else Register(Feed(crc, data[0]), data[1..])
  }

  function RegisterLow(crc: bv64, data: seq<bv8>): bv64
    decreases |data|
  {
    if data == [] then crc else RegisterLow(FeedLow(crc, data[0]), data[1..])
  }

  function Input(data: seq<bv8>, refin: bool): seq<bv8>
  {
    if refin then seq(|data|, i requires 0 <= i < |data| => ReflectByte(data[i])) else data
  }

  function Output(crc: bv64, refout: bool): bv64 { if refout then Reflect(crc) else crc }

  function Checksum(data: seq<bv8>, refin: bool, refout: bool): bv64
  {
    Xor(Output(Register(ALL_ONES, Input(data, refin)), refout), ALL_ONES)
  }

  // ----- the loops -----

  function Bit(i: bv64): bv64
    requires i < 64
  {
    (1 as bv64) << i
  }

  function And(a: bv64, b: bv64): bv64 { a & b }

  predicate HasBit(value: bv64, i: bv64)
    requires i < 64
  {
    And(value, Bit(i)) != 0
  }

  function SetBit(value: bv64, i: bv64): bv64
    requires i < 64
  {
    value | Bit(i)
  }

  /** The lowest `i` bits. */
  function Low(value: bv64, i: bv64): bv64
    requires i <= 64
  {
    value & (((1 as bv64) << i) - 1)
  }

  lemma ReflectBit(i: bv64)
    requires i < 64
    ensures Reflect(Bit(i)) == Bit(63 - i)
  {
  }

  lemma NextBitClear(value: bv64, i: bv64)
    requires i < 64 && !HasBit(value, i)
    ensures Low(value, i + 1) == Low(value, i)
  {
  }

  lemma NextBitSet(value: bv64, i: bv64)
    requires i < 64 && HasBit(value, i)
    ensures Low(value, i + 1) == Xor(Low(value, i), Bit(i))
  {
  }

  lemma ReflectAnd(a: bv64, b: bv64)
    ensures Reflect(And(a, b)) == And(Reflect(a), Reflect(b))
  {
  }

  lemma ReflectZero()
    ensures Reflect(0) == 0
  {
  }

  /** Reflection exchanges bit `i` and bit `63 - i`. */
  lemma ReflectMeaning(value: bv64, i: bv64)
    requires i < 64
    ensures HasBit(Reflect(value), i) <==> HasBit(value, 63 - i)
  {
    hide Reflect;
    hide Bit;
    hide HasBit;
    ReflectBit(63 - i);
    assert 63 - (63 - i) == i;
    ExchangedBit(value, i, 63 - i);
  }

  lemma ExchangedBit(value: bv64, i: bv64, j: bv64)
    requires i < 64 && j < 64 && Reflect(Bit(j)) == Bit(i)
    ensures HasBit(Reflect(value), i) <==> HasBit(value, j)
  {
    hide Reflect;
    hide Bit;
    hide And;
    ReflectAnd(value, Bit(j));
    ReflectTwice(And(value, Bit(j)));
    ReflectZero();
  }

  lemma NoBits(value: bv64)
    ensures Low(value, 0) == 0 && Reflect(0) == 0
  {
  }

  lemma AllBits(value: bv64)
    ensures Low(value, 64) == value
  {
  }

  /** Bit `63 - i` of the reflected lower bits is clear. */
  lemma FreshBit(value: bv64, i: bv64)
    requires i < 64
    ensures SetBit(Reflect(Low(value, i)), 63 - i) == Xor(Reflect(Low(value, i)), Bit(63 - i))
  {
  }

  lemma ReflectNext(value: bv64, i: bv64)
    requires i < 64
    ensures Reflect(Low(value, i + 1)) ==
            if HasBit(value, i) then SetBit(Reflect(Low(value, i)), 63 - i) else Reflect(Low(value, i))
  {
    hide Reflect;
    hide Low;
    hide Bit;
    hide HasBit;
    hide SetBit;
    hide Xor;
    if HasBit(value, i) {
      NextBitSet(value, i);
      ReflectBit(i);
      FreshBit(value, i);
      ReflectXor(Low(value, i), Bit(i));
    } else {
      NextBitClear(value, i);
    }
  }

  /** The reflect64 lambda. */
  method Reflect64(value: bv64) returns (result: bv64)
    ensures result == Reflect(value)
  {
    hide Reflect;
    hide Low;
    hide HasBit;
    hide SetBit;
    NoBits(value);
    result := 0;
    var i: bv64 := 0;
    while i < 64
      invariant i <= 64 && result == Reflect(Low(value, i))
      decreases 64 - i
    {
      ReflectNext(value, i);
      if HasBit(value, i) {
        result := SetBit(result, 63 - i);
      }
      i := i + 1;
    }
    AllBits(value);
  }

  predicate TopBit(crc: bv64) { crc & 0x8000000000000000 != 0 }

  lemma StepMeaning(crc: bv64)
    ensures Step(crc) == if TopBit(crc) then Xor(crc << 1, POLY) else crc << 1
  {
    hide Xor;
    XorSelf(crc << 1);
  }

  /** The loop over the bits of one byte. */
  method ShiftByte(start: bv64) returns (crc: bv64)
    ensures crc == Steps(start, 8)
  {
    hide Step;
    hide TopBit;
    hide Xor;
    crc := start;
    var i := 0;
    while i < 8
      invariant 0 <= i <= 8 && crc == Steps(start, i)
    {
      StepMeaning(crc);
      if TopBit(crc) {
        crc := Xor(crc << 1, POLY);
      } else {
        crc := crc << 1;
      }
      i := i + 1;
    }
  }

  method CalculateCrc64(data: seq<bv8>, refin: bool, refout: bool) returns (crc: bv64)
    ensures crc == Checksum(data, refin, refout)
  {
    hide Reflect;
    hide ReflectByte;
    hide Steps;
    hide Xor;
    ghost var input := Input(data, refin);
    crc := ALL_ONES;
    var ptr := 0;
    while ptr < |data|
      invariant 0 <= ptr <= |data|
      invariant Register(ALL_ONES, input) == Register(crc, input[ptr..])
    {
      var byte := data[ptr];
      if refin {
        byte := ReflectByte(byte);
      }
      assert input[ptr] == byte && input[ptr..][1..] == input[ptr + 1..];
      crc := Xor(crc, (byte as bv64) << 56);
      crc := ShiftByte(crc);
      ptr := ptr + 1;
    }
    if refout {
      crc := Reflect64(crc);
    }
    return Xor(crc, ALL_ONES);
  }

  // ----- with reflection, the checksum is the one of the register that shifts right -----

  lemma {:induction false} RegisterReflected(crc: bv64, data: seq<bv8>)
    ensures Reflect(Register(crc, Input(data, true))) == RegisterLow(Reflect(crc), data)
    decreases |data|
  {
    hide Reflect;
    hide ReflectByte;
    hide Feed;
    hide FeedLow;
    if data != [] {
      var input := Input(data, true);
      assert input[0] == ReflectByte(data[0]) && input[1..] == Input(data[1..], true);
      FeedReflected(crc, data[0]);
      RegisterReflected(Feed(crc, input[0]), data[1..]);
    }
  }

  /** CRC-64/XZ. */
  lemma ReflectedChecksum(data: seq<bv8>)
    ensures Checksum(data, true, true) == Xor(RegisterLow(ALL_ONES, data), ALL_ONES)
  {
    hide Register;
    hide RegisterLow;
    hide Xor;
    assert Reflect(ALL_ONES) == ALL_ONES;
    RegisterReflected(ALL_ONES, data);
  }

  // ----- the check values -----

  lemma RegisterNext(crc: bv64, data: seq<bv8>, next: bv64)
    requires data != [] && Feed(crc, data[0]) == next
    ensures Register(crc, data) == Register(next, data[1..])
  {
    hide Feed;
  }

  lemma FeedUnrolled(crc: bv64, byte: bv8, next: bv64)
    requires Step(Step(Step(Step(Step(Step(Step(Step(Xor(crc, (byte as bv64) << 56))))))))) == next
    ensures Feed(crc, byte) == next
  {
    hide Step;
    hide Xor;
    var x := Xor(crc, (byte as bv64) << 56);
    assert Steps(x, 1) == Step(Steps(x, 0));
    assert Steps(x, 2) == Step(Steps(x, 1));
    assert Steps(x, 3) == Step(Steps(x, 2));
    assert Steps(x, 4) == Step(Steps(x, 3));
    assert Steps(x, 5) == Step(Steps(x, 4));
    assert Steps(x, 6) == Step(Steps(x, 5));
    assert Steps(x, 7) == Step(Steps(x, 6));
    assert Steps(x, 8) == Step(Steps(x, 7));
  }

  /** The check value of CRC-64/WE: the checksum of the text 123456789. */
  lemma CheckValue()
    ensures Checksum([0x31, 0x32, 0x33, 0x34, 0x35, 0x36, 0x37, 0x38, 0x39], false, false) == 0x62ec59e3f1a4f00a
  {
    CheckValueRegister();
    hide Register;
  }

  lemma CheckValueRegister()
    ensures Register(ALL_ONES, [0x31, 0x32, 0x33, 0x34, 0x35, 0x36, 0x37, 0x38, 0x39]) == 0x9d13a61c0e5b0ff5
  {
    FeedUnrolled(ALL_ONES, 0x31, 0x8db4713229b2f2a5);
    FeedUnrolled(0x8db4713229b2f2a5, 0x32, 0xf488d61a961b3128);
    FeedUnrolled(0xf488d61a961b3128, 0x33, 0x2a0bb93a7813ca88);
    FeedUnrolled(0x2a0bb93a7813ca88, 0x34, 0x33302b9fc23855a8);
    FeedUnrolled(0x33302b9fc23855a8, 0x35, 0xfcf93a5065c329f9);
    FeedUnrolled(0xfcf93a5065c329f9, 0x36, 0xc242b8ed1b26187a);
    FeedUnrolled(0xc242b8ed1b26187a, 0x37, 0xcfc30460a7cc7b9f);
    FeedUnrolled(0xcfc30460a7cc7b9f, 0x38, 0xcb9e4a0b1e7bf3b9);
    FeedUnrolled(0xcb9e4a0b1e7bf3b9, 0x39, 0x9d13a61c0e5b0ff5);
    hide *;
    var data: seq<bv8> := [0x31, 0x32, 0x33, 0x34, 0x35, 0x36, 0x37, 0x38, 0x39];
    RegisterNext(ALL_ONES, data[0..], 0x8db4713229b2f2a5);
    RegisterNext(0x8db4713229b2f2a5, data[1..], 0xf488d61a961b3128);
    RegisterNext(0xf488d61a961b3128, data[2..], 0x2a0bb93a7813ca88);
    RegisterNext(0x2a0bb93a7813ca88, data[3..], 0x33302b9fc23855a8);
    RegisterNext(0x33302b9fc23855a8, data[4..], 0xfcf93a5065c329f9);
    RegisterNext(0xfcf93a5065c329f9, data[5..], 0xc242b8ed1b26187a);
    RegisterNext(0xc242b8ed1b26187a, data[6..], 0xcfc30460a7cc7b9f);
    RegisterNext(0xcfc30460a7cc7b9f, data[7..], 0xcb9e4a0b1e7bf3b9);
    RegisterNext(0xcb9e4a0b1e7bf3b9, data[8..], 0x9d13a61c0e5b0ff5);
  }

  /** The check value of CRC-64/XZ. */
  lemma ReflectedCheckValue()
    ensures Checksum([0x31, 0x32, 0x33, 0x34, 0x35, 0x36, 0x37, 0x38, 0x39], true, true) == 0x995dc9bbdf1939fa
  {
    ReflectedCheckValueRegister();
    hide Register;
    assert Input([0x31, 0x32, 0x33, 0x34, 0x35, 0x36, 0x37, 0x38, 0x39], true) == [0x8c, 0x4c, 0xcc, 0x2c, 0xac, 0x6c, 0xec, 0x1c, 0x9c];
  }

  lemma ReflectedCheckValueRegister()
    ensures Register(ALL_ONES, [0x8c, 0x4c, 0xcc, 0x2c, 0xac, 0x6c, 0xec, 0x1c, 0x9c]) == 0xa0636704226c4566
  {
    FeedUnrolled(ALL_ONES, 0x8c, 0x48ac56d65e8f0bab);
    FeedUnrolled(0x48ac56d65e8f0bab, 0x4c, 0xe565b01b814947df);
    FeedUnrolled(0xe565b01b814947df, 0xcc, 0x795cc71fddeb3bf3);
    FeedUnrolled(0x795cc71fddeb3bf3, 0x2c, 0xeb3ce299361e8d8c);
    FeedUnrolled(0xeb3ce299361e8d8c, 0xac, 0x68c5df5a009d1a45);
    FeedUnrolled(0x68c5df5a009d1a45, 0x6c, 0x8cec3c459358a9df);
    FeedUnrolled(0x8cec3c459358a9df, 0xec, 0xfa43b6799306f5f1);
    FeedUnrolled(0xfa43b6799306f5f1, 0x1c, 0x6fe1ca2bedfe2ec5);
    FeedUnrolled(0x6fe1ca2bedfe2ec5, 0x9c, 0xa0636704226c4566);
    hide *;
    var data: seq<bv8> := [0x8c, 0x4c, 0xcc, 0x2c, 0xac, 0x6c, 0xec, 0x1c, 0x9c];
    RegisterNext(ALL_ONES, data[0..], 0x48ac56d65e8f0bab);
    RegisterNext(0x48ac56d65e8f0bab, data[1..], 0xe565b01b814947df);
    RegisterNext(0xe565b01b814947df, data[2..], 0x795cc71fddeb3bf3);
    RegisterNext(0x795cc71fddeb3bf3, data[3..], 0xeb3ce299361e8d8c);
    RegisterNext(0xeb3ce299361e8d8c, data[4..], 0x68c5df5a009d1a45);
    RegisterNext(0x68c5df5a009d1a45, data[5..], 0x8cec3c459358a9df);
    RegisterNext(0x8cec3c459358a9df, data[6..], 0xfa43b6799306f5f1);
    RegisterNext(0xfa43b6799306f5f1, data[7..], 0x6fe1ca2bedfe2ec5);
    RegisterNext(0x6fe1ca2bedfe2ec5, data[8..], 0xa0636704226c4566);
  }

  // ----- concatenation -----

  lemma {:induction false} RegisterComposes(crc: bv64, a: seq<bv8>, b: seq<bv8>)
    ensures Register(crc, a + b) == Register(Register(crc, a), b)
    decreases |a|
  {
    hide Feed;
    if a == [] {
      assert a + b == b;
    } else {
      assert (a + b)[0] == a[0] && (a + b)[1..] == a[1..] + b;
      RegisterComposes(Feed(crc, a[0]), a[1..], b);
    }
  }

  // ----- linearity over byte strings -----

  function ByteXor(a: bv8, b: bv8): bv8 { a ^ b }

  function XorBytes(a: seq<bv8>, b: seq<bv8>): (r: seq<bv8>)
    requires |a| == |b|
    ensures |r| == |a|
  {
    seq(|a|, i requires 0 <= i < |a| => ByteXor(a[i], b[i]))
  }

  lemma TopByteXor(a: bv8, b: bv8)
    ensures (ByteXor(a, b) as bv64) << 56 == Xor((a as bv64) << 56, (b as bv64) << 56)
  {
  }

  lemma FeedXor(c: bv64, d: bv64, a: bv8, b: bv8)
    ensures Feed(Xor(c, d), ByteXor(a, b)) == Xor(Feed(c, a), Feed(d, b))
  {
    hide Steps;
    hide Xor;
    var x, y := (a as bv64) << 56, (b as bv64) << 56;
    TopByteXor(a, b);
    XorExchange(c, d, x, y);
    StepsXor(Xor(c, x), Xor(d, y), 8);
  }

  lemma {:induction false} RegisterXor(c: bv64, d: bv64, a: seq<bv8>, b: seq<bv8>)
    requires |a| == |b|
    ensures Register(Xor(c, d), XorBytes(a, b)) == Xor(Register(c, a), Register(d, b))
    decreases |a|
  {
    hide Feed;
    hide Xor;
    if a != [] {
      var r := XorBytes(a, b);
      assert r[0] == ByteXor(a[0], b[0]) && r[1..] == XorBytes(a[1..], b[1..]);
      FeedXor(c, d, a[0], b[0]);
      RegisterXor(Feed(c, a[0]), Feed(d, b[0]), a[1..], b[1..]);
    }
  }

  lemma ReflectByteXor(a: bv8, b: bv8)
    ensures ReflectByte(ByteXor(a, b)) == ByteXor(ReflectByte(a), ReflectByte(b))
  {
  }

  lemma InputXor(a: seq<bv8>, b: seq<bv8>, refin: bool)
    requires |a| == |b|
    ensures Input(XorBytes(a, b), refin) == XorBytes(Input(a, refin), Input(b, refin))
  {
    hide ReflectByte;
    hide ByteXor;
    if refin {
      var r, s := Input(XorBytes(a, b), refin), XorBytes(Input(a, refin), Input(b, refin));
      forall i | 0 <= i < |a| ensures r[i] == s[i] { ReflectByteXor(a[i], b[i]); }
      assert r == s;
    }
  }

  lemma OutputXor(c: bv64, d: bv64, refout: bool)
    ensures Output(Xor(c, d), refout) == Xor(Output(c, refout), Output(d, refout))
  {
    hide Reflect;
    hide Xor;
    ReflectXor(c, d);
  }

  /** The checksum of the exclusive or of three messages of one length. */
  lemma ChecksumAffine(a: seq<bv8>, b: seq<bv8>, c: seq<bv8>, refin: bool, refout: bool)
    requires |a| == |b| == |c|
    ensures Checksum(XorBytes(XorBytes(a, b), c), refin, refout) ==
            Xor(Xor(Checksum(a, refin, refout), Checksum(b, refin, refout)), Checksum(c, refin, refout))
  {
    hide Register;
    hide Reflect;
    hide Xor;
    hide Input;
    hide XorBytes;
    var ab := XorBytes(a, b);
    InputXor(a, b, refin);
    InputXor(ab, c, refin);
    XorCancels(ALL_ONES, ALL_ONES, ALL_ONES);
    var x, y, z := Input(a, refin), Input(b, refin), Input(c, refin);
    InputLength(a, refin);
    InputLength(b, refin);
    InputLength(c, refin);
    RegisterXor(ALL_ONES, ALL_ONES, x, y);
    RegisterXor(Xor(ALL_ONES, ALL_ONES), ALL_ONES, XorBytes(x, y), z);
    var r, s, t := Register(ALL_ONES, x), Register(ALL_ONES, y), Register(ALL_ONES, z);
    OutputXor(r, s, refout);
    OutputXor(Xor(r, s), t, refout);
    XorOfOnes(Output(r, refout), Output(s, refout), Output(t, refout), ALL_ONES);
  }

  lemma InputLength(a: seq<bv8>, refin: bool)
    ensures |Input(a, refin)| == |a|
  {
  }

  lemma XorOfOnes(a: bv64, b: bv64, c: bv64, o: bv64)
    ensures Xor(Xor(Xor(a, b), c), o) == Xor(Xor(Xor(a, o), Xor(b, o)), Xor(c, o))
  {
    hide Xor;
    XorExchange(a, o, b, o);
    XorSelf(o);
    XorSelf(Xor(a, b));
    XorAssociates(Xor(a, b), c, o);
  }

  // ----- changes within eight consecutive bytes are detected -----

  /** The register from which the bytes `w` lead to zero, for at most eight bytes. */
  function Leading(w: seq<bv8>): bv64
    decreases |w|
  {
    if w == [] then 0 else Put(w[0], Leading(w[1..]))
  }

  function Put(byte: bv8, leading: bv64): bv64
  {
    Xor((byte as bv64) << 56, Drop(leading))
  }

  function Drop(crc: bv64): bv64 { crc >> 8 }

  /** The bits below `n` leading bytes. */
  function Below(n: nat): bv64
  {
    if n == 0 then ALL_ONES else Drop(Below(n - 1))
  }

  predicate Disjoint(a: bv64, b: bv64) { a & b == 0 }

  lemma PutAbove(byte: bv8, leading: bv64, below: bv64)
    requires Disjoint(leading, below)
    ensures Disjoint(Put(byte, leading), Drop(below))
  {
  }

  lemma NothingLeads()
    ensures Disjoint(0, ALL_ONES)
  {
  }

  lemma {:induction false} LeadingFits(w: seq<bv8>)
    ensures Disjoint(Leading(w), Below(|w|))
    decreases |w|
  {
    hide Put;
    hide Drop;
    hide Disjoint;
    if w == [] {
      NothingLeads();
    } else {
      LeadingFits(w[1..]);
      PutAbove(w[0], Leading(w[1..]), Below(|w| - 1));
    }
  }

  predicate NoLowByte(crc: bv64) { crc & 0xFF == 0 }

  lemma BelowHasLowByte(n: nat)
    requires n < 8
    ensures NoLowByte(!Below(n))
  {
    assert Below(7) == 0xFF;
    if n == 0 {} else if n == 1 {} else if n == 2 {} else if n == 3 {} else if n == 4 {} else if n == 5 {} else if n == 6 {}
  }

  lemma LeadingHasNoLowByte(w: seq<bv8>)
    requires |w| < 8
    ensures NoLowByte(Leading(w))
  {
    hide Leading;
    hide Below;
    LeadingFits(w);
    BelowHasLowByte(|w|);
  }

  lemma StepWithoutFeedback(x: bv64)
    requires x < 0x8000000000000000
    ensures Step(x) == x << 1
  {
  }

  function Shifted(x: bv64, n: bv64): bv64
    requires n <= 8
  {
    x >> n
  }

  /** Without a leading byte, eight steps only shift. */
  lemma ShiftsOnly(x: bv64)
    requires NoLowByte(x)
    ensures Steps(Drop(x), 8) == x
  {
    hide Step;
    hide Drop;
    hide Shifted;
    hide NoLowByte;
    var y := Drop(x);
    assert y == Shifted(x, 8) && x == Shifted(x, 0) by { DropMeaning(x); }
    ShiftedOnce(x, 8);
    ShiftedOnce(x, 7);
    ShiftedOnce(x, 6);
    ShiftedOnce(x, 5);
    ShiftedOnce(x, 4);
    ShiftedOnce(x, 3);
    ShiftedOnce(x, 2);
    ShiftedOnce(x, 1);
    assert Steps(y, 0) == Shifted(x, 8);
    assert Steps(y, 1) == Shifted(x, 7);
    assert Steps(y, 2) == Shifted(x, 6);
    assert Steps(y, 3) == Shifted(x, 5);
    assert Steps(y, 4) == Shifted(x, 4);
    assert Steps(y, 5) == Shifted(x, 3);
    assert Steps(y, 6) == Shifted(x, 2);
    assert Steps(y, 7) == Shifted(x, 1);
  }

  lemma DropMeaning(x: bv64)
    ensures Drop(x) == Shifted(x, 8) && x == Shifted(x, 0)
  {
  }

  lemma ShiftedOnce(x: bv64, n: bv64)
    requires NoLowByte(x) && 1 <= n <= 8
    ensures Step(Shifted(x, n)) == Shifted(x, n - 1)
  {
    hide Step;
    hide Shifted;
    hide NoLowByte;
    ShiftedDoubles(x, n);
    StepWithoutFeedback(Shifted(x, n));
  }

  lemma ShiftedDoubles(x: bv64, n: bv64)
    requires NoLowByte(x) && 1 <= n <= 8
    ensures Shifted(x, n) < 0x8000000000000000 && Shifted(x, n) << 1 == Shifted(x, n - 1)
  {
  }

  lemma FeedLeading(byte: bv8, x: bv64)
    requires NoLowByte(x)
    ensures Feed(Put(byte, x), byte) == x
  {
    hide Steps;
    hide Xor;
    hide Drop;
    hide NoLowByte;
    XorCommutes((byte as bv64) << 56, Drop(x));
    XorCancels(Drop(x), (byte as bv64) << 56, Drop(x));
    ShiftsOnly(x);
  }

  lemma {:induction false} LeadingLeadsToZero(w: seq<bv8>)
    requires |w| <= 8
    ensures Register(Leading(w), w) == 0
    decreases |w|
  {
    hide Feed;
    hide Put;
    if w != [] {
      LeadingHasNoLowByte(w[1..]);
      FeedLeading(w[0], Leading(w[1..]));
      LeadingLeadsToZero(w[1..]);
    }
  }

  lemma PutZero(byte: bv8, x: bv64)
    requires NoLowByte(x) && Put(byte, x) == 0
    ensures byte == 0 && x == 0
  {
  }

  lemma {:induction false} LeadingZero(w: seq<bv8>)
    requires |w| <= 8 && Leading(w) == 0
    ensures forall k :: 0 <= k < |w| ==> w[k] == 0
    decreases |w|
  {
    hide Put;
    hide NoLowByte;
    if w != [] {
      LeadingHasNoLowByte(w[1..]);
      PutZero(w[0], Leading(w[1..]));
      LeadingZero(w[1..]);
      assert forall k :: 1 <= k < |w| ==> w[k] == w[1..][k - 1];
    }
  }

  lemma FeedInjective(c: bv64, d: bv64, byte: bv8)
    requires Feed(c, byte) == Feed(d, byte)
    ensures c == d
  {
    hide Steps;
    hide Xor;
    var x := (byte as bv64) << 56;
    StepsInjective(Xor(c, x), Xor(d, x), 8);
    XorCancels(c, x, d);
  }

  lemma {:induction false} RegisterInjective(c: bv64, d: bv64, data: seq<bv8>)
    requires Register(c, data) == Register(d, data)
    ensures c == d
    decreases |data|
  {
    hide Feed;
    if data != [] {
      RegisterInjective(Feed(c, data[0]), Feed(d, data[0]), data[1..]);
      FeedInjective(c, d, data[0]);
    }
  }

  /** At most eight bytes are determined by the registers before and after them. */
  lemma ShortInjective(c: bv64, a: seq<bv8>, b: seq<bv8>)
    requires |a| == |b| <= 8 && Register(c, a) == Register(c, b)
    ensures a == b
  {
    hide Register;
    hide Leading;
    hide Xor;
    hide XorBytes;
    var r := XorBytes(a, b);
    RegisterXor(c, c, a, b);
    XorSelf(c);
    XorSelf(Register(c, a));
    LeadingLeadsToZero(r);
    RegisterInjective(0, Leading(r), r);
    LeadingZero(r);
    XorBytesZero(a, b);
  }

  lemma XorBytesZero(a: seq<bv8>, b: seq<bv8>)
    requires |a| == |b| && forall k :: 0 <= k < |a| ==> XorBytes(a, b)[k] == 0
    ensures a == b
  {
    forall k | 0 <= k < |a| ensures a[k] == b[k] {
      assert XorBytes(a, b)[k] == ByteXor(a[k], b[k]);
    }
  }

  /** Two messages of one length that differ only in bytes `from` up to `from + 8`. */
  predicate DifferInWindow(a: seq<bv8>, b: seq<bv8>, from: nat)
  {
    && |a| == |b|
    && a != b
    && forall k :: 0 <= k < |a| && !(from <= k < from + 8) ==> a[k] == b[k]
  }

  lemma WindowChangesRegister(c: bv64, a: seq<bv8>, b: seq<bv8>, from: nat)
    requires DifferInWindow(a, b, from)
    ensures Register(c, a) != Register(c, b)
  {
    hide Register;
    var lo := if from < |a| then from else |a|;
    var hi := if from + 8 < |a| then from + 8 else |a|;
    assert a == a[..lo] + (a[lo..hi] + a[hi..]) && b == b[..lo] + (b[lo..hi] + b[hi..]);
    assert a[..lo] == b[..lo] && a[hi..] == b[hi..];
    assert a[lo..hi] != b[lo..hi];
    var d := Register(c, a[..lo]);
    RegisterComposes(c, a[..lo], a[lo..hi] + a[hi..]);
    RegisterComposes(c, b[..lo], b[lo..hi] + b[hi..]);
    RegisterComposes(d, a[lo..hi], a[hi..]);
    RegisterComposes(d, b[lo..hi], b[hi..]);
    if Register(c, a) == Register(c, b) {
      RegisterInjective(Register(d, a[lo..hi]), Register(d, b[lo..hi]), a[hi..]);
      ShortInjective(d, a[lo..hi], b[lo..hi]);
    }
  }

  lemma ReflectByteTwice(b: bv8)
    ensures ReflectByte(ReflectByte(b)) == b
  {
  }

  lemma WindowOfInput(a: seq<bv8>, b: seq<bv8>, from: nat, refin: bool)
    requires DifferInWindow(a, b, from)
    ensures DifferInWindow(Input(a, refin), Input(b, refin), from)
  {
    hide ReflectByte;
    if refin {
      var k :| 0 <= k < |a| && a[k] != b[k];
      ReflectByteTwice(a[k]);
      ReflectByteTwice(b[k]);
      assert Input(a, refin)[k] != Input(b, refin)[k];
    }
  }

  /** A change within eight consecutive bytes changes the checksum. */
  lemma ChecksumDetects(a: seq<bv8>, b: seq<bv8>, from: nat, refin: bool, refout: bool)
    requires DifferInWindow(a, b, from)
    ensures Checksum(a, refin, refout) != Checksum(b, refin, refout)
  {
    hide Register;
    hide Reflect;
    hide Input;
    hide Xor;
    hide DifferInWindow;
    WindowOfInput(a, b, from, refin);
    var c, d := Register(ALL_ONES, Input(a, refin)), Register(ALL_ONES, Input(b, refin));
    WindowChangesRegister(ALL_ONES, Input(a, refin), Input(b, refin), from);
    ReflectTwice(c);
    ReflectTwice(d);
    XorCancels(Output(c, refout), ALL_ONES, Output(d, refout));
  }
}
