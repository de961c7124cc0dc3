/** CRC-32 as compute_crc32 runs it, its serial and table-driven forms, and what it detects. */
module Crc32 {
  import opened Bytes
  import opened Folds

  const POLYNOMIAL: bv32 := 0xEDB88320
  const BYTE_BITS: nat := 8
  const INITIAL: bv32 := 0xFFFFFFFF

  /** One turn of the inner loop, with the branch-free mask. */
  function Shift(c: bv32): (r: bv32)
  {
    var mask: bv32 := 0 - (c & 1);
    (c >> 1) ^ (POLYNOMIAL & mask)
  }

  /** The n low-order bits of v, least significant first. */
  function Bits(v: nat, n: nat): (s: seq<bool>)
    ensures |s| == n
    decreases n
  {
    if n == 0 then [] else [v % 2 == 1] + Bits(v / 2, n - 1)
  }

  function Bit(b: bool): (w: bv32)
  {
    if b then 1 else 0
  }

  /** The word with b as its lowest bit and the bits of rest above it. */
  function Push(b: bool, rest: bv32): (w: bv32)
  {
    Xor(Bit(b), Double(rest))
  }

  function Double(w: bv32): (d: bv32)
  {
    w << 1
  }

  predicate TopBitClear(w: bv32)
  {
    Disjoint(w, 0x8000_0000)
  }

  /** The 32-bit word whose bit i is bits[i]. */
  function Word(bits: seq<bool>): (w: bv32)
  {
    if bits == [] then 0 else Push(bits[0], Word(bits[1..]))
  }

  /** A byte widened to the register's width. */
  function Widen(b: byte): (w: bv32)
  {
    Word(Bits(b, BYTE_BITS))
  }

  /** One turn of the outer loop. */
  function ByteStep(c: bv32, b: byte): (r: bv32)
  {
    Iterate(Shift, BYTE_BITS, Xor(c, Widen(b)))
  }

  function Xor(a: bv32, b: bv32): (r: bv32)
  {
    a ^ b
  }

  /** The register after the outer loop has consumed data. */
  function Register(c: bv32, data: seq<byte>): (r: bv32)
  {
    Fold(ByteStep, c, data)
  }

  /** The checksum of a byte string. */
  function Checksum(data: seq<byte>): (crc: u32)
  {
    Complement(Register(INITIAL, data))
  }

  function Complement(c: bv32): (r: u32)
  {
    (!c) as int
  }

  /** compute_crc32's inner loop: one byte is already added, eight shifts remain. */
  method ShiftByteThrough(added: bv32) returns (crc: bv32)
    ensures crc == Iterate(Shift, BYTE_BITS, added)
  {
    crc := added;
    for bit := 0 to BYTE_BITS
      invariant crc == Iterate(Shift, bit, added)
    {
      crc := Shift(crc);
    }
  }

  /** compute_crc32. */
  method ComputeCrc32(data: seq<byte>) returns (result: u32)
    ensures result == Checksum(data)
  {
    hide Widen, Xor, Complement;
    var crc: bv32 := INITIAL;
    for i := 0 to |data|
      invariant crc == Register(INITIAL, data[..i])
    {
      ghost var before := crc;
      crc := ShiftByteThrough(Xor(crc, Widen(data[i])));
      assert data[..i + 1] == data[..i] + [data[i]];
      RegisterSnoc(INITIAL, data[..i], data[i]);
    }
    assert data[..|data|] == data;
    result := Complement(crc);
  }

  lemma RegisterSnoc(c: bv32, data: seq<byte>, b: byte)
    ensures Register(c, data + [b]) == Iterate(Shift, BYTE_BITS, Xor(Register(c, data), Widen(b)))
  {
    FoldSnoc(ByteStep, c, data, b);
  }

  // ---------------------------------------------------------------- serial form

  /** One clock of the textbook shift register that divides the bit stream by the polynomial. */
  function SerialStep(c: bv32, b: bool): (r: bv32)
  {
    Shift(Xor(c, Bit(b)))
  }

  /** The payload as the bit stream that a serial register sees. */
  function BitsOf(data: seq<byte>): (s: seq<bool>)
    ensures |s| == 8 * |data|
  {
    if data == [] then [] else BitsOf(data[..|data| - 1]) + Bits(data[|data| - 1], BYTE_BITS)
  }

  /** The two cases of the mask. */
  lemma ShiftCases(c: bv32)
    ensures c & 1 == 0 || c & 1 == 1
    ensures c & 1 == 0 ==> Shift(c) == c >> 1
    ensures c & 1 == 1 ==> Shift(c) == POLYNOMIAL ^ (c >> 1)
  {
  }

  lemma XorHalves(a: bv32, b: bv32)
    ensures (a ^ b) >> 1 == (a >> 1) ^ (b >> 1)
    ensures (a ^ b) & 1 == (a & 1) ^ (b & 1)
  {
  }

  lemma XorTerms(p: bv32, x: bv32, y: bv32)
    ensures (p ^ x) ^ (p ^ y) == x ^ y
    ensures (p ^ x) ^ y == p ^ (x ^ y)
    ensures x ^ (p ^ y) == p ^ (x ^ y)
  {
  }

  /** A shift of the register is linear: this is what makes it a polynomial division. */
  lemma ShiftLinear(a: bv32, b: bv32)
    ensures Shift(Xor(a, b)) == Xor(Shift(a), Shift(b))
  {
    hide Shift;
    ShiftCases(a);
    ShiftCases(b);
    ShiftCases(a ^ b);
    XorHalves(a, b);
    XorTerms(POLYNOMIAL, a >> 1, b >> 1);
  }

  lemma ShiftUndoesDouble(z: bv32)
    requires TopBitClear(z)
    ensures Shift(Double(z)) == z
  {
  }

  lemma XorRegroups(a: bv32, b: bv32, c: bv32)
    ensures a ^ (b ^ c) == (a ^ b) ^ c
  {
  }

  lemma XorAssociates(a: bv32, b: bv32, c: bv32)
    ensures Xor(a, Xor(b, c)) == Xor(Xor(a, b), c)
  {
    assert Xor(b, c) == b ^ c && Xor(a, b) == a ^ b;
    XorRegroups(a, b, c);
    assert Xor(a, b ^ c) == a ^ (b ^ c) && Xor(a ^ b, c) == (a ^ b) ^ c;
  }

  lemma ShiftAddsWord(x: bv32, b: bool, rest: bv32)
    requires TopBitClear(rest)
    ensures Shift(Xor(x, Push(b, rest))) == Xor(SerialStep(x, b), rest)
  {
    hide Shift, TopBitClear, Bit, Double, Xor;
    XorAssociates(x, Bit(b), Double(rest));
    ShiftLinear(Xor(x, Bit(b)), Double(rest));
    ShiftUndoesDouble(rest);
  }

  lemma ShiftInjective(a: bv32, b: bv32)
    requires Shift(a) == Shift(b)
    ensures a == b
  {
  }

  /** The bits above the n lowest. */
  function High(n: nat): (w: bv32)
  {
    if n == 0 then 0xFFFF_FFFF else Double(High(n - 1))
  }

  lemma HighValues()
    ensures High(8) == 0xFFFF_FF00
    ensures High(31) == 0x8000_0000
  {
    assert High(4) == 0xFFFF_FFF0 by { assert High(2) == 0xFFFF_FFFC; }
    assert High(8) == 0xFFFF_FF00 by { assert High(6) == 0xFFFF_FFC0; }
    assert High(12) == 0xFFFF_F000 by { assert High(10) == 0xFFFF_FC00; }
    assert High(16) == 0xFFFF_0000 by { assert High(14) == 0xFFFF_C000; }
    assert High(20) == 0xFFF0_0000 by { assert High(18) == 0xFFFC_0000; }
    assert High(24) == 0xFF00_0000 by { assert High(22) == 0xFFC0_0000; }
    assert High(28) == 0xF000_0000 by { assert High(26) == 0xFC00_0000; }
    assert High(31) == 0x8000_0000 by { assert High(30) == 0xC000_0000; }
  }

  predicate Disjoint(w: bv32, mask: bv32)
  {
    w & mask == 0
  }

  lemma PushBound(b: bool, w: bv32, high: bv32)
    requires Disjoint(w, high)
    ensures Disjoint(Push(b, w), Double(high))
  {
    if b {} else {}
  }

  lemma EmptyWord(mask: bv32)
    ensures Disjoint(Word([]), mask)
  {
  }

  /** A word of at most n bits has no bit above the n lowest. */
  lemma {:induction false} WordBound(bits: seq<bool>, n: nat)
    requires |bits| <= n
    ensures Disjoint(Word(bits), High(n))
  {
    hide Push, Double, Disjoint;
    if bits == [] {
      EmptyWord(High(n));
    } else {
      WordBound(bits[1..], n - 1);
      PushBound(bits[0], Word(bits[1..]), High(n - 1));
    }
  }

  lemma WordTopBitClear(bits: seq<bool>)
    requires |bits| <= 31
    ensures TopBitClear(Word(bits))
  {
    hide Word, High, Disjoint;
    WordBound(bits, 31);
    HighValues();
  }

  lemma WordStep(x: bv32, s: seq<bool>)
    requires 0 < |s| <= 32
    ensures Shift(Xor(x, Word(s))) == Xor(SerialStep(x, s[0]), Word(s[1..]))
  {
    hide Shift, Push, Xor, SerialStep, TopBitClear;
    WordTopBitClear(s[1..]);
    ShiftAddsWord(x, s[0], Word(s[1..]));
  }

  /** Adding up to 32 input bits at once and shifting them through is feeding them one by one. */
  lemma FeedIsShifts(c: bv32, bits: seq<bool>)
    requires |bits| <= 32
    ensures Fold(SerialStep, c, bits) == Iterate(Shift, |bits|, Xor(c, Word(bits)))
  {
    forall x: bv32, s: seq<bool> | s != [] && |s| <= |bits|
      ensures Shift(Xor(x, Word(s))) == Xor(SerialStep(x, s[0]), Word(s[1..]))
    {
      WordStep(x, s);
    }
    IterateIsFold(Shift, Xor, Word, SerialStep, c, bits);
  }

  /** compute_crc32 is polynomial division of the whole bit stream. */
  lemma {:induction false} RegisterIsSerial(c: bv32, data: seq<byte>)
    ensures Register(c, data) == Fold(SerialStep, c, BitsOf(data))
    decreases |data|
  {
    if data != [] {
      var n := |data| - 1;
      RegisterIsSerial(c, data[..n]);
      FeedIsShifts(Register(c, data[..n]), Bits(data[n], BYTE_BITS));
      FoldConcat(SerialStep, c, BitsOf(data[..n]), Bits(data[n], BYTE_BITS));
    }
  }

  /** The running register composes over concatenation. */
  lemma RegisterConcat(c: bv32, x: seq<byte>, y: seq<byte>)
    ensures Register(c, x + y) == Register(Register(c, x), y)
  {
    FoldConcat(ByteStep, c, x, y);
  }

  // ---------------------------------------------------------------- table form

  /** One turn of the table generator in section 8 of RFC 1952, with its branch. */
  function TableShift(c: bv32): (r: bv32)
  {
    if c & 1 != 0 then 0xEDB88320 ^ (c >> 1) else c >> 1
  }

  /** crc_table[n] of section 8 of RFC 1952. */
  function TableEntry(n: bv32): (r: bv32)
  {
    Iterate(TableShift, BYTE_BITS, n)
  }

  /** One turn of update_crc of section 8 of RFC 1952. */
  function TableStep(c: bv32, b: byte): (r: bv32)
  {
    Xor(TableEntry(LowByte(Xor(c, Widen(b)))), Down(c))
  }

  function LowByte(w: bv32): (r: bv32)
  {
    w & 0xff
  }

  /** The word without its low byte. */
  function Down(w: bv32): (r: bv32)
  {
    w >> 8
  }

  lemma ShiftIsTableShift(c: bv32)
    ensures Shift(c) == TableShift(c)
  {
    hide Shift;
    ShiftCases(c);
  }

  lemma IterateIsTableEntry(x: bv32)
    ensures Iterate(Shift, BYTE_BITS, x) == TableEntry(x)
  {
    hide Shift, TableShift, Iterate;
    forall r: bv32 ensures Shift(r) == TableShift(r) {
      ShiftIsTableShift(r);
    }
    IterateEqual(Shift, TableShift, BYTE_BITS, x);
  }

  lemma EightTurns<R>(f: R -> R, x: R)
    ensures Iterate(f, BYTE_BITS, x) == f(f(f(f(f(f(f(f(x))))))))
  {
    assert Iterate(f, 4, x) == f(f(f(f(x))));
  }

  lemma EightDoubles(z: bv32)
    requires Disjoint(z, 0xFF00_0000)
    ensures var d := Double(Double(Double(z)));
            && TopBitClear(z) && TopBitClear(Double(z)) && TopBitClear(Double(Double(z)))
            && TopBitClear(d) && TopBitClear(Double(d)) && TopBitClear(Double(Double(d)))
            && TopBitClear(Double(Double(Double(d)))) && TopBitClear(Double(Double(Double(Double(d)))))
            && z << 8 == Double(Double(Double(Double(Double(d)))))
  {
  }

  /** Eight shifts of a word with a clear low byte only move it. */
  lemma EightShiftsMoveDown(z: bv32)
    requires Disjoint(z, 0xFF00_0000)
    ensures Iterate(Shift, BYTE_BITS, z << 8) == z
  {
    hide Shift, Iterate, Double, TopBitClear, Disjoint;
    EightDoubles(z);
    var d1 := Double(z);
    var d2 := Double(d1);
    var d3 := Double(d2);
    var d4 := Double(d3);
    var d5 := Double(d4);
    var d6 := Double(d5);
    var d7 := Double(d6);
    ShiftUndoesDouble(z);
    ShiftUndoesDouble(d1);
    ShiftUndoesDouble(d2);
    ShiftUndoesDouble(d3);
    ShiftUndoesDouble(d4);
    ShiftUndoesDouble(d5);
    ShiftUndoesDouble(d6);
    ShiftUndoesDouble(d7);
    EightTurns(Shift, Double(d7));
  }

  lemma SplitWord(x: bv32)
    ensures x == Xor(LowByte(x), Down(x) << 8) && Disjoint(Down(x), 0xFF00_0000)
  {
  }

  /** Eight shifts act on the low byte and move the rest down. */
  lemma EightShiftsSplit(x: bv32)
    ensures Iterate(Shift, BYTE_BITS, x) == Xor(Iterate(Shift, BYTE_BITS, LowByte(x)), Down(x))
  {
    hide Shift, Iterate, Xor, LowByte, Down, Disjoint;
    forall a: bv32, b: bv32 ensures Shift(Xor(a, b)) == Xor(Shift(a), Shift(b)) {
      ShiftLinear(a, b);
    }
    SplitWord(x);
    EightShiftsMoveDown(Down(x));
    IterateLinear(Shift, Xor, BYTE_BITS, LowByte(x), Down(x) << 8);
  }

  lemma DownIgnoresByte(c: bv32, w: bv32)
    requires Disjoint(w, 0xFFFF_FF00)
    ensures Down(Xor(c, w)) == Down(c)
  {
  }

  lemma WidenIsByte(b: byte)
    ensures Disjoint(Widen(b), 0xFFFF_FF00)
  {
    hide Word, Bits, High, Disjoint;
    WordBound(Bits(b, BYTE_BITS), BYTE_BITS);
    HighValues();
  }

  lemma ByteStepIsTableStep(c: bv32, b: byte)
    ensures ByteStep(c, b) == TableStep(c, b)
  {
    hide Shift, Iterate, TableEntry, Widen, Xor, LowByte, Down, Disjoint;
    WidenIsByte(b);
    var x := Xor(c, Widen(b));
    DownIgnoresByte(c, Widen(b));
    EightShiftsSplit(x);
    IterateIsTableEntry(LowByte(x));
  }

  lemma StepsAgree()
    ensures forall r: bv32, b: byte :: ByteStep(r, b) == TableStep(r, b)
  {
    forall r: bv32, b: byte ensures ByteStep(r, b) == TableStep(r, b) {
      ByteStepIsTableStep(r, b);
    }
  }

  /** The masked bit loop refines the table-driven algorithm on every byte string. */
  lemma RegisterIsTableDriven(c: bv32, data: seq<byte>)
    ensures Register(c, data) == Fold(TableStep, c, data)
  {
    StepsAgree();
    FoldEqual(ByteStep, TableStep, c, data);
  }

  /** crc of section 8 of RFC 1952, with its literals: start from all ones, update by table, complement. */
  function Rfc1952(data: seq<byte>): (crc: u32)
  {
    Xor(Fold(TableStep, 0xFFFF_FFFF, data), 0xFFFF_FFFF) as int
  }

  lemma ComplementIsXor(c: bv32)
    ensures Complement(c) == Xor(c, 0xFFFF_FFFF) as int
  {
    assert !c == c ^ 0xFFFF_FFFF;
  }

  /** compute_crc32 is the checksum of RFC 1952, on every byte string. */
  lemma ChecksumIsRfc1952(data: seq<byte>)
    ensures Checksum(data) == Rfc1952(data)
  {
    hide Complement, Xor, TableStep, ByteStep;
    RegisterIsTableDriven(0xFFFF_FFFF, data);
    ComplementIsXor(Register(INITIAL, data));
  }

  // ---------------------------------------------------------------- detection

  lemma SerialStepInjective(a: bv32, b: bv32, x: bool)
    requires SerialStep(a, x) == SerialStep(b, x)
    ensures a == b
  {
  }

  lemma XorCancels(x: bv32, y: bv32, z: bv32)
    requires z ^ x == z ^ y
    ensures x == y
  {
  }

  predicate LowBit(w: bv32)
  {
    w & 1 == 1
  }

  function Half(w: bv32): (h: bv32)
  {
    w >> 1
  }

  /** The n low-order bits of a word: the inverse of Word. */
  function Unword(w: bv32, n: nat): (bits: seq<bool>)
    decreases n
  {
    if n == 0 then [] else [LowBit(w)] + Unword(Half(w), n - 1)
  }

  lemma PopBit(b: bool, rest: bv32)
    requires TopBitClear(rest)
    ensures LowBit(Push(b, rest)) == b && Half(Push(b, rest)) == rest
  {
    if b {} else {}
  }

  lemma {:induction false} UnwordWord(bits: seq<bool>)
    requires |bits| <= 32
    ensures Unword(Word(bits), |bits|) == bits
  {
    if bits != [] {
      WordTopBitClear(bits[1..]);
      PopBit(bits[0], Word(bits[1..]));
      UnwordWord(bits[1..]);
    }
  }

  lemma ShiftsKeepDifference(c: bv32, v: bv32, w: bv32, n: nat)
    requires Iterate(Shift, n, Xor(c, v)) == Iterate(Shift, n, Xor(c, w))
    ensures v == w
  {
    forall r: bv32, s: bv32 | Shift(r) == Shift(s) ensures r == s {
      ShiftInjective(r, s);
    }
    IterateInjective(Shift, n, Xor(c, v), Xor(c, w));
    XorCancels(v, w, c);
  }

  /** At most 32 bits of different input, from the same register, never end in the same register. */
  lemma WindowDetected(c: bv32, x: seq<bool>, y: seq<bool>)
    requires |x| == |y| <= 32
    requires Fold(SerialStep, c, x) == Fold(SerialStep, c, y)
    ensures x == y
  {
    FeedIsShifts(c, x);
    FeedIsShifts(c, y);
    ShiftsKeepDifference(c, Word(x), Word(y), |x|);
    UnwordWord(x);
    UnwordWord(y);
  }

  lemma {:induction false} BitsInjective(v: nat, w: nat, n: nat)
    requires v < Power2(n) && w < Power2(n)
    requires Bits(v, n) == Bits(w, n)
    ensures v == w
    decreases n
  {
    if n > 0 {
      assert Bits(v, n)[0] == Bits(w, n)[0];
      assert Bits(v, n)[1..] == Bits(v / 2, n - 1);
      assert Bits(w, n)[1..] == Bits(w / 2, n - 1);
      BitsInjective(v / 2, w / 2, n - 1);
    }
  }

  function Power2(n: nat): (p: nat)
    ensures p > 0
  {
    if n == 0 then 1 else 2 * Power2(n - 1)
  }

  lemma Power2OfByte()
    ensures Power2(BYTE_BITS) == 256
  {
    assert Power2(4) == 16;
  }

  lemma LastByteOfBits(x: seq<byte>)
    requires x != []
    ensures BitsOf(x)[8 * (|x| - 1)..] == Bits(x[|x| - 1], BYTE_BITS)
    ensures BitsOf(x)[..8 * (|x| - 1)] == BitsOf(x[..|x| - 1])
  {
  }

  lemma ByteFromBits(a: byte, b: byte)
    requires Bits(a, BYTE_BITS) == Bits(b, BYTE_BITS)
    ensures a == b
  {
    Power2OfByte();
    BitsInjective(a, b, BYTE_BITS);
  }

  lemma {:induction false} BitsOfInjective(x: seq<byte>, y: seq<byte>)
    requires |x| == |y|
    requires BitsOf(x) == BitsOf(y)
    ensures x == y
  {
    hide Bits, BitsOf;
    if x != [] {
      var n := |x| - 1;
      LastByteOfBits(x);
      LastByteOfBits(y);
      ByteFromBits(x[n], y[n]);
      BitsOfInjective(x[..n], y[..n]);
      assert x == x[..n] + [x[n]] && y == y[..n] + [y[n]];
    }
  }

  lemma ComplementInjective(a: bv32, b: bv32)
    requires Complement(a) == Complement(b)
    ensures a == b
  {
    AsIntInjective(!a, !b);
  }

  lemma AsIntInjective(a: bv32, b: bv32)
    requires a as int == b as int
    ensures a == b
  {
    CastBack(a);
    CastBack(b);
  }

  lemma CastBack(w: bv32)
    ensures (w as int) as bv32 == w
  {
  }

  /** Pushing a low bit below a word of fewer than eight bits doubles its value and adds the bit. */
  lemma PushValue(b: bool, w: bv32)
    requires w as int < 128
    ensures Push(b, w) as int == 2 * (w as int) + if b then 1 else 0
  {
    assert w < 128;
    if b {} else {}
  }

  /** The word of the low-order bits of v is v. */
  lemma {:induction false} WordValue(v: nat, n: nat)
    requires v < Power2(n) <= 256
    ensures Word(Bits(v, n)) as int == v
    decreases n
  {
    hide Push;
    if n > 0 {
      var rest := Bits(v / 2, n - 1);
      WordValue(v / 2, n - 1);
      assert Bits(v, n)[1..] == rest;
      PushValue(v % 2 == 1, Word(rest));
    }
  }

  /** compute_crc32 adds the byte itself: Widen is the cast to the register's type. */
  lemma WidenIsCast(b: byte)
    ensures Widen(b) == b as bv32
  {
    hide Word, Bits, Power2;
    Power2OfByte();
    WordValue(b, BYTE_BITS);
    CastBack(Widen(b));
  }

  /** Every burst of at most 32 bits, at any bit offset and in a payload of any length,
      changes the checksum. */
  lemma BurstDetected(x: seq<byte>, y: seq<byte>, at: nat, n: nat)
    requires |x| == |y| && x != y
    requires n <= 32 && at + n <= 8 * |x|
    requires BitsOf(x)[..at] == BitsOf(y)[..at]
    requires BitsOf(x)[at + n..] == BitsOf(y)[at + n..]
    ensures Checksum(x) != Checksum(y)
  {
    RegisterIsSerial(INITIAL, x);
    RegisterIsSerial(INITIAL, y);
    if BitsOf(x) == BitsOf(y) {
      BitsOfInjective(x, y);
      assert false;
    }
    FeedsDiffer(INITIAL, BitsOf(x), BitsOf(y), at, n);
    if Checksum(x) == Checksum(y) {
      ComplementInjective(Register(INITIAL, x), Register(INITIAL, y));
      assert false;
    }
  }

  lemma FeedsDiffer(c: bv32, x: seq<bool>, y: seq<bool>, at: nat, n: nat)
    requires |x| == |y| && n <= 32 && at + n <= |x| && x != y
    requires x[..at] == y[..at] && x[at + n..] == y[at + n..]
    ensures Fold(SerialStep, c, x) != Fold(SerialStep, c, y)
  {
    var head, tail := x[..at], x[at + n..];
    var u, v := x[at..at + n], y[at..at + n];
    assert x == (head + u) + tail && y == (head + v) + tail;
    FoldConcat(SerialStep, c, head + u, tail);
    FoldConcat(SerialStep, c, head + v, tail);
    FoldConcat(SerialStep, c, head, u);
    FoldConcat(SerialStep, c, head, v);
    if Fold(SerialStep, c, x) == Fold(SerialStep, c, y) {
      forall r: bv32, s: bv32, b: bool | SerialStep(r, b) == SerialStep(s, b) ensures r == s {
        SerialStepInjective(r, s, b);
      }
      FoldInjective(SerialStep, Fold(SerialStep, c, head + u), Fold(SerialStep, c, head + v), tail);
      WindowDetected(Fold(SerialStep, c, head), u, v);
      assert false;
    }
  }

  lemma {:induction false} BitsOfConcat(x: seq<byte>, y: seq<byte>)
    ensures BitsOf(x + y) == BitsOf(x) + BitsOf(y)
  {
    hide Bits;
    if y == [] {
      assert x + y == x;
    } else {
      var m := |y| - 1;
      assert (x + y)[..|x + y| - 1] == x + y[..m] && (x + y)[|x + y| - 1] == y[m];
      BitsOfConcat(x, y[..m]);
      assert BitsOf(x + y) == BitsOf(x) + BitsOf(y[..m]) + Bits(y[m], BYTE_BITS);
    }
  }

  lemma BitsOfPrefix(x: seq<byte>, y: seq<byte>, at: nat)
    requires at <= |x| && at <= |y| && x[..at] == y[..at]
    ensures BitsOf(x)[..8 * at] == BitsOf(y)[..8 * at]
  {
    assert x == x[..at] + x[at..] && y == y[..at] + y[at..];
    BitsOfConcat(x[..at], x[at..]);
    BitsOfConcat(y[..at], y[at..]);
  }

  lemma BitsOfSuffix(x: seq<byte>, y: seq<byte>, at: nat)
    requires at <= |x| == |y| && x[at..] == y[at..]
    ensures BitsOf(x)[8 * at..] == BitsOf(y)[8 * at..]
  {
    assert x == x[..at] + x[at..] && y == y[..at] + y[at..];
    BitsOfConcat(x[..at], x[at..]);
    BitsOfConcat(y[..at], y[at..]);
  }

  /** Payloads that differ only inside four consecutive bytes have different checksums. */
  lemma FourByteWindowDetected(x: seq<byte>, y: seq<byte>, at: nat, n: nat)
    requires |x| == |y| && x != y
    requires n <= 4 && at + n <= |x|
    requires x[..at] == y[..at] && x[at + n..] == y[at + n..]
    ensures Checksum(x) != Checksum(y)
  {
    hide BitsOf, Checksum;
    BitsOfPrefix(x, y, at);
    BitsOfSuffix(x, y, at + n);
    assert 8 * at + 8 * n == 8 * (at + n);
    BurstDetected(x, y, 8 * at, 8 * n);
  }

  /** The test sender's fault, payload[size / 2] ^= 1 after the CRC was computed. */
  function Corrupted(payload: seq<byte>): (r: seq<byte>)
    requires payload != []
  {
    var k := |payload| / 2;
    payload[k := if payload[k] % 2 == 0 then payload[k] + 1 else payload[k] - 1]
  }

  lemma CorruptionDetected(payload: seq<byte>)
    requires payload != []
    ensures |Corrupted(payload)| == |payload|
    ensures var k, bad := |payload| / 2, Corrupted(payload);
            bad == payload[k := bad[k]] && bad[k] / 2 == payload[k] / 2 && bad[k] != payload[k]
    ensures Checksum(Corrupted(payload)) != Checksum(payload)
  {
    var k := |payload| / 2;
    var bad := Corrupted(payload);
    assert bad[k] != payload[k];
    FourByteWindowDetected(bad, payload, k, 1);
  }
}
