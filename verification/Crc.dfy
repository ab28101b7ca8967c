/** The CRC engine of modules/CRC: parameters and lookup table in one object that
    the operations update in place. */
module Crc {
  import opened Words
  import opened Gf2
  import opened CrcWords

  const MAX_LENGTH := 1024 * 16

  const LTE_CRC24A := 0x1864CFB
  const LTE_CRC24B := 0x1800063
  const LTE_CRC16 := 0x11021
  const LTE_CRC8 := 0x19B

  /** A word with its x^n term, its constant term and an even number of terms. */
  ghost predicate EvenGenerator(p: nat, n: nat) {
    n >= 1 && Pow2(n) <= p < Pow2(n + 1) && IsGenerator(GeneratorOf(p, n)) && !Parity(GeneratorOf(p, n))
  }

  /** The four LTE generators have both end terms and an even number of terms. */
  lemma {:induction false} LteGenerators()
    ensures EvenGenerator(LTE_CRC24A, 24) && EvenGenerator(LTE_CRC24B, 24)
    ensures EvenGenerator(LTE_CRC16, 16) && EvenGenerator(LTE_CRC8, 8)
  {
    hide OddWeight, EvenGenerator;
    HexWeight(0, 0, 0, 0, 1); OddZero();
    HexWeight(0x1, 1, 0, 0, 0); HexWeight(0x18, 0, 1, 1, 0); HexWeight(0x186, 0, 1, 0, 0);
    HexWeight(0x1864, 1, 1, 0, 0); HexWeight(0x1864C, 1, 1, 1, 1); HexWeight(0x1864CF, 1, 0, 1, 1);
    HexWeight(0x18, 0, 0, 0, 0); HexWeight(0x180, 0, 0, 0, 0); HexWeight(0x1800, 0, 0, 0, 0);
    HexWeight(0x18000, 0, 1, 1, 0); HexWeight(0x180006, 0, 0, 1, 1);
    HexWeight(0x1, 0, 0, 0, 1); HexWeight(0x11, 0, 0, 0, 0); HexWeight(0x110, 0, 0, 1, 0); HexWeight(0x1102, 0, 0, 0, 1);
    HexWeight(0x1, 1, 0, 0, 1); HexWeight(0x19, 1, 0, 1, 1);
    LteParities();
  }

  lemma {:induction false} LteParities()
    requires !OddWeight(LTE_CRC24A) && !OddWeight(LTE_CRC24B)
    requires !OddWeight(LTE_CRC16) && !OddWeight(LTE_CRC8)
    ensures EvenGenerator(LTE_CRC24A, 24) && EvenGenerator(LTE_CRC24B, 24)
    ensures EvenGenerator(LTE_CRC16, 16) && EvenGenerator(LTE_CRC8, 8)
  {
    hide OddWeight, Bits, Parity, GeneratorOf;
    Pow2Values();
    LteGenerator(LTE_CRC24A, 24);
    LteGenerator(LTE_CRC24B, 24);
    LteGenerator(LTE_CRC16, 16);
    LteGenerator(LTE_CRC8, 8);
  }

  lemma {:induction false} LteGenerator(p: nat, n: nat)
    requires n >= 1 && Pow2(n) <= p < Pow2(n + 1) && p % 2 == 1 && !OddWeight(p)
    ensures EvenGenerator(p, n)
  {
    OddWord(p, n);
    WholeWord(p, n);
    ParityOfBits(p, n + 1);
  }

  type int32 = x: int | -0x8000_0000 <= x < 0x8000_0000

  class CrcEngine {
    var table: array<u64>
    var data0: array<byte>
    var polynom: int32
    var order: nat
    var crcinit: u64
    var crcxor: u64
    var crcmask: u64
    var crchighbit: u64

    ghost predicate Layout()
      reads this
    {
      table.Length == 256 && data0.Length == MAX_LENGTH && table as object != data0
    }

    /** Orders 8, 16, 24 and 32, masks that fit, start value and final mask inside them. */
    ghost predicate Params()
      reads this
    {
      && 8 <= order <= 32 && order % 8 == 0
      && crcmask == Pow2(order) - 1 && crchighbit == Pow2(order - 1)
      && crcinit <= crcmask && crcxor <= crcmask
    }

    /** The polynomial as the operations see it: widened to 64 bits with its sign, or as
        an unsigned word of 32 bits. */
    function Wide(): u64
      reads this
    {
      if polynom < 0 then polynom + U64 else polynom
    }

    function Word(): u32
      reads this
    {
      if polynom < 0 then polynom + 0x1_0000_0000 else polynom
    }

    ghost function P(): (p: Poly)
      reads this
      ensures |p| == order + 1
    {
      GeneratorOf(Word(), order)
    }

    lemma {:induction false} WideBits()
      requires Params()
      ensures GeneratorOf(Wide(), order) == P()
    {
      Pow2Values();
      hide Pow2, Bits;
      assert Wide() % 0x1_0000_0000 == Word();
      BitsOfMod(Wide(), 32, order);
    }

    ghost predicate TableOk()
      reads this, table
      requires Layout() && order >= 8
    {
      forall i :: 0 <= i < 256 ==> EntryFor(table[i], i, order, P())
    }

    ghost predicate Ready()
      reads this, table
    {
      Layout() && Params() && TableOk()
    }

    /** The polynomial has its constant term. */
    ghost predicate Odd()
      reads this
    {
      Word() % 2 == 1
    }

    /** The polynomial word writes out its x^order term, and nothing above it. */
    ghost predicate Whole()
      reads this
    {
      Odd() && Pow2(order) <= Word() < Pow2(order + 1)
    }

    /** The register after a bit stream. */
    ghost function Register(S: Poly): (r: Poly)
      reads this
      requires Params()
      ensures |r| == order
    {
      Feed(P(), Bits(crcinit, order), S)
    }

    /** What the start value contributes: it is shifted once for every bit of the stream, and
        the rest is the remainder of the stream. */
    lemma {:induction false} StartValue(S: Poly)
      requires Params()
      ensures Register(S) == Xors(Remainder(P(), S), StepN(P(), Bits(crcinit, order), |S|))
    {
      hide Bits, Feed, StepN, Pow2;
      var I, Z := Bits(crcinit, order), Zeros(order);
      FeedLinear(P(), Z, I, S, Zeros(|S|));
      FeedZeros(P(), I, |S|);
      assert Xors(Z, I) == I && Xors(S, Zeros(|S|)) == S;
    }

    ghost function XorBits(): (x: Poly)
      reads this
      ensures |x| == order
    {
      Bits(crcxor, order)
    }

    /** What is known of message and CRC together: the residue depends on crcxor alone;
        with crcxor zero it is zero; with the default parameters the generator divides. */
    ghost predicate IsCodeword(C: Poly)
      reads this
      requires Params()
    {
      && Register(C) == StepN(P(), XorBits(), order)
      && (crcxor == 0 ==> Register(C) == Zeros(order))
      && (crcinit == 0 && crcxor == 0 && Odd() ==> MultipleOf(P(), C))
    }

    method GenCrcTable()
      requires Layout() && Params()
      modifies table
      ensures TableOk()
    {
      hide Bits, Pow2, StepN;
      var i := 0;
      while i < 256
        invariant 0 <= i <= 256
        invariant forall k :: 0 <= k < i ==> EntryFor(table[k], k, order, P())
      {
        var crc := EightSteps(i);
        table[i] := crc;
        i := i + 1;
      }
    }

    /** The inner loop of the table generator: eight steps from byte i at the top. */
    method EightSteps(i: byte) returns (r: u64)
      requires Params()
      ensures EntryFor(r, i, order, P())
    {
      hide Bits, Zeros, Pow2, And, Xor, Shl, Step, GeneratorOf, Wide;
      var ord := order - 8;
      var crc: u64 := Shl(i, ord);
      TopByte(i, order);
      WideBits();
      var j := 0;
      while j < 8
        invariant 0 <= j <= 8
        invariant StepN(P(), Bits(i, 8) + Zeros(ord), 8) == StepN(P(), Bits(crc, order), 8 - j)
      {
        WordStep(crc, order, Wide());
        XorFits64(Shl(crc, 1), Wide());
        var bit := And(crc, crchighbit);
        crc := Shl(crc, 1);
        if bit != 0 { crc := Xor(crc, Wide()); }
        j := j + 1;
      }
      AndMask(crc, order);
      BitsOfLow(crc, order);
      r := And(crc, crcmask);
    }

    /** The table-driven division of the first length bytes of data0. */
    method CrcTable(length: nat) returns (r: u64)
      requires Ready() && length <= MAX_LENGTH
      ensures r < Pow2(order)
      ensures Bits(r, order) == Xors(Register(ByteBits(data0[..length])), XorBits())
    {
      hide Bits, Pow2, Xor, And, Shl, Shr, EntryFor;
      var ord := order - 8;
      var crc: u64 := crcinit;
      var i := 0;
      while i < length
        invariant 0 <= i <= length
        invariant Bits(crc, order) == Register(ByteBits(data0[..i]))
      {
        var b := data0[i];
        TableStep(crc, data0[..i], b);
        assert data0[..i + 1] == data0[..i] + [b];
        crc := Xor(Shl(crc, 8), table[Xor(And(Shr(crc, ord), 0xff), b)]);
        i := i + 1;
      }
      r := Masked(crc);
    }

    lemma {:induction false} TableStep(crc: u64, done: seq<byte>, b: byte)
      requires Ready() && Bits(crc, order) == Register(ByteBits(done))
      ensures var index := Xor(And(Shr(crc, order - 8), 0xff), b);
              && index < 256
              && Xor(Shl(crc, 8), table[index]) < U64
              && Bits(Xor(Shl(crc, 8), table[index]), order) == Register(ByteBits(done + [b]))
    {
      hide Bits, Pow2, Xor, And, Shl, Shr, EntryFor, ByteBits, Feed;
      var index := TableIndex(crc, b, order);
      WordByte(crc, b, order, P(), table[index]);
      XorFits64(Shl(crc, 8), table[index]);
      ByteBitsSnoc(done, b);
      FeedAppend(P(), Bits(crcinit, order), ByteBits(done), Bits(b, 8));
    }

    /** The common exit (crc ^ crcxor) & crcmask. */
    method Masked(crc: u64) returns (r: u64)
      requires Params()
      ensures r < Pow2(order)
      ensures Bits(r, order) == Xors(Bits(crc, order), XorBits())
    {
      hide Bits, Xor, Xors, And, Pow2;
      XorFits64(crc, crcxor);
      var v := Xor(crc, crcxor);
      AndMask(v, order);
      BitsOfLow(v, order);
      BitsOfXor(crc, crcxor, order);
      r := And(v, crcmask);
    }

    /** nbits steps of the register backwards, with the terms that the word writes out. */
    method ReverseCrcBit(crc0: u32, nbits: nat) returns (r: u64)
      requires Params() && Word() < Pow2(order + 1) && crc0 < Pow2(order)
      ensures r < Pow2(order)
      ensures Bits(r, order) == Xors(BackN(Bits(Word(), order + 1), Bits(crc0, order), nbits), XorBits())
    {
      hide Bits, Feed, StepN, Pow2, Zeros, And, Xor, Shr, Back, Word;
      ghost var W := Bits(Word(), order + 1);
      var crc: nat := crc0;
      var rmask := 1;
      var m := 0;
      while m < nbits
        invariant 0 <= m <= nbits && crc < Pow2(order)
        invariant BackN(W, Bits(crc0, order), nbits) == BackN(W, Bits(crc, order), nbits - m)
      {
        WordBack(crc, order, Word());
        if And(rmask, crc) == 1 { crc := Shr(Xor(crc, Word()), 1); } else { crc := Shr(crc, 1); }
        m := m + 1;
      }
      Pow2Mono(order, 32);
      Pow2Values();
      r := Masked(crc);
    }

    method CrcSetInit(value: u64) returns (r: int)
      requires order >= 1 && crcmask == Pow2(order) - 1
      modifies this`crcinit
      ensures crcinit == value
      ensures r == if value <= crcmask then 0 else -1
    {
      crcinit := value;
      r := CheckMasked(value);
    }

    method CrcSetXor(value: u64) returns (r: int)
      requires order >= 1 && crcmask == Pow2(order) - 1
      modifies this`crcxor
      ensures crcxor == value
      ensures r == if value <= crcmask then 0 else -1
    {
      crcxor := value;
      r := CheckMasked(value);
    }

    method CheckMasked(value: u64) returns (r: int)
      requires order >= 1 && crcmask == Pow2(order) - 1
      ensures r == if value <= crcmask then 0 else -1
    {
      AndMask(value, order);
      LowSmall(value, order);
      if value != And(value, crcmask) { return -1; }
      return 0;
    }

    /** Success exactly for the orders that are whole bytes; then the table is right. */
    method CrcInit(crc_poly: u32, crc_order: nat) returns (r: int)
      requires Layout() && 1 <= crc_order <= 32
      modifies this, table
      ensures Layout() && table == old(table) && data0 == old(data0)
      ensures Word() == crc_poly && order == crc_order && crcinit == 0 && crcxor == 0
      ensures crcmask == Pow2(order) - 1 && crchighbit == Pow2(order - 1)
      ensures r == if crc_order % 8 == 0 then 0 else -1
      ensures r == 0 ==> Ready()
    {
      hide Bits, Pow2, Or, And, Shl, EntryFor;
      polynom := if crc_poly < 0x8000_0000 then crc_poly else crc_poly - 0x1_0000_0000;
      order := crc_order;
      crcinit := 0;
      crcxor := 0;
      MaskFits(order);
      crcmask := Or(Shl(Shl(1, order - 1) - 1, 1), 1);
      crchighbit := Shl(1, order - 1);
      if order % 8 != 0 { return -1; }
      var e := CrcSetInit(crcxor);
      if e != 0 { return -1; }
      e := CrcSetXor(crcxor);
      if e != 0 { return -1; }
      GenCrcTable();
      return 0;
    }

    /** memcpy of the first n bytes of a buffer into data0. */
    method CopyIn(buf: array<byte>, n: nat)
      requires Layout() && n <= buf.Length && n <= MAX_LENGTH && buf != data0
      modifies data0
      ensures data0[..n] == buf[..n]
    {
      var i := 0;
      while i < n
        invariant 0 <= i <= n && data0[..i] == buf[..i]
      {
        data0[i] := buf[i];
        i := i + 1;
      }
    }

    /** Appends the register of the message. The residue of message and register
        depends on crcxor alone, and is zero when crcxor is. */
    method AddCrc(buf: array<byte>, datalen: nat)
      requires Ready() && buf != data0 && buf as object != table
      requires datalen <= MAX_LENGTH && datalen + order / 8 <= buf.Length
      modifies buf, data0
      ensures Ready()
      ensures buf[..datalen] == old(buf[..datalen])
      ensures buf[datalen + order / 8..] == old(buf[datalen + order / 8..])
      ensures ByteBits(buf[datalen..datalen + order / 8])
           == Xors(Register(ByteBits(buf[..datalen])), XorBits())
      ensures IsCodeword(ByteBits(buf[..datalen + order / 8]))
    {
      hide Bits, Feed, StepN, Pow2, Zeros, Mul, MultipleOf, ByteBits, EntryFor;
      ghost var msg := buf[..datalen];
      CopyIn(buf, datalen);
      var crc := CrcTable(datalen);
      StoreCrc(buf, datalen, crc);
      ghost var tail := buf[datalen..datalen + order / 8];
      assert buf[..datalen + order / 8] == msg + tail;
      CodewordResidue(msg, tail);
    }

    lemma {:induction false} CodewordResidue(msg: seq<byte>, tail: seq<byte>)
      requires Params() && |tail| == order / 8
      requires ByteBits(tail) == Xors(Register(ByteBits(msg)), XorBits())
      ensures IsCodeword(ByteBits(msg + tail))
    {
      var C := ByteBits(msg + tail);
      ByteBitsAppend(msg, tail);
      Residue(P(), Bits(crcinit, order), ByteBits(msg), XorBits());
      if crcxor == 0 { ZeroMask(); }
      if crcinit == 0 && crcxor == 0 && Odd() { DefaultRegister(C); }
    }

    lemma {:induction false} ZeroMask()
      requires Params() && crcxor == 0
      ensures XorBits() == Zeros(order) == StepN(P(), XorBits(), order)
    {
      BitsOfZero(order);
      StepNZero(P(), order, order);
    }

    /** With the default parameters the register tells whether the generator divides. */
    lemma {:induction false} DefaultRegister(C: Poly)
      requires Params() && crcinit == 0 && Odd()
      ensures Register(C) == Zeros(order) <==> MultipleOf(P(), C)
    {
      hide Bits, Pow2, Feed, Zeros, MultipleOf, IsGenerator;
      BitsOfZero(order);
      OddWord(Word(), order);
      RemainderZeroIffMultiple(P(), C);
    }

    /** The byte loop of add_CRC: the register, most significant byte first. */
    method StoreCrc(buf: array<byte>, datalen: nat, crc: u64)
      requires order % 8 == 0 && 8 <= order <= 32
      requires datalen + order / 8 <= buf.Length
      modifies buf
      ensures buf[..datalen] == old(buf[..datalen])
      ensures buf[datalen + order / 8..] == old(buf[datalen + order / 8..])
      ensures ByteBits(buf[datalen..datalen + order / 8]) == Bits(crc, order)
    {
      var bytes := order / 8;
      StoreBytes(buf, datalen, bytes, crc);
      ghost var tail := buf[datalen..datalen + bytes];
      BitsOfBytes(tail, crc, bytes);
      assert Bits(crc, 8 * bytes)[..8 * |tail|] == Bits(crc, 8 * bytes);
    }

    static method StoreBytes(buf: array<byte>, datalen: nat, bytes: nat, crc: u64)
      requires datalen + bytes <= buf.Length
      modifies buf
      ensures forall k :: 0 <= k < bytes ==> buf[datalen + k] == ByteOf(crc, bytes, k)
      ensures forall k :: 0 <= k < buf.Length && !(datalen <= k < datalen + bytes) ==> buf[k] == old(buf[k])
    {
      var order2 := (bytes - 1) * 8;
      var i := 0;
      while i < bytes
        invariant 0 <= i <= bytes
        invariant forall k :: 0 <= k < buf.Length && !(datalen <= k < datalen + i) ==> buf[k] == old(buf[k])
        invariant forall k :: 0 <= k < i ==> buf[datalen + k] == ByteOf(crc, bytes, k)
      {
        buf[datalen + i] := StoredByte(crc, order2 - i * 8);
        i := i + 1;
      }
    }

    static function StoredByte(crc: u64, shift: nat): byte {
      LowByte(Shr(crc, shift));
      And(Shr(crc, shift), 0xff)
    }

    /** Zero exactly when the register of the whole buffer equals the final mask;
        with the default parameters, exactly when the generator divides the buffer. */
    method CheckCrc(buf: array<byte>, datalen: nat) returns (crc: u32)
      requires Ready() && buf != data0 && buf as object != table
      requires datalen <= MAX_LENGTH && datalen <= buf.Length
      modifies data0
      ensures Ready()
      ensures Bits(crc, order) == Xors(Register(ByteBits(buf[..datalen])), XorBits())
      ensures crc == 0 <==> Register(ByteBits(buf[..datalen])) == XorBits()
      ensures crcinit == 0 && crcxor == 0 && Odd()
          ==> (crc == 0 <==> MultipleOf(P(), ByteBits(buf[..datalen])))
    {
      CopyIn(buf, datalen);
      var c := CrcTable(datalen);
      Pow2Mono(order, 32);
      Pow2Values();
      crc := c;
      ZeroWord(c, Register(ByteBits(buf[..datalen])));
      if crcinit == 0 && crcxor == 0 && Odd() {
        ZeroMask();
        DefaultRegister(ByteBits(buf[..datalen]));
      }
    }

    lemma {:induction false} ZeroWord(c: nat, R: Poly)
      requires Params() && c < Pow2(order) && |R| == order
      requires Bits(c, order) == Xors(R, XorBits())
      ensures c == 0 <==> R == XorBits()
    {
      var X := XorBits();
      BitsOfZero(order);
      if c == 0 {
        assert forall i :: 0 <= i < order ==> Xors(R, X)[i] == Zeros(order)[i];
      }
      if R == X {
        assert Xors(R, X) == Zeros(order);
        BitsInjective(c, 0, order);
      }
    }

    /** A codeword of add_CRC is accepted if and only if the final mask is a fixed point of
        order steps; without a mask it always is. */
    lemma {:induction false} CodewordAcceptedIff(C: Poly)
      requires Params() && IsCodeword(C)
      ensures Register(C) == XorBits() <==> StepN(P(), XorBits(), order) == XorBits()
      ensures crcxor == 0 ==> Register(C) == XorBits()
    {
      if crcxor == 0 { ZeroMask(); }
    }

    /** Error detection, for any start value, mask and order, with or without the x^order
        term in the polynomial word: a word damaged inside a window of order consecutive
        bits leaves another register, so that it is rejected whenever the undamaged one is
        accepted. */
    lemma {:induction false} BurstRejected(sent: seq<byte>, received: seq<byte>, lo: nat)
      requires Params() && Odd()
      requires |received| == |sent| && received != sent
      requires SameOutside(ByteBits(sent), ByteBits(received), lo, order)
      ensures Register(ByteBits(received)) != Register(ByteBits(sent))
      ensures IsCodeword(ByteBits(sent)) && StepN(P(), XorBits(), order) == XorBits()
          ==> Register(ByteBits(received)) != XorBits()
    {
      OddWord(Word(), order);
      if ByteBits(sent) == ByteBits(received) { ByteBitsInjective(sent, received); }
      hide Bits, ByteBits, SameOutside, Feed, StepN, GeneratorOf;
      BurstChangesRegister(P(), Bits(crcinit, order), ByteBits(sent), ByteBits(received), lo);
    }

    /** A generator with an even number of terms also rejects every odd number of errors. */
    lemma {:induction false} OddErrorRejected(sent: seq<byte>, received: seq<byte>)
      requires Params() && Odd() && !Parity(P())
      requires |received| == |sent|
      requires Parity(Xors(ByteBits(sent), ByteBits(received)))
      ensures Register(ByteBits(received)) != Register(ByteBits(sent))
      ensures IsCodeword(ByteBits(sent)) && StepN(P(), XorBits(), order) == XorBits()
          ==> Register(ByteBits(received)) != XorBits()
    {
      OddWord(Word(), order);
      hide Bits, ByteBits, Parity, Feed, StepN, GeneratorOf;
      OddChangesRegister(P(), Bits(crcinit, order), ByteBits(sent), ByteBits(received));
    }

    // ----- bit-oriented attachment

    /** The 0/1 characters of a buffer as bits. */
    static function FlagBits(s: seq<byte>): (b: Poly)
      ensures |b| == |s| && forall i :: 0 <= i < |s| ==> (b[i] <==> s[i] == 1)
    {
      seq(|s|, i requires 0 <= i < |s| => s[i] == 1)
    }

    static predicate AreFlags(s: seq<byte>) {
      forall i :: 0 <= i < |s| ==> s[i] <= 1
    }

    /** Packs up to eight 0/1 characters into the high end of a byte: the loop of
        unpack_bits for eight characters, and of the last partial byte in crc_attach. */
    static method PackFlags(buf: array<byte>, start: nat, count: nat) returns (value: byte)
      requires count <= 8 && start + count <= buf.Length
      requires forall k :: start <= k < start + count ==> buf[k] <= 1
      ensures Bits(value, 8) == FlagBits(buf[start..start + count]) + Zeros(8 - count)
    {
      value := 0;
      BitsOfZero(8);
      var i := 0;
      while i < count
        invariant 0 <= i <= count
        invariant Bits(value, 8) == FlagBits(buf[start..start + i]) + Zeros(8 - i)
      {
        OrFlag(value, buf[start + i], i, FlagBits(buf[start..start + i]));
        value := Or(value, Shl(buf[start + i], 7 - i));
        assert FlagBits(buf[start..start + i + 1])
            == FlagBits(buf[start..start + i]) + [buf[start + i] == 1];
        i := i + 1;
      }
    }

    /** pack_bits: the low n bits of value as 0/1 characters, most significant first. */
    static method UnpackWord(value: u32, buf: array<byte>, start: nat, n: nat)
      requires start + n <= buf.Length
      modifies buf
      ensures buf[..start] == old(buf[..start]) && buf[start + n..] == old(buf[start + n..])
      ensures AreFlags(buf[start..start + n])
      ensures FlagBits(buf[start..start + n]) == Bits(value, n)
    {
      hide *;
      var i := 0;
      NoFlags(buf[start..start], Bits(value, n));
      while i < n
        invariant 0 <= i <= n
        invariant buf[..start] == old(buf[..start]) && buf[start + n..] == old(buf[start + n..])
        invariant AreFlags(buf[start..start + i])
        invariant FlagBits(buf[start..start + i]) == Bits(value, n)[..i]
      {
        ghost var done := buf[start..start + i];
        BitAt(value, n, i);
        buf[start + i] := And(Shr(value, n - i - 1), 1);
        assert buf[start..start + i + 1] == done + [buf[start + i]];
        OneFlag(done, buf[start + i], Bits(value, n));
        i := i + 1;
      }
    }

    static lemma {:induction false} NoFlags(flags: seq<byte>, b: Poly)
      requires flags == []
      ensures AreFlags(flags) && FlagBits(flags) == b[..0]
    {}

    static lemma {:induction false} OneFlag(done: seq<byte>, flag: byte, b: Poly)
      requires |done| < |b| && AreFlags(done) && FlagBits(done) == b[..|done|]
      requires flag == if b[|done|] then 1 else 0
      ensures AreFlags(done + [flag]) && FlagBits(done + [flag]) == b[..|done| + 1]
    {
      assert FlagBits(done + [flag]) == FlagBits(done) + [flag == 1];
    }

    /** Zero bits that pad a message to whole bytes. */
    static function Padding(len: nat): (pad: nat)
      ensures pad < 8 && (len + pad) % 8 == 0
    {
      (8 - len % 8) % 8
    }

    /** What crc_attach returns for a bit message: the register of the padded message,
        taken back over the padding with the terms that the word writes out. */
    ghost function Attached(M: Poly): (r: Poly)
      reads this
      requires Params()
      ensures |r| == order
    {
      var pad := Padding(|M|);
      var R := Xors(Register(M + Zeros(pad)), XorBits());
      if pad == 0 then R else Xors(BackN(Bits(Word(), order + 1), R, pad), XorBits())
    }

    method CrcAttach(buf: array<byte>, len: nat) returns (r: u32)
      requires Ready() && buf != data0 && buf as object != table
      requires len == 0 || len >= 8
      requires len % 8 != 0 ==> Word() < Pow2(order + 1)
      requires len <= MAX_LENGTH ==> len + order <= buf.Length && AreFlags(buf[..len])
      modifies buf, data0
      ensures Ready()
      ensures len > MAX_LENGTH ==> r == 0xffff_ffff && buf[..] == old(buf[..])
      ensures len <= MAX_LENGTH ==>
        && buf[..len] == old(buf[..len]) && buf[len + order..] == old(buf[len + order..])
        && AreFlags(buf[len..len + order])
        && FlagBits(buf[len..len + order]) == Bits(r, order) == Attached(FlagBits(buf[..len]))
    {
      hide Bits, Pow2, EntryFor, Attached, FlagBits;
      if len > MAX_LENGTH { return 0xffff_ffff; }
      r := BitCrc(buf, len);
      UnpackWord(r, buf, len, order);
    }

    /** The value that crc_attach appends. */
    method BitCrc(buf: array<byte>, len: nat) returns (r: u32)
      requires Ready() && buf != data0 && buf as object != table
      requires len <= MAX_LENGTH && len <= buf.Length && AreFlags(buf[..len])
      requires len % 8 != 0 ==> Word() < Pow2(order + 1)
      modifies data0
      ensures Ready()
      ensures Bits(r, order) == Attached(FlagBits(buf[..len]))
    {
      hide Bits, Pow2, Zeros, Feed, BackN, Xors, FlagBits, ByteBits, EntryFor;
      ghost var message := FlagBits(buf[..len]);
      var len8 := len / 8;
      var res8 := len - len8 * 8;
      PackMessage(buf, len, len8, res8);
      var bytes := len8 + if res8 > 0 then 1 else 0;
      ghost var pad := if res8 > 0 then 8 - res8 else 0;
      var crc := CrcTable(bytes);
      Pow2Mono(order, 32);
      Pow2Values();
      assert pad == Padding(len);
      if res8 > 0 {
        crc := ReverseCrcBit(crc, 8 - res8);
      } else {
        assert message + Zeros(0) == message;
      }
      r := crc;
    }

    /** The byte form of a bit message in data0, padded with zeros to a whole byte. */
    method PackMessage(buf: array<byte>, len: nat, len8: nat, res8: nat)
      requires Layout() && buf != data0 && len <= MAX_LENGTH && len <= buf.Length
      requires len == 8 * len8 + res8 && res8 < 8 && AreFlags(buf[..len])
      modifies data0
      ensures res8 > 0 ==> ByteBits(data0[..len8 + 1]) == FlagBits(buf[..len]) + Zeros(8 - res8)
      ensures res8 == 0 ==> ByteBits(data0[..len8]) == FlagBits(buf[..len])
    {
      hide ByteBits, Bits, Zeros;
      assert forall k :: 0 <= k < len ==> buf[k] == buf[..len][k];
      var i := 0;
      while i < len8
        invariant 0 <= i <= len8
        invariant ByteBits(data0[..i]) == FlagBits(buf[..8 * i])
      {
        PackByte(buf, i, 8);
        assert FlagBits(buf[..8 * (i + 1)]) + Zeros(0) == FlagBits(buf[..8 * (i + 1)]);
        i := i + 1;
      }
      PackByte(buf, len8, res8);
      assert buf[..8 * len8 + res8] == buf[..len];
    }

    /** One byte of the message: count characters, zeros below them. */
    method PackByte(buf: array<byte>, i: nat, count: nat)
      requires Layout() && buf != data0 && count <= 8
      requires i < MAX_LENGTH && 8 * i + count <= buf.Length
      requires forall k :: 8 * i <= k < 8 * i + count ==> buf[k] <= 1
      requires ByteBits(data0[..i]) == FlagBits(buf[..8 * i])
      modifies data0
      ensures data0[..i] == old(data0[..i])
      ensures ByteBits(data0[..i + 1]) == FlagBits(buf[..8 * i + count]) + Zeros(8 - count)
    {
      hide ByteBits, Bits, Zeros;
      ghost var done := data0[..i];
      data0[i] := PackFlags(buf, 8 * i, count);
      assert data0[..i + 1] == done + [data0[i]];
      ByteBitsSnoc(done, data0[i]);
      FlagBitsAppend(buf[..8 * i], buf[8 * i..8 * i + count]);
      assert buf[..8 * i + count] == buf[..8 * i] + buf[8 * i..8 * i + count];
    }

    static lemma {:induction false} FlagBitsAppend(s: seq<byte>, t: seq<byte>)
      ensures FlagBits(s + t) == FlagBits(s) + FlagBits(t)
    {}

    /** Stepping back over the padding gives the register of the message itself, when the
        word writes out its x^order term. */
    lemma {:induction false} UnpadRegister(M: Poly, pad: nat)
      requires Params() && Whole()
      ensures BackN(Bits(Word(), order + 1), Xors(Register(M + Zeros(pad)), XorBits()), pad)
           == Xors(Register(M), BackN(P(), XorBits(), pad))
    {
      hide Bits, Feed, StepN, BackN, Zeros, Xors, Pow2;
      OddWord(Word(), order);
      WholeWord(Word(), order);
      PaddedRegister(M, pad);
      BackLinear(P(), StepN(P(), Register(M), pad), XorBits(), pad);
      BackStepN(P(), Register(M), pad);
    }

    lemma {:induction false} PaddedRegister(M: Poly, pad: nat)
      requires Params()
      ensures Register(M + Zeros(pad)) == StepN(P(), Register(M), pad)
    {
      FeedAppend(P(), Bits(crcinit, order), M, Zeros(pad));
      FeedZeros(P(), Register(M), pad);
    }

    /** The bit-exact result for words with the x^order term. */
    lemma {:induction false} AttachedWhole(M: Poly)
      requires Params() && Whole()
      ensures Attached(M) == Xors(Xors(Register(M), if |M| % 8 == 0 then Zeros(order) else BackN(P(), XorBits(), Padding(|M|))), XorBits())
    {
      hide Bits, Feed, StepN, BackN, Pow2;
      if |M| % 8 == 0 {
        assert M + Zeros(0) == M;
        XorsZero(Register(M), Zeros(order));
      } else {
        UnpadRegister(M, Padding(|M|));
      }
    }

    /** The padded result is the plain one exactly when the final mask is zero. */
    lemma {:induction false} AttachedExact(M: Poly)
      requires Params() && Whole() && |M| % 8 != 0
      ensures Attached(M) == Xors(Register(M), XorBits()) <==> crcxor == 0
    {
      hide Bits, Pow2, Zeros, Xors, Feed, Back, BackN, Attached;
      var X := XorBits();
      var pad := Padding(|M|);
      AttachedWhole(M);
      OddWord(Word(), order);
      BackNZero(P(), X, pad);
      BitsOfZero(order);
      if X == Zeros(order) { BitsInjective(crcxor, 0, order); }
      XorsCancel(Register(M), BackN(P(), X, pad), X);
    }

    /** With a word that lacks the x^order term, as every word of order 32 does, the result
        for an unaligned message is right exactly when the final mask, taken back over the
        padding, shows the bits that leave the register while the padding is processed; for
        a zero mask, when no bit does. */
    lemma {:induction false} AttachedTruncated(M: Poly)
      requires Params() && Odd() && Word() < Pow2(order) && |M| % 8 != 0
      ensures Attached(M) == Xors(Register(M), XorBits())
         <==> BackN(Bits(Word(), order + 1), XorBits(), Padding(|M|))
              == Leaving(P(), Register(M), Padding(|M|)) + Zeros(order - Padding(|M|))
      ensures crcxor == 0 ==>
                (Attached(M) == Xors(Register(M), XorBits()) <==> TopClear(Register(M), Padding(|M|)))
    {
      hide Bits, Feed, StepN, BackN, Pow2, Xors, Leaving, Attached;
      var pad, R := Padding(|M|), Register(M);
      var W, lost := Bits(Word(), order + 1), Leaving(P(), R, pad);
      TruncatedWord();
      AttachedBits(M);
      TruncatedBack(P(), R, pad);
      XorsTwice(R, lost + Zeros(order - pad), BackN(W, XorBits(), pad));
      if crcxor == 0 {
        ZeroMask();
        BackNOfZero(W, order, pad);
        ZerosBehind(lost, order);
        LeavingClear(P(), R, pad);
      }
    }

    lemma {:induction false} TruncatedWord()
      requires Params() && Odd() && Word() < Pow2(order)
      ensures IsGenerator(P()) && Word() < Pow2(order + 1) && Bits(Word(), order + 1) == Truncated(P())
    {
      hide Bits, Pow2;
      Pow2Double(order);
      OddWord(Word(), order);
      WholeWord(Word(), order);
    }

    lemma {:induction false} AttachedBits(M: Poly)
      requires Params() && |M| % 8 != 0
      ensures var pad := Padding(|M|);
              var W := Bits(Word(), order + 1);
              (Attached(M) == Xors(Register(M), XorBits())
               <==> Xors(BackN(W, StepN(P(), Register(M), pad), pad), BackN(W, XorBits(), pad)) == Register(M))
    {
      hide Bits, Feed, StepN, BackN, Pow2, Xors;
      var pad, R, W := Padding(|M|), Register(M), Bits(Word(), order + 1);
      PaddedRegister(M, pad);
      BackLinear(W, StepN(P(), R, pad), XorBits(), pad);
      SameMask(BackN(W, Xors(StepN(P(), R, pad), XorBits()), pad), R, XorBits());
    }

    static lemma {:induction false} SameMask(a: Poly, b: Poly, x: Poly)
      requires |a| == |b| == |x|
      ensures Xors(a, x) == Xors(b, x) <==> a == b
    {
      if Xors(a, x) == Xors(b, x) {
        forall i | 0 <= i < |a| ensures a[i] == b[i] { assert Xors(a, x)[i] == Xors(b, x)[i]; }
      }
    }

    static lemma {:induction false} XorsTwice(r: Poly, a: Poly, b: Poly)
      requires |r| == |a| == |b|
      ensures Xors(Xors(r, a), b) == r <==> b == a
    {
      if Xors(Xors(r, a), b) == r {
        forall i | 0 <= i < |a| ensures a[i] == b[i] { assert Xors(Xors(r, a), b)[i] == r[i]; }
      }
    }

    /** Such a word fails: for every start value, every final mask and every unaligned
        length of at least order bits some message gets the wrong bits. */
    lemma {:induction false} TruncatedFails(n: nat) returns (M: Poly)
      requires Params() && Odd() && Word() < Pow2(order) && n >= order && n % 8 != 0
      ensures |M| == n && Attached(M) != Xors(Register(M), XorBits())
    {
      hide Bits, Feed, BackN, Pow2, Xors, Attached, IsGenerator, Step;
      var pad, I, front := Padding(n), Bits(crcinit, order), Zeros(n - order);
      TruncatedWord();
      // of these two registers one loses no bit and the other one does
      var tail := AnyRegister(P(), I, front, Zeros(order));
      M := front + tail;
      AttachedTruncated(M);
      if Attached(M) == Xors(Register(M), XorBits()) {
        tail := AnyRegister(P(), I, front, [true] + Zeros(order - 1));
        M := front + tail;
        AttachedTruncated(M);
        var none := Leaving(P(), Zeros(order), pad) + Zeros(order - pad);
        var some := Leaving(P(), [true] + Zeros(order - 1), pad) + Zeros(order - pad);
        assert pad >= 1 && !none[0] && some[0];
      }
    }

    /** With the default parameters the attached bits complete the message to a
        multiple of the generator, and no other order bits do. */
    lemma {:induction false} AttachedIsRemainder(M: Poly, C: Poly)
      requires Params() && Odd() && (|M| % 8 != 0 ==> Whole())
      requires crcinit == 0 && crcxor == 0 && |C| == order
      ensures C == Attached(M) <==> MultipleOf(P(), M + C)
    {
      hide Bits, Zeros, Feed, BackN, MultipleOf, IsGenerator, Xors, Pow2, Attached;
      OddWord(Word(), order);
      BitsOfZero(order);
      AttachedPlain(M);
      assert Register(M) == Remainder(P(), M);
      CompletesIffRemainder(P(), M, C);
    }

    lemma {:induction false} AttachedPlain(M: Poly)
      requires Params() && Odd() && (|M| % 8 != 0 ==> Whole()) && crcxor == 0
      ensures Attached(M) == Register(M)
    {
      hide Bits, Zeros, Feed, BackN, IsGenerator, Xors, Pow2;
      ZeroMask();
      XorsZero(Register(M), XorBits());
      if |M| % 8 == 0 {
        assert M + Zeros(0) == M by { assert Zeros(0) == []; }
      } else {
        AttachedExact(M);
      }
    }

    static lemma {:induction false} XorsZero(R: Poly, X: Poly)
      requires |R| == |X| && X == Zeros(|R|)
      ensures Xors(R, X) == R
    {}
  }
}
