/** The CRC and the image header of mkpimage.c. */
module Crc {

  type Word = bv32
  type Byte = bv8

  // ---------------------------------------------------------------- the table

  function Row0(n: bv8): Word {
    if n == 0 then 0x00000000 else if n == 1 then 0x04c11db7 else if n == 2 then 0x09823b6e else if n == 3 then 0x0d4326d9 else
    if n == 4 then 0x130476dc else if n == 5 then 0x17c56b6b else if n == 6 then 0x1a864db2 else if n == 7 then 0x1e475005 else
    if n == 8 then 0x2608edb8 else if n == 9 then 0x22c9f00f else if n == 10 then 0x2f8ad6d6 else if n == 11 then 0x2b4bcb61 else
    if n == 12 then 0x350c9b64 else if n == 13 then 0x31cd86d3 else if n == 14 then 0x3c8ea00a else 0x384fbdbd
  }

  function Row1(n: bv8): Word {
    if n == 0 then 0x4c11db70 else if n == 1 then 0x48d0c6c7 else if n == 2 then 0x4593e01e else if n == 3 then 0x4152fda9 else
    if n == 4 then 0x5f15adac else if n == 5 then 0x5bd4b01b else if n == 6 then 0x569796c2 else if n == 7 then 0x52568b75 else
    if n == 8 then 0x6a1936c8 else if n == 9 then 0x6ed82b7f else if n == 10 then 0x639b0da6 else if n == 11 then 0x675a1011 else
    if n == 12 then 0x791d4014 else if n == 13 then 0x7ddc5da3 else if n == 14 then 0x709f7b7a else 0x745e66cd
  }

  function Row2(n: bv8): Word {
    if n == 0 then 0x9823b6e0 else if n == 1 then 0x9ce2ab57 else if n == 2 then 0x91a18d8e else if n == 3 then 0x95609039 else
    if n == 4 then 0x8b27c03c else if n == 5 then 0x8fe6dd8b else if n == 6 then 0x82a5fb52 else if n == 7 then 0x8664e6e5 else
    if n == 8 then 0xbe2b5b58 else if n == 9 then 0xbaea46ef else if n == 10 then 0xb7a96036 else if n == 11 then 0xb3687d81 else
    if n == 12 then 0xad2f2d84 else if n == 13 then 0xa9ee3033 else if n == 14 then 0xa4ad16ea else 0xa06c0b5d
  }

  function Row3(n: bv8): Word {
    if n == 0 then 0xd4326d90 else if n == 1 then 0xd0f37027 else if n == 2 then 0xddb056fe else if n == 3 then 0xd9714b49 else
    if n == 4 then 0xc7361b4c else if n == 5 then 0xc3f706fb else if n == 6 then 0xceb42022 else if n == 7 then 0xca753d95 else
    if n == 8 then 0xf23a8028 else if n == 9 then 0xf6fb9d9f else if n == 10 then 0xfbb8bb46 else if n == 11 then 0xff79a6f1 else
    if n == 12 then 0xe13ef6f4 else if n == 13 then 0xe5ffeb43 else if n == 14 then 0xe8bccd9a else 0xec7dd02d
  }

  function Row4(n: bv8): Word {
    if n == 0 then 0x34867077 else if n == 1 then 0x30476dc0 else if n == 2 then 0x3d044b19 else if n == 3 then 0x39c556ae else
    if n == 4 then 0x278206ab else if n == 5 then 0x23431b1c else if n == 6 then 0x2e003dc5 else if n == 7 then 0x2ac12072 else
    if n == 8 then 0x128e9dcf else if n == 9 then 0x164f8078 else if n == 10 then 0x1b0ca6a1 else if n == 11 then 0x1fcdbb16 else
    if n == 12 then 0x018aeb13 else if n == 13 then 0x054bf6a4 else if n == 14 then 0x0808d07d else 0x0cc9cdca
  }

  function Row5(n: bv8): Word {
    if n == 0 then 0x7897ab07 else if n == 1 then 0x7c56b6b0 else if n == 2 then 0x71159069 else if n == 3 then 0x75d48dde else
    if n == 4 then 0x6b93dddb else if n == 5 then 0x6f52c06c else if n == 6 then 0x6211e6b5 else if n == 7 then 0x66d0fb02 else
    if n == 8 then 0x5e9f46bf else if n == 9 then 0x5a5e5b08 else if n == 10 then 0x571d7dd1 else if n == 11 then 0x53dc6066 else
    if n == 12 then 0x4d9b3063 else if n == 13 then 0x495a2dd4 else if n == 14 then 0x44190b0d else 0x40d816ba
  }

  function Row6(n: bv8): Word {
    if n == 0 then 0xaca5c697 else if n == 1 then 0xa864db20 else if n == 2 then 0xa527fdf9 else if n == 3 then 0xa1e6e04e else
    if n == 4 then 0xbfa1b04b else if n == 5 then 0xbb60adfc else if n == 6 then 0xb6238b25 else if n == 7 then 0xb2e29692 else
    if n == 8 then 0x8aad2b2f else if n == 9 then 0x8e6c3698 else if n == 10 then 0x832f1041 else if n == 11 then 0x87ee0df6 else
    if n == 12 then 0x99a95df3 else if n == 13 then 0x9d684044 else if n == 14 then 0x902b669d else 0x94ea7b2a
  }

  function Row7(n: bv8): Word {
    if n == 0 then 0xe0b41de7 else if n == 1 then 0xe4750050 else if n == 2 then 0xe9362689 else if n == 3 then 0xedf73b3e else
    if n == 4 then 0xf3b06b3b else if n == 5 then 0xf771768c else if n == 6 then 0xfa325055 else if n == 7 then 0xfef34de2 else
    if n == 8 then 0xc6bcf05f else if n == 9 then 0xc27dede8 else if n == 10 then 0xcf3ecb31 else if n == 11 then 0xcbffd686 else
    if n == 12 then 0xd5b88683 else if n == 13 then 0xd1799b34 else if n == 14 then 0xdc3abded else 0xd8fba05a
  }

  function Row8(n: bv8): Word {
    if n == 0 then 0x690ce0ee else if n == 1 then 0x6dcdfd59 else if n == 2 then 0x608edb80 else if n == 3 then 0x644fc637 else
    if n == 4 then 0x7a089632 else if n == 5 then 0x7ec98b85 else if n == 6 then 0x738aad5c else if n == 7 then 0x774bb0eb else
    if n == 8 then 0x4f040d56 else if n == 9 then 0x4bc510e1 else if n == 10 then 0x46863638 else if n == 11 then 0x42472b8f else
    if n == 12 then 0x5c007b8a else if n == 13 then 0x58c1663d else if n == 14 then 0x558240e4 else 0x51435d53
  }

  function Row9(n: bv8): Word {
    if n == 0 then 0x251d3b9e else if n == 1 then 0x21dc2629 else if n == 2 then 0x2c9f00f0 else if n == 3 then 0x285e1d47 else
    if n == 4 then 0x36194d42 else if n == 5 then 0x32d850f5 else if n == 6 then 0x3f9b762c else if n == 7 then 0x3b5a6b9b else
    if n == 8 then 0x0315d626 else if n == 9 then 0x07d4cb91 else if n == 10 then 0x0a97ed48 else if n == 11 then 0x0e56f0ff else
    if n == 12 then 0x1011a0fa else if n == 13 then 0x14d0bd4d else if n == 14 then 0x19939b94 else 0x1d528623
  }

  function RowA(n: bv8): Word {
    if n == 0 then 0xf12f560e else if n == 1 then 0xf5ee4bb9 else if n == 2 then 0xf8ad6d60 else if n == 3 then 0xfc6c70d7 else
    if n == 4 then 0xe22b20d2 else if n == 5 then 0xe6ea3d65 else if n == 6 then 0xeba91bbc else if n == 7 then 0xef68060b else
    if n == 8 then 0xd727bbb6 else if n == 9 then 0xd3e6a601 else if n == 10 then 0xdea580d8 else if n == 11 then 0xda649d6f else
    if n == 12 then 0xc423cd6a else if n == 13 then 0xc0e2d0dd else if n == 14 then 0xcda1f604 else 0xc960ebb3
  }

  function RowB(n: bv8): Word {
    if n == 0 then 0xbd3e8d7e else if n == 1 then 0xb9ff90c9 else if n == 2 then 0xb4bcb610 else if n == 3 then 0xb07daba7 else
    if n == 4 then 0xae3afba2 else if n == 5 then 0xaafbe615 else if n == 6 then 0xa7b8c0cc else if n == 7 then 0xa379dd7b else
    if n == 8 then 0x9b3660c6 else if n == 9 then 0x9ff77d71 else if n == 10 then 0x92b45ba8 else if n == 11 then 0x9675461f else
    if n == 12 then 0x8832161a else if n == 13 then 0x8cf30bad else if n == 14 then 0x81b02d74 else 0x857130c3
  }

  function RowC(n: bv8): Word {
    if n == 0 then 0x5d8a9099 else if n == 1 then 0x594b8d2e else if n == 2 then 0x5408abf7 else if n == 3 then 0x50c9b640 else
    if n == 4 then 0x4e8ee645 else if n == 5 then 0x4a4ffbf2 else if n == 6 then 0x470cdd2b else if n == 7 then 0x43cdc09c else
    if n == 8 then 0x7b827d21 else if n == 9 then 0x7f436096 else if n == 10 then 0x7200464f else if n == 11 then 0x76c15bf8 else
    if n == 12 then 0x68860bfd else if n == 13 then 0x6c47164a else if n == 14 then 0x61043093 else 0x65c52d24
  }

  function RowD(n: bv8): Word {
    if n == 0 then 0x119b4be9 else if n == 1 then 0x155a565e else if n == 2 then 0x18197087 else if n == 3 then 0x1cd86d30 else
    if n == 4 then 0x029f3d35 else if n == 5 then 0x065e2082 else if n == 6 then 0x0b1d065b else if n == 7 then 0x0fdc1bec else
    if n == 8 then 0x3793a651 else if n == 9 then 0x3352bbe6 else if n == 10 then 0x3e119d3f else if n == 11 then 0x3ad08088 else
    if n == 12 then 0x2497d08d else if n == 13 then 0x2056cd3a else if n == 14 then 0x2d15ebe3 else 0x29d4f654
  }

  function RowE(n: bv8): Word {
    if n == 0 then 0xc5a92679 else if n == 1 then 0xc1683bce else if n == 2 then 0xcc2b1d17 else if n == 3 then 0xc8ea00a0 else
    if n == 4 then 0xd6ad50a5 else if n == 5 then 0xd26c4d12 else if n == 6 then 0xdf2f6bcb else if n == 7 then 0xdbee767c else
    if n == 8 then 0xe3a1cbc1 else if n == 9 then 0xe760d676 else if n == 10 then 0xea23f0af else if n == 11 then 0xeee2ed18 else
    if n == 12 then 0xf0a5bd1d else if n == 13 then 0xf464a0aa else if n == 14 then 0xf9278673 else 0xfde69bc4
  }

  function RowF(n: bv8): Word {
    if n == 0 then 0x89b8fd09 else if n == 1 then 0x8d79e0be else if n == 2 then 0x803ac667 else if n == 3 then 0x84fbdbd0 else
    if n == 4 then 0x9abc8bd5 else if n == 5 then 0x9e7d9662 else if n == 6 then 0x933eb0bb else if n == 7 then 0x97ffad0c else
    if n == 8 then 0xafb010b1 else if n == 9 then 0xab710d06 else if n == 10 then 0xa6322bdf else if n == 11 then 0xa2f33668 else
    if n == 12 then 0xbcb4666d else if n == 13 then 0xb8757bda else if n == 14 then 0xb5365d03 else 0xb1f740b4
  }

  /** crc_table, sixteen entries a row. */
  function Table(i: Byte): Word {
    var r, n := i >> 4, i & 15;
    if r == 0 then Row0(n) else if r == 1 then Row1(n) else if r == 2 then Row2(n) else if r == 3 then Row3(n) else
    if r == 4 then Row4(n) else if r == 5 then Row5(n) else if r == 6 then Row6(n) else if r == 7 then Row7(n) else
    if r == 8 then Row8(n) else if r == 9 then Row9(n) else if r == 10 then RowA(n) else if r == 11 then RowB(n) else
    if r == 12 then RowC(n) else if r == 13 then RowD(n) else if r == 14 then RowE(n) else RowF(n)
  }

  // ---------------------------------------------------------------- division bit by bit

  function Xor(a: Word, b: Word): Word {
    a ^ b
  }

  function Shift(c: Word): Word {
    c << 1
  }

  predicate Top(c: Word) {
    c & 0x80000000 != 0
  }

  /** The generator polynomial of IEEE 802.3, section 3.2.9, without its leading term, if a one has
      fallen out of the register. */
  function Generator(out: bool): Word {
    if out then 0x04c11db7 else 0
  }

  /** One step of the division of a register of 32 bits. */
  function Step(c: Word): Word {
    Xor(Shift(c), Generator(Top(c)))
  }

  function Step8(c: Word): Word {
    Step(Step(Step(Step(Step(Step(Step(Step(c))))))))
  }

  /** A byte at the end of the register where bits fall out. */
  function Enter(b: Byte): Word {
    (b as Word) << 24
  }

  lemma TableIsDivision(i: Byte)
    ensures Table(i) == Step8(Enter(i))
  {
    if i < 64 {
      FirstQuarter(i);
    } else if i < 128 {
      SecondQuarter(i);
    } else if i < 192 {
      ThirdQuarter(i);
    } else {
      LastQuarter(i);
    }
  }

  lemma FirstQuarter(i: Byte)
    requires i < 64
    ensures Table(i) == Step8(Enter(i))
  {
  }

  lemma SecondQuarter(i: Byte)
    requires 64 <= i < 128
    ensures Table(i) == Step8(Enter(i))
  {
  }

  lemma ThirdQuarter(i: Byte)
    requires 128 <= i < 192
    ensures Table(i) == Step8(Enter(i))
  {
  }

  lemma LastQuarter(i: Byte)
    requires 192 <= i
    ensures Table(i) == Step8(Enter(i))
  {
  }

  // ---------------------------------------------------------------- the algebra of registers

  lemma XorCommutes(a: Word, b: Word)
    ensures Xor(a, b) == Xor(b, a)
  {
  }

  lemma XorAssociates(a: Word, b: Word, c: Word)
    ensures Xor(Xor(a, b), c) == Xor(a, Xor(b, c))
  {
  }

  lemma XorZero(a: Word)
    ensures Xor(a, 0) == a && Xor(0, a) == a && Xor(a, a) == 0
  {
  }

  lemma XorCancels(a: Word, b: Word, c: Word)
    requires Xor(a, c) == Xor(b, c)
    ensures a == b
  {
    hide *;
    XorAssociates(a, c, c);
    XorAssociates(b, c, c);
    XorZero(c);
    XorZero(a);
    XorZero(b);
  }

  lemma XorPairs(a: Word, b: Word, c: Word, d: Word)
    ensures Xor(Xor(a, b), Xor(c, d)) == Xor(Xor(a, c), Xor(b, d))
  {
    hide *;
    XorAssociates(a, b, Xor(c, d));
    XorAssociates(b, c, d);
    XorCommutes(b, c);
    XorAssociates(c, b, d);
    XorAssociates(a, c, Xor(b, d));
  }

  lemma ShiftIsLinear(a: Word, b: Word)
    ensures Shift(Xor(a, b)) == Xor(Shift(a), Shift(b))
  {
  }

  lemma TopIsLinear(a: Word, b: Word)
    ensures Top(Xor(a, b)) == (Top(a) != Top(b))
  {
  }

  lemma GeneratorIsLinear(p: bool, q: bool)
    ensures Generator(p != q) == Xor(Generator(p), Generator(q))
  {
  }

  lemma StepIsLinear(a: Word, b: Word)
    ensures Step(Xor(a, b)) == Xor(Step(a), Step(b))
  {
    hide Xor, Shift, Generator, Top;
    ShiftIsLinear(a, b);
    TopIsLinear(a, b);
    GeneratorIsLinear(Top(a), Top(b));
    XorPairs(Shift(a), Shift(b), Generator(Top(a)), Generator(Top(b)));
  }

  predicate Odd(c: Word) {
    c & 1 != 0
  }

  lemma OddIsLinear(a: Word, b: Word)
    ensures Odd(Xor(a, b)) == (Odd(a) != Odd(b))
  {
  }

  lemma ShiftIsEven(c: Word)
    ensures !Odd(Shift(c))
  {
  }

  lemma GeneratorIsOdd(out: bool)
    ensures Odd(Generator(out)) == out
  {
  }

  lemma ShiftLosesTop(a: Word, b: Word)
    requires Shift(a) == Shift(b) && Top(a) == Top(b)
    ensures a == b
  {
  }

  /** Whether a one has fallen out can be told from the result, so no information is lost. */
  lemma StepIsInjective(a: Word, b: Word)
    requires Step(a) == Step(b)
    ensures a == b
  {
    hide Xor, Shift, Generator, Top, Odd;
    OddIsLinear(Shift(a), Generator(Top(a)));
    OddIsLinear(Shift(b), Generator(Top(b)));
    ShiftIsEven(a);
    ShiftIsEven(b);
    GeneratorIsOdd(Top(a));
    GeneratorIsOdd(Top(b));
    XorCancels(Shift(a), Shift(b), Generator(Top(a)));
    ShiftLosesTop(a, b);
  }

  lemma Step8IsLinear(a: Word, b: Word)
    ensures Step8(Xor(a, b)) == Xor(Step8(a), Step8(b))
  {
    hide Step, Xor;
    var a1, b1 := Step(a), Step(b);
    var a2, b2 := Step(a1), Step(b1);
    var a3, b3 := Step(a2), Step(b2);
    var a4, b4 := Step(a3), Step(b3);
    var a5, b5 := Step(a4), Step(b4);
    var a6, b6 := Step(a5), Step(b5);
    var a7, b7 := Step(a6), Step(b6);
    StepIsLinear(a, b);
    StepIsLinear(a1, b1);
    StepIsLinear(a2, b2);
    StepIsLinear(a3, b3);
    StepIsLinear(a4, b4);
    StepIsLinear(a5, b5);
    StepIsLinear(a6, b6);
    StepIsLinear(a7, b7);
  }

  lemma Step8IsInjective(a: Word, b: Word)
    requires Step8(a) == Step8(b)
    ensures a == b
  {
    hide Step;
    var a1, b1 := Step(a), Step(b);
    var a2, b2 := Step(a1), Step(b1);
    var a3, b3 := Step(a2), Step(b2);
    var a4, b4 := Step(a3), Step(b3);
    var a5, b5 := Step(a4), Step(b4);
    var a6, b6 := Step(a5), Step(b5);
    var a7, b7 := Step(a6), Step(b6);
    StepIsInjective(a7, b7);
    StepIsInjective(a6, b6);
    StepIsInjective(a5, b5);
    StepIsInjective(a4, b4);
    StepIsInjective(a3, b3);
    StepIsInjective(a2, b2);
    StepIsInjective(a1, b1);
    StepIsInjective(a, b);
  }

  /** Nothing is subtracted while the first byte of the register is zero. */
  lemma Step8Shifts(c: Word)
    requires c & 0xff000000 == 0
    ensures Step8(c) == c << 8
  {
  }

  // ---------------------------------------------------------------- crc32

  function Index(c: Word, b: Byte): Byte {
    (((c >> 24) ^ (b as Word)) & 0xff) as Byte
  }

  /** One round of the loop of crc32. */
  function Update(c: Word, b: Byte): Word {
    (c << 8) ^ Table(Index(c, b))
  }

  /** What crc32 returns. */
  function Crc32(c: Word, msg: seq<Byte>): Word
    decreases msg
  {
    if msg == [] then c else Crc32(Update(c, msg[0]), msg[1..])
  }

  method ComputeCrc32(crc: Word, buf: array<Byte>, length: nat) returns (r: Word)
    requires length <= buf.Length
    ensures r == Crc32(crc, buf[..length])
  {
    r := crc;
    for i := 0 to length
      invariant Crc32(crc, buf[..length]) == Crc32(r, buf[i..length])
    {
      assert buf[i..length][1..] == buf[i + 1..length];
      r := (r << 8) ^ Table((((r >> 24) ^ (buf[i] as Word)) & 0xff) as Byte);
    }
  }

  function Low(c: Word): Word {
    c & 0x00ffffff
  }

  function High(c: Word): Byte {
    (c >> 24) as Byte
  }

  lemma HighAndLow(c: Word)
    ensures c == Xor(Enter(High(c)), Low(c))
  {
  }

  lemma EnterIsLinear(x: Byte, y: Byte)
    ensures Enter(x ^ y) == Xor(Enter(x), Enter(y))
  {
  }

  lemma IndexIsXor(c: Word, b: Byte)
    ensures Index(c, b) == High(c) ^ b
  {
  }

  lemma RegisterSplits(c: Word, b: Byte)
    ensures Xor(c, Enter(b)) == Xor(Enter(Index(c, b)), Low(c))
  {
    hide *;
    HighAndLow(c);
    IndexIsXor(c, b);
    EnterIsLinear(High(c), b);
    var h, l, e := Enter(High(c)), Low(c), Enter(b);
    XorAssociates(h, l, e);
    XorCommutes(l, e);
    XorAssociates(h, e, l);
  }

  lemma LowShifts(c: Word)
    ensures Low(c) << 8 == c << 8 && Low(c) & 0xff000000 == 0
  {
  }

  lemma UpdateDefined(c: Word, b: Byte)
    ensures Update(c, b) == Xor(c << 8, Table(Index(c, b)))
  {
  }

  /** The table does eight steps of the division at once. */
  lemma UpdateIsSteps(c: Word, b: Byte)
    ensures Update(c, b) == Step8(Xor(c, Enter(b)))
  {
    hide *;
    var i := Index(c, b);
    RegisterSplits(c, b);
    LowShifts(c);
    UpdateDefined(c, b);
    TableIsDivision(i);
    Step8IsLinear(Enter(i), Low(c));
    Step8Shifts(Low(c));
    XorCommutes(Table(i), c << 8);
  }

  // ---------------------------------------------------------------- bit by bit

  /** One bit of a message is subtracted from the register, then one step is taken. */
  function BitStep(c: Word, bit: bool): Word {
    Step(Xor(c, if bit then 0x80000000 else 0))
  }

  /** The first `n` bits of a byte, the most significant first. */
  function BitsOf(b: Byte, n: nat): seq<bool>
    decreases n
  {
    if n == 0 then [] else [b & 0x80 != 0] + BitsOf(b << 1, n - 1)
  }

  function AllBits(msg: seq<Byte>): seq<bool> {
    if msg == [] then [] else BitsOf(msg[0], 8) + AllBits(msg[1..])
  }

  /** The remainder of a message, divided one bit at a time. */
  function Divide(c: Word, bits: seq<bool>): Word
    decreases bits
  {
    if bits == [] then c else Divide(BitStep(c, bits[0]), bits[1..])
  }

  function Steps(c: Word, n: nat): Word
    decreases n
  {
    if n == 0 then c else Steps(Step(c), n - 1)
  }

  function Half(c: Word): Word {
    c >> 1
  }

  lemma EnterSplits(b: Byte)
    ensures Enter(b) == Xor(if b & 0x80 != 0 then 0x80000000 else 0, Half(Enter(b << 1)))
  {
  }

  lemma StepHalf(b: Byte)
    ensures Step(Half(Enter(b))) == Enter(b)
  {
  }

  /** Entering the first bit of a byte alone leaves the rest of the byte to be entered. */
  lemma FirstBit(c: Word, b: Byte)
    ensures Step(Xor(c, Enter(b))) == Xor(BitStep(c, b & 0x80 != 0), Enter(b << 1))
  {
    hide Xor, Step, Half, Enter;
    var bit: Word := if b & 0x80 != 0 then 0x80000000 else 0;
    EnterSplits(b);
    XorAssociates(c, bit, Half(Enter(b << 1)));
    StepIsLinear(Xor(c, bit), Half(Enter(b << 1)));
    StepHalf(b << 1);
  }

  function Shifted(b: Byte, n: nat): Byte
    decreases n
  {
    if n == 0 then b else Shifted(b << 1, n - 1)
  }

  lemma {:induction false} BitsEnterOneByOne(c: Word, b: Byte, n: nat)
    ensures Steps(Xor(c, Enter(b)), n) == Xor(Divide(c, BitsOf(b, n)), Enter(Shifted(b, n)))
    decreases n
  {
    hide Xor, Step, Enter, BitStep;
    if n > 0 {
      FirstBit(c, b);
      BitsEnterOneByOne(BitStep(c, b & 0x80 != 0), b << 1, n - 1);
      var bits := BitsOf(b, n);
      assert bits[0] == (b & 0x80 != 0) && bits[1..] == BitsOf(b << 1, n - 1);
    }
  }

  lemma NothingLeft(b: Byte)
    ensures Enter(Shifted(b, 8)) == 0
  {
    var b1, b2, b3, b4, b5, b6, b7 := b << 1, b << 2, b << 3, b << 4, b << 5, b << 6, b << 7;
    ShiftsAddUp(b);
    assert Shifted(b, 8) == Shifted(b4, 4);
    assert Shifted(b4, 4) == Shifted(0, 0);
  }

  lemma ShiftsAddUp(b: Byte)
    ensures (((b << 1) << 1) << 1) << 1 == b << 4
    ensures ((((b << 4) << 1) << 1) << 1) << 1 == 0
  {
  }

  lemma EightSteps(c: Word)
    ensures Steps(c, 8) == Step8(c)
  {
    hide Step;
    var c4 := Step(Step(Step(Step(c))));
    assert Steps(c, 8) == Steps(c4, 4);
    assert Steps(c4, 4) == Step8(c);
  }

  lemma UpdateDividesByte(c: Word, b: Byte)
    ensures Update(c, b) == Divide(c, BitsOf(b, 8))
  {
    hide *;
    UpdateIsSteps(c, b);
    EightSteps(Xor(c, Enter(b)));
    BitsEnterOneByOne(c, b, 8);
    NothingLeft(b);
    XorZero(Divide(c, BitsOf(b, 8)));
  }

  lemma {:induction false} DivideAppend(c: Word, x: seq<bool>, y: seq<bool>)
    ensures Divide(c, x + y) == Divide(Divide(c, x), y)
    decreases x
  {
    hide BitStep;
    if x == [] {
      assert x + y == y;
    } else {
      assert (x + y)[0] == x[0] && (x + y)[1..] == x[1..] + y;
      DivideAppend(BitStep(c, x[0]), x[1..], y);
    }
  }

  /** The table-driven loop computes the remainder of the division bit by bit, for every message and
      start value. */
  lemma {:induction false} CrcIsDivision(c: Word, msg: seq<Byte>)
    ensures Crc32(c, msg) == Divide(c, AllBits(msg))
    decreases msg
  {
    hide Update, BitsOf;
    if msg != [] {
      UpdateDividesByte(c, msg[0]);
      DivideAppend(c, BitsOf(msg[0], 8), AllBits(msg[1..]));
      CrcIsDivision(Update(c, msg[0]), msg[1..]);
    }
  }

  // ---------------------------------------------------------------- what the CRC is for

  /** A message can be handed over in pieces. */
  lemma {:induction false} CrcAppend(c: Word, x: seq<Byte>, y: seq<Byte>)
    ensures Crc32(c, x + y) == Crc32(Crc32(c, x), y)
    decreases x
  {
    hide Update;
    if x == [] {
      assert x + y == y;
    } else {
      assert (x + y)[0] == x[0] && (x + y)[1..] == x[1..] + y;
      CrcAppend(Update(c, x[0]), x[1..], y);
    }
  }

  lemma UpdateIsInjective(c: Word, d: Word, b: Byte)
    requires Update(c, b) == Update(d, b)
    ensures c == d
  {
    hide *;
    UpdateIsSteps(c, b);
    UpdateIsSteps(d, b);
    Step8IsInjective(Xor(c, Enter(b)), Xor(d, Enter(b)));
    XorCancels(c, d, Enter(b));
  }

  /** Registers that differ stay different over the same message. */
  lemma {:induction false} CrcIsInjective(c: Word, d: Word, msg: seq<Byte>)
    requires Crc32(c, msg) == Crc32(d, msg)
    ensures c == d
    decreases msg
  {
    hide Update;
    if msg != [] {
      CrcIsInjective(Update(c, msg[0]), Update(d, msg[0]), msg[1..]);
      UpdateIsInjective(c, d, msg[0]);
    }
  }

  function Down(c: Word): Word {
    c >> 8
  }

  /** Up to four bytes, as they stand in the register. */
  function WordOf(bs: seq<Byte>): Word {
    if bs == [] then 0 else Xor(Enter(bs[0]), Down(WordOf(bs[1..])))
  }

  predicate ZeroBelow(w: Word, n: nat) {
    if n == 0 then w == 0
    else if n == 1 then w & 0x00ffffff == 0
    else if n == 2 then w & 0x0000ffff == 0
    else if n == 3 then w & 0x000000ff == 0
    else true
  }

  lemma ZeroBelowNext(b: Byte, w: Word, n: nat)
    requires ZeroBelow(w, n)
    ensures ZeroBelow(Xor(Enter(b), Down(w)), n + 1)
  {
  }

  lemma {:induction false} WordZeroBelow(bs: seq<Byte>)
    ensures ZeroBelow(WordOf(bs), |bs|)
  {
    hide Xor, Enter, Down, ZeroBelow;
    if bs == [] {
      ZeroIsZero();
    } else {
      WordZeroBelow(bs[1..]);
      ZeroBelowNext(bs[0], WordOf(bs[1..]), |bs| - 1);
    }
  }

  lemma ZeroIsZero()
    ensures ZeroBelow(0, 0)
  {
  }

  lemma DownAndUp(w: Word, n: nat)
    requires ZeroBelow(w, n) && n <= 3
    ensures Step8(Down(w)) == w
  {
    hide Step8;
    DownBits(w, n);
    Step8Shifts(Down(w));
  }

  lemma DownBits(w: Word, n: nat)
    requires ZeroBelow(w, n) && n <= 3
    ensures Down(w) & 0xff000000 == 0 && Down(w) << 8 == w
  {
  }

  function Times8(c: Word, n: nat): Word
    decreases n
  {
    if n == 0 then c else Times8(Step8(c), n - 1)
  }

  lemma {:induction false} Times8IsInjective(c: Word, d: Word, n: nat)
    requires Times8(c, n) == Times8(d, n)
    ensures c == d
    decreases n
  {
    hide Step8;
    if n > 0 {
      Times8IsInjective(Step8(c), Step8(d), n - 1);
      Step8IsInjective(c, d);
    }
  }

  /** Up to four bytes can be entered into the register at once. */
  lemma {:induction false} CrcOfWord(c: Word, bs: seq<Byte>)
    requires |bs| <= 4
    ensures Crc32(c, bs) == Times8(Xor(c, WordOf(bs)), |bs|)
    decreases bs
  {
    hide Xor, Enter, Down, Update, Step8;
    if bs == [] {
      XorZero(c);
    } else {
      var rest := WordOf(bs[1..]);
      UpdateIsSteps(c, bs[0]);
      CrcOfWord(Update(c, bs[0]), bs[1..]);
      WordZeroBelow(bs[1..]);
      DownAndUp(rest, |bs| - 1);
      Step8IsLinear(Xor(c, Enter(bs[0])), Down(rest));
      XorAssociates(c, Enter(bs[0]), Down(rest));
    }
  }

  lemma FirstByteOf(b: Byte, w: Word)
    ensures High(Xor(Enter(b), Down(w))) == b
  {
  }

  lemma {:induction false} WordIsInjective(x: seq<Byte>, y: seq<Byte>)
    requires |x| == |y| <= 4 && WordOf(x) == WordOf(y)
    ensures x == y
    decreases x
  {
    hide Xor, Enter, Down, High, Step8;
    if x != [] {
      var v, w := WordOf(x[1..]), WordOf(y[1..]);
      FirstByteOf(x[0], v);
      FirstByteOf(y[0], w);
      XorCommutes(Enter(x[0]), Down(v));
      XorCommutes(Enter(x[0]), Down(w));
      XorCancels(Down(v), Down(w), Enter(x[0]));
      WordZeroBelow(x[1..]);
      WordZeroBelow(y[1..]);
      DownAndUp(v, |x| - 1);
      DownAndUp(w, |x| - 1);
      WordIsInjective(x[1..], y[1..]);
      assert x == [x[0]] + x[1..] && y == [y[0]] + y[1..];
    }
  }

  /** Damage confined to four consecutive bytes is always noticed: messages of equal length that
      differ only there never have the same CRC. */
  lemma BurstIsDetected(c: Word, before: seq<Byte>, x: seq<Byte>, y: seq<Byte>, after: seq<Byte>)
    requires |x| == |y| <= 4
    ensures Crc32(c, before + x + after) == Crc32(c, before + y + after) <==> x == y
  {
    hide *;
    if Crc32(c, before + x + after) == Crc32(c, before + y + after) {
      var d := Crc32(c, before);
      CrcAppend(c, before + x, after);
      CrcAppend(c, before + y, after);
      CrcAppend(c, before, x);
      CrcAppend(c, before, y);
      CrcIsInjective(Crc32(d, x), Crc32(d, y), after);
      CrcOfWord(d, x);
      CrcOfWord(d, y);
      Times8IsInjective(Xor(d, WordOf(x)), Xor(d, WordOf(y)), |x|);
      XorCommutes(d, WordOf(x));
      XorCommutes(d, WordOf(y));
      XorCancels(WordOf(x), WordOf(y), d);
      WordIsInjective(x, y);
    }
  }
}
