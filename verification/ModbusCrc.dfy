/** The Modbus CRC: the table-driven loop, the bit-serial definition, and what the check detects. */
module ModbusCrc {

  // ---------- the two tables of mbuscrc.c, sixteen bytes to a row ----------

  type Table = seq<seq<bv8>>

  predicate IsTable(t: Table) {
    |t| == 16 && forall k :: 0 <= k < 16 ==> |t[k]| == 16
  }

  const HI: Table := [
    [0x00, 0xC1, 0x81, 0x40, 0x01, 0xC0, 0x80, 0x41, 0x01, 0xC0, 0x80, 0x41, 0x00, 0xC1, 0x81, 0x40],
    [0x01, 0xC0, 0x80, 0x41, 0x00, 0xC1, 0x81, 0x40, 0x00, 0xC1, 0x81, 0x40, 0x01, 0xC0, 0x80, 0x41],
    [0x01, 0xC0, 0x80, 0x41, 0x00, 0xC1, 0x81, 0x40, 0x00, 0xC1, 0x81, 0x40, 0x01, 0xC0, 0x80, 0x41],
    [0x00, 0xC1, 0x81, 0x40, 0x01, 0xC0, 0x80, 0x41, 0x01, 0xC0, 0x80, 0x41, 0x00, 0xC1, 0x81, 0x40],
    [0x01, 0xC0, 0x80, 0x41, 0x00, 0xC1, 0x81, 0x40, 0x00, 0xC1, 0x81, 0x40, 0x01, 0xC0, 0x80, 0x41],
    [0x00, 0xC1, 0x81, 0x40, 0x01, 0xC0, 0x80, 0x41, 0x01, 0xC0, 0x80, 0x41, 0x00, 0xC1, 0x81, 0x40],
    [0x00, 0xC1, 0x81, 0x40, 0x01, 0xC0, 0x80, 0x41, 0x01, 0xC0, 0x80, 0x41, 0x00, 0xC1, 0x81, 0x40],
    [0x01, 0xC0, 0x80, 0x41, 0x00, 0xC1, 0x81, 0x40, 0x00, 0xC1, 0x81, 0x40, 0x01, 0xC0, 0x80, 0x41],
    [0x01, 0xC0, 0x80, 0x41, 0x00, 0xC1, 0x81, 0x40, 0x00, 0xC1, 0x81, 0x40, 0x01, 0xC0, 0x80, 0x41],
    [0x00, 0xC1, 0x81, 0x40, 0x01, 0xC0, 0x80, 0x41, 0x01, 0xC0, 0x80, 0x41, 0x00, 0xC1, 0x81, 0x40],
    [0x00, 0xC1, 0x81, 0x40, 0x01, 0xC0, 0x80, 0x41, 0x01, 0xC0, 0x80, 0x41, 0x00, 0xC1, 0x81, 0x40],
    [0x01, 0xC0, 0x80, 0x41, 0x00, 0xC1, 0x81, 0x40, 0x00, 0xC1, 0x81, 0x40, 0x01, 0xC0, 0x80, 0x41],
    [0x00, 0xC1, 0x81, 0x40, 0x01, 0xC0, 0x80, 0x41, 0x01, 0xC0, 0x80, 0x41, 0x00, 0xC1, 0x81, 0x40],
    [0x01, 0xC0, 0x80, 0x41, 0x00, 0xC1, 0x81, 0x40, 0x00, 0xC1, 0x81, 0x40, 0x01, 0xC0, 0x80, 0x41],
    [0x01, 0xC0, 0x80, 0x41, 0x00, 0xC1, 0x81, 0x40, 0x00, 0xC1, 0x81, 0x40, 0x01, 0xC0, 0x80, 0x41],
    [0x00, 0xC1, 0x81, 0x40, 0x01, 0xC0, 0x80, 0x41, 0x01, 0xC0, 0x80, 0x41, 0x00, 0xC1, 0x81, 0x40]]

  const LO: Table := [
    [0x00, 0xC0, 0xC1, 0x01, 0xC3, 0x03, 0x02, 0xC2, 0xC6, 0x06, 0x07, 0xC7, 0x05, 0xC5, 0xC4, 0x04],
    [0xCC, 0x0C, 0x0D, 0xCD, 0x0F, 0xCF, 0xCE, 0x0E, 0x0A, 0xCA, 0xCB, 0x0B, 0xC9, 0x09, 0x08, 0xC8],
    [0xD8, 0x18, 0x19, 0xD9, 0x1B, 0xDB, 0xDA, 0x1A, 0x1E, 0xDE, 0xDF, 0x1F, 0xDD, 0x1D, 0x1C, 0xDC],
    [0x14, 0xD4, 0xD5, 0x15, 0xD7, 0x17, 0x16, 0xD6, 0xD2, 0x12, 0x13, 0xD3, 0x11, 0xD1, 0xD0, 0x10],
    [0xF0, 0x30, 0x31, 0xF1, 0x33, 0xF3, 0xF2, 0x32, 0x36, 0xF6, 0xF7, 0x37, 0xF5, 0x35, 0x34, 0xF4],
    [0x3C, 0xFC, 0xFD, 0x3D, 0xFF, 0x3F, 0x3E, 0xFE, 0xFA, 0x3A, 0x3B, 0xFB, 0x39, 0xF9, 0xF8, 0x38],
    [0x28, 0xE8, 0xE9, 0x29, 0xEB, 0x2B, 0x2A, 0xEA, 0xEE, 0x2E, 0x2F, 0xEF, 0x2D, 0xED, 0xEC, 0x2C],
    [0xE4, 0x24, 0x25, 0xE5, 0x27, 0xE7, 0xE6, 0x26, 0x22, 0xE2, 0xE3, 0x23, 0xE1, 0x21, 0x20, 0xE0],
    [0xA0, 0x60, 0x61, 0xA1, 0x63, 0xA3, 0xA2, 0x62, 0x66, 0xA6, 0xA7, 0x67, 0xA5, 0x65, 0x64, 0xA4],
    [0x6C, 0xAC, 0xAD, 0x6D, 0xAF, 0x6F, 0x6E, 0xAE, 0xAA, 0x6A, 0x6B, 0xAB, 0x69, 0xA9, 0xA8, 0x68],
    [0x78, 0xB8, 0xB9, 0x79, 0xBB, 0x7B, 0x7A, 0xBA, 0xBE, 0x7E, 0x7F, 0xBF, 0x7D, 0xBD, 0xBC, 0x7C],
    [0xB4, 0x74, 0x75, 0xB5, 0x77, 0xB7, 0xB6, 0x76, 0x72, 0xB2, 0xB3, 0x73, 0xB1, 0x71, 0x70, 0xB0],
    [0x50, 0x90, 0x91, 0x51, 0x93, 0x53, 0x52, 0x92, 0x96, 0x56, 0x57, 0x97, 0x55, 0x95, 0x94, 0x54],
    [0x9C, 0x5C, 0x5D, 0x9D, 0x5F, 0x9F, 0x9E, 0x5E, 0x5A, 0x9A, 0x9B, 0x5B, 0x99, 0x59, 0x58, 0x98],
    [0x88, 0x48, 0x49, 0x89, 0x4B, 0x8B, 0x8A, 0x4A, 0x4E, 0x8E, 0x8F, 0x4F, 0x8D, 0x4D, 0x4C, 0x8C],
    [0x44, 0x84, 0x85, 0x45, 0x87, 0x47, 0x46, 0x86, 0x82, 0x42, 0x43, 0x83, 0x41, 0x81, 0x80, 0x40]]

  lemma TablesAreWhole()
    ensures IsTable(HI) && IsTable(LO)
  {
  }

  /** table[i] */
  function Entry(t: Table, i: bv8): bv8
    requires IsTable(t)
  {
    t[(i >> 4) as int][(i & 15) as int]
  }

  // ---------- the bit-serial definition ----------

  /** One shift of the register, with the generator polynomial 0xA001
      (section 6.2.2 of MODBUS over Serial Line V1.02). */
  function Shift(r: bv16): bv16 {
    if r & 1 == 1 then (r >> 1) ^ 0xA001 else r >> 1
  }

  function Shift8(r: bv16): bv16 {
    Shift(Shift(Shift(Shift(Shift(Shift(Shift(Shift(r))))))))
  }

  function Xor(a: bv16, b: bv16): bv16 {
    a ^ b
  }

  function XorByte(a: bv8, b: bv8): bv8 {
    a ^ b
  }

  /** A byte enters the low half of the register, then eight shifts. */
  function Step(r: bv16, b: bv8): bv16 {
    Shift8(Xor(r, b as bv16))
  }

  /** The register after a message, from r on. */
  function Register(r: bv16, msg: seq<bv8>): bv16
    decreases |msg|
  {
    if msg == [] then r else Register(Step(r, msg[0]), msg[1..])
  }

  const INITIAL: bv16 := 0xFFFF

  function Low(r: bv16): bv8 {
    (r & 0xFF) as bv8
  }

  function High(r: bv16): bv8 {
    (r >> 8) as bv8
  }

  /** The register with its bytes swapped: low byte first, as it goes over the line. */
  function WireOrder(r: bv16): bv16 {
    (r << 8) | (r >> 8)
  }

  // ---------- the tables are the bit-serial steps of a byte ----------

  /** row[x], by cases on x. */
  function Pick<T>(row: seq<T>, x: bv8): T
    requires |row| == 16
  {
    if x == 0 then row[0] else if x == 1 then row[1] else if x == 2 then row[2] else if x == 3 then row[3]
    else if x == 4 then row[4] else if x == 5 then row[5] else if x == 6 then row[6] else if x == 7 then row[7]
    else if x == 8 then row[8] else if x == 9 then row[9] else if x == 10 then row[10] else if x == 11 then row[11]
    else if x == 12 then row[12] else if x == 13 then row[13] else if x == 14 then row[14] else row[15]
  }

  lemma PickIsIndex<T>(row: seq<T>, x: bv8)
    requires |row| == 16 && x < 16
    ensures Pick(row, x) == row[x as int]
  {
  }

  /** Every byte of the first table is the low half of the register the byte shifts to. */
  lemma HighTableIsRight(i: bv8)
    ensures IsTable(HI) && Entry(HI, i) == Low(Shift8(i as bv16))
  {
    TablesAreWhole();
    PickIsIndex(HI, i >> 4);
    PickIsIndex(HI[(i >> 4) as int], i & 15);
  }

  lemma LowTableIsRight(i: bv8)
    ensures IsTable(LO) && Entry(LO, i) == High(Shift8(i as bv16))
  {
    TablesAreWhole();
    PickIsIndex(LO, i >> 4);
    PickIsIndex(LO[(i >> 4) as int], i & 15);
  }

  // ---------- shifting is linear and loses nothing ----------

  lemma XorOddOdd(a: bv16, b: bv16)
    ensures Xor(a, b) >> 1 == Xor((a >> 1) ^ 0xA001, (b >> 1) ^ 0xA001)
  {
  }

  lemma XorOddEven(a: bv16, b: bv16)
    ensures (Xor(a, b) >> 1) ^ 0xA001 == Xor((a >> 1) ^ 0xA001, b >> 1)
  {
    hide Xor;
    HalfOfXor(a, b);
    XorIs(a, b);
    XorIs((a >> 1) ^ 0xA001, b >> 1);
  }

  lemma XorIs(a: bv16, b: bv16)
    ensures Xor(a, b) == a ^ b
  {
  }

  lemma HalfOfXor(a: bv16, b: bv16)
    ensures (a ^ b) >> 1 == (a >> 1) ^ (b >> 1)
    ensures ((a ^ b) >> 1) ^ 0xA001 == ((a >> 1) ^ 0xA001) ^ (b >> 1)
  {
  }

  lemma XorEvenEven(a: bv16, b: bv16)
    ensures Xor(a, b) >> 1 == Xor(a >> 1, b >> 1)
  {
    hide Xor;
    HalfOfXor(a, b);
    XorIs(a, b);
    XorIs(a >> 1, b >> 1);
  }

  lemma XorParity(a: bv16, b: bv16)
    ensures (Xor(a, b) & 1 == 1) <==> ((a & 1 == 1) != (b & 1 == 1))
  {
  }

  lemma XorCommutes(a: bv16, b: bv16)
    ensures Xor(a, b) == Xor(b, a)
  {
  }

  lemma ShiftOdd(a: bv16)
    requires a & 1 == 1
    ensures Shift(a) == (a >> 1) ^ 0xA001
  {
  }

  lemma ShiftEven(a: bv16)
    requires a & 1 != 1
    ensures Shift(a) == a >> 1
  {
  }

  lemma ShiftOddEven(a: bv16, b: bv16)
    requires a & 1 == 1 && b & 1 != 1
    ensures Shift(Xor(a, b)) == Xor(Shift(a), Shift(b))
  {
    hide Shift, Xor;
    XorParity(a, b);
    ShiftOdd(a);
    ShiftEven(b);
    ShiftOdd(Xor(a, b));
    XorOddEven(a, b);
  }

  lemma ShiftIsLinear(a: bv16, b: bv16)
    ensures Shift(Xor(a, b)) == Xor(Shift(a), Shift(b))
  {
    hide Shift, Xor;
    XorParity(a, b);
    if a & 1 == 1 {
      if b & 1 == 1 {
        ShiftOdd(a);
        ShiftOdd(b);
        ShiftEven(Xor(a, b));
        XorOddOdd(a, b);
      } else {
        ShiftOddEven(a, b);
      }
    } else if b & 1 == 1 {
      ShiftOddEven(b, a);
      XorCommutes(a, b);
      XorCommutes(Shift(a), Shift(b));
    } else {
      ShiftEven(a);
      ShiftEven(b);
      ShiftEven(Xor(a, b));
      XorEvenEven(a, b);
    }
  }

  lemma Shift4IsLinear(a: bv16, b: bv16)
    ensures Shift(Shift(Shift(Shift(Xor(a, b))))) == Xor(Shift(Shift(Shift(Shift(a)))), Shift(Shift(Shift(Shift(b)))))
  {
    hide Shift, Xor;
    ShiftIsLinear(a, b);
    ShiftIsLinear(Shift(a), Shift(b));
    ShiftIsLinear(Shift(Shift(a)), Shift(Shift(b)));
    ShiftIsLinear(Shift(Shift(Shift(a))), Shift(Shift(Shift(b))));
  }

  lemma Shift8IsLinear(a: bv16, b: bv16)
    ensures Shift8(Xor(a, b)) == Xor(Shift8(a), Shift8(b))
  {
    hide Shift, Xor;
    Shift4IsLinear(a, b);
    Shift4IsLinear(Shift(Shift(Shift(Shift(a)))), Shift(Shift(Shift(Shift(b)))));
  }

  lemma Shift8OfZero()
    ensures Shift8(0) == 0
  {
  }

  lemma ZeroHalves()
    ensures Low(0) == 0 && High(0) == 0
  {
  }

  /** A register whose low half is empty is only moved. */
  lemma Shift8OfHighHalf(r: bv16)
    ensures Shift8(r & 0xFF00) == r >> 8
  {
  }

  /** A byte xored into the register meets its low half. */
  lemma SplitHalves(r: bv16, b: bv8)
    ensures Xor(r, b as bv16) == Xor(r & 0xFF00, XorByte(Low(r), b) as bv16)
  {
  }

  /** A step, by halves: the high half moves down, the low half and the byte go through the table. */
  lemma StepByHalves(r: bv16, b: bv8)
    ensures Step(r, b) == Xor(r >> 8, Shift8(XorByte(Low(r), b) as bv16))
  {
    hide Shift8, Xor, Low, XorByte;
    SplitHalves(r, b);
    Shift8IsLinear(r & 0xFF00, XorByte(Low(r), b) as bv16);
    Shift8OfHighHalf(r);
  }

  lemma ShiftIsInjective(a: bv16, b: bv16)
    requires Shift(a) == Shift(b)
    ensures a == b
  {
  }

  lemma Shift8IsInjective(a: bv16, b: bv16)
    requires Shift8(a) == Shift8(b)
    ensures a == b
  {
    hide Shift;
    ShiftIsInjective(Shift(Shift(Shift(Shift(Shift(Shift(Shift(a))))))),
                     Shift(Shift(Shift(Shift(Shift(Shift(Shift(b))))))));
    ShiftIsInjective(Shift(Shift(Shift(Shift(Shift(Shift(a)))))), Shift(Shift(Shift(Shift(Shift(Shift(b)))))));
    ShiftIsInjective(Shift(Shift(Shift(Shift(Shift(a))))), Shift(Shift(Shift(Shift(Shift(b))))));
    ShiftIsInjective(Shift(Shift(Shift(Shift(a)))), Shift(Shift(Shift(Shift(b)))));
    ShiftIsInjective(Shift(Shift(Shift(a))), Shift(Shift(Shift(b))));
    ShiftIsInjective(Shift(Shift(a)), Shift(Shift(b)));
    ShiftIsInjective(Shift(a), Shift(b));
    ShiftIsInjective(a, b);
  }

  // ---------- CRC16 ----------

  /** What CRC16 returns for a message. */
  function Crc(msg: seq<bv8>): bv16 {
    WireOrder(Register(INITIAL, msg))
  }

  lemma TableStep(r: bv16, b: bv8)
    ensures IsTable(HI) && IsTable(LO)
    ensures Low(Step(r, b)) == XorByte(High(r), Entry(HI, XorByte(Low(r), b)))
    ensures High(Step(r, b)) == Entry(LO, XorByte(Low(r), b))
  {
    hide Shift8, Entry, HI, LO, Step, Low, High, Xor, XorByte;
    StepByHalves(r, b);
    HighTableIsRight(XorByte(Low(r), b));
    LowTableIsRight(XorByte(Low(r), b));
    Halves(r, Shift8(XorByte(Low(r), b) as bv16));
  }

  lemma Halves(r: bv16, x: bv16)
    ensures Low(Xor(r >> 8, x)) == XorByte(High(r), Low(x)) && High(Xor(r >> 8, x)) == High(x)
  {
  }

  lemma {:induction false} RegisterSnoc(r: bv16, msg: seq<bv8>, b: bv8)
    ensures Register(r, msg + [b]) == Step(Register(r, msg), b)
    decreases |msg|
  {
    if msg == [] {
      assert [] + [b] == [b] && [b][1..] == [];
    } else {
      assert (msg + [b])[1..] == msg[1..] + [b];
      hide Step;
      RegisterSnoc(Step(r, msg[0]), msg[1..], b);
    }
  }

  /** CRC16 of mbuscrc.c: one look-up in each table a byte. The two bytes it keeps are the halves of the
      register, the low one named Hi because it goes over the line first. */
  method CRC16(msg: array<bv8>, length: nat) returns (crc: bv16)
    requires length <= msg.Length && length < 0x1_0000
    ensures crc == Crc(msg[..length])
  {
    hide HI, LO, Entry, Step, Low, High, WireOrder, IsTable, XorByte;
    TablesAreWhole();
    InitialHalves();
    var hi: bv8, lo: bv8 := 0xFF, 0xFF;
    ghost var r := INITIAL;
    var i := 0;
    while i < length
      invariant 0 <= i <= length
      invariant r == Register(INITIAL, msg[..i]) && hi == Low(r) && lo == High(r)
    {
      RegisterSnoc(INITIAL, msg[..i], msg[i]);
      assert msg[..i + 1] == msg[..i] + [msg[i]];
      TableStep(r, msg[i]);
      r := Step(r, msg[i]);
      var index := XorByte(hi, msg[i]);
      hi := XorByte(lo, Entry(HI, index));
      lo := Entry(LO, index);
      i := i + 1;
    }
    assert msg[..i] == msg[..length];
    JoinHalves(r);
    return ((hi as bv16) << 8) | (lo as bv16);
  }

  lemma InitialHalves()
    ensures Low(INITIAL) == 0xFF && High(INITIAL) == 0xFF
  {
  }

  lemma JoinHalves(r: bv16)
    ensures ((Low(r) as bv16) << 8) | (High(r) as bv16) == WireOrder(r)
  {
  }

  // ---------- what a changed message does to the register ----------

  lemma XorCancels(r: bv16, x: bv16, y: bv16)
    ensures Xor(r, x) == Xor(r, y) ==> x == y
    ensures Xor(x, r) == Xor(y, r) ==> x == y
  {
  }

  lemma StepIsInjective(r: bv16, r': bv16, b: bv8)
    requires Step(r, b) == Step(r', b)
    ensures r == r'
  {
    hide Shift8, Xor;
    Shift8IsInjective(Xor(r, b as bv16), Xor(r', b as bv16));
    XorCancels(b as bv16, r, r');
  }

  /** Registers that differ before the same bytes differ after them. */
  lemma {:induction false} RegisterIsInjective(r: bv16, r': bv16, msg: seq<bv8>)
    requires Register(r, msg) == Register(r', msg)
    ensures r == r'
    decreases |msg|
  {
    if msg != [] {
      hide Step;
      RegisterIsInjective(Step(r, msg[0]), Step(r', msg[0]), msg[1..]);
      StepIsInjective(r, r', msg[0]);
    }
  }

  lemma {:induction false} RegisterConcat(r: bv16, m: seq<bv8>, m': seq<bv8>)
    ensures Register(r, m + m') == Register(Register(r, m), m')
    decreases |m|
  {
    if m == [] {
      assert m + m' == m';
    } else {
      assert (m + m')[1..] == m[1..] + m';
      hide Step;
      RegisterConcat(Step(r, m[0]), m[1..], m');
    }
  }

  lemma RegisterOfTwo(r: bv16, x: bv8, y: bv8)
    ensures Register(r, [x, y]) == Step(Step(r, x), y)
  {
    hide Step;
    assert [x, y][1..] == [y] && [y][1..] == [];
    assert Register(Step(r, x), [y]) == Register(Step(Step(r, x), y), []);
  }

  lemma WireOrderIsInjective(r: bv16, r': bv16)
    ensures WireOrder(r) == WireOrder(r') ==> r == r'
  {
  }

  /** No byte but zero shifts to a register whose high half is empty: the second table has one zero. */
  lemma OnlyZeroShiftsLow(x: bv8)
    requires High(Shift8(x as bv16)) == 0
    ensures x == 0
  {
  }

  lemma BytesApart(r: bv16, x: bv8, x': bv8)
    ensures Xor(Xor(r, x as bv16), Xor(r, x' as bv16)) == XorByte(x, x') as bv16
  {
  }

  lemma ByteDifference(p: bv16, q: bv16, y: bv8, y': bv8)
    requires Xor(p, y as bv16) == Xor(q, y' as bv16)
    ensures Xor(p, q) == XorByte(y, y') as bv16
  {
  }

  lemma HighOfByte(x: bv8)
    ensures High(x as bv16) == 0
  {
  }

  lemma XorByteZero(x: bv8, y: bv8)
    ensures XorByte(x, y) == 0 <==> x == y
  {
  }

  /** Two bytes enter the register without loss. */
  lemma TwoBytesAreInjective(r: bv16, x: bv8, y: bv8, x': bv8, y': bv8)
    requires Step(Step(r, x), y) == Step(Step(r, x'), y')
    ensures x == x' && y == y'
  {
    hide Shift8, Xor, XorByte, High;
    var p, q := Step(r, x), Step(r, x');
    Shift8IsInjective(Xor(p, y as bv16), Xor(q, y' as bv16));
    ByteDifference(p, q, y, y');
    Shift8IsLinear(Xor(r, x as bv16), Xor(r, x' as bv16));
    BytesApart(r, x, x');
    assert Shift8(XorByte(x, x') as bv16) == XorByte(y, y') as bv16;
    HighOfByte(XorByte(y, y'));
    OnlyZeroShiftsLow(XorByte(x, x'));
    XorByteZero(x, x');
    StepThen(p, y, y');
  }

  lemma StepThen(p: bv16, y: bv8, y': bv8)
    requires Step(p, y) == Step(p, y')
    ensures y == y'
  {
    hide Shift8, Xor;
    Shift8IsInjective(Xor(p, y as bv16), Xor(p, y' as bv16));
    XorCancels(p, y as bv16, y' as bv16);
  }

  /** Messages that differ, and only inside two adjacent bytes, have different CRCs. */
  lemma AdjacentBytesAreDetected(m: seq<bv8>, m': seq<bv8>, k: nat)
    requires |m| == |m'| && k + 2 <= |m| && m != m'
    requires m[..k] == m'[..k] && m[k + 2..] == m'[k + 2..]
    ensures Crc(m) != Crc(m')
  {
    hide Step, WireOrder, Register;
    var r := Register(INITIAL, m[..k]);
    var tail := m[k + 2..];
    SplitAt(m, k);
    SplitAt(m', k);
    var p, p' := Step(Step(r, m[k]), m[k + 1]), Step(Step(r, m'[k]), m'[k + 1]);
    if Crc(m) == Crc(m') {
      WireOrderIsInjective(Register(INITIAL, m), Register(INITIAL, m'));
      RegisterIsInjective(p, p', tail);
      TwoBytesAreInjective(r, m[k], m[k + 1], m'[k], m'[k + 1]);
      SameBytes(m, m', k);
    }
  }

  lemma SameBytes(m: seq<bv8>, m': seq<bv8>, k: nat)
    requires |m| == |m'| && k + 2 <= |m| && m[k] == m'[k] && m[k + 1] == m'[k + 1]
    requires m[..k] == m'[..k] && m[k + 2..] == m'[k + 2..]
    ensures m == m'
  {
    assert m == m[..k] + [m[k], m[k + 1]] + m[k + 2..];
    assert m' == m'[..k] + [m'[k], m'[k + 1]] + m'[k + 2..];
  }

  lemma SplitAt(m: seq<bv8>, k: nat)
    requires k + 2 <= |m|
    ensures Register(INITIAL, m)
         == Register(Step(Step(Register(INITIAL, m[..k]), m[k]), m[k + 1]), m[k + 2..])
  {
    hide Step, Register;
    assert m == m[..k] + ([m[k], m[k + 1]] + m[k + 2..]);
    RegisterConcat(INITIAL, m[..k], [m[k], m[k + 1]] + m[k + 2..]);
    RegisterConcat(Register(INITIAL, m[..k]), [m[k], m[k + 1]], m[k + 2..]);
    RegisterOfTwo(Register(INITIAL, m[..k]), m[k], m[k + 1]);
  }

  // ---------- bursts ----------

  /** The j lowest bits of a byte, which go over the line first. */
  function LowBits(j: nat): bv8
    requires j < 8
  {
    if j == 0 then 0 else if j == 1 then 1 else if j == 2 then 3 else if j == 3 then 7
    else if j == 4 then 15 else if j == 5 then 31 else if j == 6 then 63 else 127
  }

  /** Only bits from j on are set, or only bits below j. */
  predicate From(x: bv8, j: nat)
    requires j < 8
  {
    x & LowBits(j) == 0
  }

  predicate Below(x: bv8, j: nat)
    requires j < 8
  {
    x & !LowBits(j) == 0
  }

  /** A byte without its j lowest bits does not shift to a register with only j bits in its high half. */
  lemma OnlyZeroShiftsInto(x: bv8, j: nat)
    requires j < 8 && From(x, j) && Below(High(Shift8(x as bv16)), j)
    ensures x == 0
  {
  }

  /** A byte in the high half. */
  function Up(z: bv8): bv16 {
    (z as bv16) << 8
  }

  lemma ShiftedByte(z: bv8)
    ensures Shift8(Up(z)) == z as bv16
  {
  }

  lemma HalvesOfSum(s: bv16, y: bv8, z: bv8)
    requires Xor(s, y as bv16) == Up(z)
    ensures High(s) == z && Low(s) == y
  {
  }

  /** The difference of two registers after two bytes that differ. */
  lemma DifferenceOfTwo(r: bv16, x: bv8, y: bv8, x': bv8, y': bv8)
    ensures Xor(Step(Step(r, x), y), Step(Step(r, x'), y'))
         == Shift8(Xor(Shift8(XorByte(x, x') as bv16), XorByte(y, y') as bv16))
  {
    hide Shift8, Xor, XorByte;
    var p, q := Step(r, x), Step(r, x');
    Shift8IsLinear(Xor(p, y as bv16), Xor(q, y' as bv16));
    Shift8IsLinear(Xor(r, x as bv16), Xor(r, x' as bv16));
    BytesApart(r, x, x');
    XorOfSums(p, q, y, y');
  }

  lemma XorOfSums(p: bv16, q: bv16, y: bv8, y': bv8)
    ensures Xor(Xor(p, y as bv16), Xor(q, y' as bv16)) == Xor(Xor(p, q), XorByte(y, y') as bv16)
  {
    hide Xor, XorByte;
    XorTwoAndTwo(p, y as bv16, q, y' as bv16);
    WiderXor(y, y');
  }

  lemma WiderXor(y: bv8, y': bv8)
    ensures Xor(y as bv16, y' as bv16) == XorByte(y, y') as bv16
  {
  }

  lemma XorTwoAndTwo(a: bv16, b: bv16, c: bv16, d: bv16)
    ensures Xor(Xor(a, b), Xor(c, d)) == Xor(Xor(a, c), Xor(b, d))
  {
    hide Xor;
    XorShifts(a, b, Xor(c, d));
    XorShifts(a, c, Xor(b, d));
    XorPasses(b, c, d);
  }

  lemma XorShifts(a: bv16, b: bv16, c: bv16)
    ensures Xor(Xor(a, b), c) == Xor(a, Xor(b, c))
  {
  }

  lemma XorPasses(b: bv16, c: bv16, d: bv16)
    ensures Xor(b, Xor(c, d)) == Xor(c, Xor(b, d))
  {
  }

  /** Three bytes that differ in sixteen successive bits enter the register without loss. */
  lemma BurstIsInjective(r: bv16, x: bv8, y: bv8, z: bv8, x': bv8, y': bv8, z': bv8, j: nat)
    requires j < 8 && From(XorByte(x, x'), j) && Below(XorByte(z, z'), j)
    requires Step(Step(Step(r, x), y), z) == Step(Step(Step(r, x'), y'), z')
    ensures x == x' && y == y' && z == z'
  {
    hide Shift8, Xor, XorByte, High, Low, LowBits, From, Below, Up;
    var p, q := Step(Step(r, x), y), Step(Step(r, x'), y');
    var dx, dy, dz := XorByte(x, x'), XorByte(y, y'), XorByte(z, z');
    Shift8IsInjective(Xor(p, z as bv16), Xor(q, z' as bv16));
    ByteDifference(p, q, z, z');
    DifferenceOfTwo(r, x, y, x', y');
    hide Step;
    ShiftedByte(dz);
    Shift8IsInjective(Xor(Shift8(dx as bv16), dy as bv16), Up(dz));
    HalvesOfSum(Shift8(dx as bv16), dy, dz);
    OnlyZeroShiftsInto(dx, j);
    Shift8OfZero();
    ZeroHalves();
    XorByteZero(x, x');
    XorByteZero(y, y');
    XorByteZero(z, z');
  }

  /** Messages that differ, and only inside sixteen successive bits, as they go over the line, have different
      CRCs: these lie from bit j of byte k on, and below bit j of byte k + 2. */
  lemma BurstsAreDetected(m: seq<bv8>, m': seq<bv8>, k: nat, j: nat)
    requires |m| == |m'| && k + 3 <= |m| && j < 8 && m != m'
    requires m[..k] == m'[..k] && m[k + 3..] == m'[k + 3..]
    requires From(XorByte(m[k], m'[k]), j) && Below(XorByte(m[k + 2], m'[k + 2]), j)
    ensures Crc(m) != Crc(m')
  {
    hide Step, WireOrder, Register, From, Below, XorByte;
    var r := Register(INITIAL, m[..k]);
    SplitAtThree(m, k);
    SplitAtThree(m', k);
    var p, p' := Step(Step(Step(r, m[k]), m[k + 1]), m[k + 2]), Step(Step(Step(r, m'[k]), m'[k + 1]), m'[k + 2]);
    if Crc(m) == Crc(m') {
      WireOrderIsInjective(Register(INITIAL, m), Register(INITIAL, m'));
      RegisterIsInjective(p, p', m[k + 3..]);
      BurstIsInjective(r, m[k], m[k + 1], m[k + 2], m'[k], m'[k + 1], m'[k + 2], j);
      SameThree(m, m', k);
    }
  }

  lemma SameThree(m: seq<bv8>, m': seq<bv8>, k: nat)
    requires |m| == |m'| && k + 3 <= |m| && m[k] == m'[k] && m[k + 1] == m'[k + 1] && m[k + 2] == m'[k + 2]
    requires m[..k] == m'[..k] && m[k + 3..] == m'[k + 3..]
    ensures m == m'
  {
    assert m == m[..k] + [m[k], m[k + 1], m[k + 2]] + m[k + 3..];
    assert m' == m'[..k] + [m'[k], m'[k + 1], m'[k + 2]] + m'[k + 3..];
  }

  lemma SplitAtThree(m: seq<bv8>, k: nat)
    requires k + 3 <= |m|
    ensures Register(INITIAL, m)
         == Register(Step(Step(Step(Register(INITIAL, m[..k]), m[k]), m[k + 1]), m[k + 2]), m[k + 3..])
  {
    SplitAt(m, k);
    assert m[k + 2..][0] == m[k + 2] && m[k + 2..][1..] == m[k + 3..];
    hide Step;
  }

  // ---------- parity ----------

  /** Whether an odd number of bits are set. */
  predicate Odd(r: bv16)
    decreases r
  {
    if r == 0 then false else (r & 1 == 1) != Odd(r >> 1)
  }

  /** The number of bits set in a byte. */
  function BitCount(b: bv8): nat
    decreases b
  {
    if b == 0 then 0 else (if b & 1 == 1 then 1 else 0) + BitCount(b >> 1)
  }

  /** The number of bits in which two messages differ. */
  function BitsChanged(m: seq<bv8>, m': seq<bv8>): nat
    requires |m| == |m'|
  {
    if m == [] then 0 else BitCount(XorByte(m[0], m'[0])) + BitsChanged(m[1..], m'[1..])
  }

  lemma {:induction false} OddOfXor(a: bv16, b: bv16)
    ensures Odd(Xor(a, b)) == (Odd(a) != Odd(b))
    decreases a
  {
    hide Odd, Xor;
    if a == 0 {
      XorZero(b);
      XorCommutes(0, b);
      OddOfNothing();
    } else {
      XorParity(a, b);
      XorEvenEven(a, b);
      OddStep(a);
      OddStep(b);
      OddStep(Xor(a, b));
      OddOfXor(a >> 1, b >> 1);
    }
  }

  lemma OddStep(r: bv16)
    ensures Odd(r) == ((r & 1 == 1) != Odd(r >> 1))
  {
  }

  /** The generator has an odd number of bits, so shifting one out and xoring it in keeps parity. */
  lemma OddOfShift(r: bv16)
    ensures Odd(Shift(r)) == Odd(r)
  {
    OddStep(r);
    if r & 1 == 1 {
      OddOfXor(r >> 1, 0xA001);
      assert Odd(0xA001) by { OddOfGenerator(); }
      assert Xor(r >> 1, 0xA001) == (r >> 1) ^ 0xA001;
    }
    hide Odd;
  }

  lemma OddOfGenerator()
    ensures Odd(0xA001)
  {
    OddStep(0xA001);
    OddStep(0x5000);
    OddStep(0x2800);
    OddStep(0x1400);
    OddStep(0xA00);
    OddStep(0x500);
    OddStep(0x280);
    OddStep(0x140);
    OddStep(0xA0);
    OddStep(0x50);
    OddStep(0x28);
    OddStep(0x14);
    OddStep(10);
    OddStep(5);
    OddStep(2);
    OddStep(1);
    hide Odd;
    assert !Odd(0) by { OddOfNothing(); }
  }

  lemma OddOfNothing()
    ensures !Odd(0)
  {
  }

  lemma OddOfStep(r: bv16, b: bv8)
    ensures Odd(Step(r, b)) == (Odd(r) != Odd(b as bv16))
  {
    hide Odd, Xor, Shift;
    var x := Xor(r, b as bv16);
    OddOfXor(r, b as bv16);
    OddOfShift(x);
    OddOfShift(Shift(x));
    OddOfShift(Shift(Shift(x)));
    OddOfShift(Shift(Shift(Shift(x))));
    OddOfShift(Shift(Shift(Shift(Shift(x)))));
    OddOfShift(Shift(Shift(Shift(Shift(Shift(x))))));
    OddOfShift(Shift(Shift(Shift(Shift(Shift(Shift(x)))))));
    OddOfShift(Shift(Shift(Shift(Shift(Shift(Shift(Shift(x))))))));
  }

  lemma {:induction false} OddOfByte(b: bv8)
    ensures Odd(b as bv16) <==> BitCount(b) % 2 == 1
    decreases b
  {
    if b != 0 {
      OddOfByte(b >> 1);
      OddStep(b as bv16);
      ByteHalves(b);
      hide Odd;
    }
  }

  lemma ByteHalves(b: bv8)
    ensures (b as bv16) >> 1 == (b >> 1) as bv16 && ((b as bv16) & 1 == 1 <==> b & 1 == 1)
  {
  }

  lemma OddOfBytes(x: bv8, y: bv8)
    ensures (Odd(x as bv16) != Odd(y as bv16)) <==> BitCount(XorByte(x, y)) % 2 == 1
  {
    hide Odd, Xor, BitCount, XorByte;
    OddOfByte(XorByte(x, y));
    BytesApart(0, x, y);
    FromZero(x);
    FromZero(y);
    OddOfXor(x as bv16, y as bv16);
  }

  lemma FromZero(x: bv8)
    ensures Xor(0, x as bv16) == x as bv16
  {
  }

  /** Whether two messages differ in an odd number of bits. */
  predicate OddChange(m: seq<bv8>, m': seq<bv8>)
    requires |m| == |m'|
  {
    BitsChanged(m, m') % 2 == 1
  }

  lemma OddChangeStep(m: seq<bv8>, m': seq<bv8>)
    requires |m| == |m'| && m != []
    ensures OddChange(m, m') == ((BitCount(XorByte(m[0], m'[0])) % 2 == 1) != OddChange(m[1..], m'[1..]))
  {
    hide BitCount, XorByte;
  }

  lemma RegisterStep(r: bv16, m: seq<bv8>)
    ensures m == [] ==> Register(r, m) == r
    ensures m != [] ==> Register(r, m) == Register(Step(r, m[0]), m[1..])
  {
    hide Step;
  }

  lemma NoChange(m: seq<bv8>, m': seq<bv8>)
    requires |m| == |m'| == 0
    ensures !OddChange(m, m')
  {
  }

  /** One byte of each message. */
  lemma OddOfSteps(r: bv16, r': bv16, x: bv8, x': bv8)
    ensures (Odd(Step(r, x)) != Odd(Step(r', x'))) == ((Odd(r) != Odd(r')) != (BitCount(XorByte(x, x')) % 2 == 1))
  {
    hide Odd, Step, BitCount, XorByte;
    OddOfStep(r, x);
    OddOfStep(r', x');
    OddOfBytes(x, x');
  }

  lemma {:induction false} OddOfRegisters(r: bv16, r': bv16, m: seq<bv8>, m': seq<bv8>)
    requires |m| == |m'|
    ensures (Odd(Register(r, m)) != Odd(Register(r', m'))) == ((Odd(r) != Odd(r')) != OddChange(m, m'))
    decreases |m|
  {
    hide Odd, Step, BitCount, XorByte, OddChange, Register;
    RegisterStep(r, m);
    RegisterStep(r', m');
    if m == [] {
      NoChange(m, m');
    } else {
      OddOfSteps(r, r', m[0], m'[0]);
      OddChangeStep(m, m');
      OddOfRegisters(Step(r, m[0]), Step(r', m'[0]), m[1..], m'[1..]);
    }
  }

  /** Messages of one length that differ in an odd number of bits, wherever these are, have different CRCs. */
  lemma OddChangesAreDetected(m: seq<bv8>, m': seq<bv8>)
    requires |m| == |m'| && BitsChanged(m, m') % 2 == 1
    ensures Crc(m) != Crc(m')
  {
    hide Odd, WireOrder, Register, BitsChanged;
    assert OddChange(m, m');
    OddOfRegisters(INITIAL, INITIAL, m, m');
    WireOrderIsInjective(Register(INITIAL, m), Register(INITIAL, m'));
  }

  // ---------- comm_sub_checkPacket ----------

  const BUFFER_SIZE: nat := 128

  /** _rcv of comm_sub.c: the bytes received, and how many. */
  class Receiver {
    const chars: array<bv8>
    var length: nat

    ghost predicate Valid()
      reads this
    {
      chars.Length == BUFFER_SIZE && length <= BUFFER_SIZE
    }

    ghost function Frame(): seq<bv8>
      requires Valid()
      reads this, chars
    {
      chars[..length]
    }

    /** comm_sub_checkPacket: the last two bytes go to the caller and are compared with the CRC of the rest. */
    method CheckPacket(crcOut: array<bv8>) returns (ok: bool)
      requires Valid() && crcOut.Length >= 2 && crcOut != chars
      modifies crcOut
      ensures ok <==> |Frame()| >= 3 && Crc(Frame()) == 0
      ensures |Frame()| >= 3 ==> crcOut[0] == Frame()[|Frame()| - 2] && crcOut[1] == Frame()[|Frame()| - 1]
      ensures |Frame()| < 3 ==> crcOut[..] == old(crcOut[..])
      ensures crcOut[2..] == old(crcOut[2..])
    {
      hide Crc;
      if length < 3 {
        return false;
      }
      ghost var frame := chars[..length];
      var first, second := chars[length - 2], chars[length - 1];
      crcOut[0] := first;
      crcOut[1] := second;
      var received := Join(first, second);
      var computed := CRC16(chars, length - 2);
      assert chars[..length] == frame;
      assert chars[..length - 2] == frame[..length - 2];
      TrailerMatches(frame);
      return received == computed;
    }
  }

  /** first * 256 + second */
  function Join(first: bv8, second: bv8): bv16 {
    ((first as bv16) << 8) | (second as bv16)
  }

  lemma {:induction false} RegisterEndsInZero(r: bv16, x: bv8, y: bv8)
    ensures Step(Step(r, x), y) == 0 <==> Join(x, y) == WireOrder(r)
  {
    hide Shift8, Xor, Join, WireOrder, High, Low;
    LowHighBytes(r);
    JoinIsWireOrder(r, x, y);
    StepOfOwnLowByte(r);
    StepOfOwnByte(High(r));
    if Step(Step(r, x), y) == 0 {
      TwoBytesAreInjective(r, x, y, Low(r), High(r));
    }
  }

  lemma JoinIsWireOrder(r: bv16, x: bv8, y: bv8)
    ensures Join(x, y) == WireOrder(r) <==> x == Low(r) && y == High(r)
  {
    hide Join, WireOrder, Low, High;
    JoinIsInjective(x, y, Low(r), High(r));
    WireOrderJoins(r);
  }

  lemma WireOrderJoins(r: bv16)
    ensures WireOrder(r) == Join(Low(r), High(r))
  {
    JoinHalves(r);
  }

  lemma JoinIsInjective(x: bv8, y: bv8, x': bv8, y': bv8)
    ensures Join(x, y) == Join(x', y') ==> x == x' && y == y'
  {
  }

  lemma LowHighBytes(r: bv16)
    ensures r >> 8 == High(r) as bv16
  {
  }

  /** The register's own low byte leaves its high byte, and that byte leaves nothing. */
  lemma StepOfOwnLowByte(r: bv16)
    ensures Step(r, Low(r)) == High(r) as bv16
  {
    hide Shift8, Xor, XorByte, High;
    StepByHalves(r, Low(r));
    XorByteZero(Low(r), Low(r));
    Shift8OfZero();
    LowHighBytes(r);
    XorZero(r >> 8);
  }

  lemma StepOfOwnByte(b: bv8)
    ensures Step(b as bv16, b) == 0
  {
    hide Shift8;
    Shift8OfZero();
  }

  lemma XorZero(r: bv16)
    ensures Xor(r, 0) == r
  {
  }

  /** A frame is accepted iff the CRC of the whole of it, trailer included, is zero. */
  lemma TrailerMatches(frame: seq<bv8>)
    requires |frame| >= 2
    ensures var n := |frame| - 2;
            Join(frame[n], frame[n + 1]) == Crc(frame[..n]) <==> Crc(frame) == 0
  {
    hide Step, Register, Join, WireOrder;
    var n := |frame| - 2;
    SplitAt(frame, n);
    assert frame[n + 2..] == [];
    RegisterEndsInZero(Register(INITIAL, frame[..n]), frame[n], frame[n + 1]);
    RegisterOfNothing(Step(Step(Register(INITIAL, frame[..n]), frame[n]), frame[n + 1]));
    WireOrderIsInjective(Register(INITIAL, frame), 0);
    WireOrderOfZero();
  }

  lemma RegisterOfNothing(r: bv16)
    ensures Register(r, []) == r
  {
  }

  lemma WireOrderOfZero()
    ensures WireOrder(0) == 0
  {
  }
}
