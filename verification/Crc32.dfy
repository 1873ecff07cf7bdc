/**
 The image checksum: the table-driven reflected CRC of crc32.py, which starts from 0
 and does not complement its result. The bit-serial definition below feeds one bit at
 a time, least significant bit of each byte first, through division by the reflected
 polynomial 0xEDB88320.
 */
module Crc32 {

  // ---- The bit-serial definition

  const POLYNOMIAL: bv32 := 0xEDB8_8320

  predicate Odd(c: bv32) {
    c & 1 == 1
  }

  /** Addition of remainders. */
  function Plus(a: bv32, b: bv32): bv32 {
    a ^ b
  }

  /** One step of the division: shift out the low bit, and subtract the polynomial if it was set. */
  function Step(c: bv32): bv32 {
    if Odd(c) then Plus(c >> 1, POLYNOMIAL) else c >> 1
  }

  function Bit(b: bool): bv32 {
    if b then 1 else 0
  }

  /** The remainder after the message bits `bits`, from the remainder `c`. */
  function Serial(c: bv32, bits: seq<bool>): bv32
    decreases |bits|
  {
    if bits == [] then c else Serial(Step(Plus(c, Bit(bits[0]))), bits[1..])
  }

  /** The low `n` bits of `x`, least significant first. */
  function LowBits(x: bv32, n: nat): (bits: seq<bool>)
    ensures |bits| == n
  {
    if n == 0 then [] else [Odd(x)] + LowBits(x >> 1, n - 1)
  }

  function Bits(s: seq<bv8>): (bits: seq<bool>)
    ensures |bits| == 8 * |s|
  {
    if s == [] then [] else LowBits(s[0] as bv32, 8) + Bits(s[1..])
  }

  // ---- The table

  const ROW_0: seq<bv32> := [
    0x00000000, 0x77073096, 0xEE0E612C, 0x990951BA, 0x076DC419, 0x706AF48F, 0xE963A535, 0x9E6495A3,
    0x0EDB8832, 0x79DCB8A4, 0xE0D5E91E, 0x97D2D988, 0x09B64C2B, 0x7EB17CBD, 0xE7B82D07, 0x90BF1D91]
  const ROW_1: seq<bv32> := [
    0x1DB71064, 0x6AB020F2, 0xF3B97148, 0x84BE41DE, 0x1ADAD47D, 0x6DDDE4EB, 0xF4D4B551, 0x83D385C7,
    0x136C9856, 0x646BA8C0, 0xFD62F97A, 0x8A65C9EC, 0x14015C4F, 0x63066CD9, 0xFA0F3D63, 0x8D080DF5]
  const ROW_2: seq<bv32> := [
    0x3B6E20C8, 0x4C69105E, 0xD56041E4, 0xA2677172, 0x3C03E4D1, 0x4B04D447, 0xD20D85FD, 0xA50AB56B,
    0x35B5A8FA, 0x42B2986C, 0xDBBBC9D6, 0xACBCF940, 0x32D86CE3, 0x45DF5C75, 0xDCD60DCF, 0xABD13D59]
  const ROW_3: seq<bv32> := [
    0x26D930AC, 0x51DE003A, 0xC8D75180, 0xBFD06116, 0x21B4F4B5, 0x56B3C423, 0xCFBA9599, 0xB8BDA50F,
    0x2802B89E, 0x5F058808, 0xC60CD9B2, 0xB10BE924, 0x2F6F7C87, 0x58684C11, 0xC1611DAB, 0xB6662D3D]
  const ROW_4: seq<bv32> := [
    0x76DC4190, 0x01DB7106, 0x98D220BC, 0xEFD5102A, 0x71B18589, 0x06B6B51F, 0x9FBFE4A5, 0xE8B8D433,
    0x7807C9A2, 0x0F00F934, 0x9609A88E, 0xE10E9818, 0x7F6A0DBB, 0x086D3D2D, 0x91646C97, 0xE6635C01]
  const ROW_5: seq<bv32> := [
    0x6B6B51F4, 0x1C6C6162, 0x856530D8, 0xF262004E, 0x6C0695ED, 0x1B01A57B, 0x8208F4C1, 0xF50FC457,
    0x65B0D9C6, 0x12B7E950, 0x8BBEB8EA, 0xFCB9887C, 0x62DD1DDF, 0x15DA2D49, 0x8CD37CF3, 0xFBD44C65]
  const ROW_6: seq<bv32> := [
    0x4DB26158, 0x3AB551CE, 0xA3BC0074, 0xD4BB30E2, 0x4ADFA541, 0x3DD895D7, 0xA4D1C46D, 0xD3D6F4FB,
    0x4369E96A, 0x346ED9FC, 0xAD678846, 0xDA60B8D0, 0x44042D73, 0x33031DE5, 0xAA0A4C5F, 0xDD0D7CC9]
  const ROW_7: seq<bv32> := [
    0x5005713C, 0x270241AA, 0xBE0B1010, 0xC90C2086, 0x5768B525, 0x206F85B3, 0xB966D409, 0xCE61E49F,
    0x5EDEF90E, 0x29D9C998, 0xB0D09822, 0xC7D7A8B4, 0x59B33D17, 0x2EB40D81, 0xB7BD5C3B, 0xC0BA6CAD]
  const ROW_8: seq<bv32> := [
    0xEDB88320, 0x9ABFB3B6, 0x03B6E20C, 0x74B1D29A, 0xEAD54739, 0x9DD277AF, 0x04DB2615, 0x73DC1683,
    0xE3630B12, 0x94643B84, 0x0D6D6A3E, 0x7A6A5AA8, 0xE40ECF0B, 0x9309FF9D, 0x0A00AE27, 0x7D079EB1]
  const ROW_9: seq<bv32> := [
    0xF00F9344, 0x8708A3D2, 0x1E01F268, 0x6906C2FE, 0xF762575D, 0x806567CB, 0x196C3671, 0x6E6B06E7,
    0xFED41B76, 0x89D32BE0, 0x10DA7A5A, 0x67DD4ACC, 0xF9B9DF6F, 0x8EBEEFF9, 0x17B7BE43, 0x60B08ED5]
  const ROW_A: seq<bv32> := [
    0xD6D6A3E8, 0xA1D1937E, 0x38D8C2C4, 0x4FDFF252, 0xD1BB67F1, 0xA6BC5767, 0x3FB506DD, 0x48B2364B,
    0xD80D2BDA, 0xAF0A1B4C, 0x36034AF6, 0x41047A60, 0xDF60EFC3, 0xA867DF55, 0x316E8EEF, 0x4669BE79]
  const ROW_B: seq<bv32> := [
    0xCB61B38C, 0xBC66831A, 0x256FD2A0, 0x5268E236, 0xCC0C7795, 0xBB0B4703, 0x220216B9, 0x5505262F,
    0xC5BA3BBE, 0xB2BD0B28, 0x2BB45A92, 0x5CB36A04, 0xC2D7FFA7, 0xB5D0CF31, 0x2CD99E8B, 0x5BDEAE1D]
  const ROW_C: seq<bv32> := [
    0x9B64C2B0, 0xEC63F226, 0x756AA39C, 0x026D930A, 0x9C0906A9, 0xEB0E363F, 0x72076785, 0x05005713,
    0x95BF4A82, 0xE2B87A14, 0x7BB12BAE, 0x0CB61B38, 0x92D28E9B, 0xE5D5BE0D, 0x7CDCEFB7, 0x0BDBDF21]
  const ROW_D: seq<bv32> := [
    0x86D3D2D4, 0xF1D4E242, 0x68DDB3F8, 0x1FDA836E, 0x81BE16CD, 0xF6B9265B, 0x6FB077E1, 0x18B74777,
    0x88085AE6, 0xFF0F6A70, 0x66063BCA, 0x11010B5C, 0x8F659EFF, 0xF862AE69, 0x616BFFD3, 0x166CCF45]
  const ROW_E: seq<bv32> := [
    0xA00AE278, 0xD70DD2EE, 0x4E048354, 0x3903B3C2, 0xA7672661, 0xD06016F7, 0x4969474D, 0x3E6E77DB,
    0xAED16A4A, 0xD9D65ADC, 0x40DF0B66, 0x37D83BF0, 0xA9BCAE53, 0xDEBB9EC5, 0x47B2CF7F, 0x30B5FFE9]
  const ROW_F: seq<bv32> := [
    0xBDBDF21C, 0xCABAC28A, 0x53B39330, 0x24B4A3A6, 0xBAD03605, 0xCDD70693, 0x54DE5729, 0x23D967BF,
    0xB3667A2E, 0xC4614AB8, 0x5D681B02, 0x2A6F2B94, 0xB40BBE37, 0xC30C8EA1, 0x5A05DF1B, 0x2D02EF8D]

  /** The list crc_32_tab, in rows of sixteen. */
  const CRC_32_TAB: seq<bv32> :=
    (ROW_0 + ROW_1 + ROW_2 + ROW_3) + (ROW_4 + ROW_5 + ROW_6 + ROW_7)
    + (ROW_8 + ROW_9 + ROW_A + ROW_B) + (ROW_C + ROW_D + ROW_E + ROW_F)

  function Step8(c: bv32): bv32 {
    Step(Step(Step(Step(Step(Step(Step(Step(c))))))))
  }

  /** A row is the first row with its own first entry added throughout. */
  predicate Shifted(row: seq<bv32>, first: seq<bv32>, x: bv32) {
    && |row| == 16 && |first| == 16
    && row[0] == Plus(first[0], x) && row[1] == Plus(first[1], x)
    && row[2] == Plus(first[2], x) && row[3] == Plus(first[3], x)
    && row[4] == Plus(first[4], x) && row[5] == Plus(first[5], x)
    && row[6] == Plus(first[6], x) && row[7] == Plus(first[7], x)
    && row[8] == Plus(first[8], x) && row[9] == Plus(first[9], x)
    && row[10] == Plus(first[10], x) && row[11] == Plus(first[11], x)
    && row[12] == Plus(first[12], x) && row[13] == Plus(first[13], x)
    && row[14] == Plus(first[14], x) && row[15] == Plus(first[15], x)
  }

  lemma Rows03()
    ensures Shifted(ROW_0, ROW_0, ROW_0[0])
    ensures Shifted(ROW_1, ROW_0, ROW_1[0])
    ensures Shifted(ROW_2, ROW_0, ROW_2[0])
    ensures Shifted(ROW_3, ROW_0, ROW_3[0])
  {
  }

  lemma Rows47()
    ensures Shifted(ROW_4, ROW_0, ROW_4[0])
    ensures Shifted(ROW_5, ROW_0, ROW_5[0])
    ensures Shifted(ROW_6, ROW_0, ROW_6[0])
    ensures Shifted(ROW_7, ROW_0, ROW_7[0])
  {
  }

  lemma Rows8B()
    ensures Shifted(ROW_8, ROW_0, ROW_8[0])
    ensures Shifted(ROW_9, ROW_0, ROW_9[0])
    ensures Shifted(ROW_A, ROW_0, ROW_A[0])
    ensures Shifted(ROW_B, ROW_0, ROW_B[0])
  {
  }

  lemma RowsCF()
    ensures Shifted(ROW_C, ROW_0, ROW_C[0])
    ensures Shifted(ROW_D, ROW_0, ROW_D[0])
    ensures Shifted(ROW_E, ROW_0, ROW_E[0])
    ensures Shifted(ROW_F, ROW_0, ROW_F[0])
  {
  }

  lemma FirstColumn()
    ensures ROW_0[0] == Step8(0x00) && ROW_1[0] == Step8(0x10) && ROW_2[0] == Step8(0x20) && ROW_3[0] == Step8(0x30)
    ensures ROW_4[0] == Step8(0x40) && ROW_5[0] == Step8(0x50) && ROW_6[0] == Step8(0x60) && ROW_7[0] == Step8(0x70)
    ensures ROW_8[0] == Step8(0x80) && ROW_9[0] == Step8(0x90) && ROW_A[0] == Step8(0xA0) && ROW_B[0] == Step8(0xB0)
    ensures ROW_C[0] == Step8(0xC0) && ROW_D[0] == Step8(0xD0) && ROW_E[0] == Step8(0xE0) && ROW_F[0] == Step8(0xF0)
  {
  }

  lemma InRow(row: seq<bv32>, first: seq<bv32>, x: bv32, k: nat)
    requires Shifted(row, first, x) && k < 16
    ensures row[k] == Plus(first[k], x)
  {
  }

  lemma FirstRowAt(low: bv8)
    requires low < 16
    ensures |ROW_0| == 16 && ROW_0[low as int] == Step8(low as bv32)
  {
  }

  lemma TableLength()
    ensures |CRC_32_TAB| == 256
  {
  }

  lemma Column03()
    ensures |CRC_32_TAB| == 256
    ensures CRC_32_TAB[0] == ROW_0[0] && CRC_32_TAB[16] == ROW_1[0] && CRC_32_TAB[32] == ROW_2[0] && CRC_32_TAB[48] == ROW_3[0]
  {
  }

  lemma Column47()
    ensures |CRC_32_TAB| == 256
    ensures CRC_32_TAB[64] == ROW_4[0] && CRC_32_TAB[80] == ROW_5[0] && CRC_32_TAB[96] == ROW_6[0] && CRC_32_TAB[112] == ROW_7[0]
  {
  }

  lemma Column8B()
    ensures |CRC_32_TAB| == 256
    ensures CRC_32_TAB[128] == ROW_8[0] && CRC_32_TAB[144] == ROW_9[0] && CRC_32_TAB[160] == ROW_A[0] && CRC_32_TAB[176] == ROW_B[0]
  {
  }

  lemma ColumnCF()
    ensures |CRC_32_TAB| == 256
    ensures CRC_32_TAB[192] == ROW_C[0] && CRC_32_TAB[208] == ROW_D[0] && CRC_32_TAB[224] == ROW_E[0] && CRC_32_TAB[240] == ROW_F[0]
  {
  }

  lemma FirstColumnAt(high: bv8)
    requires high < 16
    ensures |CRC_32_TAB| == 256 && CRC_32_TAB[16 * (high as int)] == Step8((high as bv32) << 4)
  {
    hide Step8;
    FirstColumn();
    Column03();
    Column47();
    Column8B();
    ColumnCF();
    if high < 8 {
      if high == 0 { assert high as int == 0; }
      else if high == 1 { assert high as int == 1; }
      else if high == 2 { assert high as int == 2; }
      else if high == 3 { assert high as int == 3; }
      else if high == 4 { assert high as int == 4; }
      else if high == 5 { assert high as int == 5; }
      else if high == 6 { assert high as int == 6; }
      else if high == 7 { assert high as int == 7; }
    } else {
      if high == 8 { assert high as int == 8; }
      else if high == 9 { assert high as int == 9; }
      else if high == 10 { assert high as int == 10; }
      else if high == 11 { assert high as int == 11; }
      else if high == 12 { assert high as int == 12; }
      else if high == 13 { assert high as int == 13; }
      else if high == 14 { assert high as int == 14; }
      else if high == 15 { assert high as int == 15; }
    }
  }

  lemma InFour(a: seq<bv32>, b: seq<bv32>, c: seq<bv32>, d: seq<bv32>, n: nat, i: nat)
    requires |a| == |b| == |c| == |d| == n && i < 4 * n
    ensures |a + b + c + d| == 4 * n
    ensures (a + b + c + d)[i]
         == if i < n then a[i] else if i < 2 * n then b[i - n] else if i < 3 * n then c[i - 2 * n] else d[i - 3 * n]
  {
  }

  lemma InRows(first: seq<bv32>, a: seq<bv32>, b: seq<bv32>, c: seq<bv32>, d: seq<bv32>, h: nat, k: nat)
    requires |a| > 0 && |b| > 0 && |c| > 0 && |d| > 0
    requires Shifted(a, first, a[0]) && Shifted(b, first, b[0])
    requires Shifted(c, first, c[0]) && Shifted(d, first, d[0])
    requires h < 4 && k < 16
    ensures |first| == 16 && |a + b + c + d| == 64
    ensures (a + b + c + d)[16 * h + k] == Plus(first[k], (a + b + c + d)[16 * h])
  {
    hide Plus;
    Sixteen(a, first, a[0]);
    Sixteen(b, first, b[0]);
    Sixteen(c, first, c[0]);
    Sixteen(d, first, d[0]);
    hide Shifted;
    InFour(a, b, c, d, 16, 16 * h + k);
    InFour(a, b, c, d, 16, 16 * h);
    if h == 0 {
      InRow(a, first, a[0], k);
    } else if h == 1 {
      InRow(b, first, b[0], k);
    } else if h == 2 {
      InRow(c, first, c[0], k);
    } else {
      InRow(d, first, d[0], k);
    }
  }

  lemma Sixteen(row: seq<bv32>, first: seq<bv32>, x: bv32)
    requires Shifted(row, first, x)
    ensures |row| == |first| == 16
  {
  }

  lemma Quarter0(g: nat, k: nat)
    requires g < 4 && k < 16
    ensures |ROW_0| == 16 && |ROW_0 + ROW_1 + ROW_2 + ROW_3| == 64
    ensures (ROW_0 + ROW_1 + ROW_2 + ROW_3)[16 * g + k] == Plus(ROW_0[k], (ROW_0 + ROW_1 + ROW_2 + ROW_3)[16 * g])
  {
    hide Plus, Shifted;
    Rows();
    Rows03();
    InRows(ROW_0, ROW_0, ROW_1, ROW_2, ROW_3, g, k);
  }

  lemma Quarter1(g: nat, k: nat)
    requires g < 4 && k < 16
    ensures |ROW_0| == 16 && |ROW_4 + ROW_5 + ROW_6 + ROW_7| == 64
    ensures (ROW_4 + ROW_5 + ROW_6 + ROW_7)[16 * g + k] == Plus(ROW_0[k], (ROW_4 + ROW_5 + ROW_6 + ROW_7)[16 * g])
  {
    hide Plus, Shifted;
    Rows();
    Rows47();
    InRows(ROW_0, ROW_4, ROW_5, ROW_6, ROW_7, g, k);
  }

  lemma Quarter2(g: nat, k: nat)
    requires g < 4 && k < 16
    ensures |ROW_0| == 16 && |ROW_8 + ROW_9 + ROW_A + ROW_B| == 64
    ensures (ROW_8 + ROW_9 + ROW_A + ROW_B)[16 * g + k] == Plus(ROW_0[k], (ROW_8 + ROW_9 + ROW_A + ROW_B)[16 * g])
  {
    hide Plus, Shifted;
    Rows();
    Rows8B();
    InRows(ROW_0, ROW_8, ROW_9, ROW_A, ROW_B, g, k);
  }

  lemma Quarter3(g: nat, k: nat)
    requires g < 4 && k < 16
    ensures |ROW_0| == 16 && |ROW_C + ROW_D + ROW_E + ROW_F| == 64
    ensures (ROW_C + ROW_D + ROW_E + ROW_F)[16 * g + k] == Plus(ROW_0[k], (ROW_C + ROW_D + ROW_E + ROW_F)[16 * g])
  {
    hide Plus, Shifted;
    Rows();
    RowsCF();
    InRows(ROW_0, ROW_C, ROW_D, ROW_E, ROW_F, g, k);
  }

  lemma InQuarters(first: seq<bv32>, a: seq<bv32>, b: seq<bv32>, c: seq<bv32>, d: seq<bv32>, h: nat, k: nat)
    requires |first| == 16 && |a| == |b| == |c| == |d| == 64 && h < 16 && k < 16
    requires var g := h % 4;
             && a[16 * g + k] == Plus(first[k], a[16 * g]) && b[16 * g + k] == Plus(first[k], b[16 * g])
             && c[16 * g + k] == Plus(first[k], c[16 * g]) && d[16 * g + k] == Plus(first[k], d[16 * g])
    ensures |a + b + c + d| == 256
    ensures (a + b + c + d)[16 * h + k] == Plus(first[k], (a + b + c + d)[16 * h])
  {
    hide Plus;
    InFour(a, b, c, d, 64, 16 * h + k);
    InFour(a, b, c, d, 64, 16 * h);
  }

  /** The table's rows repeat the first one, each with its first entry added. */
  lemma TableShifted(h: nat, k: nat)
    requires h < 16 && k < 16
    ensures |CRC_32_TAB| == 256 && |ROW_0| == 16
    ensures CRC_32_TAB[16 * h + k] == Plus(ROW_0[k], CRC_32_TAB[16 * h])
  {
    hide *;
    Rows();
    Quarter0(h % 4, k);
    Quarter1(h % 4, k);
    Quarter2(h % 4, k);
    Quarter3(h % 4, k);
    InQuarters(ROW_0, ROW_0 + ROW_1 + ROW_2 + ROW_3, ROW_4 + ROW_5 + ROW_6 + ROW_7,
               ROW_8 + ROW_9 + ROW_A + ROW_B, ROW_C + ROW_D + ROW_E + ROW_F, h, k);
  }

  lemma Rows()
    ensures |ROW_0| == |ROW_1| == |ROW_2| == |ROW_3| == |ROW_4| == |ROW_5| == |ROW_6| == |ROW_7| == 16
    ensures |ROW_8| == |ROW_9| == |ROW_A| == |ROW_B| == |ROW_C| == |ROW_D| == |ROW_E| == |ROW_F| == 16
    ensures CRC_32_TAB
         == (ROW_0 + ROW_1 + ROW_2 + ROW_3) + (ROW_4 + ROW_5 + ROW_6 + ROW_7)
            + (ROW_8 + ROW_9 + ROW_A + ROW_B) + (ROW_C + ROW_D + ROW_E + ROW_F)
  {
  }

  lemma Nibbles(c: bv8)
    ensures c as int == 16 * ((c >> 4) as int) + (c & 15) as int
    ensures c >> 4 < 16 && c & 15 < 16
  {
  }

  lemma NibblesAdd(c: bv8)
    ensures Plus((c & 15) as bv32, ((c >> 4) as bv32) << 4) == c as bv32
  {
  }

  /** Every entry of the table is the remainder of its index. */
  lemma TableHolds(c: bv8)
    ensures TableEntry(c) == Step8(c as bv32)
  {
    hide Plus, Step8;
    Nibbles(c);
    var high, low := c >> 4, c & 15;
    FirstRowAt(low);
    FirstColumnAt(high);
    TableShifted(high as int, low as int);
    NibblesAdd(c);
    Step8Linear(low as bv32, (high as bv32) << 4);
  }

  // ---- Linearity

  lemma OddPlus(a: bv32, b: bv32)
    ensures Odd(Plus(a, b)) <==> Odd(a) != Odd(b)
  {
  }

  lemma HalfSum(a: bv32, b: bv32)
    ensures (a ^ b) >> 1 == (a >> 1) ^ (b >> 1)
  {
  }

  lemma PlusIs(a: bv32, b: bv32)
    ensures Plus(a, b) == a ^ b
  {
  }

  lemma HalfPlus(a: bv32, b: bv32)
    ensures Plus(a, b) >> 1 == Plus(a >> 1, b >> 1)
  {
    hide Plus;
    HalfSum(a, b);
    PlusIs(a, b);
    PlusIs(a >> 1, b >> 1);
  }

  lemma PlusCancels(x: bv32, y: bv32, p: bv32)
    ensures Plus(Plus(x, p), Plus(y, p)) == Plus(x, y)
  {
    hide Plus;
    PlusPairs(x, p, y, p);
    PlusZero(p, p);
    PlusZero(Plus(x, y), 0);
  }

  lemma PlusAssociates(x: bv32, y: bv32, p: bv32)
    ensures Plus(x, Plus(y, p)) == Plus(Plus(x, y), p)
  {
  }

  lemma PlusCommutes(x: bv32, y: bv32)
    ensures Plus(x, y) == Plus(y, x)
  {
  }

  lemma PlusMoves(x: bv32, y: bv32, p: bv32)
    ensures Plus(Plus(x, p), y) == Plus(Plus(x, y), p)
    ensures Plus(x, Plus(y, p)) == Plus(Plus(x, y), p)
    ensures Plus(x, y) == Plus(y, x)
  {
    hide Plus;
    PlusAssociates(x, p, y);
    PlusAssociates(x, y, p);
    PlusCommutes(p, y);
    PlusCommutes(x, y);
  }

  lemma PlusPairs(a: bv32, b: bv32, x: bv32, y: bv32)
    ensures Plus(Plus(a, b), Plus(x, y)) == Plus(Plus(a, x), Plus(b, y))
  {
    hide Plus;
    PlusAssociates(Plus(a, b), x, y);
    PlusMoves(a, x, b);
    PlusAssociates(Plus(a, x), b, y);
  }

  lemma PlusZero(a: bv32, b: bv32)
    ensures Plus(a, 0) == a && Plus(0, a) == a
    ensures Plus(a, b) == 0 <==> a == b
  {
    ZeroAdded(a);
    ZeroAdded(b);
    if Plus(a, b) == 0 {
      AddedTwice(a, b);
    }
  }

  lemma ZeroAdded(a: bv32)
    ensures a ^ 0 == a && 0 ^ a == a && a ^ a == 0
  {
  }

  lemma AddedTwice(a: bv32, b: bv32)
    ensures (a ^ b) ^ b == a
  {
  }

  /** Dividing a sum is adding the divisions. */
  lemma StepLinear(a: bv32, b: bv32)
    ensures Step(Plus(a, b)) == Plus(Step(a), Step(b))
  {
    hide Plus, Odd;
    OddPlus(a, b);
    HalfPlus(a, b);
    PlusCancels(a >> 1, b >> 1, POLYNOMIAL);
    PlusMoves(a >> 1, b >> 1, POLYNOMIAL);
  }

  function StepN(c: bv32, n: nat): bv32
    decreases n
  {
    if n == 0 then c else StepN(Step(c), n - 1)
  }

  lemma Step8IsStepN(c: bv32)
    ensures Step8(c) == StepN(c, 8)
  {
  }

  lemma {:induction false} StepNLinear(a: bv32, b: bv32, n: nat)
    ensures StepN(Plus(a, b), n) == Plus(StepN(a, n), StepN(b, n))
    decreases n
  {
    hide Plus, Step;
    if n > 0 {
      StepLinear(a, b);
      StepNLinear(Step(a), Step(b), n - 1);
    }
  }

  lemma Step8Linear(a: bv32, b: bv32)
    ensures Step8(Plus(a, b)) == Plus(Step8(a), Step8(b))
  {
    hide Plus, Step8, StepN;
    Step8IsStepN(Plus(a, b));
    Step8IsStepN(a);
    Step8IsStepN(b);
    StepNLinear(a, b, 8);
  }

  /** Bitwise sum of two messages of the same length. */
  function Xor(a: seq<bool>, b: seq<bool>): seq<bool>
    requires |a| == |b|
  {
    if a == [] then [] else [a[0] != b[0]] + Xor(a[1..], b[1..])
  }

  lemma BitPlus(a: bool, b: bool)
    ensures Bit(a != b) == Plus(Bit(a), Bit(b))
  {
  }

  /** The remainder of a sum of messages is the sum of their remainders. */
  lemma {:induction false} SerialLinear(c: bv32, d: bv32, a: seq<bool>, b: seq<bool>)
    requires |a| == |b|
    ensures Serial(Plus(c, d), Xor(a, b)) == Plus(Serial(c, a), Serial(d, b))
    decreases |a|
  {
    hide Plus, Step, Bit;
    if a != [] {
      var x, y := Bit(a[0]), Bit(b[0]);
      BitPlus(a[0], b[0]);
      PlusPairs(c, d, x, y);
      StepLinear(Plus(c, x), Plus(d, y));
      SerialLinear(Step(Plus(c, x)), Step(Plus(d, y)), a[1..], b[1..]);
    }
  }

  lemma {:induction false} SerialConcat(c: bv32, a: seq<bool>, b: seq<bool>)
    ensures Serial(c, a + b) == Serial(Serial(c, a), b)
    decreases |a|
  {
    hide Plus, Step, Bit;
    if a == [] {
      assert a + b == b;
    } else {
      assert (a + b)[1..] == a[1..] + b;
      SerialConcat(Step(Plus(c, Bit(a[0]))), a[1..], b);
    }
  }

  // ---- The loop over the bytes

  /** Taking in a whole byte by shifting and a table entry, as the loop does. */
  function Feed(c: bv32, ch: bv8): bv32 {
    Plus(c >> 8, TableEntry(((c & 0xFF) ^ (ch as bv32)) as bv8))
  }

  function TableEntry(i: bv8): bv32 {
    TableLength();
    CRC_32_TAB[i as int]
  }

  predicate Below(x: bv32, n: nat) {
    if n == 0 then x == 0 else Below(x >> 1, n - 1)
  }

  lemma Peel(c: bv32, x: bv32)
    ensures Step(Plus(c, x)) == Plus(Step(Plus(c, Bit(Odd(x)))), x >> 1)
  {
    var even := (x >> 1) << 1;
    assert Step(even) == x >> 1 by { EvenStep(x >> 1); }
    assert x == Plus(Bit(Odd(x)), even) by { EvenPart(x); }
    hide Plus, Step, Bit, Odd;
    PlusMoves(c, Bit(Odd(x)), even);
    StepLinear(Plus(c, Bit(Odd(x))), even);
  }

  lemma EvenStep(x: bv32)
    requires x & 0x8000_0000 == 0
    ensures Step(x << 1) == x
  {
  }

  lemma EvenPart(x: bv32)
    ensures x == Plus(Bit(Odd(x)), (x >> 1) << 1) && (x >> 1) & 0x8000_0000 == 0
  {
  }

  /** A number of `n` bits taken in at once or bit by bit. */
  lemma {:induction false} AtOnce(c: bv32, x: bv32, n: nat)
    requires Below(x, n)
    ensures Serial(c, LowBits(x, n)) == StepN(Plus(c, x), n)
    decreases n
  {
    hide Plus, Step, Bit, Odd;
    if n == 0 {
      PlusZero(c, 0);
    } else {
      var next := Step(Plus(c, Bit(Odd(x))));
      Peel(c, x);
      AtOnce(next, x >> 1, n - 1);
      assert LowBits(x, n)[1..] == LowBits(x >> 1, n - 1);
    }
  }

  lemma ByteBelow(ch: bv8)
    ensures Below(ch as bv32, 8)
  {
    var x := ch as bv32;
    assert ((((((((x >> 1) >> 1) >> 1) >> 1) >> 1) >> 1) >> 1) >> 1) == 0;
    assert Below((((((x >> 1) >> 1) >> 1) >> 1) >> 1) >> 1, 2);
    assert Below((((x >> 1) >> 1) >> 1) >> 1, 4);
    assert Below((x >> 1) >> 1, 6);
  }

  /** A number whose low eight bits are clear is only shifted. */
  lemma ShiftOut(x: bv32)
    requires x & 0xFF == 0
    ensures Step8(x) == x >> 8
  {
  }

  lemma SplitByte(c: bv32, ch: bv8)
    ensures var low, high := ((c & 0xFF) ^ (ch as bv32)) as bv8 as bv32, c & 0xFFFF_FF00;
            Plus(c, ch as bv32) == Plus(low, high) && high & 0xFF == 0 && high >> 8 == c >> 8
  {
  }

  /** One round of the table loop takes in the eight bits of the byte. */
  lemma FeedIsSerial(c: bv32, ch: bv8)
    ensures Feed(c, ch) == Serial(c, LowBits(ch as bv32, 8))
  {
    hide Plus, Step8, StepN, Serial, LowBits, TableEntry;
    var index := ((c & 0xFF) ^ (ch as bv32)) as bv8;
    var high := c & 0xFFFF_FF00;
    TableHolds(index);
    SplitByte(c, ch);
    Step8Linear(index as bv32, high);
    ShiftOut(high);
    Step8IsStepN(Plus(c, ch as bv32));
    ByteBelow(ch);
    AtOnce(c, ch as bv32, 8);
    PlusMoves(c >> 8, Step8(index as bv32), 0);
  }

  /** crc32.py's function: for every string, the bit-by-bit remainder. */
  method Crc(text: seq<bv8>) returns (result: bv32)
    ensures result == Serial(0, Bits(text))
  {
    hide *;
    result := 0;
    Whole(text);
    for i := 0 to |text|
      invariant Serial(0, Bits(text)) == Serial(result, Bits(text[i..]))
    {
      var ch := text[i];
      NextByte(result, text, i);
      FeedDef(result, ch);
      var crcH8 := result & 0xFF;
      result := result >> 8;
      result := result ^ TableEntry((crcH8 ^ (ch as bv32)) as bv8);
    }
    NoBytes(result, text);
  }

  lemma Whole(text: seq<bv8>)
    ensures text[0..] == text
  {
  }

  lemma NoBytes(c: bv32, text: seq<bv8>)
    ensures Serial(c, Bits(text[|text|..])) == c
  {
  }

  lemma NextByte(c: bv32, text: seq<bv8>, i: nat)
    requires i < |text|
    ensures Serial(c, Bits(text[i..])) == Serial(Feed(c, text[i]), Bits(text[i + 1..]))
  {
    hide Serial, Feed, LowBits;
    var ch := text[i];
    FeedIsSerial(c, ch);
    assert text[i..][1..] == text[i + 1..];
    SerialConcat(c, LowBits(ch as bv32, 8), Bits(text[i + 1..]));
  }

  lemma FeedDef(c: bv32, ch: bv8)
    ensures Feed(c, ch) == (c >> 8) ^ TableEntry(((c & 0xFF) ^ (ch as bv32)) as bv8)
  {
  }

  // ---- What the checksum detects

  function Low(c: bv32): (b: bv8)
    ensures b as bv32 == c & 0xFF
  {
    (c & 0xFF) as bv8
  }

  function High(c: bv32): bv32 {
    c >> 8
  }

  /** The four bytes of a word, lowest first. */
  function LittleEndian(c: bv32): seq<bv8> {
    [Low(c), Low(High(c)), Low(High(High(c))), Low(High(High(High(c))))]
  }

  /** A string followed by its own checksum, low byte first, has checksum 0. */
  lemma Residue(s: seq<bv8>)
    ensures Serial(0, Bits(s + LittleEndian(Serial(0, Bits(s))))) == 0
  {
    hide *;
    var c := Serial(0, Bits(s));
    BitsConcat(s, LittleEndian(c));
    SerialConcat(0, Bits(s), Bits(LittleEndian(c)));
    OwnBytes(c);
  }

  lemma OwnBytes(c: bv32)
    ensures Serial(c, Bits(LittleEndian(c))) == 0
  {
    hide *;
    OwnByte(c);
    var le := LittleEndian(c);
    Whole(le);
    Consume(c, le, 0);
    Consume(High(c), le, 1);
    Consume(High(High(c)), le, 2);
    Consume(High(High(High(c))), le, 3);
    NoBytes(0, le);
  }

  lemma OwnByte(c: bv32)
    ensures var le := LittleEndian(c);
            && |le| == 4 && le[0] == Low(c) && le[1] == Low(High(c))
            && le[2] == Low(High(High(c))) && le[3] == Low(High(High(High(c))))
            && High(High(High(High(c)))) == 0
  {
  }

  /** Taking in the remainder's own low byte shifts it out. */
  lemma Consume(c: bv32, s: seq<bv8>, i: nat)
    requires i < |s| && s[i] == Low(c)
    ensures Serial(c, Bits(s[i..])) == Serial(High(c), Bits(s[i + 1..]))
  {
    hide Serial, Bits, LowBits, Feed, TableEntry, Step8, Low;
    NextByte(c, s, i);
    FeedDef(c, s[i]);
    TableHolds(0);
    assert ((c & 0xFF) ^ (s[i] as bv32)) as bv8 == 0;
    ShiftOut(0);
    assert (c >> 8) ^ 0 == c >> 8;
  }

  lemma {:induction false} BitsConcat(s: seq<bv8>, t: seq<bv8>)
    ensures Bits(s + t) == Bits(s) + Bits(t)
  {
    if s == [] {
      assert s + t == t;
    } else {
      assert (s + t)[1..] == s[1..] + t;
      BitsConcat(s[1..], t);
      assert LowBits(s[0] as bv32, 8) + (Bits(s[1..]) + Bits(t)) == LowBits(s[0] as bv32, 8) + Bits(s[1..]) + Bits(t);
    }
  }

  /** A bit put in below a word. */
  function Push(b: bool, x: bv32): bv32 {
    if b then (x << 1) | 1 else x << 1
  }

  /** Ones in the low `n` places. */
  function Mask(n: nat): bv32 {
    if n == 0 then 0 else Push(true, Mask(n - 1))
  }

  predicate Within(x: bv32, m: bv32) {
    x & !m == 0
  }

  lemma PushOne(x: bv32, m: bv32)
    requires Within(x, m)
    ensures Within(Push(true, x), Push(true, m))
  {
  }

  lemma PushNone(x: bv32, m: bv32)
    requires Within(x, m)
    ensures Within(Push(false, x), Push(true, m))
  {
  }

  lemma PushWithin(b: bool, x: bv32, m: bv32)
    requires Within(x, m)
    ensures Within(Push(b, x), Push(true, m))
  {
    hide Push, Within;
    if b {
      PushOne(x, m);
    } else {
      PushNone(x, m);
    }
  }

  lemma WithinTrans(x: bv32, y: bv32, z: bv32)
    requires Within(x, y) && Within(y, z)
    ensures Within(x, z)
  {
  }

  lemma {:induction false} MaskGrows(n: nat)
    ensures Within(Mask(n), Mask(n + 1))
  {
    hide Within, Push;
    if n == 0 {
      ZeroWithin(Mask(1));
    } else {
      MaskGrows(n - 1);
      PushWithin(true, Mask(n - 1), Mask(n));
    }
  }

  lemma ZeroWithin(m: bv32)
    ensures Within(0, m)
  {
  }

  lemma {:induction false} MaskBelow31(n: nat)
    requires n <= 31
    ensures Within(Mask(n), 0x7FFF_FFFF)
    decreases 31 - n
  {
    hide Within, Mask;
    if n == 31 {
      Mask31();
    } else {
      MaskBelow31(n + 1);
      MaskGrows(n);
      WithinTrans(Mask(n), Mask(n + 1), 0x7FFF_FFFF);
    }
  }

  lemma Mask31()
    ensures Within(Mask(31), 0x7FFF_FFFF)
  {
    assert Mask(4) == 0xF;
    assert Mask(8) == 0xFF;
    assert Mask(12) == 0xFFF;
    assert Mask(16) == 0xFFFF;
    assert Mask(20) == 0xF_FFFF;
    assert Mask(24) == 0xFF_FFFF;
    assert Mask(28) == 0xFFF_FFFF;
    assert Mask(31) == 0x7FFF_FFFF;
  }

  /** A word made of bits, the first one lowest. */
  function Word(bits: seq<bool>): bv32
    decreases |bits|
  {
    if bits == [] then 0 else Push(bits[0], Word(bits[1..]))
  }

  lemma {:induction false} WordWithin(bits: seq<bool>)
    ensures Within(Word(bits), Mask(|bits|))
    decreases |bits|
  {
    hide Within, Push;
    if bits == [] {
      ZeroWithin(0);
    } else {
      WordWithin(bits[1..]);
      PushWithin(bits[0], Word(bits[1..]), Mask(|bits| - 1));
    }
  }

  lemma StepBack(c: bv32, x: bv32)
    requires Step(c) == x && Within(x, 0x7FFF_FFFF)
    ensures c == x << 1
  {
  }

  lemma StepZero(c: bv32)
    requires Step(c) == 0
    ensures c == 0
  {
  }

  lemma PlusBackOne(c: bv32, x: bv32)
    requires Plus(c, 1) == x << 1
    ensures c == (x << 1) | 1
  {
  }

  lemma PlusBack(c: bv32, b: bool, x: bv32)
    requires Plus(c, Bit(b)) == x << 1
    ensures c == Push(b, x)
  {
    hide Plus;
    if b {
      PlusBackOne(c, x);
    } else {
      PlusZero(c, 0);
    }
  }

  /** At most 32 message bits leave the remainder 0 only from the one remainder that they spell. */
  lemma {:induction false} ZeroOnlyFromWord(c: bv32, bits: seq<bool>)
    requires |bits| <= 32 && Serial(c, bits) == 0
    ensures c == Word(bits)
    decreases |bits|
  {
    hide Plus, Bit, Step, Within, Mask, Push;
    if bits != [] {
      var next := Step(Plus(c, Bit(bits[0])));
      ZeroOnlyFromWord(next, bits[1..]);
      WordWithin(bits[1..]);
      MaskBelow31(|bits| - 1);
      WithinTrans(next, Mask(|bits| - 1), 0x7FFF_FFFF);
      StepBack(Plus(c, Bit(bits[0])), next);
      PlusBack(c, bits[0], next);
    }
  }

  predicate AllZero(bits: seq<bool>) {
    forall i :: 0 <= i < |bits| ==> !bits[i]
  }

  lemma {:induction false} WordZero(bits: seq<bool>)
    requires |bits| <= 32 && Word(bits) == 0
    ensures AllZero(bits)
    decreases |bits|
  {
    hide Within, Mask, Push;
    if bits != [] {
      var rest := bits[1..];
      WordWithin(rest);
      MaskBelow31(|rest|);
      WithinTrans(Word(rest), Mask(|rest|), 0x7FFF_FFFF);
      ShiftZero(bits[0], Word(rest));
      WordZero(rest);
      assert forall i :: 0 < i < |bits| ==> bits[i] == rest[i - 1];
    }
  }

  lemma ShiftZero(b: bool, x: bv32)
    requires Push(b, x) == 0 && Within(x, 0x7FFF_FFFF)
    ensures !b && x == 0
  {
  }

  lemma {:induction false} LeadingZeros(bits: seq<bool>)
    requires AllZero(bits)
    ensures Serial(0, bits) == 0
    decreases |bits|
  {
    if bits != [] {
      assert AllZero(bits[1..]);
      assert Step(Plus(0, Bit(false))) == 0;
      hide Step, Plus, Bit;
      LeadingZeros(bits[1..]);
    }
  }

  lemma {:induction false} TrailingZeros(c: bv32, bits: seq<bool>)
    requires AllZero(bits) && Serial(c, bits) == 0
    ensures c == 0
    decreases |bits|
  {
    if bits != [] {
      assert AllZero(bits[1..]);
      assert Plus(c, Bit(false)) == c;
      hide Step, Plus, Bit;
      TrailingZeros(Step(c), bits[1..]);
      StepZero(c);
    }
  }

  lemma {:induction false} XorAt(a: seq<bool>, b: seq<bool>)
    requires |a| == |b|
    ensures |Xor(a, b)| == |a| && forall i :: 0 <= i < |a| ==> Xor(a, b)[i] == (a[i] != b[i])
  {
    if a != [] {
      XorAt(a[1..], b[1..]);
    }
  }

  /** Two messages of equal length that differ, and only inside a window of 32 consecutive bits,
      have different checksums. */
  lemma BurstDetected(a: seq<bool>, b: seq<bool>, at: nat)
    requires |a| == |b| && a != b && at <= |a|
    requires forall i :: 0 <= i < |a| && (i < at || i >= at + 32) ==> a[i] == b[i]
    ensures Serial(0, a) != Serial(0, b)
  {
    hide Serial;
    if Serial(0, a) == Serial(0, b) {
      SameChecksum(a, b, at);
    }
  }

  lemma SameChecksum(a: seq<bool>, b: seq<bool>, at: nat)
    requires |a| == |b| && at <= |a| && Serial(0, a) == Serial(0, b)
    requires forall i :: 0 <= i < |a| && (i < at || i >= at + 32) ==> a[i] == b[i]
    ensures a == b
  {
    hide Serial, Plus;
    var d, end := Xor(a, b), if at + 32 <= |a| then at + 32 else |a|;
    XorAt(a, b);
    PlusZero(0, 0);
    SerialLinear(0, 0, a, b);
    PlusZero(Serial(0, a), Serial(0, b));
    DifferenceVanishes(d, at, end);
    assert forall i :: 0 <= i < |a| ==> a[i] == b[i];
  }

  lemma DifferenceVanishes(d: seq<bool>, at: nat, end: nat)
    requires at <= end <= |d| && end - at <= 32 && Serial(0, d) == 0
    requires AllZero(d[..at]) && AllZero(d[end..])
    ensures AllZero(d)
  {
    hide Serial, Word;
    assert d[..at] + d[at..] == d && d[at..end] + d[end..] == d[at..];
    SerialConcat(0, d[..at], d[at..]);
    SerialConcat(0, d[at..end], d[end..]);
    LeadingZeros(d[..at]);
    TrailingZeros(Serial(0, d[at..end]), d[end..]);
    ZeroOnlyFromWord(0, d[at..end]);
    WordZero(d[at..end]);
    forall i | 0 <= i < |d| ensures !d[i] {
      if i < at {
        assert d[..at][i] == d[i];
      } else if i < end {
        assert d[at..end][i - at] == d[i];
      } else {
        assert d[end..][i - end] == d[i];
      }
    }
  }

  /** The same for strings: any change inside four consecutive bytes changes the checksum. */
  lemma FourByteWindow(s: seq<bv8>, t: seq<bv8>, at: nat)
    requires |s| == |t| && s != t && at <= |s|
    requires forall k :: 0 <= k < |s| && (k < at || k >= at + 4) ==> s[k] == t[k]
    ensures Serial(0, Bits(s)) != Serial(0, Bits(t))
  {
    hide *;
    forall i | 0 <= i < |Bits(s)| && (i < 8 * at || i >= 8 * at + 32) ensures Bits(s)[i] == Bits(t)[i] {
      SameByteSameBit(s, t, i);
    }
    var k :| 0 <= k < |s| && s[k] != t[k];
    BitsDiffer(s, t, k);
    BurstDetected(Bits(s), Bits(t), 8 * at);
  }

  lemma SameByteSameBit(s: seq<bv8>, t: seq<bv8>, i: nat)
    requires |s| == |t| && i < 8 * |s| && s[i / 8] == t[i / 8]
    ensures Bits(s)[i] == Bits(t)[i]
  {
    hide Bits, LowBits;
    BitsSlice(s, i / 8);
    BitsSlice(t, i / 8);
    var from, j := 8 * (i / 8), i % 8;
    assert Bits(s)[i] == Bits(s)[from..from + 8][j];
    assert Bits(t)[i] == Bits(t)[from..from + 8][j];
  }

  lemma BitsDiffer(s: seq<bv8>, t: seq<bv8>, k: nat)
    requires |s| == |t| && k < |s| && s[k] != t[k]
    ensures Bits(s) != Bits(t)
  {
    hide Bits, LowBits, Below;
    BitsSlice(s, k);
    BitsSlice(t, k);
    if Bits(s) == Bits(t) {
      ByteBelow(s[k]);
      ByteBelow(t[k]);
      SameBits(s[k] as bv32, t[k] as bv32, 8);
    }
  }

  lemma {:induction false} BitsSlice(s: seq<bv8>, k: nat)
    requires k < |s|
    ensures Bits(s)[8 * k..8 * k + 8] == LowBits(s[k] as bv32, 8)
    decreases |s|
  {
    hide LowBits;
    var first := LowBits(s[0] as bv32, 8);
    if k > 0 {
      BitsSlice(s[1..], k - 1);
      assert Bits(s)[8 * k..8 * k + 8] == Bits(s[1..])[8 * (k - 1)..8 * (k - 1) + 8];
    } else {
      assert Bits(s)[0..8] == first;
    }
  }

  lemma {:induction false} SameBits(x: bv32, y: bv32, n: nat)
    requires Below(x, n) && Below(y, n) && LowBits(x, n) == LowBits(y, n)
    ensures x == y
    decreases n
  {
    hide Odd;
    if n > 0 {
      assert LowBits(x, n)[0] == LowBits(y, n)[0];
      assert LowBits(x, n)[1..] == LowBits(x >> 1, n - 1) && LowBits(y, n)[1..] == LowBits(y >> 1, n - 1);
      SameBits(x >> 1, y >> 1, n - 1);
      SameHalves(x, y);
    }
  }

  lemma SameHalves(x: bv32, y: bv32)
    requires Odd(x) == Odd(y) && x >> 1 == y >> 1
    ensures x == y
  {
  }
}
