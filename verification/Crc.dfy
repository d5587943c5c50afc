/** The table-driven CRC and the shift register it stands for. */
module Crc {
  import opened SeqFacts
  import opened ReverseHex

  const CRC16_LEN := 4

  // ----- The operations on the register, by name, so that proofs reason about the names

  function Xor(a: bv16, b: bv16): bv16 { a ^ b }

  function Not(a: bv16): bv16 { !a }

  function Shr1(a: bv16): bv16 { a >> 1 }

  function Shr2(a: bv16): bv16 { Shr1(Shr1(a)) }

  function Shr4(a: bv16): bv16 { Shr2(Shr2(a)) }

  function Shr8(a: bv16): bv16 { Shr4(Shr4(a)) }

  predicate Even(a: bv16) { a & 1 == 0 }

  predicate Even2(a: bv16) { Even(a) && Even(Shr1(a)) }

  predicate Even4(a: bv16) { Even2(a) && Even2(Shr2(a)) }

  predicate Even8(a: bv16) { Even4(a) && Even4(Shr4(a)) }

  /** One shift of the register; the polynomial is 0x8408. */
  function Step(r: bv16): bv16 {
    if Even(r) then Shr1(r) else Xor(Shr1(r), 0x8408)
  }

  function Two(r: bv16): bv16 { Step(Step(r)) }

  function Four(r: bv16): bv16 { Two(Two(r)) }

  function Eight(r: bv16): bv16 { Four(Four(r)) }

  // ----- ccitt_tab, in rows of sixteen

  function Row0(low: bv8): bv16 {
    match low
    case 0x0 => 0x0000 case 0x1 => 0x1189 case 0x2 => 0x2312 case 0x3 => 0x329B
    case 0x4 => 0x4624 case 0x5 => 0x57AD case 0x6 => 0x6536 case 0x7 => 0x74BF
    case 0x8 => 0x8C48 case 0x9 => 0x9DC1 case 0xa => 0xAF5A case 0xb => 0xBED3
    case 0xc => 0xCA6C case 0xd => 0xDBE5 case 0xe => 0xE97E case _ => 0xF8F7
  }

  function Row1(low: bv8): bv16 {
    match low
    case 0x0 => 0x1081 case 0x1 => 0x0108 case 0x2 => 0x3393 case 0x3 => 0x221A
    case 0x4 => 0x56A5 case 0x5 => 0x472C case 0x6 => 0x75B7 case 0x7 => 0x643E
    case 0x8 => 0x9CC9 case 0x9 => 0x8D40 case 0xa => 0xBFDB case 0xb => 0xAE52
    case 0xc => 0xDAED case 0xd => 0xCB64 case 0xe => 0xF9FF case _ => 0xE876
  }

  function Row2(low: bv8): bv16 {
    match low
    case 0x0 => 0x2102 case 0x1 => 0x308B case 0x2 => 0x0210 case 0x3 => 0x1399
    case 0x4 => 0x6726 case 0x5 => 0x76AF case 0x6 => 0x4434 case 0x7 => 0x55BD
    case 0x8 => 0xAD4A case 0x9 => 0xBCC3 case 0xa => 0x8E58 case 0xb => 0x9FD1
    case 0xc => 0xEB6E case 0xd => 0xFAE7 case 0xe => 0xC87C case _ => 0xD9F5
  }

  function Row3(low: bv8): bv16 {
    match low
    case 0x0 => 0x3183 case 0x1 => 0x200A case 0x2 => 0x1291 case 0x3 => 0x0318
    case 0x4 => 0x77A7 case 0x5 => 0x662E case 0x6 => 0x54B5 case 0x7 => 0x453C
    case 0x8 => 0xBDCB case 0x9 => 0xAC42 case 0xa => 0x9ED9 case 0xb => 0x8F50
    case 0xc => 0xFBEF case 0xd => 0xEA66 case 0xe => 0xD8FD case _ => 0xC974
  }

  function Row4(low: bv8): bv16 {
    match low
    case 0x0 => 0x4204 case 0x1 => 0x538D case 0x2 => 0x6116 case 0x3 => 0x709F
    case 0x4 => 0x0420 case 0x5 => 0x15A9 case 0x6 => 0x2732 case 0x7 => 0x36BB
    case 0x8 => 0xCE4C case 0x9 => 0xDFC5 case 0xa => 0xED5E case 0xb => 0xFCD7
    case 0xc => 0x8868 case 0xd => 0x99E1 case 0xe => 0xAB7A case _ => 0xBAF3
  }

  function Row5(low: bv8): bv16 {
    match low
    case 0x0 => 0x5285 case 0x1 => 0x430C case 0x2 => 0x7197 case 0x3 => 0x601E
    case 0x4 => 0x14A1 case 0x5 => 0x0528 case 0x6 => 0x37B3 case 0x7 => 0x263A
    case 0x8 => 0xDECD case 0x9 => 0xCF44 case 0xa => 0xFDDF case 0xb => 0xEC56
    case 0xc => 0x98E9 case 0xd => 0x8960 case 0xe => 0xBBFB case _ => 0xAA72
  }

  function Row6(low: bv8): bv16 {
    match low
    case 0x0 => 0x6306 case 0x1 => 0x728F case 0x2 => 0x4014 case 0x3 => 0x519D
    case 0x4 => 0x2522 case 0x5 => 0x34AB case 0x6 => 0x0630 case 0x7 => 0x17B9
    case 0x8 => 0xEF4E case 0x9 => 0xFEC7 case 0xa => 0xCC5C case 0xb => 0xDDD5
    case 0xc => 0xA96A case 0xd => 0xB8E3 case 0xe => 0x8A78 case _ => 0x9BF1
  }

  function Row7(low: bv8): bv16 {
    match low
    case 0x0 => 0x7387 case 0x1 => 0x620E case 0x2 => 0x5095 case 0x3 => 0x411C
    case 0x4 => 0x35A3 case 0x5 => 0x242A case 0x6 => 0x16B1 case 0x7 => 0x0738
    case 0x8 => 0xFFCF case 0x9 => 0xEE46 case 0xa => 0xDCDD case 0xb => 0xCD54
    case 0xc => 0xB9EB case 0xd => 0xA862 case 0xe => 0x9AF9 case _ => 0x8B70
  }

  function Row8(low: bv8): bv16 {
    match low
    case 0x0 => 0x8408 case 0x1 => 0x9581 case 0x2 => 0xA71A case 0x3 => 0xB693
    case 0x4 => 0xC22C case 0x5 => 0xD3A5 case 0x6 => 0xE13E case 0x7 => 0xF0B7
    case 0x8 => 0x0840 case 0x9 => 0x19C9 case 0xa => 0x2B52 case 0xb => 0x3ADB
    case 0xc => 0x4E64 case 0xd => 0x5FED case 0xe => 0x6D76 case _ => 0x7CFF
  }

  function Row9(low: bv8): bv16 {
    match low
    case 0x0 => 0x9489 case 0x1 => 0x8500 case 0x2 => 0xB79B case 0x3 => 0xA612
    case 0x4 => 0xD2AD case 0x5 => 0xC324 case 0x6 => 0xF1BF case 0x7 => 0xE036
    case 0x8 => 0x18C1 case 0x9 => 0x0948 case 0xa => 0x3BD3 case 0xb => 0x2A5A
    case 0xc => 0x5EE5 case 0xd => 0x4F6C case 0xe => 0x7DF7 case _ => 0x6C7E
  }

  function RowA(low: bv8): bv16 {
    match low
    case 0x0 => 0xA50A case 0x1 => 0xB483 case 0x2 => 0x8618 case 0x3 => 0x9791
    case 0x4 => 0xE32E case 0x5 => 0xF2A7 case 0x6 => 0xC03C case 0x7 => 0xD1B5
    case 0x8 => 0x2942 case 0x9 => 0x38CB case 0xa => 0x0A50 case 0xb => 0x1BD9
    case 0xc => 0x6F66 case 0xd => 0x7EEF case 0xe => 0x4C74 case _ => 0x5DFD
  }

  function RowB(low: bv8): bv16 {
    match low
    case 0x0 => 0xB58B case 0x1 => 0xA402 case 0x2 => 0x9699 case 0x3 => 0x8710
    case 0x4 => 0xF3AF case 0x5 => 0xE226 case 0x6 => 0xD0BD case 0x7 => 0xC134
    case 0x8 => 0x39C3 case 0x9 => 0x284A case 0xa => 0x1AD1 case 0xb => 0x0B58
    case 0xc => 0x7FE7 case 0xd => 0x6E6E case 0xe => 0x5CF5 case _ => 0x4D7C
  }

  function RowC(low: bv8): bv16 {
    match low
    case 0x0 => 0xC60C case 0x1 => 0xD785 case 0x2 => 0xE51E case 0x3 => 0xF497
    case 0x4 => 0x8028 case 0x5 => 0x91A1 case 0x6 => 0xA33A case 0x7 => 0xB2B3
    case 0x8 => 0x4A44 case 0x9 => 0x5BCD case 0xa => 0x6956 case 0xb => 0x78DF
    case 0xc => 0x0C60 case 0xd => 0x1DE9 case 0xe => 0x2F72 case _ => 0x3EFB
  }

  function RowD(low: bv8): bv16 {
    match low
    case 0x0 => 0xD68D case 0x1 => 0xC704 case 0x2 => 0xF59F case 0x3 => 0xE416
    case 0x4 => 0x90A9 case 0x5 => 0x8120 case 0x6 => 0xB3BB case 0x7 => 0xA232
    case 0x8 => 0x5AC5 case 0x9 => 0x4B4C case 0xa => 0x79D7 case 0xb => 0x685E
    case 0xc => 0x1CE1 case 0xd => 0x0D68 case 0xe => 0x3FF3 case _ => 0x2E7A
  }

  function RowE(low: bv8): bv16 {
    match low
    case 0x0 => 0xE70E case 0x1 => 0xF687 case 0x2 => 0xC41C case 0x3 => 0xD595
    case 0x4 => 0xA12A case 0x5 => 0xB0A3 case 0x6 => 0x8238 case 0x7 => 0x93B1
    case 0x8 => 0x6B46 case 0x9 => 0x7ACF case 0xa => 0x4854 case 0xb => 0x59DD
    case 0xc => 0x2D62 case 0xd => 0x3CEB case 0xe => 0x0E70 case _ => 0x1FF9
  }

  function RowF(low: bv8): bv16 {
    match low
    case 0x0 => 0xF78F case 0x1 => 0xE606 case 0x2 => 0xD49D case 0x3 => 0xC514
    case 0x4 => 0xB1AB case 0x5 => 0xA022 case 0x6 => 0x92B9 case 0x7 => 0x8330
    case 0x8 => 0x7BC7 case 0x9 => 0x6A4E case 0xa => 0x58D5 case 0xb => 0x495C
    case 0xc => 0x3DE3 case 0xd => 0x2C6A case 0xe => 0x1EF1 case _ => 0x0F78
  }

  function Tab(i: bv8): bv16 {
    var low := i & 0xf;
    match i >> 4
    case 0x0 => Row0(low) case 0x1 => Row1(low) case 0x2 => Row2(low) case 0x3 => Row3(low)
    case 0x4 => Row4(low) case 0x5 => Row5(low) case 0x6 => Row6(low) case 0x7 => Row7(low)
    case 0x8 => Row8(low) case 0x9 => Row9(low) case 0xa => RowA(low) case 0xb => RowB(low)
    case 0xc => RowC(low) case 0xd => RowD(low) case 0xe => RowE(low) case _ => RowF(low)
  }

  lemma TabIsEight(i: bv8)
    ensures Tab(i) == Eight(i as bv16)
  {
  }

  // ----- One byte at a time

  function Low(r: bv16): bv8 { (r & 0xff) as bv8 }

  function High(r: bv16): bv16 { r & 0xff00 }

  function Mixed(r: bv16, ch: bv8): bv16 { Xor(r, ch as bv16) }

  /** The register after eight shifts with the bits of a byte. */
  function ShiftByte(r: bv16, ch: bv8): bv16 {
    Eight(Mixed(r, ch))
  }

  /** UPDCIT */
  function Updcit(r: bv16, ch: bv8): bv16 {
    Xor(Tab(Low(Mixed(r, ch))), r >> 8)
  }

  lemma XorHigh(l: bv16, h: bv16)
    requires Even(h)
    ensures (Even(Xor(l, h)) <==> Even(l)) && Shr1(Xor(l, h)) == Xor(Shr1(l), Shr1(h))
  {
  }

  lemma XorSwap(x: bv16, y: bv16, p: bv16)
    ensures Xor(Xor(x, y), p) == Xor(Xor(x, p), y)
  {
  }

  lemma StepHigh(l: bv16, h: bv16)
    requires Even(h)
    ensures Step(Xor(l, h)) == Xor(Step(l), Shr1(h))
  {
    XorHigh(l, h);
    XorSwap(Shr1(l), Shr1(h), 0x8408);
  }

  lemma TwoHigh(l: bv16, h: bv16)
    requires Even2(h)
    ensures Two(Xor(l, h)) == Xor(Two(l), Shr2(h))
  {
    StepHigh(l, h);
    StepHigh(Step(l), Shr1(h));
  }

  lemma FourHigh(l: bv16, h: bv16)
    requires Even4(h)
    ensures Four(Xor(l, h)) == Xor(Four(l), Shr4(h))
  {
    TwoHigh(l, h);
    TwoHigh(Two(l), Shr2(h));
  }

  lemma EightHigh(l: bv16, h: bv16)
    requires Even8(h)
    ensures Eight(Xor(l, h)) == Xor(Eight(l), Shr8(h))
  {
    FourHigh(l, h);
    FourHigh(Four(l), Shr4(h));
  }

  lemma HighByte(r: bv16)
    ensures Even8(High(r)) && Shr8(High(r)) == r >> 8
  {
  }

  lemma LowByte(r: bv16, ch: bv8)
    ensures Xor(Low(Mixed(r, ch)) as bv16, High(r)) == Mixed(r, ch)
  {
    assert ((((r ^ ch as bv16) & 0xff) as bv8) as bv16) ^ (r & 0xff00) == r ^ ch as bv16;
  }

  /** One look into the table is eight shifts of the register. */
  lemma UpdcitIsEight(r: bv16, ch: bv8)
    ensures Updcit(r, ch) == ShiftByte(r, ch)
  {
    LowByte(r, ch);
    HighByte(r);
    EightHigh(Low(Mixed(r, ch)) as bv16, High(r));
    TabIsEight(Low(Mixed(r, ch)));
  }

  // ----- The CRC of a text

  function Run(update: (bv16, bv8) -> bv16, s: seq<bv8>, r: bv16): bv16 {
    if s == [] then r else Run(update, s[1..], update(r, s[0]))
  }

  /** The CRC of a text, bit by bit, continued from an earlier one. */
  function Crcitt(s: seq<bv8>, crc: bv16): bv16 {
    Not(Run(ShiftByte, s, Not(crc)))
  }

  function Flat(src: seq<seq<bv8>>): seq<bv8> {
    if src == [] then [] else src[0] + Flat(src[1..])
  }

  lemma {:induction false} RunConcat(update: (bv16, bv8) -> bv16, a: seq<bv8>, b: seq<bv8>, r: bv16)
    ensures Run(update, a + b, r) == Run(update, b, Run(update, a, r))
  {
    if a == [] {
      assert a + b == b;
    } else {
      ConsConcat(a, b);
      RunConcat(update, a[1..], b, update(r, a[0]));
    }
  }

  lemma NotNot(r: bv16)
    ensures Not(Not(r)) == r
  {
  }

  lemma Chain(update: (bv16, bv8) -> bv16, a: seq<bv8>, b: seq<bv8>, r: bv16)
    ensures Run(update, b, Not(Not(Run(update, a, r)))) == Run(update, a + b, r)
  {
    NotNot(Run(update, a, r));
    RunConcat(update, a, b, r);
  }

  /** The CRC of a text continued from the CRC of another is the CRC of both. */
  lemma CrcChains(a: seq<bv8>, b: seq<bv8>, crc: bv16)
    ensures Crcitt(b, Crcitt(a, crc)) == Crcitt(a + b, crc)
  {
    Chain(ShiftByte, a, b, Not(crc));
  }

  /** crcitt_string_ex */
  method CrcittStringEx(s: seq<bv8>, crc: bv16) returns (r: bv16)
    ensures r == Crcitt(s, crc)
  {
    var ccitt := UpdateAll(s, Not(crc));
    r := Not(ccitt);
  }

  /** The loop over the bytes of a text. */
  method UpdateAll(s: seq<bv8>, start: bv16) returns (ccitt: bv16)
    ensures ccitt == Run(ShiftByte, s, start)
  {
    ccitt := start;
    var i := 0;
    while i < |s|
      invariant 0 <= i <= |s| && Run(ShiftByte, s[i..], ccitt) == Run(ShiftByte, s, start)
    {
      UpdcitIsEight(ccitt, s[i]);
      assert s[i..][1..] == s[i + 1..];
      ccitt := Updcit(ccitt, s[i]);
      i := i + 1;
    }
  }

  /** crcitt_string */
  method CrcittString(s: seq<bv8>) returns (r: bv16)
    ensures r == Crcitt(s, 0)
  {
    r := CrcittStringEx(s, 0);
  }

  lemma RunNext(c: bv8, rest: seq<bv8>, r: bv16, next: bv16)
    requires Updcit(r, c) == next
    ensures Run(ShiftByte, [c] + rest, r) == Run(ShiftByte, rest, next)
  {
    UpdcitIsEight(r, c);
    Tail(c, rest);
  }

  lemma Digits123(rest: seq<bv8>)
    ensures Run(ShiftByte, [0x31] + ([0x32] + ([0x33] + rest)), 0xFFFF) == Run(ShiftByte, rest, 0x634B)
  {
    RunNext(0x31, [0x32] + ([0x33] + rest), 0xFFFF, 0x2F8D);
    RunNext(0x32, [0x33] + rest, 0x2F8D, 0x4D53);
    RunNext(0x33, rest, 0x4D53, 0x634B);
  }

  lemma Digits456(rest: seq<bv8>)
    ensures Run(ShiftByte, [0x34] + ([0x35] + ([0x36] + rest)), 0x634B) == Run(ShiftByte, rest, 0x198D)
  {
    RunNext(0x34, [0x35] + ([0x36] + rest), 0x634B, 0x8B13);
    RunNext(0x35, [0x36] + rest, 0x8B13, 0x44BF);
    RunNext(0x36, rest, 0x44BF, 0x198D);
  }

  lemma Digits789(rest: seq<bv8>)
    ensures Run(ShiftByte, [0x37] + ([0x38] + ([0x39] + rest)), 0x198D) == Run(ShiftByte, rest, 0x6F91)
  {
    RunNext(0x37, [0x38] + ([0x39] + rest), 0x198D, 0x1AC8);
    RunNext(0x38, [0x39] + rest, 0x1AC8, 0xF795);
    RunNext(0x39, rest, 0xF795, 0x6F91);
  }

  /** The known answer for this polynomial: the CRC of the digits from 1 to 9. */
  lemma CheckValue()
    ensures Crcitt([0x31, 0x32, 0x33, 0x34, 0x35, 0x36, 0x37, 0x38, 0x39], 0) == 0x906E
  {
    var s789: seq<bv8> := [0x37] + ([0x38] + ([0x39] + []));
    var s456: seq<bv8> := [0x34] + ([0x35] + ([0x36] + s789));
    var s: seq<bv8> := [0x31] + ([0x32] + ([0x33] + s456));
    assert s == [0x31, 0x32, 0x33, 0x34, 0x35, 0x36, 0x37, 0x38, 0x39];
    Digits123(s456);
    Digits456(s789);
    Digits789([]);
  }

  // ----- The CRC as text

  /** Four hexadecimal digits, the lowest first. */
  function CrcText(r: bv16): (s: string) {
    Hex(r as nat) + Zeros(if |Hex(r as nat)| <= CRC16_LEN then CRC16_LEN - |Hex(r as nat)| else 0)
  }

  lemma HexFits(r: bv16)
    ensures |Hex(r as nat)| <= CRC16_LEN
  {
    assert Power16(4) == 65536;
    HexFitsIff(r as nat, CRC16_LEN);
  }

  /** The text has four characters and reads back as the CRC. */
  lemma CrcTextReadsBack(r: bv16)
    ensures |CrcText(r)| == CRC16_LEN && AllHex(CrcText(r)) && Value(CrcText(r)) == r as nat
  {
    HexFits(r);
    ZerosAreNothing(CRC16_LEN - |Hex(r as nat)|);
    HexReadsBack(r as nat, CRC16_LEN - |Hex(r as nat)|);
  }

  /** crcitt_string_array: the CRC of all the texts in one, as text. */
  method CrcittStringArray(dst: array<char>, src: seq<seq<bv8>>)
    requires dst.Length >= CRC16_LEN
    modifies dst
    ensures dst[..CRC16_LEN] == CrcText(Crcitt(Flat(src), 0))
  {
    var ccitt := CrcittOfAll(src);
    HexFits(ccitt);
    var ok, at, left := Int2ReverseHex(dst, 0, CRC16_LEN, ccitt as nat);
    PutZeros(dst, at, left);
  }

  /** The padding. */
  method PutZeros(dst: array<char>, at: nat, strLen: nat)
    requires at + strLen <= dst.Length
    modifies dst
    ensures dst[..at + strLen] == old(dst[..at]) + Zeros(strLen)
  {
    var p: nat, left: nat := at, strLen;
    ghost var before := dst[..at];
    assert before + "" == before;
    while left != 0
      invariant p + left == at + strLen && at <= p
      invariant dst[..p] == before + Zeros(p - at)
    {
      ZerosSnoc(p - at);
      Assoc(before, Zeros(p - at), ['0']);
      dst[p] := '0';
      p, left := p + 1, left - 1;
    }
  }

  /** Its loop over the texts. */
  method CrcittOfAll(src: seq<seq<bv8>>) returns (r: bv16)
    ensures r == Crcitt(Flat(src), 0)
  {
    var ccitt: bv16 := 0xFFFF;
    var i := 0;
    while i < |src|
      invariant 0 <= i <= |src| && Run(ShiftByte, Flat(src[i..]), ccitt) == Run(ShiftByte, Flat(src), 0xFFFF)
    {
      assert src[i..][1..] == src[i + 1..];
      RunConcat(ShiftByte, src[i], Flat(src[i + 1..]), ccitt);
      ccitt := UpdateAll(src[i], ccitt);
      i := i + 1;
    }
    r := Not(ccitt);
  }
}
