/** CRC-32 by table, as libwzd-core/wzd_crc32.c computes it, against the division of
    section 8 of RFC 1952 carried out bit by bit. */
module Crc32 {

  // ----- Registers -----

  function Xor(a: bv32, b: bv32): bv32 { a ^ b }

  function Not(c: bv32): bv32 { !c }

  predicate Odd(c: bv32) { c & 1 == 1 }

  function Half(c: bv32): bv32 { c >> 1 }

  function Wide(b: bv8): bv32 { b as bv32 }

  function LowByte(c: bv32): bv8 { (c & 0xFF) as bv8 }

  function Down(c: bv32): bv32 { (c >> 8) & 0x00FFFFFF }

  // ----- The division, bit by bit -----

  const POLYNOMIAL: bv32 := 0xEDB88320

  /** One message bit shifted into the register, low bit first. */
  function BitStep(c: bv32, bit: bool): bv32 {
    if Odd(c) != bit then Xor(Half(c), POLYNOMIAL) else Half(c)
  }

  function Divide(c: bv32, bits: seq<bool>): bv32
    decreases |bits|
  {
    if bits == [] then c else Divide(BitStep(c, bits[0]), bits[1..])
  }

  function Push(b0: bool, b1: bool, b2: bool, b3: bool, rest: seq<bool>): seq<bool> {
    [b0] + ([b1] + ([b2] + ([b3] + rest)))
  }

  /** The bits of a message: those of each byte in turn, low bit first. */
  function Bits(data: seq<bv8>): seq<bool> {
    if data == [] then []
    else
      var b := data[0];
      Push(b & 0x01 != 0, b & 0x02 != 0, b & 0x04 != 0, b & 0x08 != 0,
           Push(b & 0x10 != 0, b & 0x20 != 0, b & 0x40 != 0, b & 0x80 != 0, Bits(data[1..])))
  }

  /** The checksum of `data`, continuing from an earlier checksum; 0 to begin with. */
  function Checksum(crc: bv32, data: seq<bv8>): bv32 { Not(Divide(Not(crc), Bits(data))) }

  // ----- The table -----

  /** The entries `16 * h` to `16 * h + 15` of the table, by their low four bits. */
  function Row0(l: bv4): bv32 {
    match l
    case 0x0 => 0x00000000 case 0x1 => 0x77073096 case 0x2 => 0xEE0E612C case 0x3 => 0x990951BA
    case 0x4 => 0x076DC419 case 0x5 => 0x706AF48F case 0x6 => 0xE963A535 case 0x7 => 0x9E6495A3
    case 0x8 => 0x0EDB8832 case 0x9 => 0x79DCB8A4 case 0xA => 0xE0D5E91E case 0xB => 0x97D2D988
    case 0xC => 0x09B64C2B case 0xD => 0x7EB17CBD case 0xE => 0xE7B82D07 case 0xF => 0x90BF1D91
  }

  function Row1(l: bv4): bv32 {
    match l
    case 0x0 => 0x1DB71064 case 0x1 => 0x6AB020F2 case 0x2 => 0xF3B97148 case 0x3 => 0x84BE41DE
    case 0x4 => 0x1ADAD47D case 0x5 => 0x6DDDE4EB case 0x6 => 0xF4D4B551 case 0x7 => 0x83D385C7
    case 0x8 => 0x136C9856 case 0x9 => 0x646BA8C0 case 0xA => 0xFD62F97A case 0xB => 0x8A65C9EC
    case 0xC => 0x14015C4F case 0xD => 0x63066CD9 case 0xE => 0xFA0F3D63 case 0xF => 0x8D080DF5
  }

  function Row2(l: bv4): bv32 {
    match l
    case 0x0 => 0x3B6E20C8 case 0x1 => 0x4C69105E case 0x2 => 0xD56041E4 case 0x3 => 0xA2677172
    case 0x4 => 0x3C03E4D1 case 0x5 => 0x4B04D447 case 0x6 => 0xD20D85FD case 0x7 => 0xA50AB56B
    case 0x8 => 0x35B5A8FA case 0x9 => 0x42B2986C case 0xA => 0xDBBBC9D6 case 0xB => 0xACBCF940
    case 0xC => 0x32D86CE3 case 0xD => 0x45DF5C75 case 0xE => 0xDCD60DCF case 0xF => 0xABD13D59
  }

  function Row3(l: bv4): bv32 {
    match l
    case 0x0 => 0x26D930AC case 0x1 => 0x51DE003A case 0x2 => 0xC8D75180 case 0x3 => 0xBFD06116
    case 0x4 => 0x21B4F4B5 case 0x5 => 0x56B3C423 case 0x6 => 0xCFBA9599 case 0x7 => 0xB8BDA50F
    case 0x8 => 0x2802B89E case 0x9 => 0x5F058808 case 0xA => 0xC60CD9B2 case 0xB => 0xB10BE924
    case 0xC => 0x2F6F7C87 case 0xD => 0x58684C11 case 0xE => 0xC1611DAB case 0xF => 0xB6662D3D
  }

  function Row4(l: bv4): bv32 {
    match l
    case 0x0 => 0x76DC4190 case 0x1 => 0x01DB7106 case 0x2 => 0x98D220BC case 0x3 => 0xEFD5102A
    case 0x4 => 0x71B18589 case 0x5 => 0x06B6B51F case 0x6 => 0x9FBFE4A5 case 0x7 => 0xE8B8D433
    case 0x8 => 0x7807C9A2 case 0x9 => 0x0F00F934 case 0xA => 0x9609A88E case 0xB => 0xE10E9818
    case 0xC => 0x7F6A0DBB case 0xD => 0x086D3D2D case 0xE => 0x91646C97 case 0xF => 0xE6635C01
  }

  function Row5(l: bv4): bv32 {
    match l
    case 0x0 => 0x6B6B51F4 case 0x1 => 0x1C6C6162 case 0x2 => 0x856530D8 case 0x3 => 0xF262004E
    case 0x4 => 0x6C0695ED case 0x5 => 0x1B01A57B case 0x6 => 0x8208F4C1 case 0x7 => 0xF50FC457
    case 0x8 => 0x65B0D9C6 case 0x9 => 0x12B7E950 case 0xA => 0x8BBEB8EA case 0xB => 0xFCB9887C
    case 0xC => 0x62DD1DDF case 0xD => 0x15DA2D49 case 0xE => 0x8CD37CF3 case 0xF => 0xFBD44C65
  }

  function Row6(l: bv4): bv32 {
    match l
    case 0x0 => 0x4DB26158 case 0x1 => 0x3AB551CE case 0x2 => 0xA3BC0074 case 0x3 => 0xD4BB30E2
    case 0x4 => 0x4ADFA541 case 0x5 => 0x3DD895D7 case 0x6 => 0xA4D1C46D case 0x7 => 0xD3D6F4FB
    case 0x8 => 0x4369E96A case 0x9 => 0x346ED9FC case 0xA => 0xAD678846 case 0xB => 0xDA60B8D0
    case 0xC => 0x44042D73 case 0xD => 0x33031DE5 case 0xE => 0xAA0A4C5F case 0xF => 0xDD0D7CC9
  }

  function Row7(l: bv4): bv32 {
    match l
    case 0x0 => 0x5005713C case 0x1 => 0x270241AA case 0x2 => 0xBE0B1010 case 0x3 => 0xC90C2086
    case 0x4 => 0x5768B525 case 0x5 => 0x206F85B3 case 0x6 => 0xB966D409 case 0x7 => 0xCE61E49F
    case 0x8 => 0x5EDEF90E case 0x9 => 0x29D9C998 case 0xA => 0xB0D09822 case 0xB => 0xC7D7A8B4
    case 0xC => 0x59B33D17 case 0xD => 0x2EB40D81 case 0xE => 0xB7BD5C3B case 0xF => 0xC0BA6CAD
  }

  function Row8(l: bv4): bv32 {
    match l
    case 0x0 => 0xEDB88320 case 0x1 => 0x9ABFB3B6 case 0x2 => 0x03B6E20C case 0x3 => 0x74B1D29A
    case 0x4 => 0xEAD54739 case 0x5 => 0x9DD277AF case 0x6 => 0x04DB2615 case 0x7 => 0x73DC1683
    case 0x8 => 0xE3630B12 case 0x9 => 0x94643B84 case 0xA => 0x0D6D6A3E case 0xB => 0x7A6A5AA8
    case 0xC => 0xE40ECF0B case 0xD => 0x9309FF9D case 0xE => 0x0A00AE27 case 0xF => 0x7D079EB1
  }

  function Row9(l: bv4): bv32 {
    match l
    case 0x0 => 0xF00F9344 case 0x1 => 0x8708A3D2 case 0x2 => 0x1E01F268 case 0x3 => 0x6906C2FE
    case 0x4 => 0xF762575D case 0x5 => 0x806567CB case 0x6 => 0x196C3671 case 0x7 => 0x6E6B06E7
    case 0x8 => 0xFED41B76 case 0x9 => 0x89D32BE0 case 0xA => 0x10DA7A5A case 0xB => 0x67DD4ACC
    case 0xC => 0xF9B9DF6F case 0xD => 0x8EBEEFF9 case 0xE => 0x17B7BE43 case 0xF => 0x60B08ED5
  }

  function RowA(l: bv4): bv32 {
    match l
    case 0x0 => 0xD6D6A3E8 case 0x1 => 0xA1D1937E case 0x2 => 0x38D8C2C4 case 0x3 => 0x4FDFF252
    case 0x4 => 0xD1BB67F1 case 0x5 => 0xA6BC5767 case 0x6 => 0x3FB506DD case 0x7 => 0x48B2364B
    case 0x8 => 0xD80D2BDA case 0x9 => 0xAF0A1B4C case 0xA => 0x36034AF6 case 0xB => 0x41047A60
    case 0xC => 0xDF60EFC3 case 0xD => 0xA867DF55 case 0xE => 0x316E8EEF case 0xF => 0x4669BE79
  }

  function RowB(l: bv4): bv32 {
    match l
    case 0x0 => 0xCB61B38C case 0x1 => 0xBC66831A case 0x2 => 0x256FD2A0 case 0x3 => 0x5268E236
    case 0x4 => 0xCC0C7795 case 0x5 => 0xBB0B4703 case 0x6 => 0x220216B9 case 0x7 => 0x5505262F
    case 0x8 => 0xC5BA3BBE case 0x9 => 0xB2BD0B28 case 0xA => 0x2BB45A92 case 0xB => 0x5CB36A04
    case 0xC => 0xC2D7FFA7 case 0xD => 0xB5D0CF31 case 0xE => 0x2CD99E8B case 0xF => 0x5BDEAE1D
  }

  function RowC(l: bv4): bv32 {
    match l
    case 0x0 => 0x9B64C2B0 case 0x1 => 0xEC63F226 case 0x2 => 0x756AA39C case 0x3 => 0x026D930A
    case 0x4 => 0x9C0906A9 case 0x5 => 0xEB0E363F case 0x6 => 0x72076785 case 0x7 => 0x05005713
    case 0x8 => 0x95BF4A82 case 0x9 => 0xE2B87A14 case 0xA => 0x7BB12BAE case 0xB => 0x0CB61B38
    case 0xC => 0x92D28E9B case 0xD => 0xE5D5BE0D case 0xE => 0x7CDCEFB7 case 0xF => 0x0BDBDF21
  }

  function RowD(l: bv4): bv32 {
    match l
    case 0x0 => 0x86D3D2D4 case 0x1 => 0xF1D4E242 case 0x2 => 0x68DDB3F8 case 0x3 => 0x1FDA836E
    case 0x4 => 0x81BE16CD case 0x5 => 0xF6B9265B case 0x6 => 0x6FB077E1 case 0x7 => 0x18B74777
    case 0x8 => 0x88085AE6 case 0x9 => 0xFF0F6A70 case 0xA => 0x66063BCA case 0xB => 0x11010B5C
    case 0xC => 0x8F659EFF case 0xD => 0xF862AE69 case 0xE => 0x616BFFD3 case 0xF => 0x166CCF45
  }

  function RowE(l: bv4): bv32 {
    match l
    case 0x0 => 0xA00AE278 case 0x1 => 0xD70DD2EE case 0x2 => 0x4E048354 case 0x3 => 0x3903B3C2
    case 0x4 => 0xA7672661 case 0x5 => 0xD06016F7 case 0x6 => 0x4969474D case 0x7 => 0x3E6E77DB
    case 0x8 => 0xAED16A4A case 0x9 => 0xD9D65ADC case 0xA => 0x40DF0B66 case 0xB => 0x37D83BF0
    case 0xC => 0xA9BCAE53 case 0xD => 0xDEBB9EC5 case 0xE => 0x47B2CF7F case 0xF => 0x30B5FFE9
  }

  function RowF(l: bv4): bv32 {
    match l
    case 0x0 => 0xBDBDF21C case 0x1 => 0xCABAC28A case 0x2 => 0x53B39330 case 0x3 => 0x24B4A3A6
    case 0x4 => 0xBAD03605 case 0x5 => 0xCDD70693 case 0x6 => 0x54DE5729 case 0x7 => 0x23D967BF
    case 0x8 => 0xB3667A2E case 0x9 => 0xC4614AB8 case 0xA => 0x5D681B02 case 0xB => 0x2A6F2B94
    case 0xC => 0xB40BBE37 case 0xD => 0xC30C8EA1 case 0xE => 0x5A05DF1B case 0xF => 0x2D02EF8D
  }

  function Crcs(k: bv8): bv32 {
    var l := (k & 0xF) as bv4;
    match k >> 4
    case 0x0 => Row0(l) case 0x1 => Row1(l) case 0x2 => Row2(l) case 0x3 => Row3(l)
    case 0x4 => Row4(l) case 0x5 => Row5(l) case 0x6 => Row6(l) case 0x7 => Row7(l)
    case 0x8 => Row8(l) case 0x9 => Row9(l) case 0xA => RowA(l) case 0xB => RowB(l)
    case 0xC => RowC(l) case 0xD => RowD(l) case 0xE => RowE(l) case _ => RowF(l)
  }

  /** A shift with nothing mixed in. */
  function Shift(c: bv32): bv32 { BitStep(c, false) }

  function Shift8(c: bv32): bv32 { Shift(Shift(Shift(Shift(Shift(Shift(Shift(Shift(c)))))))) }

  // The table entries, an eighth of them at a time.

  lemma Eighth0(k: bv8)
    requires k >> 5 == 0
    ensures Crcs(k) == Shift8(Wide(k))
  {
  }

  lemma Eighth1(k: bv8)
    requires k >> 5 == 1
    ensures Crcs(k) == Shift8(Wide(k))
  {
  }

  lemma Eighth2(k: bv8)
    requires k >> 5 == 2
    ensures Crcs(k) == Shift8(Wide(k))
  {
  }

  lemma Eighth3(k: bv8)
    requires k >> 5 == 3
    ensures Crcs(k) == Shift8(Wide(k))
  {
  }

  lemma Eighth4(k: bv8)
    requires k >> 5 == 4
    ensures Crcs(k) == Shift8(Wide(k))
  {
  }

  lemma Eighth5(k: bv8)
    requires k >> 5 == 5
    ensures Crcs(k) == Shift8(Wide(k))
  {
  }

  lemma Eighth6(k: bv8)
    requires k >> 5 == 6
    ensures Crcs(k) == Shift8(Wide(k))
  {
  }

  lemma Eighth7(k: bv8)
    requires k >> 5 == 7
    ensures Crcs(k) == Shift8(Wide(k))
  {
  }

  /** Each entry of the table is what eight shifts make of its index. */
  lemma TableIsDivision(k: bv8)
    ensures Crcs(k) == Shift8(Wide(k))
  {
    hide Crcs, Shift8, Wide;
    if
    case k >> 5 == 0 => Eighth0(k);
    case k >> 5 == 1 => Eighth1(k);
    case k >> 5 == 2 => Eighth2(k);
    case k >> 5 == 3 => Eighth3(k);
    case k >> 5 == 4 => Eighth4(k);
    case k >> 5 == 5 => Eighth5(k);
    case k >> 5 == 6 => Eighth6(k);
    case k >> 5 == 7 => Eighth7(k);
  }

  lemma XorHalf(a: bv32, b: bv32)
    ensures Half(Xor(a, b)) == Xor(Half(a), Half(b)) && (Odd(Xor(a, b)) <==> Odd(a) != Odd(b))
  {
  }

  lemma XorCommutes(x: bv32, y: bv32)
    ensures Xor(x, y) == Xor(y, x)
  {
  }

  lemma XorAssociates(x: bv32, y: bv32, z: bv32)
    ensures Xor(Xor(x, y), z) == Xor(x, Xor(y, z))
  {
  }

  lemma XorRegroup(x: bv32, y: bv32, p: bv32)
    ensures Xor(Xor(x, y), p) == Xor(Xor(x, p), y) == Xor(x, Xor(y, p)) && Xor(Xor(x, p), Xor(y, p)) == Xor(x, y)
  {
    hide Xor;
    XorAssociates(x, y, p);
    XorCommutes(y, p);
    XorAssociates(x, p, y);
    XorAssociates(Xor(x, p), p, y);
    XorTwice(x, p);
  }

  lemma XorTwice(x: bv32, y: bv32)
    ensures Xor(Xor(x, y), y) == x && Xor(x, 0) == x
  {
  }

  lemma ShiftLinear(a: bv32, b: bv32)
    ensures Shift(Xor(a, b)) == Xor(Shift(a), Shift(b))
  {
    hide Xor, Half, Odd;
    XorHalf(a, b);
    XorRegroup(Half(a), Half(b), POLYNOMIAL);
  }

  lemma Shift8Linear(a: bv32, b: bv32)
    ensures Shift8(Xor(a, b)) == Xor(Shift8(a), Shift8(b))
  {
    hide Xor, Shift;
    var a1, b1 := Shift(a), Shift(b);
    var a2, b2 := Shift(a1), Shift(b1);
    var a3, b3 := Shift(a2), Shift(b2);
    var a4, b4 := Shift(a3), Shift(b3);
    var a5, b5 := Shift(a4), Shift(b4);
    var a6, b6 := Shift(a5), Shift(b5);
    ShiftLinear(a, b);
    ShiftLinear(a1, b1);
    ShiftLinear(a2, b2);
    ShiftLinear(a3, b3);
    ShiftLinear(a4, b4);
    ShiftLinear(a5, b5);
    ShiftLinear(a6, b6);
    ShiftLinear(Shift(a6), Shift(b6));
  }

  /** The register without its low byte. */
  function High(c: bv32): bv32 { c & 0xFFFFFF00 }

  lemma ShiftEven(c: bv32)
    requires !Odd(c)
    ensures Shift(c) == Half(c)
  {
  }

  lemma HighAndLow(c: bv32)
    ensures c == Xor(High(c), Wide(LowByte(c)))
  {
    assert c == (c & 0xFFFFFF00) ^ (c & 0xFF);
  }

  lemma HighBits(c: bv32)
    ensures var h := c & 0xFFFFFF00;
      var h1 := h >> 1; var h2 := h1 >> 1; var h3 := h2 >> 1; var h4 := h3 >> 1;
      var h5 := h4 >> 1; var h6 := h5 >> 1; var h7 := h6 >> 1;
      h & 1 != 1 && h1 & 1 != 1 && h2 & 1 != 1 && h3 & 1 != 1 && h4 & 1 != 1 && h5 & 1 != 1 && h6 & 1 != 1 &&
        h7 & 1 != 1 &&
      h7 >> 1 == (c >> 8) & 0x00FFFFFF
  {
  }

  lemma HighEven(c: bv32)
    ensures var h := High(c);
      var h1 := Half(h); var h2 := Half(h1); var h3 := Half(h2); var h4 := Half(h3);
      var h5 := Half(h4); var h6 := Half(h5); var h7 := Half(h6);
      !Odd(h) && !Odd(h1) && !Odd(h2) && !Odd(h3) && !Odd(h4) && !Odd(h5) && !Odd(h6) && !Odd(h7) && Half(h7) == Down(c)
  {
    HighBits(c);
  }

  lemma Shift8High(c: bv32)
    ensures Shift8(High(c)) == Down(c)
  {
    HighEven(c);
    hide Shift, Half, Odd, High, Down;
    var h := High(c);
    var h1 := Half(h);
    var h2 := Half(h1);
    var h3 := Half(h2);
    var h4 := Half(h3);
    var h5 := Half(h4);
    var h6 := Half(h5);
    ShiftEven(h);
    ShiftEven(h1);
    ShiftEven(h2);
    ShiftEven(h3);
    ShiftEven(h4);
    ShiftEven(h5);
    ShiftEven(h6);
    ShiftEven(Half(h6));
  }

  /** Eight shifts act on the low byte alone, and move the rest down. */
  lemma Shift8Splits(c: bv32)
    ensures Shift8(c) == Xor(Down(c), Shift8(Wide(LowByte(c))))
  {
    hide Shift8, Xor, High, Down, Wide, LowByte;
    HighAndLow(c);
    Shift8High(c);
    Shift8Linear(High(c), Wide(LowByte(c)));
  }

  // ----- A byte by table, and bit by bit -----

  /** One byte by table. */
  function TableStep(c: bv32, b: bv8): bv32 { Xor(Down(c), Crcs(LowByte(Xor(c, Wide(b))))) }

  lemma DownMixed(c: bv32, b: bv8)
    ensures Down(Xor(c, Wide(b))) == Down(c)
  {
  }

  lemma TableStepShifts(c: bv32, b: bv8)
    ensures TableStep(c, b) == Shift8(Xor(c, Wide(b)))
  {
    hide Crcs, Shift8, Xor, Down, Wide, LowByte;
    DownMixed(c, b);
    TableIsDivision(LowByte(Xor(c, Wide(b))));
    Shift8Splits(Xor(c, Wide(b)));
  }

  /** Mixing `d` into the register and shifting is dividing by the low bit of `d`, with
      the rest of `d` still mixed in. */
  lemma ShiftMixed(c: bv32, d: bv32)
    ensures Shift(Xor(c, d)) == Xor(BitStep(c, Odd(d)), Half(d))
  {
    hide Xor, Half, Odd;
    XorHalf(c, d);
    XorRegroup(Half(c), Half(d), POLYNOMIAL);
  }

  lemma ByteBits(b: bv8)
    ensures var d := Wide(b);
      var d1 := Half(d); var d2 := Half(d1); var d3 := Half(d2); var d4 := Half(d3);
      var d5 := Half(d4); var d6 := Half(d5); var d7 := Half(d6);
      (Odd(d) <==> b & 0x01 != 0) && (Odd(d1) <==> b & 0x02 != 0) && (Odd(d2) <==> b & 0x04 != 0) &&
        (Odd(d3) <==> b & 0x08 != 0) &&
      (Odd(d4) <==> b & 0x10 != 0) && (Odd(d5) <==> b & 0x20 != 0) && (Odd(d6) <==> b & 0x40 != 0) &&
        (Odd(d7) <==> b & 0x80 != 0) &&
      Half(d7) == 0
  {
  }

  lemma DivideStep(c: bv32, bit: bool, bits: seq<bool>)
    ensures Divide(c, [bit] + bits) == Divide(BitStep(c, bit), bits)
  {
    hide BitStep;
    assert ([bit] + bits)[1..] == bits;
  }

  /** Four bits, two at a time. */
  lemma DivideFour(c: bv32, b0: bool, b1: bool, b2: bool, b3: bool, rest: seq<bool>)
    ensures Divide(c, Push(b0, b1, b2, b3, rest)) ==
            Divide(BitStep(BitStep(BitStep(BitStep(c, b0), b1), b2), b3), rest)
  {
    hide BitStep, Divide;
    var c1 := BitStep(c, b0);
    var c2 := BitStep(c1, b1);
    DivideStep(c, b0, [b1] + ([b2] + ([b3] + rest)));
    DivideStep(c1, b1, [b2] + ([b3] + rest));
    DivideStep(c2, b2, [b3] + rest);
    DivideStep(BitStep(c2, b2), b3, rest);
  }

  /** Four shifts of a mixture. */
  lemma MixedFour(c: bv32, d: bv32)
    ensures var d1 := Half(d); var d2 := Half(d1); var d3 := Half(d2);
      var c4 := BitStep(BitStep(BitStep(BitStep(c, Odd(d)), Odd(d1)), Odd(d2)), Odd(d3));
      Shift(Shift(Shift(Shift(Xor(c, d))))) == Xor(c4, Half(d3))
  {
    hide Xor, Half, Odd, Shift, BitStep;
    var d1 := Half(d);
    var d2 := Half(d1);
    var c1 := BitStep(c, Odd(d));
    var c2 := BitStep(c1, Odd(d1));
    ShiftMixed(c, d);
    ShiftMixed(c1, d1);
    ShiftMixed(c2, d2);
    ShiftMixed(BitStep(c2, Odd(d2)), Half(d2));
  }

  /** One byte by table is its eight bits divided. */
  lemma TableStepDivides(c: bv32, data: seq<bv8>)
    requires data != []
    ensures Divide(c, Bits(data)) == Divide(TableStep(c, data[0]), Bits(data[1..]))
  {
    var b := data[0];
    TableStepShifts(c, b);
    ByteBits(b);
    hide Xor, Half, Odd, Shift, BitStep, Divide, Wide, TableStep, Push;
    var d := Wide(b);
    var d1 := Half(d);
    var d2 := Half(d1);
    var d3 := Half(d2);
    var e := Half(d3);
    var e1 := Half(e);
    var e2 := Half(e1);
    var e3 := Half(e2);
    var rest := Bits(data[1..]);
    var c4 := BitStep(BitStep(BitStep(BitStep(c, Odd(d)), Odd(d1)), Odd(d2)), Odd(d3));
    var c8 := BitStep(BitStep(BitStep(BitStep(c4, Odd(e)), Odd(e1)), Odd(e2)), Odd(e3));
    DivideFour(c, Odd(d), Odd(d1), Odd(d2), Odd(d3), Push(Odd(e), Odd(e1), Odd(e2), Odd(e3), rest));
    DivideFour(c4, Odd(e), Odd(e1), Odd(e2), Odd(e3), rest);
    MixedFour(c, d);
    MixedFour(c4, e);
    XorTwice(c8, 0);
    assert Shift8(Xor(c, d)) == Xor(c8, Half(e3));
  }

  // ----- Whole messages -----

  lemma {:induction false} BitsConcat(a: seq<bv8>, b: seq<bv8>)
    ensures Bits(a + b) == Bits(a) + Bits(b)
  {
    hide Push;
    if a == [] {
      assert a + b == b;
    } else {
      assert (a + b)[1..] == a[1..] + b;
      BitsConcat(a[1..], b);
      PushConcat(a[0] & 0x10 != 0, a[0] & 0x20 != 0, a[0] & 0x40 != 0, a[0] & 0x80 != 0, Bits(a[1..]), Bits(b));
      PushConcat(a[0] & 0x01 != 0, a[0] & 0x02 != 0, a[0] & 0x04 != 0, a[0] & 0x08 != 0,
                 Push(a[0] & 0x10 != 0, a[0] & 0x20 != 0, a[0] & 0x40 != 0, a[0] & 0x80 != 0, Bits(a[1..])), Bits(b));
    }
  }

  lemma PushConcat(b0: bool, b1: bool, b2: bool, b3: bool, rest: seq<bool>, more: seq<bool>)
    ensures Push(b0, b1, b2, b3, rest + more) == Push(b0, b1, b2, b3, rest) + more
  {
  }

  lemma {:induction false} DivideConcat(c: bv32, a: seq<bool>, b: seq<bool>)
    ensures Divide(c, a + b) == Divide(Divide(c, a), b)
    decreases |a|
  {
    hide BitStep;
    if a == [] {
      assert a + b == b;
    } else {
      assert (a + b)[1..] == a[1..] + b;
      DivideConcat(BitStep(c, a[0]), a[1..], b);
    }
  }

  lemma NotTwice(c: bv32)
    ensures Not(Not(c)) == c
  {
  }

  /** Continuing from the checksum of `a` over `b` gives the checksum of both. */
  lemma ChecksumContinues(crc: bv32, a: seq<bv8>, b: seq<bv8>)
    ensures Checksum(Checksum(crc, a), b) == Checksum(crc, a + b)
  {
    hide Divide, Bits, Not;
    NotTwice(Divide(Not(crc), Bits(a)));
    BitsConcat(a, b);
    DivideConcat(Not(crc), Bits(a), Bits(b));
  }

  // ----- The loops -----

  /** The table loop over `n` bytes of a buffer. */
  method UpdateTable(tmpcrc0: bv32, buf: array<bv8>, n: nat) returns (tmpcrc: bv32)
    requires n <= buf.Length
    ensures tmpcrc == Divide(tmpcrc0, Bits(buf[..n]))
  {
    hide TableStep, Divide, Bits;
    tmpcrc := tmpcrc0;
    var j := 0;
    assert buf[0..n] == buf[..n];
    while j < n
      invariant 0 <= j <= n && Divide(tmpcrc, Bits(buf[j..n])) == Divide(tmpcrc0, Bits(buf[..n]))
    {
      TableStepDivides(tmpcrc, buf[j..n]);
      assert buf[j..n][1..] == buf[j + 1..n];
      tmpcrc := TableStep(tmpcrc, buf[j]);
      j := j + 1;
    }
    NoBits(tmpcrc, buf[n..n]);
  }

  lemma NoBits(c: bv32, data: seq<bv8>)
    requires data == []
    ensures Divide(c, Bits(data)) == c
  {
  }

  /** calc_crc32_buffer. */
  method BufferChecksum(buffer: array<bv8>, crc: bv32, length: nat) returns (r: bv32)
    requires length <= buffer.Length
    ensures r == Checksum(crc, buffer[..length])
  {
    hide Not;
    var tmpcrc := UpdateTable(Not(crc), buffer, length);
    r := Not(tmpcrc);
  }

  /** The block size of the C library. */
  const BUFSIZ: nat := 8192

  /** The part of a file that calc_crc32 is asked for. */
  function Selected(file: seq<bv8>, startpos: nat, length: nat): seq<bv8> {
    var lo := if startpos < |file| then startpos else |file|;
    file[lo..if length < |file| - lo then lo + length else |file|]
  }

  /** fread: as much of `len` as there is from `pos` on. */
  method Read(file: seq<bv8>, pos: nat, buf: array<bv8>, len: nat) returns (i: nat)
    requires len <= buf.Length
    modifies buf
    ensures i <= len && i == |Selected(file, pos, len)| && buf[..i] == Selected(file, pos, len)
  {
    i := if pos >= |file| then 0 else if len < |file| - pos then len else |file| - pos;
    var k := 0;
    while k < i
      invariant 0 <= k <= i && forall m :: 0 <= m < k ==> buf[m] == file[pos + m]
    {
      buf[k] := file[pos + k];
      k := k + 1;
    }
  }

  /** calc_crc32: the loop over blocks is one pass over the selected part of the file. */
  method FileChecksum(file: seq<bv8>, crc: bv32, startpos: nat, length: nat) returns (r: bv32)
    ensures r == Checksum(crc, Selected(file, startpos, length))
  {
    hide Divide, Bits, Not, Selected;
    var tmpcrc, pos, left := Not(crc), startpos, length;
    var len := if left < BUFSIZ then left else BUFSIZ;
    var buf := new bv8[BUFSIZ];
    ghost var total := Divide(Not(crc), Bits(Selected(file, startpos, length)));
    while true
      invariant 0 <= len <= BUFSIZ && len == (if left < BUFSIZ then left else BUFSIZ)
      invariant Divide(tmpcrc, Bits(Selected(file, pos, left))) == total
      decreases left
    {
      var i := Read(file, pos, buf, len);
      SelectedSplits(file, pos, left, len);
      if i == 0 {
        NoBits(tmpcrc, Selected(file, pos, left));
        break;
      }
      ghost var first, rest := Selected(file, pos, len), Selected(file, pos + i, left - i);
      BitsConcat(first, rest);
      DivideConcat(tmpcrc, Bits(first), Bits(rest));
      left := left - i;
      tmpcrc := UpdateTable(tmpcrc, buf, i);
      pos := pos + i;
      len := if left < BUFSIZ then left else BUFSIZ;
      if len <= 0 {
        SelectedNothing(file, pos);
        NoBits(tmpcrc, Selected(file, pos, left));
        break;
      }
    }
    r := Not(tmpcrc);
  }

  lemma SelectedNothing(file: seq<bv8>, pos: nat)
    ensures Selected(file, pos, 0) == []
  {
  }

  lemma SelectedSplits(file: seq<bv8>, pos: nat, left: nat, len: nat)
    requires len <= left && (left > 0 ==> len > 0)
    ensures var i := |Selected(file, pos, len)|;
      Selected(file, pos, left) == Selected(file, pos, len) + Selected(file, pos + i, left - i) &&
      (i == 0 ==> Selected(file, pos, left) == [])
  {
  }

  // ----- What the checksum is -----

  /** A register as four bytes, low byte first. */
  function Bytes(x: bv32): seq<bv8> {
    [LowByte(x), LowByte(Down(x)), LowByte(Down(Down(x))), LowByte(Down(Down(Down(x))))]
  }

  lemma MixedBytes(c: bv32, x: bv32)
    ensures LowByte(Xor(c, Wide(LowByte(x)))) == LowByte(Xor(c, x)) && Down(Xor(c, x)) == Xor(Down(c), Down(x))
  {
  }

  /** Dividing the low byte of what was mixed in leaves the rest mixed in. */
  lemma Fed(c: bv32, x: bv32)
    ensures Xor(TableStep(c, LowByte(x)), Down(x)) == Shift8(Xor(c, x))
  {
    MixedBytes(c, x);
    hide Crcs, Shift8, Xor, Down, Wide, LowByte;
    var t := Crcs(LowByte(Xor(c, x)));
    TableIsDivision(LowByte(Xor(c, x)));
    Shift8Splits(Xor(c, x));
    XorRegroup(Down(c), t, Down(x));
  }

  lemma FourDown(x: bv32)
    ensures Down(Down(Down(Down(x)))) == 0
  {
  }

  lemma NotMixed(x: bv32)
    ensures Xor(x, Not(x)) == 0xFFFFFFFF
  {
  }

  lemma FourBytes(c: bv32, x: bv32)
    ensures Divide(c, Bits(Bytes(x))) == Shift8(Shift8(Shift8(Shift8(Xor(c, x)))))
  {
    hide Shift8, Xor, Down, LowByte, TableStep, Divide, Bits;
    var b := Bytes(x);
    var x1 := Down(x);
    var x2 := Down(x1);
    var x3 := Down(x2);
    var c1 := TableStep(c, LowByte(x));
    var c2 := TableStep(c1, LowByte(x1));
    var c3 := TableStep(c2, LowByte(x2));
    var c4 := TableStep(c3, LowByte(x3));
    TableStepDivides(c, b);
    TableStepDivides(c1, b[1..]);
    TableStepDivides(c2, b[1..][1..]);
    TableStepDivides(c3, b[1..][1..][1..]);
    NoBits(c4, b[1..][1..][1..][1..]);
    Fed(c, x);
    Fed(c1, x1);
    Fed(c2, x2);
    Fed(c3, x3);
    FourDown(x);
    XorTwice(c4, 0);
  }

  lemma AllOnes()
    ensures Shift8(Shift8(Shift8(Shift8(0xFFFFFFFF)))) == 0xDEBB20E3
  {
    assert Shift8(0xFFFFFFFF) == 0x2DFD1072;
    assert Shift8(0x2DFD1072) == 0xBE26ED00;
    assert Shift8(0xBE26ED00) == 0x00BE26ED;
  }

  /** A message with its own checksum after it, low byte first, always has the same
      checksum. */
  lemma Residue(data: seq<bv8>)
    ensures Checksum(0, data + Bytes(Checksum(0, data))) == 0x2144DF1C
  {
    hide Divide, Bits, Bytes, Shift8, Xor;
    var r := Divide(Not(0), Bits(data));
    BitsConcat(data, Bytes(Not(r)));
    DivideConcat(Not(0), Bits(data), Bits(Bytes(Not(r))));
    FourBytes(r, Not(r));
    NotMixed(r);
    AllOnes();
  }
}
