/** CRC-32 by table, against division by the reflected polynomial one bit at a time. */
module Crc {

  type Message = seq<bv8>

  // ----- bit-serial division, section 8 of RFC 1952 -----

  function Shift(x: bv32): bv32 {
    if x & 1 == 1 then (x >> 1) ^ 0xEDB88320 else x >> 1
  }

  function Shift8(x: bv32): bv32 {
    Shift(Shift(Shift(Shift(Shift(Shift(Shift(Shift(x))))))))
  }

  /** The register after the bytes of `data`, started at `crc`. */
  function Divide(crc: bv32, data: Message): bv32
    decreases |data|
  {
    if data == [] then crc else Divide(Shift8(crc ^ (data[0] as bv32)), data[1..])
  }

  // ----- `crc_table`, eight entries to a row -----

  function Row0(low: bv32): bv32 {
    if low == 0 then 0x00000000 else if low == 1 then 0x77073096 else if low == 2 then 0xEE0E612C else if low == 3 then 0x990951BA
    else if low == 4 then 0x076DC419 else if low == 5 then 0x706AF48F else if low == 6 then 0xE963A535 else 0x9E6495A3
  }

  function Row1(low: bv32): bv32 {
    if low == 0 then 0x0EDB8832 else if low == 1 then 0x79DCB8A4 else if low == 2 then 0xE0D5E91E else if low == 3 then 0x97D2D988
    else if low == 4 then 0x09B64C2B else if low == 5 then 0x7EB17CBD else if low == 6 then 0xE7B82D07 else 0x90BF1D91
  }

  function Row2(low: bv32): bv32 {
    if low == 0 then 0x1DB71064 else if low == 1 then 0x6AB020F2 else if low == 2 then 0xF3B97148 else if low == 3 then 0x84BE41DE
    else if low == 4 then 0x1ADAD47D else if low == 5 then 0x6DDDE4EB else if low == 6 then 0xF4D4B551 else 0x83D385C7
  }

  function Row3(low: bv32): bv32 {
    if low == 0 then 0x136C9856 else if low == 1 then 0x646BA8C0 else if low == 2 then 0xFD62F97A else if low == 3 then 0x8A65C9EC
    else if low == 4 then 0x14015C4F else if low == 5 then 0x63066CD9 else if low == 6 then 0xFA0F3D63 else 0x8D080DF5
  }

  function Row4(low: bv32): bv32 {
    if low == 0 then 0x3B6E20C8 else if low == 1 then 0x4C69105E else if low == 2 then 0xD56041E4 else if low == 3 then 0xA2677172
    else if low == 4 then 0x3C03E4D1 else if low == 5 then 0x4B04D447 else if low == 6 then 0xD20D85FD else 0xA50AB56B
  }

  function Row5(low: bv32): bv32 {
    if low == 0 then 0x35B5A8FA else if low == 1 then 0x42B2986C else if low == 2 then 0xDBBBC9D6 else if low == 3 then 0xACBCF940
    else if low == 4 then 0x32D86CE3 else if low == 5 then 0x45DF5C75 else if low == 6 then 0xDCD60DCF else 0xABD13D59
  }

  function Row6(low: bv32): bv32 {
    if low == 0 then 0x26D930AC else if low == 1 then 0x51DE003A else if low == 2 then 0xC8D75180 else if low == 3 then 0xBFD06116
    else if low == 4 then 0x21B4F4B5 else if low == 5 then 0x56B3C423 else if low == 6 then 0xCFBA9599 else 0xB8BDA50F
  }

  function Row7(low: bv32): bv32 {
    if low == 0 then 0x2802B89E else if low == 1 then 0x5F058808 else if low == 2 then 0xC60CD9B2 else if low == 3 then 0xB10BE924
    else if low == 4 then 0x2F6F7C87 else if low == 5 then 0x58684C11 else if low == 6 then 0xC1611DAB else 0xB6662D3D
  }

  function Row8(low: bv32): bv32 {
    if low == 0 then 0x76DC4190 else if low == 1 then 0x01DB7106 else if low == 2 then 0x98D220BC else if low == 3 then 0xEFD5102A
    else if low == 4 then 0x71B18589 else if low == 5 then 0x06B6B51F else if low == 6 then 0x9FBFE4A5 else 0xE8B8D433
  }

  function Row9(low: bv32): bv32 {
    if low == 0 then 0x7807C9A2 else if low == 1 then 0x0F00F934 else if low == 2 then 0x9609A88E else if low == 3 then 0xE10E9818
    else if low == 4 then 0x7F6A0DBB else if low == 5 then 0x086D3D2D else if low == 6 then 0x91646C97 else 0xE6635C01
  }

  function Row10(low: bv32): bv32 {
    if low == 0 then 0x6B6B51F4 else if low == 1 then 0x1C6C6162 else if low == 2 then 0x856530D8 else if low == 3 then 0xF262004E
    else if low == 4 then 0x6C0695ED else if low == 5 then 0x1B01A57B else if low == 6 then 0x8208F4C1 else 0xF50FC457
  }

  function Row11(low: bv32): bv32 {
    if low == 0 then 0x65B0D9C6 else if low == 1 then 0x12B7E950 else if low == 2 then 0x8BBEB8EA else if low == 3 then 0xFCB9887C
    else if low == 4 then 0x62DD1DDF else if low == 5 then 0x15DA2D49 else if low == 6 then 0x8CD37CF3 else 0xFBD44C65
  }

  function Row12(low: bv32): bv32 {
    if low == 0 then 0x4DB26158 else if low == 1 then 0x3AB551CE else if low == 2 then 0xA3BC0074 else if low == 3 then 0xD4BB30E2
    else if low == 4 then 0x4ADFA541 else if low == 5 then 0x3DD895D7 else if low == 6 then 0xA4D1C46D else 0xD3D6F4FB
  }

  function Row13(low: bv32): bv32 {
    if low == 0 then 0x4369E96A else if low == 1 then 0x346ED9FC else if low == 2 then 0xAD678846 else if low == 3 then 0xDA60B8D0
    else if low == 4 then 0x44042D73 else if low == 5 then 0x33031DE5 else if low == 6 then 0xAA0A4C5F else 0xDD0D7CC9
  }

  function Row14(low: bv32): bv32 {
    if low == 0 then 0x5005713C else if low == 1 then 0x270241AA else if low == 2 then 0xBE0B1010 else if low == 3 then 0xC90C2086
    else if low == 4 then 0x5768B525 else if low == 5 then 0x206F85B3 else if low == 6 then 0xB966D409 else 0xCE61E49F
  }

  function Row15(low: bv32): bv32 {
    if low == 0 then 0x5EDEF90E else if low == 1 then 0x29D9C998 else if low == 2 then 0xB0D09822 else if low == 3 then 0xC7D7A8B4
    else if low == 4 then 0x59B33D17 else if low == 5 then 0x2EB40D81 else if low == 6 then 0xB7BD5C3B else 0xC0BA6CAD
  }

  function Row16(low: bv32): bv32 {
    if low == 0 then 0xEDB88320 else if low == 1 then 0x9ABFB3B6 else if low == 2 then 0x03B6E20C else if low == 3 then 0x74B1D29A
    else if low == 4 then 0xEAD54739 else if low == 5 then 0x9DD277AF else if low == 6 then 0x04DB2615 else 0x73DC1683
  }

  function Row17(low: bv32): bv32 {
    if low == 0 then 0xE3630B12 else if low == 1 then 0x94643B84 else if low == 2 then 0x0D6D6A3E else if low == 3 then 0x7A6A5AA8
    else if low == 4 then 0xE40ECF0B else if low == 5 then 0x9309FF9D else if low == 6 then 0x0A00AE27 else 0x7D079EB1
  }

  function Row18(low: bv32): bv32 {
    if low == 0 then 0xF00F9344 else if low == 1 then 0x8708A3D2 else if low == 2 then 0x1E01F268 else if low == 3 then 0x6906C2FE
    else if low == 4 then 0xF762575D else if low == 5 then 0x806567CB else if low == 6 then 0x196C3671 else 0x6E6B06E7
  }

  function Row19(low: bv32): bv32 {
    if low == 0 then 0xFED41B76 else if low == 1 then 0x89D32BE0 else if low == 2 then 0x10DA7A5A else if low == 3 then 0x67DD4ACC
    else if low == 4 then 0xF9B9DF6F else if low == 5 then 0x8EBEEFF9 else if low == 6 then 0x17B7BE43 else 0x60B08ED5
  }

  function Row20(low: bv32): bv32 {
    if low == 0 then 0xD6D6A3E8 else if low == 1 then 0xA1D1937E else if low == 2 then 0x38D8C2C4 else if low == 3 then 0x4FDFF252
    else if low == 4 then 0xD1BB67F1 else if low == 5 then 0xA6BC5767 else if low == 6 then 0x3FB506DD else 0x48B2364B
  }

  function Row21(low: bv32): bv32 {
    if low == 0 then 0xD80D2BDA else if low == 1 then 0xAF0A1B4C else if low == 2 then 0x36034AF6 else if low == 3 then 0x41047A60
    else if low == 4 then 0xDF60EFC3 else if low == 5 then 0xA867DF55 else if low == 6 then 0x316E8EEF else 0x4669BE79
  }

  function Row22(low: bv32): bv32 {
    if low == 0 then 0xCB61B38C else if low == 1 then 0xBC66831A else if low == 2 then 0x256FD2A0 else if low == 3 then 0x5268E236
    else if low == 4 then 0xCC0C7795 else if low == 5 then 0xBB0B4703 else if low == 6 then 0x220216B9 else 0x5505262F
  }

  function Row23(low: bv32): bv32 {
    if low == 0 then 0xC5BA3BBE else if low == 1 then 0xB2BD0B28 else if low == 2 then 0x2BB45A92 else if low == 3 then 0x5CB36A04
    else if low == 4 then 0xC2D7FFA7 else if low == 5 then 0xB5D0CF31 else if low == 6 then 0x2CD99E8B else 0x5BDEAE1D
  }

  function Row24(low: bv32): bv32 {
    if low == 0 then 0x9B64C2B0 else if low == 1 then 0xEC63F226 else if low == 2 then 0x756AA39C else if low == 3 then 0x026D930A
    else if low == 4 then 0x9C0906A9 else if low == 5 then 0xEB0E363F else if low == 6 then 0x72076785 else 0x05005713
  }

  function Row25(low: bv32): bv32 {
    if low == 0 then 0x95BF4A82 else if low == 1 then 0xE2B87A14 else if low == 2 then 0x7BB12BAE else if low == 3 then 0x0CB61B38
    else if low == 4 then 0x92D28E9B else if low == 5 then 0xE5D5BE0D else if low == 6 then 0x7CDCEFB7 else 0x0BDBDF21
  }

  function Row26(low: bv32): bv32 {
    if low == 0 then 0x86D3D2D4 else if low == 1 then 0xF1D4E242 else if low == 2 then 0x68DDB3F8 else if low == 3 then 0x1FDA836E
    else if low == 4 then 0x81BE16CD else if low == 5 then 0xF6B9265B else if low == 6 then 0x6FB077E1 else 0x18B74777
  }

  function Row27(low: bv32): bv32 {
    if low == 0 then 0x88085AE6 else if low == 1 then 0xFF0F6A70 else if low == 2 then 0x66063BCA else if low == 3 then 0x11010B5C
    else if low == 4 then 0x8F659EFF else if low == 5 then 0xF862AE69 else if low == 6 then 0x616BFFD3 else 0x166CCF45
  }

  function Row28(low: bv32): bv32 {
    if low == 0 then 0xA00AE278 else if low == 1 then 0xD70DD2EE else if low == 2 then 0x4E048354 else if low == 3 then 0x3903B3C2
    else if low == 4 then 0xA7672661 else if low == 5 then 0xD06016F7 else if low == 6 then 0x4969474D else 0x3E6E77DB
  }

  function Row29(low: bv32): bv32 {
    if low == 0 then 0xAED16A4A else if low == 1 then 0xD9D65ADC else if low == 2 then 0x40DF0B66 else if low == 3 then 0x37D83BF0
    else if low == 4 then 0xA9BCAE53 else if low == 5 then 0xDEBB9EC5 else if low == 6 then 0x47B2CF7F else 0x30B5FFE9
  }

  function Row30(low: bv32): bv32 {
    if low == 0 then 0xBDBDF21C else if low == 1 then 0xCABAC28A else if low == 2 then 0x53B39330 else if low == 3 then 0x24B4A3A6
    else if low == 4 then 0xBAD03605 else if low == 5 then 0xCDD70693 else if low == 6 then 0x54DE5729 else 0x23D967BF
  }

  function Row31(low: bv32): bv32 {
    if low == 0 then 0xB3667A2E else if low == 1 then 0xC4614AB8 else if low == 2 then 0x5D681B02 else if low == 3 then 0x2A6F2B94
    else if low == 4 then 0xB40BBE37 else if low == 5 then 0xC30C8EA1 else if low == 6 then 0x5A05DF1B else 0x2D02EF8D
  }

  function Lower(high: bv32, low: bv32): bv32 {
    if high == 0 then Row0(low)
    else if high == 1 then Row1(low)
    else if high == 2 then Row2(low)
    else if high == 3 then Row3(low)
    else if high == 4 then Row4(low)
    else if high == 5 then Row5(low)
    else if high == 6 then Row6(low)
    else if high == 7 then Row7(low)
    else if high == 8 then Row8(low)
    else if high == 9 then Row9(low)
    else if high == 10 then Row10(low)
    else if high == 11 then Row11(low)
    else if high == 12 then Row12(low)
    else if high == 13 then Row13(low)
    else if high == 14 then Row14(low)
    else Row15(low)
  }

  function Upper(high: bv32, low: bv32): bv32 {
    if high == 16 then Row16(low)
    else if high == 17 then Row17(low)
    else if high == 18 then Row18(low)
    else if high == 19 then Row19(low)
    else if high == 20 then Row20(low)
    else if high == 21 then Row21(low)
    else if high == 22 then Row22(low)
    else if high == 23 then Row23(low)
    else if high == 24 then Row24(low)
    else if high == 25 then Row25(low)
    else if high == 26 then Row26(low)
    else if high == 27 then Row27(low)
    else if high == 28 then Row28(low)
    else if high == 29 then Row29(low)
    else if high == 30 then Row30(low)
    else Row31(low)
  }

  function Entry(i: bv32): bv32 {
    var low, high := i & 7, i >> 3;
    if high < 16 then Lower(high, low) else Upper(high, low)
  }

  lemma Row0Exact(low: bv32)
    requires low < 8
    ensures Row0(low) == Shift8(0x0 | low)
  {
  }

  lemma Row1Exact(low: bv32)
    requires low < 8
    ensures Row1(low) == Shift8(0x8 | low)
  {
  }

  lemma Row2Exact(low: bv32)
    requires low < 8
    ensures Row2(low) == Shift8(0x10 | low)
  {
  }

  lemma Row3Exact(low: bv32)
    requires low < 8
    ensures Row3(low) == Shift8(0x18 | low)
  {
  }

  lemma Row4Exact(low: bv32)
    requires low < 8
    ensures Row4(low) == Shift8(0x20 | low)
  {
  }

  lemma Row5Exact(low: bv32)
    requires low < 8
    ensures Row5(low) == Shift8(0x28 | low)
  {
  }

  lemma Row6Exact(low: bv32)
    requires low < 8
    ensures Row6(low) == Shift8(0x30 | low)
  {
  }

  lemma Row7Exact(low: bv32)
    requires low < 8
    ensures Row7(low) == Shift8(0x38 | low)
  {
  }

  lemma Row8Exact(low: bv32)
    requires low < 8
    ensures Row8(low) == Shift8(0x40 | low)
  {
  }

  lemma Row9Exact(low: bv32)
    requires low < 8
    ensures Row9(low) == Shift8(0x48 | low)
  {
  }

  lemma Row10Exact(low: bv32)
    requires low < 8
    ensures Row10(low) == Shift8(0x50 | low)
  {
  }

  lemma Row11Exact(low: bv32)
    requires low < 8
    ensures Row11(low) == Shift8(0x58 | low)
  {
  }

  lemma Row12Exact(low: bv32)
    requires low < 8
    ensures Row12(low) == Shift8(0x60 | low)
  {
  }

  lemma Row13Exact(low: bv32)
    requires low < 8
    ensures Row13(low) == Shift8(0x68 | low)
  {
  }

  lemma Row14Exact(low: bv32)
    requires low < 8
    ensures Row14(low) == Shift8(0x70 | low)
  {
  }

  lemma Row15Exact(low: bv32)
    requires low < 8
    ensures Row15(low) == Shift8(0x78 | low)
  {
  }

  lemma Row16Exact(low: bv32)
    requires low < 8
    ensures Row16(low) == Shift8(0x80 | low)
  {
  }

  lemma Row17Exact(low: bv32)
    requires low < 8
    ensures Row17(low) == Shift8(0x88 | low)
  {
  }

  lemma Row18Exact(low: bv32)
    requires low < 8
    ensures Row18(low) == Shift8(0x90 | low)
  {
  }

  lemma Row19Exact(low: bv32)
    requires low < 8
    ensures Row19(low) == Shift8(0x98 | low)
  {
  }

  lemma Row20Exact(low: bv32)
    requires low < 8
    ensures Row20(low) == Shift8(0xa0 | low)
  {
  }

  lemma Row21Exact(low: bv32)
    requires low < 8
    ensures Row21(low) == Shift8(0xa8 | low)
  {
  }

  lemma Row22Exact(low: bv32)
    requires low < 8
    ensures Row22(low) == Shift8(0xb0 | low)
  {
  }

  lemma Row23Exact(low: bv32)
    requires low < 8
    ensures Row23(low) == Shift8(0xb8 | low)
  {
  }

  lemma Row24Exact(low: bv32)
    requires low < 8
    ensures Row24(low) == Shift8(0xc0 | low)
  {
  }

  lemma Row25Exact(low: bv32)
    requires low < 8
    ensures Row25(low) == Shift8(0xc8 | low)
  {
  }

  lemma Row26Exact(low: bv32)
    requires low < 8
    ensures Row26(low) == Shift8(0xd0 | low)
  {
  }

  lemma Row27Exact(low: bv32)
    requires low < 8
    ensures Row27(low) == Shift8(0xd8 | low)
  {
  }

  lemma Row28Exact(low: bv32)
    requires low < 8
    ensures Row28(low) == Shift8(0xe0 | low)
  {
  }

  lemma Row29Exact(low: bv32)
    requires low < 8
    ensures Row29(low) == Shift8(0xe8 | low)
  {
  }

  lemma Row30Exact(low: bv32)
    requires low < 8
    ensures Row30(low) == Shift8(0xf0 | low)
  {
  }

  lemma Row31Exact(low: bv32)
    requires low < 8
    ensures Row31(low) == Shift8(0xf8 | low)
  {
  }

  lemma IndexParts(i: bv32)
    requires i < 256
    ensures i & 7 < 8 && i >> 3 < 32 && i == ((i >> 3) << 3) | (i & 7)
  {
  }

  lemma LowerExact(high: bv32, low: bv32)
    requires low < 8 && high < 16
    ensures Lower(high, low) == Shift8((high << 3) | low)
  {
    hide Shift8, Row0, Row1, Row2, Row3, Row4, Row5, Row6, Row7, Row8, Row9, Row10, Row11, Row12, Row13, Row14, Row15;
    if high == 0 { Row0Exact(low); }
    else if high == 1 { Row1Exact(low); }
    else if high == 2 { Row2Exact(low); }
    else if high == 3 { Row3Exact(low); }
    else if high == 4 { Row4Exact(low); }
    else if high == 5 { Row5Exact(low); }
    else if high == 6 { Row6Exact(low); }
    else if high == 7 { Row7Exact(low); }
    else if high == 8 { Row8Exact(low); }
    else if high == 9 { Row9Exact(low); }
    else if high == 10 { Row10Exact(low); }
    else if high == 11 { Row11Exact(low); }
    else if high == 12 { Row12Exact(low); }
    else if high == 13 { Row13Exact(low); }
    else if high == 14 { Row14Exact(low); }
    else { Row15Exact(low); }
  }

  lemma UpperExact(high: bv32, low: bv32)
    requires low < 8 && 16 <= high < 32
    ensures Upper(high, low) == Shift8((high << 3) | low)
  {
    hide Shift8, Row16, Row17, Row18, Row19, Row20, Row21, Row22, Row23, Row24, Row25, Row26, Row27, Row28, Row29, Row30, Row31;
    if high == 16 { Row16Exact(low); }
    else if high == 17 { Row17Exact(low); }
    else if high == 18 { Row18Exact(low); }
    else if high == 19 { Row19Exact(low); }
    else if high == 20 { Row20Exact(low); }
    else if high == 21 { Row21Exact(low); }
    else if high == 22 { Row22Exact(low); }
    else if high == 23 { Row23Exact(low); }
    else if high == 24 { Row24Exact(low); }
    else if high == 25 { Row25Exact(low); }
    else if high == 26 { Row26Exact(low); }
    else if high == 27 { Row27Exact(low); }
    else if high == 28 { Row28Exact(low); }
    else if high == 29 { Row29Exact(low); }
    else if high == 30 { Row30Exact(low); }
    else { Row31Exact(low); }
  }

  /** Every entry is eight bit-serial steps on its index. */
  lemma EntryExact(i: bv32)
    requires i < 256
    ensures Entry(i) == Shift8(i)
  {
    hide Shift8, Lower, Upper;
    IndexParts(i);
    if i >> 3 < 16 {
      LowerExact(i >> 3, i & 7);
    } else {
      UpperExact(i >> 3, i & 7);
    }
  }

  // ----- eight steps at once -----

  function Shifts(x: bv32, n: nat): bv32
    decreases n
  {
    if n == 0 then x else Shifts(Shift(x), n - 1)
  }

  function Halves(h: bv32, n: nat): bv32
    decreases n
  {
    if n == 0 then h else Halves(h >> 1, n - 1)
  }

  predicate ClearLow(h: bv32, n: nat)
    decreases n
  {
    n == 0 || (h & 1 == 0 && ClearLow(h >> 1, n - 1))
  }

  /** `x` is `y` with the bits of `h` flipped. */
  predicate Differ(x: bv32, y: bv32, h: bv32) {
    x == y ^ h
  }

  // The parts of one step, each of which keeps or halves a difference.
  predicate Odd(x: bv32) { x & 1 == 1 }
  function Half(x: bv32): bv32 { x >> 1 }
  function Flip(x: bv32): bv32 { x ^ 0xEDB88320 }

  lemma ShiftParts(x: bv32)
    ensures Shift(x) == if Odd(x) then Flip(Half(x)) else Half(x)
  {
  }

  lemma OddKept(x: bv32, y: bv32, h: bv32)
    requires Differ(x, y, h) && h & 1 == 0
    ensures Odd(x) <==> Odd(y)
  {
  }

  lemma HalfKept(x: bv32, y: bv32, h: bv32)
    requires Differ(x, y, h)
    ensures Differ(Half(x), Half(y), h >> 1)
  {
  }

  lemma FlipKept(x: bv32, y: bv32, h: bv32)
    requires Differ(x, y, h)
    ensures Differ(Flip(x), Flip(y), h)
  {
  }

  lemma ShiftKeepsDiffer(x: bv32, y: bv32, h: bv32)
    requires Differ(x, y, h) && h & 1 == 0
    ensures Differ(Shift(x), Shift(y), h >> 1)
  {
    hide Differ, Shift, Odd, Half, Flip;
    ShiftParts(x);
    ShiftParts(y);
    OddKept(x, y, h);
    HalfKept(x, y, h);
    FlipKept(Half(x), Half(y), h >> 1);
  }

  /** A difference above the bits that are shifted out moves down unchanged. */
  lemma {:induction false} ShiftsKeepDiffer(x: bv32, y: bv32, h: bv32, n: nat)
    requires Differ(x, y, h) && ClearLow(h, n)
    ensures Differ(Shifts(x, n), Shifts(y, n), Halves(h, n))
    decreases n
  {
    hide Differ, Shift;
    if n > 0 {
      ShiftKeepsDiffer(x, y, h);
      ShiftsKeepDiffer(Shift(x), Shift(y), h >> 1, n - 1);
    }
  }

  lemma Shift8IsShifts(x: bv32)
    ensures Shift8(x) == Shifts(x, 8)
  {
    hide Shift;
    var x4 := Shift(Shift(Shift(Shift(x))));
    assert Shifts(x4, 4) == Shifts(Shift(Shift(x4)), 2);
    assert Shifts(x, 8) == Shifts(Shift(Shift(x)), 6) == Shifts(x4, 4);
  }

  lemma HighBytes(h: bv32)
    requires h & 0xff == 0
    ensures ClearLow(h, 8) && Halves(h, 8) == h >> 8
  {
    HalvesTwice(h);
    HalvesTwice(h >> 4);
    assert (h >> 4) >> 4 == h >> 8;
    assert Halves(h, 8) == Halves(h >> 4, 4) by {
      assert Halves(h, 8) == Halves((h >> 1) >> 1, 6) == Halves((((h >> 1) >> 1) >> 1) >> 1, 4);
    }
    assert ClearLow(h >> 4, 4);
    assert ClearLow(((h >> 1) >> 1) >> 1, 5);
    assert ClearLow((h >> 1) >> 1, 6);
    assert ClearLow(h >> 1, 7);
  }

  lemma HalvesTwice(h: bv32)
    ensures (((h >> 1) >> 1) >> 1) >> 1 == h >> 4
    ensures Halves(h, 4) == h >> 4
    ensures h & 15 == 0 ==> ClearLow(h, 4)
  {
    assert Halves((h >> 1) >> 1, 2) == (((h >> 1) >> 1) >> 1) >> 1;
    assert h & 15 == 0 ==> ClearLow((h >> 1) >> 1, 2);
  }

  /** Only the low byte passes through the polynomial in eight steps; the rest moves down. */
  lemma Shift8Splits(x: bv32)
    ensures Differ(Shift8(x), Shift8(x & 0xff), x >> 8)
  {
    hide Shift8, Shifts, Halves, ClearLow, Shift;
    var y, h := x & 0xff, x & 0xffffff00;
    TopOf(x);
    HighBytes(h);
    ShiftsKeepDiffer(x, y, h, 8);
    Shift8IsShifts(x);
    Shift8IsShifts(y);
  }

  lemma TopOf(x: bv32)
    ensures Differ(x, x & 0xff, x & 0xffffff00)
    ensures (x & 0xffffff00) & 0xff == 0 && (x & 0xffffff00) >> 8 == x >> 8
  {
  }

  /** `crc32`: the table-driven loop computes the division, started at all ones, without the final complement. */
  method Crc32(buffer: Message) returns (crc: bv32)
    ensures crc == Divide(0xffffffff, buffer)
  {
    hide Entry, Shift8;
    crc := 0xffffffff;
    var i := 0;
    while i < |buffer|
      invariant 0 <= i <= |buffer|
      invariant Divide(crc, buffer[i..]) == Divide(0xffffffff, buffer)
    {
      var b := buffer[i] as bv32;
      TableStep(crc, b);
      assert buffer[i..][1..] == buffer[i + 1..];
      crc := Entry((crc ^ b) & 0xff) ^ (crc >> 8);
      i := i + 1;
    }
  }

  lemma TableStep(crc: bv32, b: bv32)
    requires b < 256
    ensures Entry((crc ^ b) & 0xff) ^ (crc >> 8) == Shift8(crc ^ b)
  {
    var x, low := crc ^ b, (crc ^ b) & 0xff;
    LowByte(crc, b);
    assert Differ(Shift8(x), Entry(low), crc >> 8) by {
      hide Entry, Shift8, Differ;
      EntryExact(low);
      Shift8Splits(x);
    }
    DifferMeans(Shift8(x), Entry(low), crc >> 8);
  }

  lemma DifferMeans(x: bv32, y: bv32, h: bv32)
    requires Differ(x, y, h)
    ensures y ^ h == x
  {
  }

  lemma LowByte(crc: bv32, b: bv32)
    requires b < 256
    ensures (crc ^ b) & 0xff < 256 && (crc ^ b) >> 8 == crc >> 8
  {
  }

  /** The division can be stopped and resumed anywhere. */
  lemma {:induction false} DivideInParts(crc: bv32, a: Message, b: Message)
    ensures Divide(crc, a + b) == Divide(Divide(crc, a), b)
    decreases |a|
  {
    hide Shift8;
    if a == [] {
      assert a + b == b;
    } else {
      DivideInParts(Shift8(crc ^ (a[0] as bv32)), a[1..], b);
      assert (a + b)[1..] == a[1..] + b;
    }
  }
}
