// The CRC-32 of `encryption::CRC32`: the reflected, table-driven CRC with
// polynomial 0xEDB88320 (ISO/IEC 3309, ITU-T V.42; the reference algorithm
// is the one of section 8 of RFC 1952), over the first `length` bytes.
module Crc32 {
  /** The reflected generator polynomial. */
  const Polynomial: bv32 := 0xEDB88320

  // `mapping_table`, as the source spells it out, in rows of 16 entries.
  const Row0: seq<bv32> := [
    0x00000000, 0x77073096, 0xEE0E612C, 0x990951BA, 0x076DC419, 0x706AF48F, 0xE963A535, 0x9E6495A3,
    0x0EDB8832, 0x79DCB8A4, 0xE0D5E91E, 0x97D2D988, 0x09B64C2B, 0x7EB17CBD, 0xE7B82D07, 0x90BF1D91
  ]
  const Row1: seq<bv32> := [
    0x1DB71064, 0x6AB020F2, 0xF3B97148, 0x84BE41DE, 0x1ADAD47D, 0x6DDDE4EB, 0xF4D4B551, 0x83D385C7,
    0x136C9856, 0x646BA8C0, 0xFD62F97A, 0x8A65C9EC, 0x14015C4F, 0x63066CD9, 0xFA0F3D63, 0x8D080DF5
  ]
  const Row2: seq<bv32> := [
    0x3B6E20C8, 0x4C69105E, 0xD56041E4, 0xA2677172, 0x3C03E4D1, 0x4B04D447, 0xD20D85FD, 0xA50AB56B,
    0x35B5A8FA, 0x42B2986C, 0xDBBBC9D6, 0xACBCF940, 0x32D86CE3, 0x45DF5C75, 0xDCD60DCF, 0xABD13D59
  ]
  const Row3: seq<bv32> := [
    0x26D930AC, 0x51DE003A, 0xC8D75180, 0xBFD06116, 0x21B4F4B5, 0x56B3C423, 0xCFBA9599, 0xB8BDA50F,
    0x2802B89E, 0x5F058808, 0xC60CD9B2, 0xB10BE924, 0x2F6F7C87, 0x58684C11, 0xC1611DAB, 0xB6662D3D
  ]
  const Row4: seq<bv32> := [
    0x76DC4190, 0x01DB7106, 0x98D220BC, 0xEFD5102A, 0x71B18589, 0x06B6B51F, 0x9FBFE4A5, 0xE8B8D433,
    0x7807C9A2, 0x0F00F934, 0x9609A88E, 0xE10E9818, 0x7F6A0DBB, 0x086D3D2D, 0x91646C97, 0xE6635C01
  ]
  const Row5: seq<bv32> := [
    0x6B6B51F4, 0x1C6C6162, 0x856530D8, 0xF262004E, 0x6C0695ED, 0x1B01A57B, 0x8208F4C1, 0xF50FC457,
    0x65B0D9C6, 0x12B7E950, 0x8BBEB8EA, 0xFCB9887C, 0x62DD1DDF, 0x15DA2D49, 0x8CD37CF3, 0xFBD44C65
  ]
  const Row6: seq<bv32> := [
    0x4DB26158, 0x3AB551CE, 0xA3BC0074, 0xD4BB30E2, 0x4ADFA541, 0x3DD895D7, 0xA4D1C46D, 0xD3D6F4FB,
    0x4369E96A, 0x346ED9FC, 0xAD678846, 0xDA60B8D0, 0x44042D73, 0x33031DE5, 0xAA0A4C5F, 0xDD0D7CC9
  ]
  const Row7: seq<bv32> := [
    0x5005713C, 0x270241AA, 0xBE0B1010, 0xC90C2086, 0x5768B525, 0x206F85B3, 0xB966D409, 0xCE61E49F,
    0x5EDEF90E, 0x29D9C998, 0xB0D09822, 0xC7D7A8B4, 0x59B33D17, 0x2EB40D81, 0xB7BD5C3B, 0xC0BA6CAD
  ]
  const Row8: seq<bv32> := [
    0xEDB88320, 0x9ABFB3B6, 0x03B6E20C, 0x74B1D29A, 0xEAD54739, 0x9DD277AF, 0x04DB2615, 0x73DC1683,
    0xE3630B12, 0x94643B84, 0x0D6D6A3E, 0x7A6A5AA8, 0xE40ECF0B, 0x9309FF9D, 0x0A00AE27, 0x7D079EB1
  ]
  const Row9: seq<bv32> := [
    0xF00F9344, 0x8708A3D2, 0x1E01F268, 0x6906C2FE, 0xF762575D, 0x806567CB, 0x196C3671, 0x6E6B06E7,
    0xFED41B76, 0x89D32BE0, 0x10DA7A5A, 0x67DD4ACC, 0xF9B9DF6F, 0x8EBEEFF9, 0x17B7BE43, 0x60B08ED5
  ]
  const Row10: seq<bv32> := [
    0xD6D6A3E8, 0xA1D1937E, 0x38D8C2C4, 0x4FDFF252, 0xD1BB67F1, 0xA6BC5767, 0x3FB506DD, 0x48B2364B,
    0xD80D2BDA, 0xAF0A1B4C, 0x36034AF6, 0x41047A60, 0xDF60EFC3, 0xA867DF55, 0x316E8EEF, 0x4669BE79
  ]
  const Row11: seq<bv32> := [
    0xCB61B38C, 0xBC66831A, 0x256FD2A0, 0x5268E236, 0xCC0C7795, 0xBB0B4703, 0x220216B9, 0x5505262F,
    0xC5BA3BBE, 0xB2BD0B28, 0x2BB45A92, 0x5CB36A04, 0xC2D7FFA7, 0xB5D0CF31, 0x2CD99E8B, 0x5BDEAE1D
  ]
  const Row12: seq<bv32> := [
    0x9B64C2B0, 0xEC63F226, 0x756AA39C, 0x026D930A, 0x9C0906A9, 0xEB0E363F, 0x72076785, 0x05005713,
    0x95BF4A82, 0xE2B87A14, 0x7BB12BAE, 0x0CB61B38, 0x92D28E9B, 0xE5D5BE0D, 0x7CDCEFB7, 0x0BDBDF21
  ]
  const Row13: seq<bv32> := [
    0x86D3D2D4, 0xF1D4E242, 0x68DDB3F8, 0x1FDA836E, 0x81BE16CD, 0xF6B9265B, 0x6FB077E1, 0x18B74777,
    0x88085AE6, 0xFF0F6A70, 0x66063BCA, 0x11010B5C, 0x8F659EFF, 0xF862AE69, 0x616BFFD3, 0x166CCF45
  ]
  const Row14: seq<bv32> := [
    0xA00AE278, 0xD70DD2EE, 0x4E048354, 0x3903B3C2, 0xA7672661, 0xD06016F7, 0x4969474D, 0x3E6E77DB,
    0xAED16A4A, 0xD9D65ADC, 0x40DF0B66, 0x37D83BF0, 0xA9BCAE53, 0xDEBB9EC5, 0x47B2CF7F, 0x30B5FFE9
  ]
  const Row15: seq<bv32> := [
    0xBDBDF21C, 0xCABAC28A, 0x53B39330, 0x24B4A3A6, 0xBAD03605, 0xCDD70693, 0x54DE5729, 0x23D967BF,
    0xB3667A2E, 0xC4614AB8, 0x5D681B02, 0x2A6F2B94, 0xB40BBE37, 0xC30C8EA1, 0x5A05DF1B, 0x2D02EF8D
  ]

  /** `mapping_table[i]`: the entry of the literal table at index i. */
  function Entry(i: bv8): bv32
  {
    var n := i as int;
    if n < 16 then Row0[n - 0]
    else if n < 32 then Row1[n - 16]
    else if n < 48 then Row2[n - 32]
    else if n < 64 then Row3[n - 48]
    else if n < 80 then Row4[n - 64]
    else if n < 96 then Row5[n - 80]
    else if n < 112 then Row6[n - 96]
    else if n < 128 then Row7[n - 112]
    else if n < 144 then Row8[n - 128]
    else if n < 160 then Row9[n - 144]
    else if n < 176 then Row10[n - 160]
    else if n < 192 then Row11[n - 176]
    else if n < 208 then Row12[n - 192]
    else if n < 224 then Row13[n - 208]
    else if n < 240 then Row14[n - 224]
    else Row15[n - 240]
  }

  /**
   * The table entry for byte n by the bit-at-a-time algorithm of the
   * standard: eight times, shift right and xor the polynomial when the bit
   * shifted out is 1 (`Polynomial & (0 - (c & 1))` is the polynomial or 0).
   */
  function ByteSteps(n: bv32): bv32
  {
    var c1 := (n >> 1) ^ (Polynomial & (0 - (n & 1)));
    var c2 := (c1 >> 1) ^ (Polynomial & (0 - (c1 & 1)));
    var c3 := (c2 >> 1) ^ (Polynomial & (0 - (c2 & 1)));
    var c4 := (c3 >> 1) ^ (Polynomial & (0 - (c3 & 1)));
    var c5 := (c4 >> 1) ^ (Polynomial & (0 - (c4 & 1)));
    var c6 := (c5 >> 1) ^ (Polynomial & (0 - (c5 & 1)));
    var c7 := (c6 >> 1) ^ (Polynomial & (0 - (c6 & 1)));
    (c7 >> 1) ^ (Polynomial & (0 - (c7 & 1)))
  }

  lemma Row0Generated(v: bv8)
    requires 0 <= v < 16
    ensures Row0[v as int - 0] == ByteSteps(v as bv32)
  {
    if v == 0 { assert Row0[0] == ByteSteps(0); }
    else if v == 1 { assert Row0[1] == ByteSteps(1); }
    else if v == 2 { assert Row0[2] == ByteSteps(2); }
    else if v == 3 { assert Row0[3] == ByteSteps(3); }
    else if v == 4 { assert Row0[4] == ByteSteps(4); }
    else if v == 5 { assert Row0[5] == ByteSteps(5); }
    else if v == 6 { assert Row0[6] == ByteSteps(6); }
    else if v == 7 { assert Row0[7] == ByteSteps(7); }
    else if v == 8 { assert Row0[8] == ByteSteps(8); }
    else if v == 9 { assert Row0[9] == ByteSteps(9); }
    else if v == 10 { assert Row0[10] == ByteSteps(10); }
    else if v == 11 { assert Row0[11] == ByteSteps(11); }
    else if v == 12 { assert Row0[12] == ByteSteps(12); }
    else if v == 13 { assert Row0[13] == ByteSteps(13); }
    else if v == 14 { assert Row0[14] == ByteSteps(14); }
    else if v == 15 { assert Row0[15] == ByteSteps(15); }
  }

  lemma Row1Generated(v: bv8)
    requires 16 <= v < 32
    ensures Row1[v as int - 16] == ByteSteps(v as bv32)
  {
    if v == 16 { assert Row1[0] == ByteSteps(16); }
    else if v == 17 { assert Row1[1] == ByteSteps(17); }
    else if v == 18 { assert Row1[2] == ByteSteps(18); }
    else if v == 19 { assert Row1[3] == ByteSteps(19); }
    else if v == 20 { assert Row1[4] == ByteSteps(20); }
    else if v == 21 { assert Row1[5] == ByteSteps(21); }
    else if v == 22 { assert Row1[6] == ByteSteps(22); }
    else if v == 23 { assert Row1[7] == ByteSteps(23); }
    else if v == 24 { assert Row1[8] == ByteSteps(24); }
    else if v == 25 { assert Row1[9] == ByteSteps(25); }
    else if v == 26 { assert Row1[10] == ByteSteps(26); }
    else if v == 27 { assert Row1[11] == ByteSteps(27); }
    else if v == 28 { assert Row1[12] == ByteSteps(28); }
    else if v == 29 { assert Row1[13] == ByteSteps(29); }
    else if v == 30 { assert Row1[14] == ByteSteps(30); }
    else if v == 31 { assert Row1[15] == ByteSteps(31); }
  }

  lemma Row2Generated(v: bv8)
    requires 32 <= v < 48
    ensures Row2[v as int - 32] == ByteSteps(v as bv32)
  {
    if v == 32 { assert Row2[0] == ByteSteps(32); }
    else if v == 33 { assert Row2[1] == ByteSteps(33); }
    else if v == 34 { assert Row2[2] == ByteSteps(34); }
    else if v == 35 { assert Row2[3] == ByteSteps(35); }
    else if v == 36 { assert Row2[4] == ByteSteps(36); }
    else if v == 37 { assert Row2[5] == ByteSteps(37); }
    else if v == 38 { assert Row2[6] == ByteSteps(38); }
    else if v == 39 { assert Row2[7] == ByteSteps(39); }
    else if v == 40 { assert Row2[8] == ByteSteps(40); }
    else if v == 41 { assert Row2[9] == ByteSteps(41); }
    else if v == 42 { assert Row2[10] == ByteSteps(42); }
    else if v == 43 { assert Row2[11] == ByteSteps(43); }
    else if v == 44 { assert Row2[12] == ByteSteps(44); }
    else if v == 45 { assert Row2[13] == ByteSteps(45); }
    else if v == 46 { assert Row2[14] == ByteSteps(46); }
    else if v == 47 { assert Row2[15] == ByteSteps(47); }
  }

  lemma Row3Generated(v: bv8)
    requires 48 <= v < 64
    ensures Row3[v as int - 48] == ByteSteps(v as bv32)
  {
    if v == 48 { assert Row3[0] == ByteSteps(48); }
    else if v == 49 { assert Row3[1] == ByteSteps(49); }
    else if v == 50 { assert Row3[2] == ByteSteps(50); }
    else if v == 51 { assert Row3[3] == ByteSteps(51); }
    else if v == 52 { assert Row3[4] == ByteSteps(52); }
    else if v == 53 { assert Row3[5] == ByteSteps(53); }
    else if v == 54 { assert Row3[6] == ByteSteps(54); }
    else if v == 55 { assert Row3[7] == ByteSteps(55); }
    else if v == 56 { assert Row3[8] == ByteSteps(56); }
    else if v == 57 { assert Row3[9] == ByteSteps(57); }
    else if v == 58 { assert Row3[10] == ByteSteps(58); }
    else if v == 59 { assert Row3[11] == ByteSteps(59); }
    else if v == 60 { assert Row3[12] == ByteSteps(60); }
    else if v == 61 { assert Row3[13] == ByteSteps(61); }
    else if v == 62 { assert Row3[14] == ByteSteps(62); }
    else if v == 63 { assert Row3[15] == ByteSteps(63); }
  }

  lemma Row4Generated(v: bv8)
    requires 64 <= v < 80
    ensures Row4[v as int - 64] == ByteSteps(v as bv32)
  {
    if v == 64 { assert Row4[0] == ByteSteps(64); }
    else if v == 65 { assert Row4[1] == ByteSteps(65); }
    else if v == 66 { assert Row4[2] == ByteSteps(66); }
    else if v == 67 { assert Row4[3] == ByteSteps(67); }
    else if v == 68 { assert Row4[4] == ByteSteps(68); }
    else if v == 69 { assert Row4[5] == ByteSteps(69); }
    else if v == 70 { assert Row4[6] == ByteSteps(70); }
    else if v == 71 { assert Row4[7] == ByteSteps(71); }
    else if v == 72 { assert Row4[8] == ByteSteps(72); }
    else if v == 73 { assert Row4[9] == ByteSteps(73); }
    else if v == 74 { assert Row4[10] == ByteSteps(74); }
    else if v == 75 { assert Row4[11] == ByteSteps(75); }
    else if v == 76 { assert Row4[12] == ByteSteps(76); }
    else if v == 77 { assert Row4[13] == ByteSteps(77); }
    else if v == 78 { assert Row4[14] == ByteSteps(78); }
    else if v == 79 { assert Row4[15] == ByteSteps(79); }
  }

  lemma Row5Generated(v: bv8)
    requires 80 <= v < 96
    ensures Row5[v as int - 80] == ByteSteps(v as bv32)
  {
    if v == 80 { assert Row5[0] == ByteSteps(80); }
    else if v == 81 { assert Row5[1] == ByteSteps(81); }
    else if v == 82 { assert Row5[2] == ByteSteps(82); }
    else if v == 83 { assert Row5[3] == ByteSteps(83); }
    else if v == 84 { assert Row5[4] == ByteSteps(84); }
    else if v == 85 { assert Row5[5] == ByteSteps(85); }
    else if v == 86 { assert Row5[6] == ByteSteps(86); }
    else if v == 87 { assert Row5[7] == ByteSteps(87); }
    else if v == 88 { assert Row5[8] == ByteSteps(88); }
    else if v == 89 { assert Row5[9] == ByteSteps(89); }
    else if v == 90 { assert Row5[10] == ByteSteps(90); }
    else if v == 91 { assert Row5[11] == ByteSteps(91); }
    else if v == 92 { assert Row5[12] == ByteSteps(92); }
    else if v == 93 { assert Row5[13] == ByteSteps(93); }
    else if v == 94 { assert Row5[14] == ByteSteps(94); }
    else if v == 95 { assert Row5[15] == ByteSteps(95); }
  }

  lemma Row6Generated(v: bv8)
    requires 96 <= v < 112
    ensures Row6[v as int - 96] == ByteSteps(v as bv32)
  {
    if v == 96 { assert Row6[0] == ByteSteps(96); }
    else if v == 97 { assert Row6[1] == ByteSteps(97); }
    else if v == 98 { assert Row6[2] == ByteSteps(98); }
    else if v == 99 { assert Row6[3] == ByteSteps(99); }
    else if v == 100 { assert Row6[4] == ByteSteps(100); }
    else if v == 101 { assert Row6[5] == ByteSteps(101); }
    else if v == 102 { assert Row6[6] == ByteSteps(102); }
    else if v == 103 { assert Row6[7] == ByteSteps(103); }
    else if v == 104 { assert Row6[8] == ByteSteps(104); }
    else if v == 105 { assert Row6[9] == ByteSteps(105); }
    else if v == 106 { assert Row6[10] == ByteSteps(106); }
    else if v == 107 { assert Row6[11] == ByteSteps(107); }
    else if v == 108 { assert Row6[12] == ByteSteps(108); }
    else if v == 109 { assert Row6[13] == ByteSteps(109); }
    else if v == 110 { assert Row6[14] == ByteSteps(110); }
    else if v == 111 { assert Row6[15] == ByteSteps(111); }
  }

  lemma Row7Generated(v: bv8)
    requires 112 <= v < 128
    ensures Row7[v as int - 112] == ByteSteps(v as bv32)
  {
    if v == 112 { assert Row7[0] == ByteSteps(112); }
    else if v == 113 { assert Row7[1] == ByteSteps(113); }
    else if v == 114 { assert Row7[2] == ByteSteps(114); }
    else if v == 115 { assert Row7[3] == ByteSteps(115); }
    else if v == 116 { assert Row7[4] == ByteSteps(116); }
    else if v == 117 { assert Row7[5] == ByteSteps(117); }
    else if v == 118 { assert Row7[6] == ByteSteps(118); }
    else if v == 119 { assert Row7[7] == ByteSteps(119); }
    else if v == 120 { assert Row7[8] == ByteSteps(120); }
    else if v == 121 { assert Row7[9] == ByteSteps(121); }
    else if v == 122 { assert Row7[10] == ByteSteps(122); }
    else if v == 123 { assert Row7[11] == ByteSteps(123); }
    else if v == 124 { assert Row7[12] == ByteSteps(124); }
    else if v == 125 { assert Row7[13] == ByteSteps(125); }
    else if v == 126 { assert Row7[14] == ByteSteps(126); }
    else if v == 127 { assert Row7[15] == ByteSteps(127); }
  }

  lemma Row8Generated(v: bv8)
    requires 128 <= v < 144
    ensures Row8[v as int - 128] == ByteSteps(v as bv32)
  {
    if v == 128 { assert Row8[0] == ByteSteps(128); }
    else if v == 129 { assert Row8[1] == ByteSteps(129); }
    else if v == 130 { assert Row8[2] == ByteSteps(130); }
    else if v == 131 { assert Row8[3] == ByteSteps(131); }
    else if v == 132 { assert Row8[4] == ByteSteps(132); }
    else if v == 133 { assert Row8[5] == ByteSteps(133); }
    else if v == 134 { assert Row8[6] == ByteSteps(134); }
    else if v == 135 { assert Row8[7] == ByteSteps(135); }
    else if v == 136 { assert Row8[8] == ByteSteps(136); }
    else if v == 137 { assert Row8[9] == ByteSteps(137); }
    else if v == 138 { assert Row8[10] == ByteSteps(138); }
    else if v == 139 { assert Row8[11] == ByteSteps(139); }
    else if v == 140 { assert Row8[12] == ByteSteps(140); }
    else if v == 141 { assert Row8[13] == ByteSteps(141); }
    else if v == 142 { assert Row8[14] == ByteSteps(142); }
    else if v == 143 { assert Row8[15] == ByteSteps(143); }
  }

  lemma Row9Generated(v: bv8)
    requires 144 <= v < 160
    ensures Row9[v as int - 144] == ByteSteps(v as bv32)
  {
    if v == 144 { assert Row9[0] == ByteSteps(144); }
    else if v == 145 { assert Row9[1] == ByteSteps(145); }
    else if v == 146 { assert Row9[2] == ByteSteps(146); }
    else if v == 147 { assert Row9[3] == ByteSteps(147); }
    else if v == 148 { assert Row9[4] == ByteSteps(148); }
    else if v == 149 { assert Row9[5] == ByteSteps(149); }
    else if v == 150 { assert Row9[6] == ByteSteps(150); }
    else if v == 151 { assert Row9[7] == ByteSteps(151); }
    else if v == 152 { assert Row9[8] == ByteSteps(152); }
    else if v == 153 { assert Row9[9] == ByteSteps(153); }
    else if v == 154 { assert Row9[10] == ByteSteps(154); }
    else if v == 155 { assert Row9[11] == ByteSteps(155); }
    else if v == 156 { assert Row9[12] == ByteSteps(156); }
    else if v == 157 { assert Row9[13] == ByteSteps(157); }
    else if v == 158 { assert Row9[14] == ByteSteps(158); }
    else if v == 159 { assert Row9[15] == ByteSteps(159); }
  }

  lemma Row10Generated(v: bv8)
    requires 160 <= v < 176
    ensures Row10[v as int - 160] == ByteSteps(v as bv32)
  {
    if v == 160 { assert Row10[0] == ByteSteps(160); }
    else if v == 161 { assert Row10[1] == ByteSteps(161); }
    else if v == 162 { assert Row10[2] == ByteSteps(162); }
    else if v == 163 { assert Row10[3] == ByteSteps(163); }
    else if v == 164 { assert Row10[4] == ByteSteps(164); }
    else if v == 165 { assert Row10[5] == ByteSteps(165); }
    else if v == 166 { assert Row10[6] == ByteSteps(166); }
    else if v == 167 { assert Row10[7] == ByteSteps(167); }
    else if v == 168 { assert Row10[8] == ByteSteps(168); }
    else if v == 169 { assert Row10[9] == ByteSteps(169); }
    else if v == 170 { assert Row10[10] == ByteSteps(170); }
    else if v == 171 { assert Row10[11] == ByteSteps(171); }
    else if v == 172 { assert Row10[12] == ByteSteps(172); }
    else if v == 173 { assert Row10[13] == ByteSteps(173); }
    else if v == 174 { assert Row10[14] == ByteSteps(174); }
    else if v == 175 { assert Row10[15] == ByteSteps(175); }
  }

  lemma Row11Generated(v: bv8)
    requires 176 <= v < 192
    ensures Row11[v as int - 176] == ByteSteps(v as bv32)
  {
    if v == 176 { assert Row11[0] == ByteSteps(176); }
    else if v == 177 { assert Row11[1] == ByteSteps(177); }
    else if v == 178 { assert Row11[2] == ByteSteps(178); }
    else if v == 179 { assert Row11[3] == ByteSteps(179); }
    else if v == 180 { assert Row11[4] == ByteSteps(180); }
    else if v == 181 { assert Row11[5] == ByteSteps(181); }
    else if v == 182 { assert Row11[6] == ByteSteps(182); }
    else if v == 183 { assert Row11[7] == ByteSteps(183); }
    else if v == 184 { assert Row11[8] == ByteSteps(184); }
    else if v == 185 { assert Row11[9] == ByteSteps(185); }
    else if v == 186 { assert Row11[10] == ByteSteps(186); }
    else if v == 187 { assert Row11[11] == ByteSteps(187); }
    else if v == 188 { assert Row11[12] == ByteSteps(188); }
    else if v == 189 { assert Row11[13] == ByteSteps(189); }
    else if v == 190 { assert Row11[14] == ByteSteps(190); }
    else if v == 191 { assert Row11[15] == ByteSteps(191); }
  }

  lemma Row12Generated(v: bv8)
    requires 192 <= v < 208
    ensures Row12[v as int - 192] == ByteSteps(v as bv32)
  {
    if v == 192 { assert Row12[0] == ByteSteps(192); }
    else if v == 193 { assert Row12[1] == ByteSteps(193); }
    else if v == 194 { assert Row12[2] == ByteSteps(194); }
    else if v == 195 { assert Row12[3] == ByteSteps(195); }
    else if v == 196 { assert Row12[4] == ByteSteps(196); }
    else if v == 197 { assert Row12[5] == ByteSteps(197); }
    else if v == 198 { assert Row12[6] == ByteSteps(198); }
    else if v == 199 { assert Row12[7] == ByteSteps(199); }
    else if v == 200 { assert Row12[8] == ByteSteps(200); }
    else if v == 201 { assert Row12[9] == ByteSteps(201); }
    else if v == 202 { assert Row12[10] == ByteSteps(202); }
    else if v == 203 { assert Row12[11] == ByteSteps(203); }
    else if v == 204 { assert Row12[12] == ByteSteps(204); }
    else if v == 205 { assert Row12[13] == ByteSteps(205); }
    else if v == 206 { assert Row12[14] == ByteSteps(206); }
    else if v == 207 { assert Row12[15] == ByteSteps(207); }
  }

  lemma Row13Generated(v: bv8)
    requires 208 <= v < 224
    ensures Row13[v as int - 208] == ByteSteps(v as bv32)
  {
    if v == 208 { assert Row13[0] == ByteSteps(208); }
    else if v == 209 { assert Row13[1] == ByteSteps(209); }
    else if v == 210 { assert Row13[2] == ByteSteps(210); }
    else if v == 211 { assert Row13[3] == ByteSteps(211); }
    else if v == 212 { assert Row13[4] == ByteSteps(212); }
    else if v == 213 { assert Row13[5] == ByteSteps(213); }
    else if v == 214 { assert Row13[6] == ByteSteps(214); }
    else if v == 215 { assert Row13[7] == ByteSteps(215); }
    else if v == 216 { assert Row13[8] == ByteSteps(216); }
    else if v == 217 { assert Row13[9] == ByteSteps(217); }
    else if v == 218 { assert Row13[10] == ByteSteps(218); }
    else if v == 219 { assert Row13[11] == ByteSteps(219); }
    else if v == 220 { assert Row13[12] == ByteSteps(220); }
    else if v == 221 { assert Row13[13] == ByteSteps(221); }
    else if v == 222 { assert Row13[14] == ByteSteps(222); }
    else if v == 223 { assert Row13[15] == ByteSteps(223); }
  }

  lemma Row14Generated(v: bv8)
    requires 224 <= v < 240
    ensures Row14[v as int - 224] == ByteSteps(v as bv32)
  {
    if v == 224 { assert Row14[0] == ByteSteps(224); }
    else if v == 225 { assert Row14[1] == ByteSteps(225); }
    else if v == 226 { assert Row14[2] == ByteSteps(226); }
    else if v == 227 { assert Row14[3] == ByteSteps(227); }
    else if v == 228 { assert Row14[4] == ByteSteps(228); }
    else if v == 229 { assert Row14[5] == ByteSteps(229); }
    else if v == 230 { assert Row14[6] == ByteSteps(230); }
    else if v == 231 { assert Row14[7] == ByteSteps(231); }
    else if v == 232 { assert Row14[8] == ByteSteps(232); }
    else if v == 233 { assert Row14[9] == ByteSteps(233); }
    else if v == 234 { assert Row14[10] == ByteSteps(234); }
    else if v == 235 { assert Row14[11] == ByteSteps(235); }
    else if v == 236 { assert Row14[12] == ByteSteps(236); }
    else if v == 237 { assert Row14[13] == ByteSteps(237); }
    else if v == 238 { assert Row14[14] == ByteSteps(238); }
    else if v == 239 { assert Row14[15] == ByteSteps(239); }
  }

  lemma Row15Generated(v: bv8)
    requires 240 <= v
    ensures Row15[v as int - 240] == ByteSteps(v as bv32)
  {
    if v == 240 { assert Row15[0] == ByteSteps(240); }
    else if v == 241 { assert Row15[1] == ByteSteps(241); }
    else if v == 242 { assert Row15[2] == ByteSteps(242); }
    else if v == 243 { assert Row15[3] == ByteSteps(243); }
    else if v == 244 { assert Row15[4] == ByteSteps(244); }
    else if v == 245 { assert Row15[5] == ByteSteps(245); }
    else if v == 246 { assert Row15[6] == ByteSteps(246); }
    else if v == 247 { assert Row15[7] == ByteSteps(247); }
    else if v == 248 { assert Row15[8] == ByteSteps(248); }
    else if v == 249 { assert Row15[9] == ByteSteps(249); }
    else if v == 250 { assert Row15[10] == ByteSteps(250); }
    else if v == 251 { assert Row15[11] == ByteSteps(251); }
    else if v == 252 { assert Row15[12] == ByteSteps(252); }
    else if v == 253 { assert Row15[13] == ByteSteps(253); }
    else if v == 254 { assert Row15[14] == ByteSteps(254); }
    else if v == 255 { assert Row15[15] == ByteSteps(255); }
  }

  /** Every entry of the literal table is the one the polynomial generates. */
  lemma EntryGenerated(v: bv8)
    ensures Entry(v) == ByteSteps(v as bv32)
  {
    if v < 16 {
      Row0Generated(v);
    }
    else if v < 32 {
      Row1Generated(v);
    }
    else if v < 48 {
      Row2Generated(v);
    }
    else if v < 64 {
      Row3Generated(v);
    }
    else if v < 80 {
      Row4Generated(v);
    }
    else if v < 96 {
      Row5Generated(v);
    }
    else if v < 112 {
      Row6Generated(v);
    }
    else if v < 128 {
      Row7Generated(v);
    }
    else if v < 144 {
      Row8Generated(v);
    }
    else if v < 160 {
      Row9Generated(v);
    }
    else if v < 176 {
      Row10Generated(v);
    }
    else if v < 192 {
      Row11Generated(v);
    }
    else if v < 208 {
      Row12Generated(v);
    }
    else if v < 224 {
      Row13Generated(v);
    }
    else if v < 240 {
      Row14Generated(v);
    }
    else {
      Row15Generated(v);
    }
  }

  /** The index the table is read at: the low byte of register xor data byte. */
  function Index(c: bv32, b: bv8): bv8
  {
    ((c ^ b as bv32) & 0xFF) as bv8
  }

  /**
   * Eight bit-at-a-time steps move the upper 24 bits down unchanged and xor
   * in what the low byte alone generates.
   */
  lemma ByteStepsSplit(n: bv32)
    ensures ByteSteps(n) == (n >> 8) ^ ByteSteps(n & 0xFF)
  {
  }

  /**
   * One round of the loop: `(crc >> 8) ^ mapping_table[(crc ^ byte) & 0xFF]`,
   * which is the standard's eight bit-at-a-time steps on crc xor byte.
   */
  function Update(c: bv32, b: bv8): (r: bv32)
    ensures r == ByteSteps(c ^ b as bv32)
  {
    EntryGenerated(Index(c, b));
    ByteStepsSplit(c ^ b as bv32);
    (c >> 8) ^ Entry(Index(c, b))
  }

  /** The register after the loop has folded in every byte of data, from 0xFFFFFFFF. */
  function Register(data: seq<bv8>): bv32
  {
    if data == [] then 0xFFFF_FFFF else Update(Register(data[..|data| - 1]), data[|data| - 1])
  }

  /** The CRC of all of data as an unsigned 32-bit number. */
  function Checksum(data: seq<bv8>): (r: nat)
    ensures r < 0x1_0000_0000
  {
    (!Register(data)) as int
  }

  /** `CRC32(data, length)`: the complement of the register after the first length bytes. */
  method Crc(data: seq<bv8>, length: nat) returns (crc: bv32)
    requires length <= |data|
    ensures crc == !Register(data[..length])
    ensures length == 0 ==> crc == 0
  {
    var c: bv32 := 0xFFFF_FFFF;
    var i := 0;
    while i < length
      invariant 0 <= i <= length
      invariant c == Register(data[..i])
    {
      assert data[..i + 1][..i] == data[..i];
      c := Update(c, data[i]);
      i := i + 1;
    }
    crc := !c;
  }

  // The nine rounds over the ASCII digits "123456789", one at a time.
  lemma Round1()
    ensures Update(0xFFFF_FFFF, 0x31) == 0x7C23_1048
  {
  }

  lemma Round2()
    ensures Update(0x7C23_1048, 0x32) == 0xB0AC_BB32
  {
  }

  lemma Round3()
    ensures Update(0xB0AC_BB32, 0x33) == 0x77B7_9C2D
  {
  }

  lemma Round4()
    ensures Update(0x77B7_9C2D, 0x34) == 0x641C_1F5C
  {
  }

  lemma Round5()
    ensures Update(0x641C_1F5C, 0x35) == 0x340A_C5E3
  {
  }

  lemma Round6()
    ensures Update(0x340A_C5E3, 0x36) == 0xF68D_2C9E
  {
  }

  lemma Round7()
    ensures Update(0xF68D_2C9E, 0x37) == 0xAFFC_9660
  {
  }

  lemma Round8()
    ensures Update(0xAFFC_9660, 0x38) == 0x651F_2550
  {
  }

  lemma Round9()
    ensures Update(0x651F_2550, 0x39) == 0x340B_C6D9
  {
  }

  /** Folding one more byte into the data folds it into the register. */
  lemma RegisterSnoc(d: seq<bv8>, b: bv8)
    ensures Register(d + [b]) == Update(Register(d), b)
  {
    assert (d + [b])[..|d|] == d;
  }

  /** The ASCII digits "123456789", the standard check input. */
  const Digits: seq<bv8> := [0x31, 0x32, 0x33, 0x34, 0x35, 0x36, 0x37, 0x38, 0x39]

  /** Folding the byte at k into the register of the first k bytes gives the register of the first k + 1. */
  lemma RegisterPrefix(d: seq<bv8>, k: nat)
    requires k < |d|
    ensures Register(d[..k + 1]) == Update(Register(d[..k]), d[k])
  {
    RegisterSnoc(d[..k], d[k]);
    assert d[..k] + [d[k]] == d[..k + 1];
  }

  // The register after each prefix of the check input.
  lemma Prefix1()
    ensures Register(Digits[..1]) == 0x7C23_1048
  {
    RegisterPrefix(Digits, 0);
    assert Digits[..0] == [];
    Round1();
  }

  lemma Prefix2()
    ensures Register(Digits[..2]) == 0xB0AC_BB32
  {
    Prefix1();
    RegisterPrefix(Digits, 1);
    Round2();
  }

  lemma Prefix3()
    ensures Register(Digits[..3]) == 0x77B7_9C2D
  {
    Prefix2();
    RegisterPrefix(Digits, 2);
    Round3();
  }

  lemma Prefix4()
    ensures Register(Digits[..4]) == 0x641C_1F5C
  {
    Prefix3();
    RegisterPrefix(Digits, 3);
    Round4();
  }

  lemma Prefix5()
    ensures Register(Digits[..5]) == 0x340A_C5E3
  {
    Prefix4();
    RegisterPrefix(Digits, 4);
    Round5();
  }

  lemma Prefix6()
    ensures Register(Digits[..6]) == 0xF68D_2C9E
  {
    Prefix5();
    RegisterPrefix(Digits, 5);
    Round6();
  }

  lemma Prefix7()
    ensures Register(Digits[..7]) == 0xAFFC_9660
  {
    Prefix6();
    RegisterPrefix(Digits, 6);
    Round7();
  }

  lemma Prefix8()
    ensures Register(Digits[..8]) == 0x651F_2550
  {
    Prefix7();
    RegisterPrefix(Digits, 7);
    Round8();
  }

  lemma Prefix9()
    ensures Register(Digits[..9]) == 0x340B_C6D9
  {
    Prefix8();
    RegisterPrefix(Digits, 8);
    Round9();
  }

  /** The standard check value: the CRC-32 of the ASCII digits "123456789" is 0xCBF43926. */
  lemma CheckValue()
    ensures Checksum(Digits) == 0xCBF4_3926
  {
    Prefix9();
    assert Digits[..9] == Digits;
  }

  /** The same, for any sequence holding the nine digit bytes. */
  lemma ChecksumOfDigits(d: seq<bv8>)
    requires |d| == 9 && d[0] == 0x31 && d[1] == 0x32 && d[2] == 0x33 && d[3] == 0x34 && d[4] == 0x35
    requires d[5] == 0x36 && d[6] == 0x37 && d[7] == 0x38 && d[8] == 0x39
    ensures Checksum(d) == 0xCBF4_3926
  {
    assert d == Digits;
    CheckValue();
  }
}
