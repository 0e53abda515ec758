/** The Huffman code of RFC 7541, Appendix B, and the decoder's six lookup tables. */
module HuffmanCode {
  import opened Octets

  // A code word: the low `bits` bits of `value`.
  datatype Code = Code(value: nat, bits: nat)

  // One row for each line of the code table, in symbol order.
  function EncTable(symbol: byte): Code {
    if symbol < 128 then AsciiRows(symbol) else HighRows(symbol)
  }

  function AsciiRows(symbol: byte): Code {
    if symbol < 16 then
      match symbol
      case 0 => Code(0x1ff8, 13) case 1 => Code(0x7fffd8, 23) case 2 => Code(0xfffffe2, 28)
      case 3 => Code(0xfffffe3, 28) case 4 => Code(0xfffffe4, 28) case 5 => Code(0xfffffe5, 28)
      case 6 => Code(0xfffffe6, 28) case 7 => Code(0xfffffe7, 28) case 8 => Code(0xfffffe8, 28)
      case 9 => Code(0xffffea, 24) case 10 => Code(0x3ffffffc, 30) case 11 => Code(0xfffffe9, 28)
      case 12 => Code(0xfffffea, 28) case 13 => Code(0x3ffffffd, 30) case 14 => Code(0xfffffeb, 28)
      case _ => Code(0xfffffec, 28)
    else if symbol < 32 then
      match symbol
      case 16 => Code(0xfffffed, 28) case 17 => Code(0xfffffee, 28) case 18 => Code(0xfffffef, 28)
      case 19 => Code(0xffffff0, 28) case 20 => Code(0xffffff1, 28) case 21 => Code(0xffffff2, 28)
      case 22 => Code(0x3ffffffe, 30) case 23 => Code(0xffffff3, 28) case 24 => Code(0xffffff4, 28)
      case 25 => Code(0xffffff5, 28) case 26 => Code(0xffffff6, 28) case 27 => Code(0xffffff7, 28)
      case 28 => Code(0xffffff8, 28) case 29 => Code(0xffffff9, 28) case 30 => Code(0xffffffa, 28)
      case _ => Code(0xffffffb, 28)
    else if symbol < 48 then
      match symbol
      case 32 => Code(0x14, 6) case 33 => Code(0x3f8, 10) case 34 => Code(0x3f9, 10) case 35 => Code(0xffa, 12)
      case 36 => Code(0x1ff9, 13) case 37 => Code(0x15, 6) case 38 => Code(0xf8, 8) case 39 => Code(0x7fa, 11)
      case 40 => Code(0x3fa, 10) case 41 => Code(0x3fb, 10) case 42 => Code(0xf9, 8) case 43 => Code(0x7fb, 11)
      case 44 => Code(0xfa, 8) case 45 => Code(0x16, 6) case 46 => Code(0x17, 6) case _ => Code(0x18, 6)
    else if symbol < 64 then
      match symbol
      case 48 => Code(0x0, 5) case 49 => Code(0x1, 5) case 50 => Code(0x2, 5) case 51 => Code(0x19, 6)
      case 52 => Code(0x1a, 6) case 53 => Code(0x1b, 6) case 54 => Code(0x1c, 6) case 55 => Code(0x1d, 6)
      case 56 => Code(0x1e, 6) case 57 => Code(0x1f, 6) case 58 => Code(0x5c, 7) case 59 => Code(0xfb, 8)
      case 60 => Code(0x7ffc, 15) case 61 => Code(0x20, 6) case 62 => Code(0xffb, 12) case _ => Code(0x3fc, 10)
    else if symbol < 80 then
      match symbol
      case 64 => Code(0x1ffa, 13) case 65 => Code(0x21, 6) case 66 => Code(0x5d, 7) case 67 => Code(0x5e, 7)
      case 68 => Code(0x5f, 7) case 69 => Code(0x60, 7) case 70 => Code(0x61, 7) case 71 => Code(0x62, 7)
      case 72 => Code(0x63, 7) case 73 => Code(0x64, 7) case 74 => Code(0x65, 7) case 75 => Code(0x66, 7)
      case 76 => Code(0x67, 7) case 77 => Code(0x68, 7) case 78 => Code(0x69, 7) case _ => Code(0x6a, 7)
    else if symbol < 96 then
      match symbol
      case 80 => Code(0x6b, 7) case 81 => Code(0x6c, 7) case 82 => Code(0x6d, 7) case 83 => Code(0x6e, 7)
      case 84 => Code(0x6f, 7) case 85 => Code(0x70, 7) case 86 => Code(0x71, 7) case 87 => Code(0x72, 7)
      case 88 => Code(0xfc, 8) case 89 => Code(0x73, 7) case 90 => Code(0xfd, 8) case 91 => Code(0x1ffb, 13)
      case 92 => Code(0x7fff0, 19) case 93 => Code(0x1ffc, 13) case 94 => Code(0x3ffc, 14) case _ => Code(0x22, 6)
    else if symbol < 112 then
      match symbol
      case 96 => Code(0x7ffd, 15) case 97 => Code(0x3, 5) case 98 => Code(0x23, 6) case 99 => Code(0x4, 5)
      case 100 => Code(0x24, 6) case 101 => Code(0x5, 5) case 102 => Code(0x25, 6) case 103 => Code(0x26, 6)
      case 104 => Code(0x27, 6) case 105 => Code(0x6, 5) case 106 => Code(0x74, 7) case 107 => Code(0x75, 7)
      case 108 => Code(0x28, 6) case 109 => Code(0x29, 6) case 110 => Code(0x2a, 6) case _ => Code(0x7, 5)
    else
      match symbol
      case 112 => Code(0x2b, 6) case 113 => Code(0x76, 7) case 114 => Code(0x2c, 6) case 115 => Code(0x8, 5)
      case 116 => Code(0x9, 5) case 117 => Code(0x2d, 6) case 118 => Code(0x77, 7) case 119 => Code(0x78, 7)
      case 120 => Code(0x79, 7) case 121 => Code(0x7a, 7) case 122 => Code(0x7b, 7) case 123 => Code(0x7ffe, 15)
      case 124 => Code(0x7fc, 11) case 125 => Code(0x3ffd, 14) case 126 => Code(0x1ffd, 13)
      case _ => Code(0xffffffc, 28)
  }

  function HighRows(symbol: byte): Code {
    if symbol < 144 then
      match symbol
      case 128 => Code(0xfffe6, 20) case 129 => Code(0x3fffd2, 22) case 130 => Code(0xfffe7, 20)
      case 131 => Code(0xfffe8, 20) case 132 => Code(0x3fffd3, 22) case 133 => Code(0x3fffd4, 22)
      case 134 => Code(0x3fffd5, 22) case 135 => Code(0x7fffd9, 23) case 136 => Code(0x3fffd6, 22)
      case 137 => Code(0x7fffda, 23) case 138 => Code(0x7fffdb, 23) case 139 => Code(0x7fffdc, 23)
      case 140 => Code(0x7fffdd, 23) case 141 => Code(0x7fffde, 23) case 142 => Code(0xffffeb, 24)
      case _ => Code(0x7fffdf, 23)
    else if symbol < 160 then
      match symbol
      case 144 => Code(0xffffec, 24) case 145 => Code(0xffffed, 24) case 146 => Code(0x3fffd7, 22)
      case 147 => Code(0x7fffe0, 23) case 148 => Code(0xffffee, 24) case 149 => Code(0x7fffe1, 23)
      case 150 => Code(0x7fffe2, 23) case 151 => Code(0x7fffe3, 23) case 152 => Code(0x7fffe4, 23)
      case 153 => Code(0x1fffdc, 21) case 154 => Code(0x3fffd8, 22) case 155 => Code(0x7fffe5, 23)
      case 156 => Code(0x3fffd9, 22) case 157 => Code(0x7fffe6, 23) case 158 => Code(0x7fffe7, 23)
      case _ => Code(0xffffef, 24)
    else if symbol < 176 then
      match symbol
      case 160 => Code(0x3fffda, 22) case 161 => Code(0x1fffdd, 21) case 162 => Code(0xfffe9, 20)
      case 163 => Code(0x3fffdb, 22) case 164 => Code(0x3fffdc, 22) case 165 => Code(0x7fffe8, 23)
      case 166 => Code(0x7fffe9, 23) case 167 => Code(0x1fffde, 21) case 168 => Code(0x7fffea, 23)
      case 169 => Code(0x3fffdd, 22) case 170 => Code(0x3fffde, 22) case 171 => Code(0xfffff0, 24)
      case 172 => Code(0x1fffdf, 21) case 173 => Code(0x3fffdf, 22) case 174 => Code(0x7fffeb, 23)
      case _ => Code(0x7fffec, 23)
    else if symbol < 192 then
      match symbol
      case 176 => Code(0x1fffe0, 21) case 177 => Code(0x1fffe1, 21) case 178 => Code(0x3fffe0, 22)
      case 179 => Code(0x1fffe2, 21) case 180 => Code(0x7fffed, 23) case 181 => Code(0x3fffe1, 22)
      case 182 => Code(0x7fffee, 23) case 183 => Code(0x7fffef, 23) case 184 => Code(0xfffea, 20)
      case 185 => Code(0x3fffe2, 22) case 186 => Code(0x3fffe3, 22) case 187 => Code(0x3fffe4, 22)
      case 188 => Code(0x7ffff0, 23) case 189 => Code(0x3fffe5, 22) case 190 => Code(0x3fffe6, 22)
      case _ => Code(0x7ffff1, 23)
    else if symbol < 208 then
      match symbol
      case 192 => Code(0x3ffffe0, 26) case 193 => Code(0x3ffffe1, 26) case 194 => Code(0xfffeb, 20)
      case 195 => Code(0x7fff1, 19) case 196 => Code(0x3fffe7, 22) case 197 => Code(0x7ffff2, 23)
      case 198 => Code(0x3fffe8, 22) case 199 => Code(0x1ffffec, 25) case 200 => Code(0x3ffffe2, 26)
      case 201 => Code(0x3ffffe3, 26) case 202 => Code(0x3ffffe4, 26) case 203 => Code(0x7ffffde, 27)
      case 204 => Code(0x7ffffdf, 27) case 205 => Code(0x3ffffe5, 26) case 206 => Code(0xfffff1, 24)
      case _ => Code(0x1ffffed, 25)
    else if symbol < 224 then
      match symbol
      case 208 => Code(0x7fff2, 19) case 209 => Code(0x1fffe3, 21) case 210 => Code(0x3ffffe6, 26)
      case 211 => Code(0x7ffffe0, 27) case 212 => Code(0x7ffffe1, 27) case 213 => Code(0x3ffffe7, 26)
      case 214 => Code(0x7ffffe2, 27) case 215 => Code(0xfffff2, 24) case 216 => Code(0x1fffe4, 21)
      case 217 => Code(0x1fffe5, 21) case 218 => Code(0x3ffffe8, 26) case 219 => Code(0x3ffffe9, 26)
      case 220 => Code(0xffffffd, 28) case 221 => Code(0x7ffffe3, 27) case 222 => Code(0x7ffffe4, 27)
      case _ => Code(0x7ffffe5, 27)
    else if symbol < 240 then
      match symbol
      case 224 => Code(0xfffec, 20) case 225 => Code(0xfffff3, 24) case 226 => Code(0xfffed, 20)
      case 227 => Code(0x1fffe6, 21) case 228 => Code(0x3fffe9, 22) case 229 => Code(0x1fffe7, 21)
      case 230 => Code(0x1fffe8, 21) case 231 => Code(0x7ffff3, 23) case 232 => Code(0x3fffea, 22)
      case 233 => Code(0x3fffeb, 22) case 234 => Code(0x1ffffee, 25) case 235 => Code(0x1ffffef, 25)
      case 236 => Code(0xfffff4, 24) case 237 => Code(0xfffff5, 24) case 238 => Code(0x3ffffea, 26)
      case _ => Code(0x7ffff4, 23)
    else
      match symbol
      case 240 => Code(0x3ffffeb, 26) case 241 => Code(0x7ffffe6, 27) case 242 => Code(0x3ffffec, 26)
      case 243 => Code(0x3ffffed, 26) case 244 => Code(0x7ffffe7, 27) case 245 => Code(0x7ffffe8, 27)
      case 246 => Code(0x7ffffe9, 27) case 247 => Code(0x7ffffea, 27) case 248 => Code(0x7ffffeb, 27)
      case 249 => Code(0xffffffe, 28) case 250 => Code(0x7ffffec, 27) case 251 => Code(0x7ffffed, 27)
      case 252 => Code(0x7ffffee, 27) case 253 => Code(0x7ffffef, 27) case 254 => Code(0x7fffff0, 27)
      case _ => Code(0x3ffffee, 26)
  }

  // A decoder table entry. Each table is written as its runs of equal entries, by upper index.
  datatype Entry = Entry(octet: byte, bits: nat)

  const SENTINEL: byte := 0xff

  // Indexed by the first octet.
  function ShortBits0(i: byte): (e: Entry)
    ensures e.octet != SENTINEL <==> i < 254
    ensures i < 254 ==> 5 <= e.bits <= 8
  {
    if i < 104 then
      if i < 8 then Entry(48, 5) else if i < 16 then Entry(49, 5) else if i < 24 then Entry(50, 5) else
      if i < 32 then Entry(97, 5) else if i < 40 then Entry(99, 5) else if i < 48 then Entry(101, 5) else
      if i < 56 then Entry(105, 5) else if i < 64 then Entry(111, 5) else if i < 72 then Entry(115, 5) else
      if i < 80 then Entry(116, 5) else if i < 84 then Entry(32, 6) else if i < 88 then Entry(37, 6) else
      if i < 92 then Entry(45, 6) else if i < 96 then Entry(46, 6) else if i < 100 then Entry(47, 6) else Entry(51, 6)
    else if i < 168 then
      if i < 108 then Entry(52, 6) else if i < 112 then Entry(53, 6) else if i < 116 then Entry(54, 6) else
      if i < 120 then Entry(55, 6) else if i < 124 then Entry(56, 6) else if i < 128 then Entry(57, 6) else
      if i < 132 then Entry(61, 6) else if i < 136 then Entry(65, 6) else if i < 140 then Entry(95, 6) else
      if i < 144 then Entry(98, 6) else if i < 148 then Entry(100, 6) else if i < 152 then Entry(102, 6) else
      if i < 156 then Entry(103, 6) else if i < 160 then Entry(104, 6) else if i < 164 then Entry(108, 6) else
      Entry(109, 6)
    else if i < 208 then
      if i < 172 then Entry(110, 6) else if i < 176 then Entry(112, 6) else if i < 180 then Entry(114, 6) else
      if i < 184 then Entry(117, 6) else if i < 186 then Entry(58, 7) else if i < 188 then Entry(66, 7) else
      if i < 190 then Entry(67, 7) else if i < 192 then Entry(68, 7) else if i < 194 then Entry(69, 7) else
      if i < 196 then Entry(70, 7) else if i < 198 then Entry(71, 7) else if i < 200 then Entry(72, 7) else
      if i < 202 then Entry(73, 7) else if i < 204 then Entry(74, 7) else if i < 206 then Entry(75, 7) else
      Entry(76, 7)
    else if i < 240 then
      if i < 210 then Entry(77, 7) else if i < 212 then Entry(78, 7) else if i < 214 then Entry(79, 7) else
      if i < 216 then Entry(80, 7) else if i < 218 then Entry(81, 7) else if i < 220 then Entry(82, 7) else
      if i < 222 then Entry(83, 7) else if i < 224 then Entry(84, 7) else if i < 226 then Entry(85, 7) else
      if i < 228 then Entry(86, 7) else if i < 230 then Entry(87, 7) else if i < 232 then Entry(89, 7) else
      if i < 234 then Entry(106, 7) else if i < 236 then Entry(107, 7) else if i < 238 then Entry(113, 7) else
      Entry(118, 7)
    else
      if i < 242 then Entry(119, 7) else if i < 244 then Entry(120, 7) else if i < 246 then Entry(121, 7) else
      if i < 248 then Entry(122, 7) else if i < 249 then Entry(38, 8) else if i < 250 then Entry(42, 8) else
      if i < 251 then Entry(44, 8) else if i < 252 then Entry(59, 8) else if i < 253 then Entry(88, 8) else
      if i < 254 then Entry(90, 8) else Entry(255, 255)
  }

  // Indexed by the second octet when the first is 0xff.
  function ShortBits1Ff(i: byte): (e: Entry)
    ensures e.octet != SENTINEL <==> i < 254
    ensures i < 254 ==> 10 <= e.bits <= 15
  {
    if i < 252 then
      if i < 64 then Entry(63, 10) else if i < 96 then Entry(39, 11) else if i < 128 then Entry(43, 11) else
      if i < 160 then Entry(124, 11) else if i < 176 then Entry(35, 12) else if i < 192 then Entry(62, 12) else
      if i < 200 then Entry(0, 13) else if i < 208 then Entry(36, 13) else if i < 216 then Entry(64, 13) else
      if i < 224 then Entry(91, 13) else if i < 232 then Entry(93, 13) else if i < 240 then Entry(126, 13) else
      if i < 244 then Entry(94, 14) else if i < 248 then Entry(125, 14) else if i < 250 then Entry(60, 15) else
      Entry(96, 15)
    else
      if i < 254 then Entry(123, 15) else Entry(255, 255)
  }

  // Indexed by the third octet after 0xff 0xfe; it has no sentinels.
  function ShortBits2Fffe(i: byte): (e: Entry)
    ensures 19 <= e.bits <= 21
  {
    if i < 32 then Entry(92, 19) else if i < 64 then Entry(195, 19) else if i < 96 then Entry(208, 19) else
    if i < 112 then Entry(128, 20) else if i < 128 then Entry(130, 20) else if i < 144 then Entry(131, 20) else
    if i < 160 then Entry(162, 20) else if i < 176 then Entry(184, 20) else if i < 192 then Entry(194, 20) else
    if i < 208 then Entry(224, 20) else if i < 224 then Entry(226, 20) else if i < 232 then Entry(153, 21) else
    if i < 240 then Entry(161, 21) else if i < 248 then Entry(167, 21) else Entry(172, 21)
  }

  // Indexed by the third octet after 0xff 0xff.
  function ShortBits2Ffff(i: byte): (e: Entry)
    ensures e.octet != SENTINEL <==> i < 0xf6
    ensures i < 0xf6 ==> 21 <= e.bits <= 24
  {
    if i < 100 then
      if i < 8 then Entry(176, 21) else if i < 16 then Entry(177, 21) else if i < 24 then Entry(179, 21) else
      if i < 32 then Entry(209, 21) else if i < 40 then Entry(216, 21) else if i < 48 then Entry(217, 21) else
      if i < 56 then Entry(227, 21) else if i < 64 then Entry(229, 21) else if i < 72 then Entry(230, 21) else
      if i < 76 then Entry(129, 22) else if i < 80 then Entry(132, 22) else if i < 84 then Entry(133, 22) else
      if i < 88 then Entry(134, 22) else if i < 92 then Entry(136, 22) else if i < 96 then Entry(146, 22) else
      Entry(154, 22)
    else if i < 164 then
      if i < 104 then Entry(156, 22) else if i < 108 then Entry(160, 22) else if i < 112 then Entry(163, 22) else
      if i < 116 then Entry(164, 22) else if i < 120 then Entry(169, 22) else if i < 124 then Entry(170, 22) else
      if i < 128 then Entry(173, 22) else if i < 132 then Entry(178, 22) else if i < 136 then Entry(181, 22) else
      if i < 140 then Entry(185, 22) else if i < 144 then Entry(186, 22) else if i < 148 then Entry(187, 22) else
      if i < 152 then Entry(189, 22) else if i < 156 then Entry(190, 22) else if i < 160 then Entry(196, 22) else
      Entry(198, 22)
    else if i < 202 then
      if i < 168 then Entry(228, 22) else if i < 172 then Entry(232, 22) else if i < 176 then Entry(233, 22) else
      if i < 178 then Entry(1, 23) else if i < 180 then Entry(135, 23) else if i < 182 then Entry(137, 23) else
      if i < 184 then Entry(138, 23) else if i < 186 then Entry(139, 23) else if i < 188 then Entry(140, 23) else
      if i < 190 then Entry(141, 23) else if i < 192 then Entry(143, 23) else if i < 194 then Entry(147, 23) else
      if i < 196 then Entry(149, 23) else if i < 198 then Entry(150, 23) else if i < 200 then Entry(151, 23) else
      Entry(152, 23)
    else if i < 234 then
      if i < 204 then Entry(155, 23) else if i < 206 then Entry(157, 23) else if i < 208 then Entry(158, 23) else
      if i < 210 then Entry(165, 23) else if i < 212 then Entry(166, 23) else if i < 214 then Entry(168, 23) else
      if i < 216 then Entry(174, 23) else if i < 218 then Entry(175, 23) else if i < 220 then Entry(180, 23) else
      if i < 222 then Entry(182, 23) else if i < 224 then Entry(183, 23) else if i < 226 then Entry(188, 23) else
      if i < 228 then Entry(191, 23) else if i < 230 then Entry(197, 23) else if i < 232 then Entry(231, 23) else
      Entry(239, 23)
    else
      if i < 235 then Entry(9, 24) else if i < 236 then Entry(142, 24) else if i < 237 then Entry(144, 24) else
      if i < 238 then Entry(145, 24) else if i < 239 then Entry(148, 24) else if i < 240 then Entry(159, 24) else
      if i < 241 then Entry(171, 24) else if i < 242 then Entry(206, 24) else if i < 243 then Entry(215, 24) else
      if i < 244 then Entry(225, 24) else if i < 245 then Entry(236, 24) else if i < 246 then Entry(237, 24) else
      Entry(255, 255)
  }

  // Indexed by the low nibble of the third octet and the high nibble of the fourth; its first 96 entries are
  // the invalid ones.
  function ShortBits23(i: nat): (e: Entry)
    requires i < 224
    ensures i >= 96 ==> 25 <= e.bits <= 27
  {
    if i < 172 then
      if i < 96 then Entry(0, 0) else if i < 104 then Entry(199, 25) else if i < 112 then Entry(207, 25) else
      if i < 120 then Entry(234, 25) else if i < 128 then Entry(235, 25) else if i < 132 then Entry(192, 26) else
      if i < 136 then Entry(193, 26) else if i < 140 then Entry(200, 26) else if i < 144 then Entry(201, 26) else
      if i < 148 then Entry(202, 26) else if i < 152 then Entry(205, 26) else if i < 156 then Entry(210, 26) else
      if i < 160 then Entry(213, 26) else if i < 164 then Entry(218, 26) else if i < 168 then Entry(219, 26) else
      Entry(238, 26)
    else if i < 212 then
      if i < 176 then Entry(240, 26) else if i < 180 then Entry(242, 26) else if i < 184 then Entry(243, 26) else
      if i < 188 then Entry(255, 26) else if i < 190 then Entry(203, 27) else if i < 192 then Entry(204, 27) else
      if i < 194 then Entry(211, 27) else if i < 196 then Entry(212, 27) else if i < 198 then Entry(214, 27) else
      if i < 200 then Entry(221, 27) else if i < 202 then Entry(222, 27) else if i < 204 then Entry(223, 27) else
      if i < 206 then Entry(241, 27) else if i < 208 then Entry(244, 27) else if i < 210 then Entry(245, 27) else
      Entry(246, 27)
    else
      if i < 214 then Entry(247, 27) else if i < 216 then Entry(248, 27) else if i < 218 then Entry(250, 27) else
      if i < 220 then Entry(251, 27) else if i < 222 then Entry(252, 27) else Entry(253, 27)
  }

  // Indexed by the low bit of the third octet (0xfe or 0xff) and the top six bits of the fourth.
  function ShortBits3(i: nat): (e: Entry)
    requires i < 128
    ensures e.octet != SENTINEL <==> i < 127
    ensures i < 127 ==> 27 <= e.bits <= 30
  {
    if i < 68 then
      if i < 8 then Entry(254, 27) else if i < 12 then Entry(2, 28) else if i < 16 then Entry(3, 28) else
      if i < 20 then Entry(4, 28) else if i < 24 then Entry(5, 28) else if i < 28 then Entry(6, 28) else
      if i < 32 then Entry(7, 28) else if i < 36 then Entry(8, 28) else if i < 40 then Entry(11, 28) else
      if i < 44 then Entry(12, 28) else if i < 48 then Entry(14, 28) else if i < 52 then Entry(15, 28) else
      if i < 56 then Entry(16, 28) else if i < 60 then Entry(17, 28) else if i < 64 then Entry(18, 28) else
      Entry(19, 28)
    else if i < 126 then
      if i < 72 then Entry(20, 28) else if i < 76 then Entry(21, 28) else if i < 80 then Entry(23, 28) else
      if i < 84 then Entry(24, 28) else if i < 88 then Entry(25, 28) else if i < 92 then Entry(26, 28) else
      if i < 96 then Entry(27, 28) else if i < 100 then Entry(28, 28) else if i < 104 then Entry(29, 28) else
      if i < 108 then Entry(30, 28) else if i < 112 then Entry(31, 28) else if i < 116 then Entry(127, 28) else
      if i < 120 then Entry(220, 28) else if i < 124 then Entry(249, 28) else if i < 125 then Entry(10, 30) else
      Entry(13, 30)
    else
      if i < 127 then Entry(22, 30) else Entry(255, 255)
  }

  // ---------------------------------------------------------------- the cascade

  datatype Step = Symbol(octet: byte, bits: nat) | EndOfString

  // What one pass of the decode loop finds in the next four octets of the stream.
  function Cascade(w0: byte, w1: byte, w2: byte, w3: byte): Step {
    var e0 := ShortBits0(w0);
    if e0.octet != SENTINEL then Symbol(e0.octet, e0.bits)
    else if w0 == 0xfe then Symbol(BRANCHES_OFF_FE[w1 / 64], 10)
    else
      var e1 := ShortBits1Ff(w1);
      if e1.octet != SENTINEL then Symbol(e1.octet, e1.bits)
      else if w1 == 0xfe then Symbol(ShortBits2Fffe(w2).octet, ShortBits2Fffe(w2).bits)
      else
        var e2 := ShortBits2Ffff(w2);
        if e2.octet != SENTINEL then Symbol(e2.octet, e2.bits)
        else if w2 != 0xfe && w2 != 0xff then
          var e3 := ShortBits23(w2 % 16 * 16 + w3 / 16);
          Symbol(e3.octet, e3.bits)
        else
          var e3 := ShortBits3(w2 % 2 * 64 + w3 / 4);
          if e3.octet != SENTINEL then Symbol(e3.octet, e3.bits) else EndOfString
  }

  function Window(w0: byte, w1: byte, w2: byte, w3: byte): nat {
    ((w0 * 256 + w1) * 256 + w2) * 256 + w3
  }

  // The code word is the start of the `n` bits of `w`.
  predicate Spells(c: Code, w: nat, n: nat) {
    c.bits <= n && c.value == Shr(w, n - c.bits)
  }

  // A table entry that tells the truth about the `n` bits of `w`.
  predicate Truthful(e: Entry, w: nat, n: nat) {
    EncTable(e.octet).bits == e.bits && Spells(EncTable(e.octet), w, n)
  }

  /** Bits after the code word do not matter. */
  lemma SpellsPrefix(c: Code, w: nat, n: nat, low: nat, k: nat)
    requires c.bits <= n && low < Pow2(k)
    ensures Spells(c, Shl(w, k) + low, n + k) <==> Spells(c, w, n)
  {
    assert n + k - c.bits == (n - c.bits) + k;
    ShrAdd(Shl(w, k) + low, n - c.bits, k);
    ShrMaskUnique(w, low, k);
  }

  // ---------------------------------------------------------------- each table against the code

  // The first code of each length and how many there are: the code is canonical.
  function CodeRange(bits: nat): (nat, nat) {
    match bits
    case 5 => (0x0, 10) case 6 => (0x14, 26) case 7 => (0x5c, 32) case 8 => (0xf8, 6)
    case 10 => (0x3f8, 5) case 11 => (0x7fa, 3) case 12 => (0xffa, 2) case 13 => (0x1ff8, 6)
    case 14 => (0x3ffc, 2) case 15 => (0x7ffc, 3) case 19 => (0x7fff0, 3) case 20 => (0xfffe6, 8)
    case 21 => (0x1fffdc, 13) case 22 => (0x3fffd2, 26) case 23 => (0x7fffd8, 29) case 24 => (0xffffea, 12)
    case 25 => (0x1ffffec, 4) case 26 => (0x3ffffe0, 15) case 27 => (0x7ffffde, 19) case 28 => (0xfffffe2, 29)
    case 30 => (0x3ffffffc, 3)
    case _ => (0, 0)
  }

  predicate WellShaped(c: Code) {
    CodeRange(c.bits).0 <= c.value < CodeRange(c.bits).0 + CodeRange(c.bits).1
  }

  lemma CodeShape(s: byte)
    ensures WellShaped(EncTable(s))
  {
    if s < 128 { AsciiShape(s); } else { HighShape(s); }
  }

  lemma AsciiShape(s: byte)
    requires s < 128
    ensures WellShaped(EncTable(s))
  {
    if s < 64 { AsciiShapeLow(s); } else { AsciiShapeHigh(s); }
  }

  lemma AsciiShapeLow(s: byte)
    requires s < 64
    ensures WellShaped(EncTable(s))
  {
    hide HighRows;
  }

  lemma AsciiShapeHigh(s: byte)
    requires 64 <= s < 128
    ensures WellShaped(EncTable(s))
  {
    hide HighRows;
  }

  lemma HighShape(s: byte)
    requires s >= 128
    ensures WellShaped(EncTable(s))
  {
    if s < 192 { HighShapeLow(s); } else { HighShapeHigh(s); }
  }

  lemma HighShapeLow(s: byte)
    requires 128 <= s < 192
    ensures WellShaped(EncTable(s))
  {
    hide AsciiRows;
  }

  lemma HighShapeHigh(s: byte)
    requires s >= 192
    ensures WellShaped(EncTable(s))
  {
    hide AsciiRows;
  }

  // Octets beyond ASCII have long codes.
  lemma HighIsLong(s: byte)
    ensures EncTable(s).bits < 19 ==> s < 128
  {
    hide AsciiRows;
  }

  // ASCII has no codes of 25 to 27 bits.
  lemma MiddleIsBeyond(s: byte)
    ensures 24 < EncTable(s).bits <= 27 ==> s >= 128
  {
    hide HighRows;
  }

  /** The windows that code words of each length can start. */
  lemma WordsStart(c: Code, w: nat)
    requires WellShaped(c)
    ensures c.bits <= 8 || 10 <= c.bits <= 15 || 19 <= c.bits <= 30
    ensures 8 < c.bits <= 16 && Spells(c, w, 16) ==> w >= 0xfe00
    ensures 16 < c.bits <= 24 && Spells(c, w, 24) ==> w >= 0xfffe00
    ensures 24 < c.bits <= 27 && Spells(c, w, 28) ==> w >= 0xfffff60
    ensures 24 < c.bits <= 26 && Spells(c, w, 28) ==> w < 0xfffffe0
    ensures 27 < c.bits && Spells(c, w, 30) ==> w >= 0x3fff_ff80
  {
    ShrValues(w);
  }

  lemma ShortBits0Sound(i: byte)
    requires i < 254
    ensures Truthful(ShortBits0(i), i, 8)
  {
    if i < 0x88 { ShortBits0SoundLow(i); } else { ShortBits0SoundHigh(i); }
  }

  lemma ShortBits0SoundLow(i: byte)
    requires i < 0x88
    ensures Truthful(ShortBits0(i), i, 8)
  {
    ShrValues(i);
  }

  lemma ShortBits0SoundHigh(i: byte)
    requires 0x88 <= i < 254
    ensures Truthful(ShortBits0(i), i, 8)
  {
    ShrValues(i);
  }

  // The four codes behind 0xfe have ten bits.
  const BRANCHES_OFF_FE: seq<byte> := [33, 34, 40, 41]

  lemma BranchesOffFeSound(i: byte)
    ensures Truthful(Entry(BRANCHES_OFF_FE[i / 64], 10), 0xfe00 + i, 16)
  {
    ShrValues(0xfe00 + i);
  }

  lemma ShortBits1FfSound(i: byte)
    requires i < 254
    ensures Truthful(ShortBits1Ff(i), 0xff00 + i, 16)
  {
    ShrValues(0xff00 + i);
  }

  lemma ShortBits2FffeSound(i: byte)
    ensures Truthful(ShortBits2Fffe(i), 0xfffe00 + i, 24)
  {
    ShrValues(0xfffe00 + i);
  }

  lemma ShortBits2FfffSound(i: byte)
    requires i < 0xf6
    ensures Truthful(ShortBits2Ffff(i), 0xffff00 + i, 24)
  {
    if i < 0xa0 { ShortBits2FfffSoundLow(i); } else { ShortBits2FfffSoundHigh(i); }
  }

  lemma ShortBits2FfffSoundLow(i: byte)
    requires i < 0xa0
    ensures Truthful(ShortBits2Ffff(i), 0xffff00 + i, 24)
  {
    ShrValues(0xffff00 + i);
  }

  lemma ShortBits2FfffSoundHigh(i: byte)
    requires 0xa0 <= i < 0xf6
    ensures Truthful(ShortBits2Ffff(i), 0xffff00 + i, 24)
  {
    ShrValues(0xffff00 + i);
  }

  lemma ShortBits23Sound(i: nat)
    requires 96 <= i < 224
    ensures Truthful(ShortBits23(i), 0xfffff00 + i, 28)
  {
    ShrValues(0xfffff00 + i);
  }

  lemma ShortBits3Sound(i: nat)
    requires i < 127
    ensures Truthful(ShortBits3(i), 0x3fff_ff80 + i, 30)
  {
    ShrValues(0x3fff_ff80 + i);
  }

  // ---------------------------------------------------------------- the code against each table

  // The least of the windows of `n` bits that a code word starts, and how many they are.
  function Low(c: Code, n: nat): nat {
    match n - c.bits
    case 0 => c.value case 1 => 2 * c.value case 2 => 4 * c.value case 3 => 8 * c.value
    case 4 => 16 * c.value case 5 => 32 * c.value case _ => 64 * c.value
  }

  function Width(c: Code, n: nat): nat {
    match n - c.bits
    case 0 => 1 case 1 => 2 case 2 => 4 case 3 => 8 case 4 => 16 case 5 => 32 case _ => 64
  }

  lemma SpellsIsRange(c: Code, w: nat, n: nat)
    requires n - 6 <= c.bits <= n
    ensures Spells(c, w, n) <==> Low(c, n) <= w < Low(c, n) + Width(c, n)
  {
    ShrValues(w);
    var k := n - c.bits;
    assert k in {0, 1, 2, 3, 4, 5, 6};
  }

  // The lengths of the code words, by the windows that they start.
  function LengthAt(w: nat, n: nat): nat {
    match n
    case 8 => if w < 0x50 then 5 else if w < 0xb8 then 6 else if w < 0xf8 then 7 else 8
    case 16 => if w < 0xff40 then 10 else if w < 0xffa0 then 11 else if w < 0xffc0 then 12 else if w < 0xfff0 then 13
               else if w < 0xfff8 then 14 else 15
    case 24 => if w < 0xfffe60 then 19 else if w < 0xfffee0 then 20 else if w < 0xffff48 then 21
               else if w < 0xffffb0 then 22 else if w < 0xffffea then 23 else 24
    case 28 => if w < 0xfffff80 then 25 else if w < 0xfffffbc then 26 else 27
    case _ => if w < 0x3fff_ff88 then 27 else if w < 0x3fff_fffc then 28 else 30
  }

  // What is known of a window by the code word that it starts with.
  predicate InWindow(c: Code, w: nat, n: nat) {
    && c.bits == LengthAt(w, n)
    && Low(c, n) <= w < Low(c, n) + Width(c, n)
    && match n
       case 8 => w < 0xfe
       case 16 => w < 0xfffe && (w >= 0xff00 ==> Low(c, n) >= 0xff00)
       case 24 => w < 0xff_fff6 && (w >= 0xff_fe00 ==> Low(c, n) >= 0xff_fe00)
                  && (w >= 0xff_ff00 ==> Low(c, n) >= 0xff_ff00)
       case 28 => w >= 0xfff_ff60 && Low(c, n) >= 0xfff_ff60
       case _ => w < 0x3fff_ffff && (w >= 0x3fff_ff80 ==> Low(c, n) >= 0x3fff_ff80)
  }

  // The lengths of the code words that windows of `n` bits are looked up for.
  predicate WindowIsFor(n: nat, c: Code) {
    match n
    case 8 => c.bits <= 8
    case 16 => 8 < c.bits <= 16
    case 24 => 16 < c.bits <= 24
    case 28 => 24 < c.bits <= 27
    case 30 => 26 < c.bits
    case _ => false
  }

  lemma CodeInWindow(c: Code, w: nat, n: nat)
    requires WellShaped(c) && WindowIsFor(n, c) && Spells(c, w, n)
    ensures InWindow(c, w, n)
  {
    hide WellShaped, Spells, InWindow;
    match n {
      case 8 => CodeInWindow8(c, w);
      case 16 => CodeInWindow16(c, w);
      case 24 => CodeInWindow24(c, w);
      case 28 => CodeInWindow28(c, w);
      case 30 => CodeInWindow30(c, w);
    }
  }

  lemma CodeInWindow8(c: Code, w: nat)
    requires WellShaped(c) && WindowIsFor(8, c) && Spells(c, w, 8)
    ensures InWindow(c, w, 8)
  {
    hide Spells;
    SpellsIsRange(c, w, 8);
  }

  lemma CodeInWindow16(c: Code, w: nat)
    requires WellShaped(c) && WindowIsFor(16, c) && Spells(c, w, 16)
    ensures InWindow(c, w, 16)
  {
    hide Spells;
    SpellsIsRange(c, w, 16);
  }

  lemma CodeInWindow24(c: Code, w: nat)
    requires WellShaped(c) && WindowIsFor(24, c) && Spells(c, w, 24)
    ensures InWindow(c, w, 24)
  {
    hide Spells;
    SpellsIsRange(c, w, 24);
  }

  lemma CodeInWindow28(c: Code, w: nat)
    requires WellShaped(c) && WindowIsFor(28, c) && Spells(c, w, 28)
    ensures InWindow(c, w, 28)
  {
    hide Spells;
    SpellsIsRange(c, w, 28);
  }

  lemma CodeInWindow30(c: Code, w: nat)
    requires WellShaped(c) && WindowIsFor(30, c) && Spells(c, w, 30)
    ensures InWindow(c, w, 30)
  {
    hide Spells;
    SpellsIsRange(c, w, 30);
  }

  /** Code words of similar lengths that start the same window are the same. */
  lemma SameCode(c: Code, d: Code, w: nat, n: nat)
    requires WellShaped(c) && WellShaped(d) && WindowIsFor(n, c) && WindowIsFor(n, d)
    requires Spells(c, w, n) && Spells(d, w, n)
    ensures c == d
  {
    hide WellShaped;
    CodeInWindow(c, w, n);
    CodeInWindow(d, w, n);
  }

  lemma ShortBits0First(s: byte)
    requires EncTable(s).bits <= 8
    ensures ShortBits0(Low(EncTable(s), 8)) == Entry(s, EncTable(s).bits)
  {
    HighIsLong(s);
    ShortBits0FirstAscii(s);
  }

  lemma ShortBits0FirstAscii(s: byte)
    requires s < 128 && EncTable(s).bits <= 8
    ensures ShortBits0(Low(EncTable(s), 8)) == Entry(s, EncTable(s).bits)
  {
    hide HighRows;
  }

  lemma ShortBits0Complete(s: byte, i: byte)
    requires EncTable(s).bits <= 8 && Spells(EncTable(s), i, 8)
    ensures i < 0xfe && ShortBits0(i) == Entry(s, EncTable(s).bits)
  {
    hide EncTable, Spells, WellShaped, LengthAt;
    var c, w, e := EncTable(s), i, ShortBits0(i);
    CodeShape(s);
    CodeShape(e.octet);
    CodeInWindow(c, w, 8);
    ShortBits0Sound(i);
    SameCode(c, EncTable(e.octet), w, 8);
    ShortBits0First(s);
    ShortBits0First(e.octet);
  }

  lemma ShortBits1FfFirst(s: byte)
    requires 8 < EncTable(s).bits <= 16 && Low(EncTable(s), 16) >= 0xff00
    ensures ShortBits1Ff(Low(EncTable(s), 16) - 0xff00) == Entry(s, EncTable(s).bits)
  {
    HighIsLong(s);
    ShortBits1FfFirstAscii(s);
  }

  lemma ShortBits1FfFirstAscii(s: byte)
    requires s < 128 && 8 < EncTable(s).bits <= 16 && Low(EncTable(s), 16) >= 0xff00
    ensures ShortBits1Ff(Low(EncTable(s), 16) - 0xff00) == Entry(s, EncTable(s).bits)
  {
    hide HighRows;
  }

  lemma ShortBits1FfComplete(s: byte, i: byte)
    requires 8 < EncTable(s).bits <= 16 && Spells(EncTable(s), 0xff00 + i, 16)
    ensures i < 0xfe && ShortBits1Ff(i) == Entry(s, EncTable(s).bits)
  {
    hide EncTable, Spells, WellShaped, LengthAt;
    var c, w, e := EncTable(s), 0xff00 + i, ShortBits1Ff(i);
    CodeShape(s);
    CodeShape(e.octet);
    CodeInWindow(c, w, 16);
    ShortBits1FfSound(i);
    SameCode(c, EncTable(e.octet), w, 16);
    ShortBits1FfFirst(s);
    ShortBits1FfFirst(e.octet);
  }

  lemma ShortBits2FffeFirst(s: byte)
    requires 16 < EncTable(s).bits <= 24 && 0xfffe00 <= Low(EncTable(s), 24) < 0xffff00
    ensures ShortBits2Fffe(Low(EncTable(s), 24) - 0xfffe00) == Entry(s, EncTable(s).bits)
  {
    if s < 128 { ShortBits2FffeFirstAscii(s); } else { ShortBits2FffeFirstBeyond(s); }
  }

  lemma ShortBits2FffeFirstAscii(s: byte)
    requires s < 128 && 16 < EncTable(s).bits <= 24 && 0xfffe00 <= Low(EncTable(s), 24) < 0xffff00
    ensures ShortBits2Fffe(Low(EncTable(s), 24) - 0xfffe00) == Entry(s, EncTable(s).bits)
  {
    hide HighRows;
  }

  lemma ShortBits2FffeFirstBeyond(s: byte)
    requires s >= 128 && 16 < EncTable(s).bits <= 24 && 0xfffe00 <= Low(EncTable(s), 24) < 0xffff00
    ensures ShortBits2Fffe(Low(EncTable(s), 24) - 0xfffe00) == Entry(s, EncTable(s).bits)
  {
    hide AsciiRows;
  }

  lemma ShortBits2FffeComplete(s: byte, i: byte)
    requires 16 < EncTable(s).bits <= 24 && Spells(EncTable(s), 0xfffe00 + i, 24)
    ensures ShortBits2Fffe(i) == Entry(s, EncTable(s).bits)
  {
    hide EncTable, Spells, WellShaped, LengthAt;
    var c, w, e := EncTable(s), 0xfffe00 + i, ShortBits2Fffe(i);
    CodeShape(s);
    CodeShape(e.octet);
    CodeInWindow(c, w, 24);
    ShortBits2FffeSound(i);
    SameCode(c, EncTable(e.octet), w, 24);
    ShortBits2FffeFirst(s);
    ShortBits2FffeFirst(e.octet);
  }

  lemma ShortBits2FfffFirst(s: byte)
    requires 16 < EncTable(s).bits <= 24 && 0xffff00 <= Low(EncTable(s), 24) < 0x1000000
    ensures ShortBits2Ffff(Low(EncTable(s), 24) - 0xffff00) == Entry(s, EncTable(s).bits)
  {
    if s < 128 { ShortBits2FfffFirstAscii(s); } else { ShortBits2FfffFirstBeyond(s); }
  }

  lemma ShortBits2FfffFirstAscii(s: byte)
    requires s < 128 && 16 < EncTable(s).bits <= 24 && 0xffff00 <= Low(EncTable(s), 24) < 0x1000000
    ensures ShortBits2Ffff(Low(EncTable(s), 24) - 0xffff00) == Entry(s, EncTable(s).bits)
  {
    hide HighRows;
  }

  lemma ShortBits2FfffFirstBeyond(s: byte)
    requires s >= 128 && 16 < EncTable(s).bits <= 24 && 0xffff00 <= Low(EncTable(s), 24) < 0x1000000
    ensures ShortBits2Ffff(Low(EncTable(s), 24) - 0xffff00) == Entry(s, EncTable(s).bits)
  {
    hide AsciiRows;
  }

  lemma ShortBits2FfffComplete(s: byte, i: byte)
    requires 16 < EncTable(s).bits <= 24 && Spells(EncTable(s), 0xffff00 + i, 24)
    ensures i < 0xf6 && ShortBits2Ffff(i) == Entry(s, EncTable(s).bits)
  {
    hide EncTable, Spells, WellShaped, LengthAt;
    var c, w, e := EncTable(s), 0xffff00 + i, ShortBits2Ffff(i);
    CodeShape(s);
    CodeShape(e.octet);
    CodeInWindow(c, w, 24);
    ShortBits2FfffSound(i);
    SameCode(c, EncTable(e.octet), w, 24);
    ShortBits2FfffFirst(s);
    ShortBits2FfffFirst(e.octet);
  }

  lemma ShortBits23First(s: byte)
    requires 24 < EncTable(s).bits <= 27 && 0xfffff00 <= Low(EncTable(s), 28) < 0xfffffe0
    ensures ShortBits23(Low(EncTable(s), 28) - 0xfffff00) == Entry(s, EncTable(s).bits)
  {
    MiddleIsBeyond(s);
    ShortBits23FirstBeyond(s);
  }

  lemma ShortBits23FirstBeyond(s: byte)
    requires s >= 128 && 24 < EncTable(s).bits <= 27 && 0xfffff00 <= Low(EncTable(s), 28) < 0xfffffe0
    ensures ShortBits23(Low(EncTable(s), 28) - 0xfffff00) == Entry(s, EncTable(s).bits)
  {
    hide AsciiRows;
  }

  lemma ShortBits23Complete(s: byte, i: nat)
    requires i < 224 && 24 < EncTable(s).bits <= 27 && Spells(EncTable(s), 0xfffff00 + i, 28)
    ensures ShortBits23(i) == Entry(s, EncTable(s).bits)
  {
    hide EncTable, Spells, WellShaped, LengthAt;
    var c, w, e := EncTable(s), 0xfffff00 + i, ShortBits23(i);
    CodeShape(s);
    CodeShape(e.octet);
    CodeInWindow(c, w, 28);
    ShortBits23Sound(i);
    SameCode(c, EncTable(e.octet), w, 28);
    ShortBits23First(s);
    ShortBits23First(e.octet);
  }

  lemma ShortBits3First(s: byte)
    requires 26 < EncTable(s).bits && 0x3fff_ff80 <= Low(EncTable(s), 30) < 0x4000_0000
    ensures ShortBits3(Low(EncTable(s), 30) - 0x3fff_ff80) == Entry(s, EncTable(s).bits)
  {
    if s < 128 { ShortBits3FirstAscii(s); } else { ShortBits3FirstBeyond(s); }
  }

  lemma ShortBits3FirstAscii(s: byte)
    requires s < 128 && 26 < EncTable(s).bits && 0x3fff_ff80 <= Low(EncTable(s), 30) < 0x4000_0000
    ensures ShortBits3(Low(EncTable(s), 30) - 0x3fff_ff80) == Entry(s, EncTable(s).bits)
  {
    hide HighRows;
  }

  lemma ShortBits3FirstBeyond(s: byte)
    requires s >= 128 && 26 < EncTable(s).bits && 0x3fff_ff80 <= Low(EncTable(s), 30) < 0x4000_0000
    ensures ShortBits3(Low(EncTable(s), 30) - 0x3fff_ff80) == Entry(s, EncTable(s).bits)
  {
    hide AsciiRows;
  }

  lemma ShortBits3Complete(s: byte, i: nat)
    requires i < 128 && 26 < EncTable(s).bits && Spells(EncTable(s), 0x3fff_ff80 + i, 30)
    ensures i < 127 && ShortBits3(i) == Entry(s, EncTable(s).bits)
  {
    hide EncTable, Spells, WellShaped, LengthAt;
    var c, w, e := EncTable(s), 0x3fff_ff80 + i, ShortBits3(i);
    CodeShape(s);
    CodeShape(e.octet);
    CodeInWindow(c, w, 30);
    ShortBits3Sound(i);
    SameCode(c, EncTable(e.octet), w, 30);
    ShortBits3First(s);
    ShortBits3First(e.octet);
  }

  lemma BranchesOffFeComplete(s: byte, i: byte)
    requires 8 < EncTable(s).bits <= 16 && Spells(EncTable(s), 0xfe00 + i, 16)
    ensures Entry(s, EncTable(s).bits) == Entry(BRANCHES_OFF_FE[i / 64], 10)
  {
    HighIsLong(s);
    BranchesOffFeAscii(s, i);
  }

  lemma BranchesOffFeAscii(s: byte, i: byte)
    requires s < 128 && 8 < EncTable(s).bits <= 16 && Spells(EncTable(s), 0xfe00 + i, 16)
    ensures Entry(s, EncTable(s).bits) == Entry(BRANCHES_OFF_FE[i / 64], 10)
  {
    hide HighRows;
    ShrValues(0xfe00 + i);
  }

  // ---------------------------------------------------------------- the cascade against the code

  // The shifts by which the tables' windows are aligned.
  predicate Scales(k: nat, scale: nat) {
    (k, scale) in {(2, 4), (4, 0x10), (8, 0x100), (16, 0x1_0000), (24, 0x100_0000)}
  }

  lemma ShlScales(w: nat, k: nat, scale: nat)
    requires Scales(k, scale)
    ensures Pow2(k) == scale && Shl(w, k) == w * scale
  {
    ShlValues(w);
    ShlValues(w * 0x100);
    ShlValues(w * 0x1_0000);
    ShlAdd(w, 8, 8);
    ShlAdd(w, 16, 8);
    Pow2Values();
    Pow2Wide();
  }

  lemma Widen(e: Entry, w: nat, n: nat, low: nat, k: nat, scale: nat)
    requires Truthful(e, w, n) && low < scale && Scales(k, scale)
    ensures Truthful(e, w * scale + low, n + k)
  {
    hide EncTable;
    ShlScales(w, k, scale);
    SpellsPrefix(EncTable(e.octet), w, n, low, k);
  }

  /** What the cascade reports is spelled by the window it looked at. */
  lemma CascadeIsSound(w0: byte, w1: byte, w2: byte, w3: byte)
    ensures match Cascade(w0, w1, w2, w3)
            case Symbol(s, n) => Truthful(Entry(s, n), Window(w0, w1, w2, w3), 32)
            case EndOfString => Window(w0, w1, w2, w3) >= 0xffff_fffc
  {
    hide EncTable, ShortBits0, ShortBits1Ff, ShortBits2Fffe, ShortBits2Ffff, ShortBits23, ShortBits3;
    if w0 < 0xfe {
      ShortBits0Sound(w0);
      Widen(ShortBits0(w0), w0, 8, Window(0, w1, w2, w3), 24, 0x100_0000);
    } else if w0 == 0xfe {
      BranchesOffFeSound(w1);
      Widen(Entry(BRANCHES_OFF_FE[w1 / 64], 10), 0xfe00 + w1, 16, Window(0, 0, w2, w3), 16, 0x1_0000);
    } else if w1 < 0xfe {
      ShortBits1FfSound(w1);
      Widen(ShortBits1Ff(w1), 0xff00 + w1, 16, Window(0, 0, w2, w3), 16, 0x1_0000);
    } else {
      LongCascadeIsSound(w1, w2, w3);
    }
  }

  lemma LongCascadeIsSound(w1: byte, w2: byte, w3: byte)
    requires w1 >= 0xfe
    ensures match Cascade(0xff, w1, w2, w3)
            case Symbol(s, n) => Truthful(Entry(s, n), Window(0xff, w1, w2, w3), 32)
            case EndOfString => Window(0xff, w1, w2, w3) >= 0xffff_fffc
  {
    hide EncTable, ShortBits0, ShortBits1Ff, ShortBits2Fffe, ShortBits2Ffff, ShortBits23, ShortBits3;
    if w1 == 0xfe {
      ShortBits2FffeSound(w2);
      Widen(ShortBits2Fffe(w2), 0xfffe00 + w2, 24, w3, 8, 0x100);
    } else if w2 < 0xf6 {
      ShortBits2FfffSound(w2);
      Widen(ShortBits2Ffff(w2), 0xffff00 + w2, 24, w3, 8, 0x100);
    } else if w2 < 0xfe {
      Index23(w2, w3);
      ShortBits23InWindow(w2 % 16 * 16 + w3 / 16, w3 % 16);
    } else {
      Index3(w2, w3);
      ShortBits3InWindow(w2 % 2 * 64 + w3 / 4, w3 % 4);
    }
  }

  lemma Index23(w2: byte, w3: byte)
    requires 0xf6 <= w2 < 0xfe
    ensures var i := w2 % 16 * 16 + w3 / 16;
            96 <= i < 224 && Window(0xff, 0xff, w2, w3) == (0xfffff00 + i) * 16 + w3 % 16
  {}

  lemma Index3(w2: byte, w3: byte)
    requires 0xfe <= w2
    ensures var i := w2 % 2 * 64 + w3 / 4;
            i < 128 && Window(0xff, 0xff, w2, w3) == (0x3fff_ff80 + i) * 4 + w3 % 4
  {}

  lemma ShortBits23InWindow(i: nat, low: nat)
    requires 96 <= i < 224 && low < 16
    ensures Truthful(ShortBits23(i), (0xfffff00 + i) * 16 + low, 32)
  {
    ShortBits23Sound(i);
    Widen(ShortBits23(i), 0xfffff00 + i, 28, low, 4, 16);
  }

  lemma ShortBits3InWindow(i: nat, low: nat)
    requires i < 128 && low < 4
    ensures i < 127 ==> Truthful(ShortBits3(i), (0x3fff_ff80 + i) * 4 + low, 32)
  {
    if i < 127 {
      ShortBits3Sound(i);
      Widen(ShortBits3(i), 0x3fff_ff80 + i, 30, low, 2, 4);
    }
  }

  /** The cascade finds every symbol: no two code words start the same window. */
  lemma CascadeIsComplete(s: byte, w0: byte, w1: byte, w2: byte, w3: byte)
    requires Spells(EncTable(s), Window(w0, w1, w2, w3), 32)
    ensures Cascade(w0, w1, w2, w3) == Symbol(s, EncTable(s).bits)
  {
    hide EncTable, Spells, ShortBits0, ShortBits1Ff, ShortBits2Fffe, ShortBits2Ffff, ShortBits23, ShortBits3;
    var n := EncTable(s).bits;
    CodeShape(s);
    if n <= 8 {
      Narrow(s, w0, 8, Window(0, w1, w2, w3), 24, 0x100_0000);
      ShortBits0Complete(s, w0);
    } else if n <= 16 {
      var w := w0 * 0x100 + w1;
      Narrow(s, w, 16, Window(0, 0, w2, w3), 16, 0x1_0000);
      WordsStart(EncTable(s), w);
      if w0 == 0xfe { BranchesOffFeComplete(s, w1); } else { ShortBits1FfComplete(s, w1); }
    } else if n <= 24 {
      var w := w0 * 0x1_0000 + w1 * 0x100 + w2;
      Narrow(s, w, 24, w3, 8, 0x100);
      WordsStart(EncTable(s), w);
      if w1 == 0xfe { ShortBits2FffeComplete(s, w2); } else { ShortBits2FfffComplete(s, w2); }
    } else {
      LongCascadeIsComplete(s, w0, w1, w2, w3);
    }
  }

  lemma LongCascadeIsComplete(s: byte, w0: byte, w1: byte, w2: byte, w3: byte)
    requires EncTable(s).bits > 24 && Spells(EncTable(s), Window(w0, w1, w2, w3), 32)
    ensures Cascade(w0, w1, w2, w3) == Symbol(s, EncTable(s).bits)
  {
    hide EncTable, Spells, ShortBits0, ShortBits1Ff, ShortBits2Fffe, ShortBits2Ffff, ShortBits23, ShortBits3;
    LongCodesStart(s, Window(w0, w1, w2, w3));
    if w2 < 0xfe {
      Index23(w2, w3);
      ShortBits23Finds(s, w2 % 16 * 16 + w3 / 16, w3 % 16);
    } else {
      Index3(w2, w3);
      ShortBits3Finds(s, w2 % 2 * 64 + w3 / 4, w3 % 4);
    }
  }

  lemma LongCodesStart(s: byte, w: nat)
    requires EncTable(s).bits > 24 && Spells(EncTable(s), w, 32)
    ensures w >= 0xffff_f600
    ensures if w < 0xffff_fe00 then EncTable(s).bits <= 27 else EncTable(s).bits >= 27
  {
    hide EncTable, Spells;
    CodeShape(s);
    if EncTable(s).bits <= 27 {
      Narrow(s, w / 16, 28, w % 16, 4, 0x10);
      WordsStart(EncTable(s), w / 16);
    } else {
      Narrow(s, w / 4, 30, w % 4, 2, 4);
      WordsStart(EncTable(s), w / 4);
    }
  }

  lemma ShortBits23Finds(s: byte, i: nat, low: nat)
    requires 24 < EncTable(s).bits <= 27 && Spells(EncTable(s), (0xfffff00 + i) * 16 + low, 32)
    requires i < 224 && low < 16
    ensures ShortBits23(i) == Entry(s, EncTable(s).bits)
  {
    hide EncTable, Spells, ShortBits23;
    Narrow(s, 0xfffff00 + i, 28, low, 4, 16);
    ShortBits23Complete(s, i);
  }

  lemma ShortBits3Finds(s: byte, i: nat, low: nat)
    requires 26 < EncTable(s).bits && Spells(EncTable(s), (0x3fff_ff80 + i) * 4 + low, 32)
    requires i < 128 && low < 4
    ensures i < 127 && ShortBits3(i) == Entry(s, EncTable(s).bits)
  {
    hide EncTable, Spells, ShortBits3;
    CodeShape(s);
    Narrow(s, 0x3fff_ff80 + i, 30, low, 2, 4);
    ShortBits3Complete(s, i);
  }

  lemma Narrow(s: byte, w: nat, n: nat, low: nat, k: nat, scale: nat)
    requires EncTable(s).bits <= n && low < scale && Scales(k, scale)
    requires Spells(EncTable(s), w * scale + low, n + k)
    ensures Spells(EncTable(s), w, n)
  {
    hide EncTable, Spells;
    ShlScales(w, k, scale);
    SpellsPrefix(EncTable(s), w, n, low, k);
  }
}
