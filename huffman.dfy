/**
 * The Huffman code of HPACK (RFC 7541, Appendix B) as the codec holds it: a
 * decoding table from strings of binary digits to the 256 byte symbols, in
 * symbol order, and the encoding table the constructor derives from it by
 * inverting it.  Each key is given by the length and the value of the binary
 * string it is.  Three keys of the table are not strings of binary digits
 * (`GarbledKey`), so those three symbols can never be decoded.
 */
module HpackHuffman {
  import opened Http2Errors
  import opened JsRuntime

  /**
   * A key of the decoding table: the string of `length` binary digits that
   * spells `code`, or a key that is not made of binary digits.
   */
  datatype HuffmanKey = Bits(length: nat, code: nat) | Garbled(text: string)

  /** The key as the string it is in the table. */
  function KeyText(key: HuffmanKey): string
  {
    match key
    case Bits(length, code) => BinaryDigits(length, code)
    case Garbled(text) => text
  }

  /** The `i`-th of sixteen values (a row of the tables below). */
  function Pick(i: int, a0: int, a1: int, a2: int, a3: int, a4: int, a5: int, a6: int, a7: int,
                a8: int, a9: int, a10: int, a11: int, a12: int, a13: int, a14: int, a15: int): int
  {
    match i
    case 0 => a0
    case 1 => a1
    case 2 => a2
    case 3 => a3
    case 4 => a4
    case 5 => a5
    case 6 => a6
    case 7 => a7
    case 8 => a8
    case 9 => a9
    case 10 => a10
    case 11 => a11
    case 12 => a12
    case 13 => a13
    case 14 => a14
    case 15 => a15
    case _ => 0
  }

  /** The length in bits of the code of each symbol, sixteen symbols to a row. */
  function CodeLength(symbol: int): (r: int)
    ensures 0 <= symbol < 256 ==> 5 <= r <= 30
  {
    match symbol / 16
    case 0x0 => Pick(symbol % 16, 13, 23, 28, 28, 28, 28, 28, 28, 28, 24, 30, 28, 28, 30, 28, 28)
    case 0x1 => Pick(symbol % 16, 28, 28, 28, 28, 28, 28, 30, 28, 28, 28, 28, 28, 28, 28, 28, 28)
    case 0x2 => Pick(symbol % 16, 6, 10, 10, 12, 13, 6, 8, 11, 10, 10, 8, 11, 8, 6, 6, 6)
    case 0x3 => Pick(symbol % 16, 5, 5, 5, 6, 6, 6, 6, 6, 6, 6, 7, 8, 15, 6, 12, 10)
    case 0x4 => Pick(symbol % 16, 13, 6, 7, 7, 7, 7, 7, 7, 7, 7, 7, 7, 7, 7, 7, 7)
    case 0x5 => Pick(symbol % 16, 7, 7, 7, 7, 7, 7, 7, 7, 8, 7, 8, 13, 19, 13, 14, 6)
    case 0x6 => Pick(symbol % 16, 15, 5, 6, 5, 6, 5, 6, 6, 6, 5, 7, 7, 6, 6, 6, 5)
    case 0x7 => Pick(symbol % 16, 6, 7, 6, 5, 5, 6, 7, 7, 7, 7, 7, 15, 11, 14, 13, 28)
    case 0x8 => Pick(symbol % 16, 20, 22, 20, 20, 22, 22, 22, 23, 22, 23, 23, 23, 23, 23, 24, 23)
    case 0x9 => Pick(symbol % 16, 24, 24, 22, 23, 24, 23, 23, 23, 23, 21, 22, 23, 22, 23, 23, 24)
    case 0xa => Pick(symbol % 16, 22, 21, 20, 22, 22, 23, 23, 21, 23, 22, 22, 24, 21, 22, 23, 23)
    case 0xb => Pick(symbol % 16, 21, 21, 22, 21, 23, 22, 23, 23, 20, 22, 22, 22, 23, 22, 22, 23)
    case 0xc => Pick(symbol % 16, 26, 26, 20, 19, 22, 23, 22, 25, 26, 26, 26, 27, 27, 26, 24, 25)
    case 0xd => Pick(symbol % 16, 19, 21, 26, 27, 27, 26, 27, 24, 21, 21, 26, 26, 28, 27, 27, 27)
    case 0xe => Pick(symbol % 16, 20, 24, 20, 21, 22, 21, 21, 23, 22, 22, 25, 25, 24, 24, 26, 23)
    case 0xf => Pick(symbol % 16, 26, 27, 26, 26, 27, 27, 27, 27, 27, 28, 27, 27, 27, 27, 27, 26)
    case _ => 0
  }

  /** The code of each symbol as a number, sixteen symbols to a row. */
  function CodeBits(symbol: int): (r: int)
    ensures 0 <= r
  {
    match symbol / 16
    case 0x0 => Pick(symbol % 16, 0x1ff8, 0x7fffd8, 0xfffffe2, 0xfffffe3, 0xfffffe4, 0xfffffe5, 0xfffffe6, 0xfffffe7, 0xfffffe8, 0xffffea, 0x3ffffffc, 0xfffffe9, 0xfffffea, 0x3ffffffd, 0xfffffeb, 0xfffffec)
    case 0x1 => Pick(symbol % 16, 0xfffffed, 0xfffffee, 0xfffffef, 0xffffff0, 0xffffff1, 0xffffff2, 0x3ffffffe, 0xffffff3, 0xffffff4, 0xffffff5, 0xffffff6, 0xffffff7, 0xffffff8, 0xffffff9, 0xffffffa, 0xffffffb)
    case 0x2 => Pick(symbol % 16, 0x14, 0x3f8, 0x3f9, 0xffa, 0x1ff9, 0x15, 0xf8, 0x7fa, 0x3fa, 0x3fb, 0xf9, 0x7fb, 0xfa, 0x16, 0x17, 0x18)
    case 0x3 => Pick(symbol % 16, 0x0, 0x1, 0x2, 0x19, 0x1a, 0x1b, 0x1c, 0x1d, 0x1e, 0x1f, 0x5c, 0xfb, 0x7ffc, 0x20, 0xffb, 0x3fc)
    case 0x4 => Pick(symbol % 16, 0x1ffa, 0x21, 0x5d, 0x5e, 0x5f, 0x60, 0x61, 0x62, 0x63, 0x64, 0x65, 0x66, 0x67, 0x68, 0x69, 0x6a)
    case 0x5 => Pick(symbol % 16, 0x6b, 0x6c, 0x6d, 0x6e, 0x6f, 0x70, 0x71, 0x72, 0xfc, 0x73, 0xfd, 0x1ffb, 0x7fff0, 0x1ffc, 0x3ffc, 0x22)
    case 0x6 => Pick(symbol % 16, 0x7ffd, 0x3, 0x23, 0x4, 0x24, 0x5, 0x25, 0x26, 0x27, 0x6, 0x74, 0x75, 0x28, 0x29, 0x2a, 0x7)
    case 0x7 => Pick(symbol % 16, 0x2b, 0x76, 0x2c, 0x8, 0x9, 0x2d, 0x77, 0x78, 0x79, 0x7a, 0x7b, 0x7ffe, 0x7fc, 0x3ffd, 0x1ffd, 0xffffffc)
    case 0x8 => Pick(symbol % 16, 0xfffe6, 0x3fffd2, 0xfffe7, 0xfffe8, 0x3fffd3, 0x3fffd4, 0x3fffd5, 0x7fffd9, 0x3fffd6, 0x7fffda, 0x7fffdb, 0x7fffdc, 0x7fffdd, 0x7fffde, 0xffffeb, 0x7fffdf)
    case 0x9 => Pick(symbol % 16, 0xffffec, 0xffffed, 0x3fffd7, 0x7fffe0, 0xffffee, 0x7fffe1, 0x7fffe2, 0x7fffe3, 0x7fffe4, 0x1fffdc, 0x3fffd8, 0x7fffe5, 0x3fffd9, 0x7fffe6, 0x7fffe7, 0xffffef)
    case 0xa => Pick(symbol % 16, 0x3fffda, 0x1fffdd, 0xfffe9, 0x3fffdb, 0x3fffdc, 0x7fffe8, 0x7fffe9, 0x1fffde, 0x7fffea, 0x3fffdd, 0x3fffde, 0xfffff0, 0x1fffdf, 0x3fffdf, 0x7fffeb, 0x7fffec)
    case 0xb => Pick(symbol % 16, 0x1fffe0, 0x1fffe1, 0x3fffe0, 0x1fffe2, 0x7fffed, 0x3fffe1, 0x7fffee, 0x7fffef, 0xfffea, 0x3fffe2, 0x3fffe3, 0x3fffe4, 0x7ffff0, 0x3fffe5, 0x3fffe6, 0x7ffff1)
    case 0xc => Pick(symbol % 16, 0x3ffffe0, 0x3ffffe1, 0xfffeb, 0x7fff1, 0x3fffe7, 0x7ffff2, 0x3fffe8, 0x1ffffec, 0x3ffffe2, 0x3ffffe3, 0x3ffffe4, 0x7ffffde, 0x7ffffdf, 0x3ffffe5, 0xfffff1, 0x1ffffed)
    case 0xd => Pick(symbol % 16, 0x7fff2, 0x1fffe3, 0x3ffffe6, 0x7ffffe0, 0x7ffffe1, 0x3ffffe7, 0x7ffffe2, 0xfffff2, 0x1fffe4, 0x1fffe5, 0x3ffffe8, 0x3ffffe9, 0xffffffd, 0x7ffffe3, 0x7ffffe4, 0x7ffffe5)
    case 0xe => Pick(symbol % 16, 0xfffec, 0xfffff3, 0xfffed, 0x1fffe6, 0x3fffe9, 0x1fffe7, 0x1fffe8, 0x7ffff3, 0x3fffea, 0x3fffeb, 0x1ffffee, 0x1ffffef, 0xfffff4, 0xfffff5, 0x3ffffea, 0x7ffff4)
    case 0xf => Pick(symbol % 16, 0x3ffffeb, 0x7ffffe6, 0x3ffffec, 0x3ffffed, 0x7ffffe7, 0x7ffffe8, 0x7ffffe9, 0x7ffffea, 0x7ffffeb, 0xffffffe, 0x7ffffec, 0x7ffffed, 0x7ffffee, 0x7ffffef, 0x7fffff0, 0x3ffffee)
    case _ => 0
  }

  /**
   * The three keys of the table that are not the binary digits of their
   * code: the key of '`' (96) has a '|' in the middle, and those of 0xc6
   * and 0xeb a trailing space.
   */
  function GarbledKey(symbol: int): Option<string>
  {
    match symbol
    case 96 => Some("11111111|1111101")
    case 198 => Some("1111111111111111101000 ")
    case 235 => Some("1111111111111111111101111 ")
    case _ => None
  }

  /** The least code of each length in the table. */
  function FirstCode(length: int): int
  {
    match length
    case 5 => 0x0
    case 6 => 0x14
    case 7 => 0x5c
    case 8 => 0xf8
    case 9 => 0x1fc
    case 10 => 0x3f8
    case 11 => 0x7fa
    case 12 => 0xffa
    case 13 => 0x1ff8
    case 14 => 0x3ffc
    case 15 => 0x7ffc
    case 16 => 0xfffe
    case 17 => 0x1fffc
    case 18 => 0x3fff8
    case 19 => 0x7fff0
    case 20 => 0xfffe6
    case 21 => 0x1fffdc
    case 22 => 0x3fffd2
    case 23 => 0x7fffd8
    case 24 => 0xffffea
    case 25 => 0x1ffffec
    case 26 => 0x3ffffe0
    case 27 => 0x7ffffde
    case 28 => 0xfffffe2
    case 29 => 0x1ffffffe
    case 30 => 0x3ffffffc
    case _ => 0
  }

  /** One past the greatest code of each length (equal to `FirstCode` for a length no key has). */
  function EndCode(length: int): int
  {
    match length
    case 5 => 0xa
    case 6 => 0x2e
    case 7 => 0x7c
    case 8 => 0xfe
    case 9 => 0x1fc
    case 10 => 0x3fd
    case 11 => 0x7fd
    case 12 => 0xffc
    case 13 => 0x1ffe
    case 14 => 0x3ffe
    case 15 => 0x7fff
    case 16 => 0xfffe
    case 17 => 0x1fffc
    case 18 => 0x3fff8
    case 19 => 0x7fff3
    case 20 => 0xfffee
    case 21 => 0x1fffe9
    case 22 => 0x3fffec
    case 23 => 0x7ffff5
    case 24 => 0xfffff6
    case 25 => 0x1ffffef
    case 26 => 0x3ffffef
    case 27 => 0x7fffff1
    case 28 => 0xfffffff
    case 29 => 0x1ffffffe
    case 30 => 0x3fffffff
    case _ => 0
  }

  /** The symbol whose key is the binary string of `code` with `length` digits, or -1 when there is none. */
  ghost function SymbolOfCode(length: int, code: int): int
  {
    match length
    case 5 => (
      match code
      case 0x0 => 48
      case 0x1 => 49
      case 0x2 => 50
      case 0x3 => 97
      case 0x4 => 99
      case 0x5 => 101
      case 0x6 => 105
      case 0x7 => 111
      case 0x8 => 115
      case 0x9 => 116
      case _ => -1)
    case 6 => (
      match code
      case 0x14 => 32
      case 0x15 => 37
      case 0x16 => 45
      case 0x17 => 46
      case 0x18 => 47
      case 0x19 => 51
      case 0x1a => 52
      case 0x1b => 53
      case 0x1c => 54
      case 0x1d => 55
      case 0x1e => 56
      case 0x1f => 57
      case 0x20 => 61
      case 0x21 => 65
      case 0x22 => 95
      case 0x23 => 98
      case 0x24 => 100
      case 0x25 => 102
      case 0x26 => 103
      case 0x27 => 104
      case 0x28 => 108
      case 0x29 => 109
      case 0x2a => 110
      case 0x2b => 112
      case 0x2c => 114
      case 0x2d => 117
      case _ => -1)
    case 7 => (
      match code
      case 0x5c => 58
      case 0x5d => 66
      case 0x5e => 67
      case 0x5f => 68
      case 0x60 => 69
      case 0x61 => 70
      case 0x62 => 71
      case 0x63 => 72
      case 0x64 => 73
      case 0x65 => 74
      case 0x66 => 75
      case 0x67 => 76
      case 0x68 => 77
      case 0x69 => 78
      case 0x6a => 79
      case 0x6b => 80
      case 0x6c => 81
      case 0x6d => 82
      case 0x6e => 83
      case 0x6f => 84
      case 0x70 => 85
      case 0x71 => 86
      case 0x72 => 87
      case 0x73 => 89
      case 0x74 => 106
      case 0x75 => 107
      case 0x76 => 113
      case 0x77 => 118
      case 0x78 => 119
      case 0x79 => 120
      case 0x7a => 121
      case 0x7b => 122
      case _ => -1)
    case 8 => (
      match code
      case 0xf8 => 38
      case 0xf9 => 42
      case 0xfa => 44
      case 0xfb => 59
      case 0xfc => 88
      case 0xfd => 90
      case _ => -1)
    case 10 => (
      match code
      case 0x3f8 => 33
      case 0x3f9 => 34
      case 0x3fa => 40
      case 0x3fb => 41
      case 0x3fc => 63
      case _ => -1)
    case 11 => (
      match code
      case 0x7fa => 39
      case 0x7fb => 43
      case 0x7fc => 124
      case _ => -1)
    case 12 => (
      match code
      case 0xffa => 35
      case 0xffb => 62
      case _ => -1)
    case 13 => (
      match code
      case 0x1ff8 => 0
      case 0x1ff9 => 36
      case 0x1ffa => 64
      case 0x1ffb => 91
      case 0x1ffc => 93
      case 0x1ffd => 126
      case _ => -1)
    case 14 => (
      match code
      case 0x3ffc => 94
      case 0x3ffd => 125
      case _ => -1)
    case 15 => (
      match code
      case 0x7ffc => 60
      case 0x7ffe => 123
      case _ => -1)
    case 19 => (
      match code
      case 0x7fff0 => 92
      case 0x7fff1 => 195
      case 0x7fff2 => 208
      case _ => -1)
    case 20 => (
      match code
      case 0xfffe6 => 128
      case 0xfffe7 => 130
      case 0xfffe8 => 131
      case 0xfffe9 => 162
      case 0xfffea => 184
      case 0xfffeb => 194
      case 0xfffec => 224
      case 0xfffed => 226
      case _ => -1)
    case 21 => (
      match code
      case 0x1fffdc => 153
      case 0x1fffdd => 161
      case 0x1fffde => 167
      case 0x1fffdf => 172
      case 0x1fffe0 => 176
      case 0x1fffe1 => 177
      case 0x1fffe2 => 179
      case 0x1fffe3 => 209
      case 0x1fffe4 => 216
      case 0x1fffe5 => 217
      case 0x1fffe6 => 227
      case 0x1fffe7 => 229
      case 0x1fffe8 => 230
      case _ => -1)
    case 22 => (
      match code
      case 0x3fffd2 => 129
      case 0x3fffd3 => 132
      case 0x3fffd4 => 133
      case 0x3fffd5 => 134
      case 0x3fffd6 => 136
      case 0x3fffd7 => 146
      case 0x3fffd8 => 154
      case 0x3fffd9 => 156
      case 0x3fffda => 160
      case 0x3fffdb => 163
      case 0x3fffdc => 164
      case 0x3fffdd => 169
      case 0x3fffde => 170
      case 0x3fffdf => 173
      case 0x3fffe0 => 178
      case 0x3fffe1 => 181
      case 0x3fffe2 => 185
      case 0x3fffe3 => 186
      case 0x3fffe4 => 187
      case 0x3fffe5 => 189
      case 0x3fffe6 => 190
      case 0x3fffe7 => 196
      case 0x3fffe9 => 228
      case 0x3fffea => 232
      case 0x3fffeb => 233
      case _ => -1)
    case 23 => (
      match code
      case 0x7fffd8 => 1
      case 0x7fffd9 => 135
      case 0x7fffda => 137
      case 0x7fffdb => 138
      case 0x7fffdc => 139
      case 0x7fffdd => 140
      case 0x7fffde => 141
      case 0x7fffdf => 143
      case 0x7fffe0 => 147
      case 0x7fffe1 => 149
      case 0x7fffe2 => 150
      case 0x7fffe3 => 151
      case 0x7fffe4 => 152
      case 0x7fffe5 => 155
      case 0x7fffe6 => 157
      case 0x7fffe7 => 158
      case 0x7fffe8 => 165
      case 0x7fffe9 => 166
      case 0x7fffea => 168
      case 0x7fffeb => 174
      case 0x7fffec => 175
      case 0x7fffed => 180
      case 0x7fffee => 182
      case 0x7fffef => 183
      case 0x7ffff0 => 188
      case 0x7ffff1 => 191
      case 0x7ffff2 => 197
      case 0x7ffff3 => 231
      case 0x7ffff4 => 239
      case _ => -1)
    case 24 => (
      match code
      case 0xffffea => 9
      case 0xffffeb => 142
      case 0xffffec => 144
      case 0xffffed => 145
      case 0xffffee => 148
      case 0xffffef => 159
      case 0xfffff0 => 171
      case 0xfffff1 => 206
      case 0xfffff2 => 215
      case 0xfffff3 => 225
      case 0xfffff4 => 236
      case 0xfffff5 => 237
      case _ => -1)
    case 25 => (
      match code
      case 0x1ffffec => 199
      case 0x1ffffed => 207
      case 0x1ffffee => 234
      case _ => -1)
    case 26 => (
      match code
      case 0x3ffffe0 => 192
      case 0x3ffffe1 => 193
      case 0x3ffffe2 => 200
      case 0x3ffffe3 => 201
      case 0x3ffffe4 => 202
      case 0x3ffffe5 => 205
      case 0x3ffffe6 => 210
      case 0x3ffffe7 => 213
      case 0x3ffffe8 => 218
      case 0x3ffffe9 => 219
      case 0x3ffffea => 238
      case 0x3ffffeb => 240
      case 0x3ffffec => 242
      case 0x3ffffed => 243
      case 0x3ffffee => 255
      case _ => -1)
    case 27 => (
      match code
      case 0x7ffffde => 203
      case 0x7ffffdf => 204
      case 0x7ffffe0 => 211
      case 0x7ffffe1 => 212
      case 0x7ffffe2 => 214
      case 0x7ffffe3 => 221
      case 0x7ffffe4 => 222
      case 0x7ffffe5 => 223
      case 0x7ffffe6 => 241
      case 0x7ffffe7 => 244
      case 0x7ffffe8 => 245
      case 0x7ffffe9 => 246
      case 0x7ffffea => 247
      case 0x7ffffeb => 248
      case 0x7ffffec => 250
      case 0x7ffffed => 251
      case 0x7ffffee => 252
      case 0x7ffffef => 253
      case 0x7fffff0 => 254
      case _ => -1)
    case 28 => (
      match code
      case 0xfffffe2 => 2
      case 0xfffffe3 => 3
      case 0xfffffe4 => 4
      case 0xfffffe5 => 5
      case 0xfffffe6 => 6
      case 0xfffffe7 => 7
      case 0xfffffe8 => 8
      case 0xfffffe9 => 11
      case 0xfffffea => 12
      case 0xfffffeb => 14
      case 0xfffffec => 15
      case 0xfffffed => 16
      case 0xfffffee => 17
      case 0xfffffef => 18
      case 0xffffff0 => 19
      case 0xffffff1 => 20
      case 0xffffff2 => 21
      case 0xffffff3 => 23
      case 0xffffff4 => 24
      case 0xffffff5 => 25
      case 0xffffff6 => 26
      case 0xffffff7 => 27
      case 0xffffff8 => 28
      case 0xffffff9 => 29
      case 0xffffffa => 30
      case 0xffffffb => 31
      case 0xffffffc => 127
      case 0xffffffd => 220
      case 0xffffffe => 249
      case _ => -1)
    case 30 => (
      match code
      case 0x3ffffffc => 10
      case 0x3ffffffd => 13
      case 0x3ffffffe => 22
      case _ => -1)
    case _ => -1
  }
  /** The key under which the decoding table holds `symbol`. */
  function HuffmanTableEntry(symbol: byte): HuffmanKey
  {
    match GarbledKey(symbol)
    case Some(text) => Garbled(text)
    case None => Bits(CodeLength(symbol), CodeBits(symbol))
  }

  /**
   * `HuffmanDecodingTable[key]`: the symbol stored under `key`, or `None`
   * when the key is absent.  The table holds each key once, so any order of
   * search finds the same symbol.
   */
  function DecodingTableLookup(key: string): Option<byte>
  {
    FindSymbol(key, 0, 256)
  }

  /**
   * A symbol in `lo..hi` whose key is `key`, searched for by halving the
   * range.  The key, which never changes, heads the termination measure so
   * that the verifier does not unroll the search over the whole table for
   * every key it meets.
   */
  function FindSymbol(key: string, lo: nat, hi: nat): Option<byte>
    requires lo < hi <= 256
    decreases key, hi - lo
  {
    if hi - lo == 1 then
      if KeyMatches(key, lo) then Some(lo) else None
    else
      var mid := (lo + hi) / 2;
      match FindSymbol(key, lo, mid)
      case Some(symbol) => Some(symbol)
      case None => FindSymbol(key, mid, hi)
  }

  /**
   * `key` is the key of `symbol`: a key that is not binary is compared as
   * text, a binary one by its length and the number its digits spell.
   */
  predicate KeyMatches(key: string, symbol: byte)
  {
    match HuffmanTableEntry(symbol)
    case Garbled(text) => text == key
    case Bits(length, code) => |key| == length && BinaryPrefixLength(key) == length && BinaryValue(key) == code
  }

  /** Comparing by length and value is comparing the text. */
  lemma {:induction false} KeyMatchesText(key: string, symbol: byte)
    ensures KeyMatches(key, symbol) <==> KeyText(HuffmanTableEntry(symbol)) == key
  {
    match HuffmanTableEntry(symbol)
    case Garbled(text) =>
    case Bits(length, code) =>
      CodeFits(symbol);
      BinaryDigitsValue(length, code);
      BinaryPrefixOfBinary(BinaryDigits(length, code));
      if KeyMatches(key, symbol) {
        BinaryPrefixLengthSpec(key);
        assert key[..length] == key;
        BinaryValueDigits(key);
      }
  }

  /** The search finds a symbol stored under `key` exactly when there is one in its range. */
  lemma {:induction false} FindSymbolSpec(key: string, lo: nat, hi: nat)
    requires lo < hi <= 256
    ensures FindSymbol(key, lo, hi).Some? ==>
      lo <= FindSymbol(key, lo, hi).value < hi && KeyText(HuffmanTableEntry(FindSymbol(key, lo, hi).value)) == key
    ensures FindSymbol(key, lo, hi).None? ==> forall t: byte :: lo <= t < hi ==> KeyText(HuffmanTableEntry(t)) != key
    decreases hi - lo
  {
    if hi - lo == 1 {
      KeyMatchesText(key, lo);
      if FindSymbol(key, lo, hi).None? {
        forall t: byte | lo <= t < hi
          ensures KeyText(HuffmanTableEntry(t)) != key
        {
          assert t == lo;
        }
      }
    } else {
      var mid := (lo + hi) / 2;
      FindSymbolSpec(key, lo, mid);
      FindSymbolSpec(key, mid, hi);
    }
  }

  /** A lookup gives a symbol whose key is `key`, and gives none only when no symbol has that key. */
  lemma {:induction false} DecodingTableLookupSpec(key: string)
    ensures DecodingTableLookup(key).Some? ==> KeyText(HuffmanTableEntry(DecodingTableLookup(key).value)) == key
    ensures DecodingTableLookup(key).None? ==> forall t: byte :: KeyText(HuffmanTableEntry(t)) != key
  {
    FindSymbolSpec(key, 0, 256);
  }

  /**
   * The key the constructor's loop stores under the one-character string `c`
   * among the entries of the decoding table for the symbols `n` to 255.  Each
   * symbol is held under one key only, so no entry overwrites another and
   * the order in which the loop visits the keys does not matter.  The
   * character heads the termination measure for the same reason as the key
   * in `FindSymbol`.
   */
  function StoredKey(c: char, n: nat): Option<HuffmanKey>
    requires n <= 256
    decreases c as int, 256 - n
  {
    if n == 256 then None
    else if c as int == n then Some(HuffmanTableEntry(n))
    else StoredKey(c, n + 1)
  }

  /** The loop stores, under each character it reaches, the key the decoding table lists for it. */
  lemma {:induction false} StoredKeySpec(c: char, n: nat)
    requires n <= 256
    ensures StoredKey(c, n) == if n <= c as int < 256 then Some(HuffmanTableEntry(c as int)) else None
    decreases 256 - n
  {
    if n < 256 && c as int != n {
      StoredKeySpec(c, n + 1);
    }
  }

  /**
   * `HuffmanEncodingTable[c]` once the constructor has filled it in; a
   * character with no entry (one above 0xff) reads as `undefined`.
   */
  function EncodingTableLookup(c: char): string
  {
    match StoredKey(c, 0)
    case Some(key) => KeyText(key)
    case None => "undefined"
  }

  /** Every symbol's entry in the encoding table is its key in the decoding table. */
  lemma {:induction false} EncodingTableEntry(symbol: byte)
    ensures EncodingTableLookup(symbol as char) == KeyText(HuffmanTableEntry(symbol))
  {
    StoredKeySpec(symbol as char, 0);
  }

  // ---------------------------------------------------------------- facts about the table

  lemma {:induction false} CodesOfLength5(t: int)
    requires 0 <= t < 256 && GarbledKey(t).None? && CodeLength(t) == 5
    ensures FirstCode(5) <= CodeBits(t) < EndCode(5) && SymbolOfCode(5, CodeBits(t)) == t
  {
  }

  lemma {:induction false} CodesOfLength6(t: int)
    requires 0 <= t < 256 && GarbledKey(t).None? && CodeLength(t) == 6
    ensures FirstCode(6) <= CodeBits(t) < EndCode(6) && SymbolOfCode(6, CodeBits(t)) == t
  {
  }

  lemma {:induction false} CodesOfLength7(t: int)
    requires 0 <= t < 256 && GarbledKey(t).None? && CodeLength(t) == 7
    ensures FirstCode(7) <= CodeBits(t) < EndCode(7) && SymbolOfCode(7, CodeBits(t)) == t
  {
  }

  lemma {:induction false} CodesOfLength8(t: int)
    requires 0 <= t < 256 && GarbledKey(t).None? && CodeLength(t) == 8
    ensures FirstCode(8) <= CodeBits(t) < EndCode(8) && SymbolOfCode(8, CodeBits(t)) == t
  {
  }

  lemma {:induction false} CodesOfLength10(t: int)
    requires 0 <= t < 256 && GarbledKey(t).None? && CodeLength(t) == 10
    ensures FirstCode(10) <= CodeBits(t) < EndCode(10) && SymbolOfCode(10, CodeBits(t)) == t
  {
  }

  lemma {:induction false} CodesOfLength11(t: int)
    requires 0 <= t < 256 && GarbledKey(t).None? && CodeLength(t) == 11
    ensures FirstCode(11) <= CodeBits(t) < EndCode(11) && SymbolOfCode(11, CodeBits(t)) == t
  {
  }

  lemma {:induction false} CodesOfLength12(t: int)
    requires 0 <= t < 256 && GarbledKey(t).None? && CodeLength(t) == 12
    ensures FirstCode(12) <= CodeBits(t) < EndCode(12) && SymbolOfCode(12, CodeBits(t)) == t
  {
  }

  lemma {:induction false} CodesOfLength13(t: int)
    requires 0 <= t < 256 && GarbledKey(t).None? && CodeLength(t) == 13
    ensures FirstCode(13) <= CodeBits(t) < EndCode(13) && SymbolOfCode(13, CodeBits(t)) == t
  {
  }

  lemma {:induction false} CodesOfLength14(t: int)
    requires 0 <= t < 256 && GarbledKey(t).None? && CodeLength(t) == 14
    ensures FirstCode(14) <= CodeBits(t) < EndCode(14) && SymbolOfCode(14, CodeBits(t)) == t
  {
  }

  lemma {:induction false} CodesOfLength15(t: int)
    requires 0 <= t < 256 && GarbledKey(t).None? && CodeLength(t) == 15
    ensures FirstCode(15) <= CodeBits(t) < EndCode(15) && SymbolOfCode(15, CodeBits(t)) == t
  {
  }

  lemma {:induction false} CodesOfLength19(t: int)
    requires 0 <= t < 256 && GarbledKey(t).None? && CodeLength(t) == 19
    ensures FirstCode(19) <= CodeBits(t) < EndCode(19) && SymbolOfCode(19, CodeBits(t)) == t
  {
  }

  lemma {:induction false} CodesOfLength20(t: int)
    requires 0 <= t < 256 && GarbledKey(t).None? && CodeLength(t) == 20
    ensures FirstCode(20) <= CodeBits(t) < EndCode(20) && SymbolOfCode(20, CodeBits(t)) == t
  {
  }

  lemma {:induction false} CodesOfLength21(t: int)
    requires 0 <= t < 256 && GarbledKey(t).None? && CodeLength(t) == 21
    ensures FirstCode(21) <= CodeBits(t) < EndCode(21) && SymbolOfCode(21, CodeBits(t)) == t
  {
  }

  lemma {:induction false} CodesOfLength22(t: int)
    requires 0 <= t < 256 && GarbledKey(t).None? && CodeLength(t) == 22
    ensures FirstCode(22) <= CodeBits(t) < EndCode(22) && SymbolOfCode(22, CodeBits(t)) == t
  {
  }

  lemma {:induction false} CodesOfLength23(t: int)
    requires 0 <= t < 256 && GarbledKey(t).None? && CodeLength(t) == 23
    ensures FirstCode(23) <= CodeBits(t) < EndCode(23) && SymbolOfCode(23, CodeBits(t)) == t
  {
  }

  lemma {:induction false} CodesOfLength24(t: int)
    requires 0 <= t < 256 && GarbledKey(t).None? && CodeLength(t) == 24
    ensures FirstCode(24) <= CodeBits(t) < EndCode(24) && SymbolOfCode(24, CodeBits(t)) == t
  {
  }

  lemma {:induction false} CodesOfLength25(t: int)
    requires 0 <= t < 256 && GarbledKey(t).None? && CodeLength(t) == 25
    ensures FirstCode(25) <= CodeBits(t) < EndCode(25) && SymbolOfCode(25, CodeBits(t)) == t
  {
  }

  lemma {:induction false} CodesOfLength26(t: int)
    requires 0 <= t < 256 && GarbledKey(t).None? && CodeLength(t) == 26
    ensures FirstCode(26) <= CodeBits(t) < EndCode(26) && SymbolOfCode(26, CodeBits(t)) == t
  {
  }

  lemma {:induction false} CodesOfLength27(t: int)
    requires 0 <= t < 256 && GarbledKey(t).None? && CodeLength(t) == 27
    ensures FirstCode(27) <= CodeBits(t) < EndCode(27) && SymbolOfCode(27, CodeBits(t)) == t
  {
  }

  lemma {:induction false} CodesOfLength28(t: int)
    requires 0 <= t < 256 && GarbledKey(t).None? && CodeLength(t) == 28
    ensures FirstCode(28) <= CodeBits(t) < EndCode(28) && SymbolOfCode(28, CodeBits(t)) == t
  {
  }

  lemma {:induction false} CodesOfLength30(t: int)
    requires 0 <= t < 256 && GarbledKey(t).None? && CodeLength(t) == 30
    ensures FirstCode(30) <= CodeBits(t) < EndCode(30) && SymbolOfCode(30, CodeBits(t)) == t
  {
  }

  /** Every binary key lies in its length's code range, and no two symbols share one. */
  lemma {:induction false} CodeFacts(t: byte)
    requires GarbledKey(t).None?
    ensures FirstCode(CodeLength(t)) <= CodeBits(t) < EndCode(CodeLength(t))
    ensures SymbolOfCode(CodeLength(t), CodeBits(t)) == t
  {
    CodeLengthsUsed(t);
    var l := CodeLength(t);
    if l == 5 {
      CodesOfLength5(t);
    } else if l == 6 {
      CodesOfLength6(t);
    } else if l == 7 {
      CodesOfLength7(t);
    } else if l == 8 {
      CodesOfLength8(t);
    } else if l == 10 {
      CodesOfLength10(t);
    } else if l == 11 {
      CodesOfLength11(t);
    } else if l == 12 {
      CodesOfLength12(t);
    } else if l == 13 {
      CodesOfLength13(t);
    } else if l == 14 {
      CodesOfLength14(t);
    } else if l == 15 {
      CodesOfLength15(t);
    } else if l == 19 {
      CodesOfLength19(t);
    } else if l == 20 {
      CodesOfLength20(t);
    } else if l == 21 {
      CodesOfLength21(t);
    } else if l == 22 {
      CodesOfLength22(t);
    } else if l == 23 {
      CodesOfLength23(t);
    } else if l == 24 {
      CodesOfLength24(t);
    } else if l == 25 {
      CodesOfLength25(t);
    } else if l == 26 {
      CodesOfLength26(t);
    } else if l == 27 {
      CodesOfLength27(t);
    } else if l == 28 {
      CodesOfLength28(t);
    } else if l == 30 {
      CodesOfLength30(t);
    }
  }

  /** No key has 9, 16, 17, 18 or 29 digits. */
  lemma {:induction false} CodeLengthsUsed(t: int)
    requires 0 <= t < 256
    ensures CodeLength(t) != 9 && CodeLength(t) != 16 && CodeLength(t) != 17
    ensures CodeLength(t) != 18 && CodeLength(t) != 29
  {
    NoCodesOfLength(t, 9);
    NoCodesOfLength(t, 16);
    NoCodesOfLength(t, 17);
    NoCodesOfLength(t, 18);
    NoCodesOfLength(t, 29);
  }

  lemma {:induction false} NoCodesOfLength(t: int, l: int)
    requires 0 <= t < 256
    requires l == 9 || l == 16 || l == 17 || l == 18 || l == 29
    ensures CodeLength(t) != l
  {
  }
  /** The three garbled keys are not binary strings, and they differ from each other. */
  lemma {:induction false} GarbledKeysNotBinary(t: int)
    requires GarbledKey(t).Some?
    ensures !IsBinary(GarbledKey(t).value)
    ensures t == 96 || t == 198 || t == 235
    ensures |GarbledKey(t).value| == if t == 96 then 16 else if t == 198 then 23 else 26
  {
    var text := GarbledKey(t).value;
    if t == 96 {
      assert text[8] == '|';
    } else if t == 198 {
      assert text[22] == ' ';
    } else {
      assert text[25] == ' ';
    }
  }

  /** The table's code ranges follow each other: each length's first code is the previous length's end, doubled. */
  lemma {:induction false} CodeChain(l: int)
    requires 5 <= l < 30
    ensures FirstCode(l) <= EndCode(l)
    ensures EndCode(l) * 2 <= FirstCode(l + 1)
  {
  }

  lemma {:induction false} EndCodeBound(l: int)
    requires 5 <= l <= 30
    ensures FirstCode(l) <= EndCode(l) <= Pow2(l)
  {
    Pow2Values();
  }

  lemma {:induction false} Pow2Values()
    ensures Pow2(5) == 0x20 && Pow2(6) == 0x40 && Pow2(7) == 0x80 && Pow2(8) == 0x100
    ensures Pow2(9) == 0x200 && Pow2(10) == 0x400 && Pow2(11) == 0x800 && Pow2(12) == 0x1000
    ensures Pow2(13) == 0x2000 && Pow2(14) == 0x4000 && Pow2(15) == 0x8000 && Pow2(16) == 0x10000
    ensures Pow2(17) == 0x20000 && Pow2(18) == 0x40000 && Pow2(19) == 0x80000 && Pow2(20) == 0x100000
    ensures Pow2(21) == 0x200000 && Pow2(22) == 0x400000 && Pow2(23) == 0x800000 && Pow2(24) == 0x1000000
    ensures Pow2(25) == 0x2000000 && Pow2(26) == 0x4000000 && Pow2(27) == 0x8000000 && Pow2(28) == 0x10000000
    ensures Pow2(29) == 0x20000000 && Pow2(30) == 0x40000000
  {
    assert Pow2(1) == 2 && Pow2(2) == 4 && Pow2(3) == 8 && Pow2(4) == 16 && Pow2(5) == 0x20;
    assert Pow2(6) == 0x40 && Pow2(7) == 0x80 && Pow2(8) == 0x100 && Pow2(9) == 0x200 && Pow2(10) == 0x400;
    assert Pow2(11) == 0x800 && Pow2(12) == 0x1000 && Pow2(13) == 0x2000 && Pow2(14) == 0x4000;
    assert Pow2(15) == 0x8000 && Pow2(16) == 0x10000 && Pow2(17) == 0x20000 && Pow2(18) == 0x40000;
    assert Pow2(19) == 0x80000 && Pow2(20) == 0x100000 && Pow2(21) == 0x200000 && Pow2(22) == 0x400000;
    assert Pow2(23) == 0x800000 && Pow2(24) == 0x1000000 && Pow2(25) == 0x2000000;
    assert Pow2(26) == 0x4000000 && Pow2(27) == 0x8000000 && Pow2(28) == 0x10000000;
    assert Pow2(29) == 0x20000000 && Pow2(30) == 0x40000000;
  }

  /** A binary key's code fits in its number of digits. */
  lemma {:induction false} CodeFits(t: byte)
    requires GarbledKey(t).None?
    ensures CodeBits(t) < Pow2(CodeLength(t))
  {
    CodeFacts(t);
    EndCodeBound(CodeLength(t));
  }

  /** Below each length's first code lie, shifted, all the codes of every shorter length. */
  lemma {:induction false} ChainBound(k: int, l: int)
    requires 5 <= k < l <= 30
    ensures EndCode(k) * Pow2(l - k) <= FirstCode(l)
  {
    CodeChain(l - 1);
    if k < l - 1 {
      ChainBound(k, l - 1);
      assert Pow2(l - k) == 2 * Pow2(l - 1 - k);
      assert EndCode(k) * Pow2(l - k) == 2 * (EndCode(k) * Pow2(l - 1 - k));
    }
  }

  // ---------------------------------------------------------------- the table is a prefix code

  /** No two symbols share a key. */
  lemma {:induction false} KeyDeterminesSymbol(s: byte, t: byte)
    requires KeyText(HuffmanTableEntry(s)) == KeyText(HuffmanTableEntry(t))
    ensures s == t
  {
    match (GarbledKey(s), GarbledKey(t))
    case (Some(_), Some(_)) =>
      GarbledKeysNotBinary(s);
      GarbledKeysNotBinary(t);
    case (Some(_), None) =>
      GarbledKeysNotBinary(s);
    case (None, Some(_)) =>
      GarbledKeysNotBinary(t);
    case (None, None) =>
      CodeFits(s);
      CodeFits(t);
      BinaryDigitsInjective(CodeLength(t), CodeBits(s), CodeBits(t));
      CodeFacts(s);
      CodeFacts(t);
  }

  /** The encoding table is the inverse of the decoding table: looking up a symbol's key gives the symbol. */
  lemma {:induction false} LookupOwnKey(t: byte)
    ensures DecodingTableLookup(EncodingTableLookup(t as char)) == Some(t)
  {
    EncodingTableEntry(t);
    var r := DecodingTableLookup(EncodingTableLookup(t as char));
    DecodingTableLookupSpec(EncodingTableLookup(t as char));
    if r.Some? {
      KeyDeterminesSymbol(r.value, t);
    }
  }

  /** A binary string whose value lies outside its length's code range is not a key. */
  lemma {:induction false} NotAKey(k: nat, v: nat)
    requires v < Pow2(k)
    requires k < 5 || 30 < k || v < FirstCode(k) || EndCode(k) <= v
    ensures DecodingTableLookup(BinaryDigits(k, v)) == None
  {
    var r := DecodingTableLookup(BinaryDigits(k, v));
    DecodingTableLookupSpec(BinaryDigits(k, v));
    if r.Some? {
      var s := r.value;
      if GarbledKey(s).Some? {
        GarbledKeysNotBinary(s);
      } else {
        CodeFits(s);
        CodeFacts(s);
        BinaryDigitsInjective(k, CodeBits(s), v);
      }
    }
  }

  /** The top `k` digits of a code of length `l` lie outside the code range of length `k`. */
  lemma {:induction false} PrefixOutsideRange(l: int, c: nat, k: nat)
    requires 5 <= l <= 30 && FirstCode(l) <= c < Pow2(l) && k < l
    ensures ShiftRight(c, l - k) < Pow2(k)
    ensures k < 5 || EndCode(k) <= ShiftRight(c, l - k)
  {
    if 5 <= k {
      ChainBound(k, l);
      ShiftBounds(c, k, l - k, EndCode(k));
    } else {
      ShiftBounds(c, k, l - k, 0);
    }
  }

  /** No proper prefix of a binary key is a key. */
  lemma {:induction false} PrefixNotAKey(l: int, c: nat, k: nat)
    requires 5 <= l <= 30 && FirstCode(l) <= c < Pow2(l) && k < l
    ensures DecodingTableLookup(BinaryDigits(l, c)[..k]) == None
  {
    BinaryDigitsPrefix(l, c, k);
    PrefixOutsideRange(l, c, k);
    NotAKey(k, ShiftRight(c, l - k));
  }

  /** The key of a symbol other than the three garbled ones, as its length and its code. */
  lemma {:induction false} BinaryKey(t: byte) returns (l: nat, c: nat)
    requires GarbledKey(t).None?
    ensures EncodingTableLookup(t as char) == BinaryDigits(l, c)
    ensures 5 <= l <= 30 && FirstCode(l) <= c < EndCode(l) && c < Pow2(l)
  {
    l, c := CodeLength(t), CodeBits(t);
    EncodingTableEntry(t);
    CodeFits(t);
    CodeFacts(t);
  }

  /** One to seven '1's, the padding an encoder adds, are not a key. */
  lemma {:induction false} PaddingNotAKey(k: nat)
    requires 1 <= k <= 7
    ensures DecodingTableLookup(Repeat('1', k)) == None
  {
    OnesDigits(k);
    if k < 5 {
      NotAKey(k, Pow2(k) - 1);
    } else {
      assert Pow2(5) == 32 && Pow2(6) == 64 && Pow2(7) == 128;
      assert EndCode(k) <= Pow2(k) - 1;
      NotAKey(k, Pow2(k) - 1);
    }
  }
}
