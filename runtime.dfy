/**
 * The parts of the JavaScript runtime and of Node's `Buffer` that the codecs
 * call: big-endian reads and writes of unsigned integers, bitwise AND on
 * small non-negative numbers, `Number.prototype.toString(2)`,
 * `parseInt(_, 2)`, UTF-8 encoding of a string, and the 'ascii' and
 * 'latin1' decodings of bytes.  A buffer is the sequence of its bytes.
 */
module JsRuntime {
  import opened Http2Errors

  type byte = x: int | 0 <= x < 256

  function Pow2(n: nat): (r: nat)
    ensures r >= 1
  {
    if n == 0 then 1 else 2 * Pow2(n - 1)
  }

  lemma {:induction false} Pow2Add(m: nat, n: nat)
    ensures Pow2(m + n) == Pow2(m) * Pow2(n)
  {
    if n > 0 {
      Pow2Add(m, n - 1);
    }
  }

  /** The ranges of one to four octets. */
  lemma {:induction false} Pow2Octets()
    ensures Pow2(8) == 0x100 && Pow2(16) == 0x1_0000 && Pow2(24) == 0x100_0000 && Pow2(32) == 0x1_0000_0000
  {
    assert Pow2(8) == 0x100;
    Pow2Add(8, 8);
    Pow2Add(16, 8);
    Pow2Add(24, 8);
  }

  lemma {:induction false} Pow2Monotone(m: nat, n: nat)
    requires m <= n
    ensures Pow2(m) <= Pow2(n)
  {
    if m < n {
      Pow2Monotone(m, n - 1);
    }
  }

  // ---------------------------------------------------------------- bitwise AND

  /** `a & b` for non-negative operands, bit by bit. */
  function BitAnd(a: nat, b: nat): (r: nat)
    ensures r <= a && r <= b
  {
    if a == 0 || b == 0 then 0 else 2 * BitAnd(a / 2, b / 2) + (if a % 2 == 1 && b % 2 == 1 then 1 else 0)
  }

  /** AND with the mask of the `k` low bits keeps the remainder modulo 2^k. */
  lemma {:induction false} BitAndLowMask(a: nat, k: nat)
    ensures BitAnd(a, Pow2(k) - 1) == a % Pow2(k)
  {
    if a == 0 {
      DivModUnique(0, Pow2(k), 0, 0);
    } else if k == 0 {
      DivModUnique(a, 1, a, 0);
    } else {
      var m := Pow2(k - 1);
      HalfOfMask(k);
      assert BitAnd(a, Pow2(k) - 1) == 2 * BitAnd(a / 2, m - 1) + a % 2;
      BitAndLowMask(a / 2, k - 1);
      ModTwice(a, m);
    }
  }

  lemma {:induction false} HalfOfMask(k: nat)
    requires k > 0
    ensures Pow2(k) - 1 > 0
    ensures (Pow2(k) - 1) / 2 == Pow2(k - 1) - 1 && (Pow2(k) - 1) % 2 == 1
  {
    DivModUnique(Pow2(k) - 1, 2, Pow2(k - 1) - 1, 1);
  }

  lemma {:induction false} ModTwice(a: nat, m: nat)
    requires m >= 1
    ensures 2 * ((a / 2) % m) + a % 2 == a % (2 * m)
  {
    var q, r := (a / 2) / m, (a / 2) % m;
    assert q * (2 * m) == 2 * (q * m);
    DivModUnique(a, 2 * m, q, 2 * r + a % 2);
  }

  lemma {:induction false} MulAtLeast(x: int, d: int)
    requires x >= 1 && d > 0
    ensures x * d >= d
  {
    if x > 1 {
      MulAtLeast(x - 1, d);
      assert x * d == (x - 1) * d + d;
    }
  }

  /** Euclidean division is determined by its quotient and remainder. */
  lemma {:induction false} DivModUnique(a: int, d: int, q: int, r: int)
    requires d > 0 && 0 <= r < d && a == q * d + r
    ensures a / d == q && a % d == r
  {
    var q0, r0 := a / d, a % d;
    if q0 < q {
      assert (q - q0) * d == r0 - r;
      MulAtLeast(q - q0, d);
    } else if q < q0 {
      assert (q0 - q) * d == r - r0;
      MulAtLeast(q0 - q, d);
    }
  }

  /** Adding less than `d` to a multiple of `d` leaves that amount as the remainder. */
  lemma {:induction false} ModAddSmall(a: nat, b: nat, d: nat)
    requires d > 0 && a % d == 0 && b < d
    ensures (a + b) % d == b
  {
    var q := a / d;
    assert a == q * d;
    DivModUnique(a + b, d, q, b);
  }

  lemma {:induction false} MulNonneg(k: int, d: int)
    requires k >= 0 && d >= 0
    ensures k * d >= 0
  {
    if k > 0 {
      MulNonneg(k - 1, d);
      assert k * d == (k - 1) * d + d;
    }
  }

  lemma {:induction false} MulMonotone(x: int, y: int, d: int)
    requires x <= y && d >= 0
    ensures x * d <= y * d
  {
    assert y * d == x * d + (y - x) * d;
    MulNonneg(y - x, d);
  }

  /** `b * d <= a` puts `b` at or below the quotient `a / d`. */
  lemma {:induction false} DivLowerBound(a: int, b: int, d: int)
    requires d > 0 && b * d <= a
    ensures b <= a / d
  {
    var q := a / d;
    if q < b {
      assert (q + 1) * d == q * d + d;
      MulMonotone(q + 1, b, d);
    }
  }

  /** `a < b * d` puts the quotient `a / d` below `b`. */
  lemma {:induction false} DivUpperBound(a: int, b: int, d: int)
    requires d > 0 && 0 <= a < b * d
    ensures a / d < b
  {
    var q := a / d;
    if q >= b {
      MulMonotone(b, q, d);
    }
  }

  /** AND with the single bit 2^k is non-zero exactly when bit k of `a` is set. */
  lemma {:induction false} BitAndSingleBit(a: nat, k: nat)
    ensures BitAnd(a, Pow2(k)) != 0 <==> (a / Pow2(k)) % 2 == 1
  {
    if k == 0 {
      if a != 0 {
        assert BitAnd(a, 1) == 2 * BitAnd(a / 2, 0) + a % 2;
      }
    } else if a == 0 {
    } else {
      assert Pow2(k) / 2 == Pow2(k - 1);
      assert Pow2(k) % 2 == 0;
      assert BitAnd(a, Pow2(k)) == 2 * BitAnd(a / 2, Pow2(k - 1));
      BitAndSingleBit(a / 2, k - 1);
      assert a / Pow2(k) == (a / 2) / Pow2(k - 1) by {
        DivTwice(a, Pow2(k - 1));
      }
    }
  }

  lemma {:induction false} DivTwice(a: nat, m: nat)
    requires m >= 1
    ensures a / (2 * m) == (a / 2) / m
  {
    var q, r := (a / 2) / m, (a / 2) % m;
    assert q * (2 * m) == 2 * (q * m);
    DivModUnique(a, 2 * m, q, 2 * r + a % 2);
  }

  /** AND with 0, as in `x & (0 << 31)`, is 0. */
  lemma {:induction false} BitAndZero(a: nat)
    ensures BitAnd(a, 0) == 0
  {
  }

  // ---------------------------------------------------------------- big-endian integers

  /** The `length` bytes that spell `num` in big-endian order. */
  function BigEndian(num: nat, length: nat): (bytes: seq<byte>)
    ensures |bytes| == length
  {
    if length == 0 then [] else BigEndian(num / 256, length - 1) + [num % 256]
  }

  /** The number that `bytes` spell in big-endian order. */
  function BigEndianValue(bytes: seq<byte>): (num: nat)
  {
    if bytes == [] then 0 else BigEndianValue(bytes[..|bytes| - 1]) * 256 + bytes[|bytes| - 1]
  }

  /** A big-endian number of `length` bytes is below 2^(8 * length). */
  lemma {:induction false} BigEndianValueBound(bytes: seq<byte>)
    ensures BigEndianValue(bytes) < Pow2(8 * |bytes|)
  {
    if bytes != [] {
      var init := bytes[..|bytes| - 1];
      BigEndianValueBound(init);
      Pow2Add(8 * |init|, 8);
      assert Pow2(8) == 256;
      assert 8 * |bytes| == 8 * |init| + 8;
    }
  }

  /** Writing a number that fits and reading it back gives the number. */
  lemma {:induction false} BigEndianRoundTrip(num: nat, length: nat)
    requires num < Pow2(8 * length)
    ensures BigEndianValue(BigEndian(num, length)) == num
  {
    if length > 0 {
      Pow2Add(8 * (length - 1), 8);
      assert Pow2(8) == 256;
      assert 8 * length == 8 * (length - 1) + 8;
      assert num / 256 < Pow2(8 * (length - 1));
      BigEndianRoundTrip(num / 256, length - 1);
      var bytes := BigEndian(num, length);
      assert bytes[..length - 1] == BigEndian(num / 256, length - 1);
    }
  }

  /** Reading bytes and writing the number back gives the bytes. */
  lemma {:induction false} BigEndianValueRoundTrip(bytes: seq<byte>)
    ensures BigEndian(BigEndianValue(bytes), |bytes|) == bytes
  {
    if bytes != [] {
      var init := bytes[..|bytes| - 1];
      BigEndianValueRoundTrip(init);
      var v := BigEndianValue(bytes);
      assert v / 256 == BigEndianValue(init);
      assert v % 256 == bytes[|bytes| - 1];
      assert bytes == init + [bytes[|bytes| - 1]];
    }
  }

  /** `new Buffer(n)`: `n` bytes, taken to be zeros. */
  function Zeros(n: nat): (b: seq<byte>)
    ensures |b| == n
  {
    if n == 0 then [] else Zeros(n - 1) + [0]
  }

  /** `buf.readUIntBE(offset, length)`: a `RangeError` unless all the bytes are inside the buffer. */
  function ReadUIntBE(buf: seq<byte>, offset: nat, length: nat): (r: Result<nat>)
    ensures r.Ok? <==> offset + length <= |buf|
    ensures r.Ok? ==> r.value < Pow2(8 * length)
    ensures r.Ok? ==> BigEndian(r.value, length) == buf[offset..offset + length]
  {
    if offset + length > |buf| then
      Throw(RangeError)
    else
      var bytes := buf[offset..offset + length];
      BigEndianValueBound(bytes);
      BigEndianValueRoundTrip(bytes);
      Ok(BigEndianValue(bytes))
  }

  /** `buf.readUIntBE(offset, 1)`: the byte at `offset`, or a `RangeError` past the end. */
  function ReadByte(buf: seq<byte>, offset: nat): (r: Result<byte>)
    ensures r.Ok? <==> offset < |buf|
  {
    if offset < |buf| then Ok(buf[offset]) else Throw(RangeError)
  }

  /** `ReadByte` is the one-byte case of `ReadUIntBE`. */
  lemma {:induction false} ReadByteIsReadUIntBE(buf: seq<byte>, offset: nat)
    ensures ReadUIntBE(buf, offset, 1) == match ReadByte(buf, offset) case Ok(b) => Ok(b as nat) case Throw(e) => Throw(e)
  {
    if offset < |buf| {
      var v := ReadUIntBE(buf, offset, 1).value;
      assert Pow2(8) == 256;
      assert BigEndian(v, 1) == [v % 256];
    }
  }

  /**
   * `buf.writeUIntBE(num, offset, length)` on a value that fits: the buffer
   * with bytes `offset` to `offset + length - 1` replaced by the big-endian
   * bytes of `num`; a `RangeError` when they are not all inside the buffer.
   */
  function WriteUIntBE(buf: seq<byte>, num: nat, offset: nat, length: nat): (r: Result<seq<byte>>)
    requires num < Pow2(8 * length)
    ensures r.Ok? <==> offset + length <= |buf|
    ensures r.Ok? ==> |r.value| == |buf|
    ensures r.Ok? ==> ReadUIntBE(r.value, offset, length) == Ok(num)
    ensures r.Ok? ==> forall j :: 0 <= j < |buf| && !(offset <= j < offset + length) ==> r.value[j] == buf[j]
  {
    if offset + length > |buf| then
      Throw(RangeError)
    else
      var w := buf[..offset] + BigEndian(num, length) + buf[offset + length..];
      assert w[offset..offset + length] == BigEndian(num, length);
      BigEndianRoundTrip(num, length);
      Ok(w)
  }

  /** `Zeros(a + b)` is `Zeros(a)` followed by `Zeros(b)`. */
  lemma {:induction false} ZerosSplit(a: nat, b: nat)
    ensures Zeros(a + b) == Zeros(a) + Zeros(b)
  {
    if b > 0 {
      ZerosSplit(a, b - 1);
    }
  }

  /** A write that fits replaces the `length` octets at `offset` with the number's bytes. */
  lemma {:induction false} WriteUIntBESplice(buf: seq<byte>, num: nat, offset: nat, length: nat)
    requires num < Pow2(8 * length) && offset + length <= |buf|
    ensures WriteUIntBE(buf, num, offset, length) == Ok(buf[..offset] + BigEndian(num, length) + buf[offset + length..])
  {
  }

  /** Writing a number into the zeros after `before` puts its bytes right after `before`. */
  lemma {:induction false} WriteIntoZeros(before: seq<byte>, num: nat, length: nat, n: nat)
    requires num < Pow2(8 * length) && length <= n
    ensures WriteUIntBE(before + Zeros(n), num, |before|, length) == Ok(before + BigEndian(num, length) + Zeros(n - length))
  {
    var buf := before + Zeros(n);
    ZerosSplit(length, n - length);
    assert buf[..|before|] == before;
    assert buf[|before| + length..] == Zeros(n - length);
  }

  // ---------------------------------------------------------------- binary strings

  predicate IsBinary(s: string)
  {
    forall i :: 0 <= i < |s| ==> s[i] == '0' || s[i] == '1'
  }

  /** The `length` binary digits of `v`, most significant first, with leading zeros. */
  function BinaryDigits(length: nat, v: nat): (s: string)
    ensures |s| == length
    ensures IsBinary(s)
  {
    if length == 0 then "" else BinaryDigits(length - 1, v / 2) + [if v % 2 == 1 then '1' else '0']
  }

  /** The number a string of binary digits denotes. */
  function BinaryValue(s: string): (v: nat)
    ensures v < Pow2(|s|)
  {
    if s == [] then 0 else 2 * BinaryValue(s[..|s| - 1]) + (if s[|s| - 1] == '1' then 1 else 0)
  }

  lemma {:induction false} BinaryDigitsValue(length: nat, v: nat)
    requires v < Pow2(length)
    ensures BinaryValue(BinaryDigits(length, v)) == v
  {
    if length > 0 {
      BinaryDigitsValue(length - 1, v / 2);
      var s := BinaryDigits(length, v);
      assert s[..length - 1] == BinaryDigits(length - 1, v / 2);
    }
  }

  lemma {:induction false} BinaryValueDigits(s: string)
    requires IsBinary(s)
    ensures BinaryDigits(|s|, BinaryValue(s)) == s
  {
    if s != [] {
      var init := s[..|s| - 1];
      BinaryValueDigits(init);
      assert s == init + [s[|s| - 1]];
    }
  }

  /** Strings of binary digits of one length are equal exactly when their values are. */
  lemma {:induction false} BinaryDigitsInjective(length: nat, v: nat, w: nat)
    requires v < Pow2(length) && w < Pow2(length)
    requires BinaryDigits(length, v) == BinaryDigits(length, w)
    ensures v == w
  {
    BinaryDigitsValue(length, v);
    BinaryDigitsValue(length, w);
  }

  /** `v >> n` on a non-negative number. */
  function ShiftRight(v: nat, n: nat): nat
  {
    DivLowerBound(v, 0, Pow2(n));
    v / Pow2(n)
  }

  /** Shifting a number of `k + n` bits right by `n` leaves `k` bits, and keeps a lower bound `e * 2^n` as `e`. */
  lemma {:induction false} ShiftBounds(c: nat, k: nat, n: nat, e: int)
    requires c < Pow2(k + n) && e * Pow2(n) <= c
    ensures ShiftRight(c, n) < Pow2(k)
    ensures e <= ShiftRight(c, n)
  {
    Pow2Add(k, n);
    DivUpperBound(c, Pow2(k), Pow2(n));
    DivLowerBound(c, e, Pow2(n));
  }

  /** The first `k` digits of `v` written with `length` digits are `v`'s top `k` digits. */
  lemma {:induction false} BinaryDigitsPrefix(length: nat, v: nat, k: nat)
    requires k <= length
    ensures BinaryDigits(length, v)[..k] == BinaryDigits(k, ShiftRight(v, length - k))
  {
    if k < length {
      BinaryDigitsPrefix(length - 1, v / 2, k);
      assert BinaryDigits(length, v)[..k] == BinaryDigits(length - 1, v / 2)[..k];
      assert Pow2(length - k) == 2 * Pow2(length - 1 - k);
      DivTwice(v, Pow2(length - 1 - k));
    }
  }

  /** `n.toString(2)`: the binary digits of `n` without leading zeros ("0" for 0). */
  function ToBinaryString(n: nat): (s: string)
    ensures 1 <= |s|
  {
    if n < 2 then [if n == 1 then '1' else '0'] else ToBinaryString(n / 2) + [if n % 2 == 1 then '1' else '0']
  }

  /** `n.toString(2)` has enough digits to hold `n`. */
  lemma {:induction false} ToBinaryStringBound(n: nat)
    ensures n < Pow2(|ToBinaryString(n)|)
  {
    if n >= 2 {
      ToBinaryStringBound(n / 2);
    }
  }

  lemma {:induction false} ToBinaryStringDigits(n: nat, length: nat)
    requires n < Pow2(length) && 1 <= length
    ensures |ToBinaryString(n)| <= length
    ensures ToBinaryString(n) == BinaryDigits(|ToBinaryString(n)|, n)
  {
    if n >= 2 {
      ToBinaryStringDigits(n / 2, length - 1);
    }
  }

  /** A string of `count` copies of `c`. */
  function Repeat(c: char, count: nat): (s: string)
    ensures |s| == count
    ensures forall i :: 0 <= i < count ==> s[i] == c
  {
    if count == 0 then "" else Repeat(c, count - 1) + [c]
  }

  /** `length` ones are the binary digits of 2^length - 1. */
  lemma {:induction false} OnesDigits(length: nat)
    ensures Repeat('1', length) == BinaryDigits(length, Pow2(length) - 1)
  {
    if length > 0 {
      OnesDigits(length - 1);
      assert (Pow2(length) - 1) / 2 == Pow2(length - 1) - 1;
    }
  }

  /** Leading zeros followed by binary digits are the digits at the longer length. */
  lemma {:induction false} ZeroPadDigits(zeros: nat, length: nat, v: nat)
    requires v < Pow2(length)
    ensures Repeat('0', zeros) + BinaryDigits(length, v) == BinaryDigits(zeros + length, v)
  {
    if length == 0 {
      assert v == 0;
      ZerosAreDigitsOfZero(zeros);
    } else {
      ZeroPadDigits(zeros, length - 1, v / 2);
      assert Repeat('0', zeros) + BinaryDigits(length, v)
          == (Repeat('0', zeros) + BinaryDigits(length - 1, v / 2)) + [if v % 2 == 1 then '1' else '0'];
    }
  }

  lemma {:induction false} ZerosAreDigitsOfZero(n: nat)
    ensures Repeat('0', n) == BinaryDigits(n, 0)
  {
    if n > 0 {
      ZerosAreDigitsOfZero(n - 1);
    }
  }

  /** The length of the longest prefix of `s` made of binary digits. */
  function BinaryPrefixLength(s: string): (n: nat)
    ensures n <= |s|
  {
    if s == [] || (s[0] != '0' && s[0] != '1') then 0 else 1 + BinaryPrefixLength(s[1..])
  }

  /** That prefix is made of binary digits, and the character after it is not one. */
  lemma {:induction false} BinaryPrefixLengthSpec(s: string)
    ensures IsBinary(s[..BinaryPrefixLength(s)])
    ensures BinaryPrefixLength(s) < |s| ==> s[BinaryPrefixLength(s)] != '0' && s[BinaryPrefixLength(s)] != '1'
  {
    if s != [] && (s[0] == '0' || s[0] == '1') {
      BinaryPrefixLengthSpec(s[1..]);
      var n := BinaryPrefixLength(s);
      assert s[..n] == [s[0]] + s[1..][..n - 1];
    }
  }

  /** A string of binary digits is its own longest binary prefix. */
  lemma {:induction false} BinaryPrefixOfBinary(s: string)
    requires IsBinary(s)
    ensures BinaryPrefixLength(s) == |s|
  {
    BinaryPrefixLengthSpec(s);
  }

  /**
   * `parseInt(s, 2)` on a string of digits and other non-space characters:
   * the value of its longest binary prefix, or `None` (NaN) when that prefix
   * is empty.
   */
  function ParseIntBase2(s: string): Option<nat>
  {
    var n := BinaryPrefixLength(s);
    if n == 0 then None else Some(BinaryValue(s[..n]))
  }

  /** `parseInt(_, 2)` is NaN exactly on a string that does not start with a digit, and below `2^n` for an `n`-digit prefix. */
  lemma {:induction false} ParseIntBase2Bound(s: string)
    ensures ParseIntBase2(s).None? <==> BinaryPrefixLength(s) == 0
    ensures ParseIntBase2(s).Some? ==> ParseIntBase2(s).value < Pow2(BinaryPrefixLength(s))
  {
  }

  /** On a whole string of binary digits, `parseInt(_, 2)` gives back the number they spell. */
  lemma {:induction false} ParseIntOfDigits(length: nat, v: nat)
    requires 1 <= length && v < Pow2(length)
    ensures ParseIntBase2(BinaryDigits(length, v)) == Some(v)
  {
    var s := BinaryDigits(length, v);
    var n := BinaryPrefixLength(s);
    BinaryPrefixLengthSpec(s);
    assert s[..n] == s;
    BinaryDigitsValue(length, v);
  }

  // ---------------------------------------------------------------- text

  /** The UTF-8 bytes of one character (a Unicode scalar value). */
  function Utf8Char(c: char): (bytes: seq<byte>)
    ensures 1 <= |bytes| <= 4
    ensures (c as int < 0x80) <==> (|bytes| == 1)
  {
    var n := c as int;
    if n < 0x80 then [n]
    else if n < 0x800 then [0xc0 + n / 64, 0x80 + n % 64]
    else if n < 0x10000 then [0xe0 + n / 4096, 0x80 + (n / 64) % 64, 0x80 + n % 64]
    else [0xf0 + n / 0x40000, 0x80 + (n / 4096) % 64, 0x80 + (n / 64) % 64, 0x80 + n % 64]
  }

  /** `new Buffer(s)`: the UTF-8 bytes of `s`. */
  function Utf8(s: string): (bytes: seq<byte>)
    ensures |s| <= |bytes| <= 4 * |s|
  {
    if s == [] then [] else Utf8(s[..|s| - 1]) + Utf8Char(s[|s| - 1])
  }

  /** `Buffer.byteLength(s)`. */
  function ByteLength(s: string): nat
  {
    |Utf8(s)|
  }

  /** `buf.toString('ascii')`: every byte with its high bit cleared. */
  function AsciiDecode(bytes: seq<byte>): (s: string)
    ensures |s| == |bytes|
  {
    if bytes == [] then [] else AsciiDecode(bytes[..|bytes| - 1]) + [(bytes[|bytes| - 1] % 128) as char]
  }

  /** `buf.toString('latin1')`: every byte as the character with the same code. */
  function Latin1Decode(bytes: seq<byte>): (s: string)
    ensures |s| == |bytes|
  {
    if bytes == [] then [] else Latin1Decode(bytes[..|bytes| - 1]) + [bytes[|bytes| - 1] as char]
  }

  /** Latin-1 decoding maps each byte to the character with that code. */
  lemma {:induction false} Latin1DecodeIndex(bytes: seq<byte>)
    ensures forall i :: 0 <= i < |bytes| ==> Latin1Decode(bytes)[i] as int == bytes[i]
  {
    if bytes != [] {
      Latin1DecodeIndex(bytes[..|bytes| - 1]);
    }
  }

  /** On 7-bit characters, UTF-8 gives one byte per character and 'ascii' decoding undoes it. */
  lemma {:induction false} AsciiRoundTrip(s: string)
    requires forall i :: 0 <= i < |s| ==> s[i] as int < 0x80
    ensures |Utf8(s)| == |s|
    ensures AsciiDecode(Utf8(s)) == s
  {
    if s != [] {
      var init, last := s[..|s| - 1], s[|s| - 1];
      assert s == init + [last];
      AsciiRoundTrip(init);
      AsciiChar(last);
      Utf8Snoc(init, last);
      AsciiDecodeSnoc(Utf8(init), last as int);
    }
  }

  lemma {:induction false} Utf8Snoc(s: string, c: char)
    ensures Utf8(s + [c]) == Utf8(s) + Utf8Char(c)
  {
    assert (s + [c])[..|s|] == s;
  }

  lemma {:induction false} AsciiDecodeSnoc(bytes: seq<byte>, b: byte)
    ensures AsciiDecode(bytes + [b]) == AsciiDecode(bytes) + [(b % 128) as char]
  {
    assert (bytes + [b])[..|bytes|] == bytes;
  }

  /** A 7-bit character is one byte in UTF-8, and 'ascii' decoding gives it back. */
  lemma {:induction false} AsciiChar(c: char)
    requires c as int < 0x80
    ensures Utf8Char(c) == [c as int]
    ensures (c as int % 128) as char == c
  {
  }
}
