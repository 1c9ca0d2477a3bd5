/**
 * The static helpers of `Compression` (lib/compression.ts) that work on
 * byte buffers: the growing writes `bufferWriteUIntBE` and `bufferCopy`,
 * prefix-coded integers (section 5.1 of RFC 7541) and string literals,
 * raw or Huffman-coded (section 5.2 of RFC 7541).
 *
 * Every decoder and encoder is a method with the loops of the original,
 * proved equal to a specification function; the round-trip lemmas relate
 * the specification functions of the two directions.
 */
module HpackPrimitives {
  import opened Http2Errors
  import opened JsRuntime
  import opened HpackHuffman

  // ---------------------------------------------------------------- buffers

  /** `Compression.DefaultHeaderSize`: the size of a fresh encoding buffer and the step it grows by. */
  const DefaultHeaderSize: nat := 1024

  /**
   * `source.copy(target, targetStart, sourceStart, sourceEnd)`: copies the
   * bytes `sourceStart` to `sourceEnd` (cut at the end of the source) to
   * `targetStart` on, as many as fit in the target, which keeps its length.
   */
  function CopyBytes(source: seq<byte>, target: seq<byte>, targetStart: nat, sourceStart: nat, sourceEnd: nat): (t: seq<byte>)
    requires sourceStart <= |source| && targetStart <= |target|
    ensures |t| == |target|
    ensures t[..targetStart] == target[..targetStart]
  {
    var end := if sourceEnd < |source| then sourceEnd else |source|;
    var available := if end > sourceStart then end - sourceStart else 0;
    var count := if available < |target| - targetStart then available else |target| - targetStart;
    target[..targetStart] + source[sourceStart..sourceStart + count] + target[targetStart + count..]
  }

  /** The result of an encoder: the index just past what it wrote, and the buffer it wrote to. */
  datatype EncodedValue = EncodedValue(index: nat, buffer: seq<byte>)

  /**
   * `bufferWriteUIntBE`: when the number does not fit, the buffer is first
   * replaced by a copy extended by `DefaultHeaderSize` zero bytes; the write
   * itself fails with a `RangeError` only when even that is too short.
   */
  function BufferWriteUIntBE(buffer: seq<byte>, num: nat, start: nat, length: nat): (r: Result<seq<byte>>)
    requires num < Pow2(8 * length)
    ensures r.Ok? <==> start + length <= |buffer| + DefaultHeaderSize
    ensures r.Ok? ==> |r.value| == if |buffer| < start + length then |buffer| + DefaultHeaderSize else |buffer|
    ensures r.Ok? ==> ReadUIntBE(r.value, start, length) == Ok(num)
    ensures r.Ok? ==> forall j :: 0 <= j < |buffer| && !(start <= j < start + length) ==> r.value[j] == buffer[j]
  {
    if |buffer| < start + length then
      WriteUIntBE(buffer + Zeros(DefaultHeaderSize), num, start, length)
    else
      WriteUIntBE(buffer, num, start, length)
  }

  /**
   * `bufferCopy`: the same growth by `DefaultHeaderSize` bytes, then a copy
   * that is cut short when even the grown buffer has no room for it.  A source
   * that fits lands whole after the kept prefix of the target.
   */
  function BufferCopy(sourceBuffer: seq<byte>, targetBuffer: seq<byte>, targetOffset: nat, sourceIndex: nat, sourceLength: nat): (r: seq<byte>)
    requires sourceIndex <= |sourceBuffer| && targetOffset <= |targetBuffer|
    ensures |r| == if |targetBuffer| < targetOffset + sourceLength then |targetBuffer| + DefaultHeaderSize else |targetBuffer|
    ensures r[..targetOffset] == targetBuffer[..targetOffset]
    ensures sourceIndex == 0 && sourceLength == |sourceBuffer| && targetOffset + sourceLength <= |targetBuffer| + DefaultHeaderSize ==>
              r[..targetOffset + sourceLength] == targetBuffer[..targetOffset] + sourceBuffer
  {
    var target := if |targetBuffer| < targetOffset + sourceLength then targetBuffer + Zeros(DefaultHeaderSize) else targetBuffer;
    var r := CopyBytes(sourceBuffer, target, targetOffset, sourceIndex, sourceLength);
    assert target[..targetOffset] == targetBuffer[..targetOffset];
    r
  }

  /** `bufferWriteUIntBE` of one byte at or before the end of the buffer: everything before it is kept. */
  method Put(buffer: seq<byte>, b: byte, at: nat) returns (w: seq<byte>)
    requires at <= |buffer|
    ensures |w| > at && w[..at] == buffer[..at] && w[at] == b
  {
    assert Pow2(8) == 256;
    var r := BufferWriteUIntBE(buffer, b, at, 1);
    w := r.value;
    ReadByteIsReadUIntBE(w, at);
    assert w[..at] == buffer[..at];
  }

  /** `e` holds `bytes` written at `index` of `buffer`: its index is just past them and every earlier byte is kept. */
  predicate Encoded(buffer: seq<byte>, index: nat, bytes: seq<byte>, e: EncodedValue)
  {
    index <= |buffer| && e.index == index + |bytes| <= |e.buffer| && e.buffer[..e.index] == buffer[..index] + bytes
  }

  /** Writing after what an earlier encoder wrote keeps it. */
  lemma {:induction false} EncodedTwice(buffer: seq<byte>, index: nat, x: seq<byte>, e1: EncodedValue, y: seq<byte>, e2: EncodedValue)
    requires Encoded(buffer, index, x, e1) && Encoded(e1.buffer, e1.index, y, e2)
    ensures Encoded(buffer, index, x + y, e2)
  {
  }

  // ---------------------------------------------------------------- integers

  /** What `decodeInteger` returns: the number and the index just past it. */
  datatype DecodedInteger = DecodedInteger(num: nat, index: nat)

  /**
   * `decodeInteger` as the code computes it: the low `prefixLength` bits of
   * the first byte, and when they are all ones, their value plus the low
   * seven bits of the next byte.  The continuation test is made on a byte
   * already masked with 0x7f, so exactly one continuation byte is ever read
   * and no decoded value reaches 2^prefixLength - 1 + 128.
   */
  function IntegerAt(block: seq<byte>, blockIndex: nat, prefixLength: nat): (r: Result<DecodedInteger>)
    ensures r.Ok? <==> (blockIndex < |block| &&
                       (BitAnd(block[blockIndex], Pow2(prefixLength) - 1) < Pow2(prefixLength) - 1 || blockIndex + 1 < |block|))
    ensures r.Throw? ==> r.exception == RangeError
    ensures r.Ok? ==> r.value.index == blockIndex + 1 || r.value.index == blockIndex + 2
    ensures r.Ok? ==> r.value.index <= |block|
    ensures r.Ok? ==> r.value.num < Pow2(prefixLength) - 1 + 128
    ensures r.Ok? && r.value.index == blockIndex + 1 <==> r.Ok? && r.value.num < Pow2(prefixLength) - 1
  {
    var prefixByte :- ReadByte(block, blockIndex);
    var num := BitAnd(prefixByte, Pow2(prefixLength) - 1);
    if num < Pow2(prefixLength) - 1 then
      Ok(DecodedInteger(num, blockIndex + 1))
    else
      var next :- ReadByte(block, blockIndex + 1);
      BitAndLowMask(next, 7);
      assert Pow2(7) == 128;
      Ok(DecodedInteger(num + BitAnd(next, 0x7f), blockIndex + 2))
  }

  /** The byte that `decodeInteger` masked with 0x7f never has its 0x80 bit set. */
  lemma {:induction false} MaskedHasNoHighBit(b: nat)
    requires b < 128
    ensures BitAnd(b, 0x80) == 0
  {
    assert Pow2(7) == 128;
    BitAndSingleBit(b, 7);
    DivModUnique(b, 128, 0, b);
  }

  /** The four ways `IntegerAt` can come out: past the end, inside the prefix, a full prefix with its continuation byte, a full prefix without one. */
  lemma {:induction false} IntegerAtCases(block: seq<byte>, blockIndex: nat, prefixLength: nat)
    ensures blockIndex >= |block| ==> IntegerAt(block, blockIndex, prefixLength) == Throw(RangeError)
    ensures blockIndex < |block| && BitAnd(block[blockIndex], Pow2(prefixLength) - 1) < Pow2(prefixLength) - 1 ==>
              IntegerAt(block, blockIndex, prefixLength) == Ok(DecodedInteger(BitAnd(block[blockIndex], Pow2(prefixLength) - 1), blockIndex + 1))
    ensures blockIndex < |block| && BitAnd(block[blockIndex], Pow2(prefixLength) - 1) >= Pow2(prefixLength) - 1 ==>
              IntegerAt(block, blockIndex, prefixLength) ==
                if blockIndex + 1 < |block|
                then Ok(DecodedInteger(BitAnd(block[blockIndex], Pow2(prefixLength) - 1) + BitAnd(block[blockIndex + 1], 0x7f), blockIndex + 2))
                else Throw(RangeError)
  {
  }

  /** `decodeInteger`, with its mask loop and its do-while over continuation bytes. */
  method DecodeInteger(block: seq<byte>, blockIndex: nat, prefixLength: nat) returns (r: Result<DecodedInteger>)
    ensures r == IntegerAt(block, blockIndex, prefixLength)
  {
    IntegerAtCases(block, blockIndex, prefixLength);
    var prefixByte :- ReadByte(block, blockIndex);
    var prefixMask := 0;
    for i := 0 to prefixLength
      invariant prefixMask == Pow2(i) - 1
    {
      prefixMask := prefixMask + Pow2(i);
    }
    var num := BitAnd(prefixByte, prefixMask);
    var index := blockIndex + 1;
    if num < Pow2(prefixLength) - 1 {
      return Ok(DecodedInteger(num, index));
    }
    var byteIndex: nat := 0;
    var more := true;
    while more
      invariant more <==> byteIndex == 0
      invariant index == blockIndex + 1 + byteIndex / 7
      invariant more ==> num == BitAnd(prefixByte, Pow2(prefixLength) - 1)
      invariant !more ==> byteIndex == 7 && index < |block + [0]| &&
                          num == BitAnd(prefixByte, Pow2(prefixLength) - 1) + BitAnd(block[blockIndex + 1], 0x7f)
      decreases if more then 1 else 0
    {
      var read :- ReadByte(block, index);
      var b := BitAnd(read, 0x7f);
      BitAndLowMask(read, 7);
      assert Pow2(7) == 128 && Pow2(byteIndex) == 1;
      num := num + b * Pow2(byteIndex);
      byteIndex := byteIndex + 7;
      index := index + 1;
      MaskedHasNoHighBit(b);
      more := BitAnd(b, 0x80) != 0;
    }
    return Ok(DecodedInteger(num, index));
  }

  /** The continuation bytes of section 5.1 of RFC 7541: seven bits each, least significant first, 0x80 on all but the last. */
  function Continuation(w: nat): (bytes: seq<byte>)
    ensures |bytes| >= 1
    ensures |bytes| == 1 <==> w < 128
    decreases w
  {
    if w >= 128 then [w % 128 + 128] + Continuation(w / 128) else [w]
  }

  /**
   * The bytes `encodeInteger` writes: the value in the prefix when it is
   * below 2^prefixLength - 1, otherwise a full prefix followed by the
   * continuation bytes of the rest; `prefixValue` is added to the first byte.
   */
  function IntegerBytes(integerValue: nat, prefixLength: nat, prefixValue: nat): (bytes: seq<byte>)
    requires prefixValue + Pow2(prefixLength) - 1 < 256
    ensures |bytes| >= 1
    ensures |bytes| == 1 <==> integerValue < Pow2(prefixLength) - 1
    ensures |bytes| == 2 <==> Pow2(prefixLength) - 1 <= integerValue < Pow2(prefixLength) - 1 + 128
  {
    var full := Pow2(prefixLength) - 1;
    if integerValue < full then [prefixValue + integerValue]
    else [prefixValue + full] + Continuation(integerValue - full)
  }

  /**
   * `encodeInteger`: writes `IntegerBytes` at `blockIndex` through
   * `bufferWriteUIntBE`, one byte at a time.  The division by 128 of the
   * original is a floating-point one, but each write truncates and the loop
   * test compares with 128, so whole numbers give the same bytes.
   */
  method EncodeInteger(block: seq<byte>, blockIndex: nat, integerValue: nat, prefixLength: nat, prefixValue: nat)
    returns (e: EncodedValue)
    requires blockIndex <= |block|
    requires prefixValue + Pow2(prefixLength) - 1 < 256
    ensures Encoded(block, blockIndex, IntegerBytes(integerValue, prefixLength, prefixValue), e)
  {
    var full := Pow2(prefixLength) - 1;
    if integerValue < full {
      var b := prefixValue + integerValue;
      var buffer := Put(block, b, blockIndex);
      PutExtends(block, buffer, blockIndex, b);
      e := EncodedValue(blockIndex + 1, buffer);
      assert IntegerBytes(integerValue, prefixLength, prefixValue) == [b];
    } else {
      var b := prefixValue + full;
      var rest := integerValue - full;
      var buffer := Put(block, b, blockIndex);
      PutExtends(block, buffer, blockIndex, b);
      var first := EncodedValue(blockIndex + 1, buffer);
      assert Encoded(block, blockIndex, [b], first);
      e := EncodeContinuation(buffer, first.index, rest);
      EncodedTwice(block, blockIndex, [b], first, Continuation(rest), e);
      assert IntegerBytes(integerValue, prefixLength, prefixValue) == [b] + Continuation(rest);
    }
  }

  /** One turn of the loop of `encodeInteger` emits the first continuation byte. */
  lemma {:induction false} ContinuationStep(out: seq<byte>, w: nat)
    requires w >= 128
    ensures (out + [w % 128 + 128]) + Continuation(w / 128) == out + Continuation(w)
  {
    assert Continuation(w) == [w % 128 + 128] + Continuation(w / 128);
  }

  /** The loop of `encodeInteger` after the prefix byte: writes `Continuation(rest)` at `index`. */
  method EncodeContinuation(block: seq<byte>, blockIndex: nat, rest: nat) returns (e: EncodedValue)
    requires blockIndex <= |block|
    ensures Encoded(block, blockIndex, Continuation(rest), e)
  {
    var buffer := block;
    var index := blockIndex;
    var integerValue := rest;
    ghost var out: seq<byte> := [];
    while integerValue >= 128
      invariant index == blockIndex + |out| <= |buffer|
      invariant buffer[..index] == block[..blockIndex] + out
      invariant out + Continuation(integerValue) == Continuation(rest)
      decreases integerValue
    {
      var b := integerValue % 128 + 128;
      var next := Put(buffer, b, index);
      PutExtends(buffer, next, index, b);
      ContinuationStep(out, integerValue);
      buffer := next;
      index := index + 1;
      out := out + [b];
      integerValue := integerValue / 128;
    }
    var next := Put(buffer, integerValue, index);
    PutExtends(buffer, next, index, integerValue);
    return EncodedValue(index + 1, next);
  }

  /** The first byte of `IntegerBytes`: `prefixValue` plus the prefix bits, which `IntegerAt` masks back out. */
  lemma {:induction false} PrefixByteMasked(prefixLength: nat, prefixValue: nat, bits: nat)
    requires prefixValue % Pow2(prefixLength) == 0 && bits < Pow2(prefixLength)
    ensures BitAnd(prefixValue + bits, Pow2(prefixLength) - 1) == bits
  {
    BitAndLowMask(prefixValue + bits, prefixLength);
    ModAddSmall(prefixValue, bits, Pow2(prefixLength));
  }

  /** Byte `k` of a slice is byte `index + k` of the buffer. */
  lemma {:induction false} SliceByte(block: seq<byte>, index: nat, bytes: seq<byte>, k: nat)
    requires index + |bytes| <= |block| && block[index..index + |bytes|] == bytes && k < |bytes|
    ensures block[index + k] == bytes[k]
  {
  }

  /** A byte placed just past a kept prefix extends it. */
  lemma {:induction false} PutExtends(before: seq<byte>, after: seq<byte>, index: nat, b: byte)
    requires index <= |before| && |after| > index && after[..index] == before[..index] && after[index] == b
    ensures after[..index + 1] == before[..index] + [b]
  {
  }

  /**
   * Decoding undoes encoding for every value below 2^prefixLength - 1 + 128,
   * when the low `prefixLength` bits of `prefixValue` are zero: the same
   * number, and the index just past the encoded bytes.
   */
  lemma {:induction false} IntegerRoundTrip(block: seq<byte>, blockIndex: nat, integerValue: nat, prefixLength: nat, prefixValue: nat)
    requires prefixValue + Pow2(prefixLength) - 1 < 256 && prefixValue % Pow2(prefixLength) == 0
    requires integerValue < Pow2(prefixLength) - 1 + 128
    requires blockIndex + |IntegerBytes(integerValue, prefixLength, prefixValue)| <= |block|
    requires block[blockIndex..blockIndex + |IntegerBytes(integerValue, prefixLength, prefixValue)|] == IntegerBytes(integerValue, prefixLength, prefixValue)
    ensures IntegerAt(block, blockIndex, prefixLength)
            == Ok(DecodedInteger(integerValue, blockIndex + |IntegerBytes(integerValue, prefixLength, prefixValue)|))
  {
    var bytes := IntegerBytes(integerValue, prefixLength, prefixValue);
    var full := Pow2(prefixLength) - 1;
    SliceByte(block, blockIndex, bytes, 0);
    if integerValue < full {
      ShortIntegerAt(block, blockIndex, integerValue, prefixLength, prefixValue);
    } else {
      var rest := integerValue - full;
      assert bytes == [prefixValue + full, rest];
      SliceByte(block, blockIndex, bytes, 1);
      LongIntegerAt(block, blockIndex, rest, prefixLength, prefixValue);
    }
  }

  /** A value below the prefix mask is read back from its one byte. */
  lemma {:induction false} ShortIntegerAt(block: seq<byte>, blockIndex: nat, integerValue: nat, prefixLength: nat, prefixValue: nat)
    requires prefixValue % Pow2(prefixLength) == 0 && integerValue < Pow2(prefixLength) - 1
    requires blockIndex < |block| && block[blockIndex] as nat == prefixValue + integerValue
    ensures IntegerAt(block, blockIndex, prefixLength) == Ok(DecodedInteger(integerValue, blockIndex + 1))
  {
    PrefixByteMasked(prefixLength, prefixValue, integerValue);
  }

  /** A full prefix followed by one byte below 128 is read back as their sum. */
  lemma {:induction false} LongIntegerAt(block: seq<byte>, blockIndex: nat, rest: nat, prefixLength: nat, prefixValue: nat)
    requires prefixValue % Pow2(prefixLength) == 0 && rest < 128
    requires blockIndex + 1 < |block| && block[blockIndex] as nat == prefixValue + Pow2(prefixLength) - 1
    requires block[blockIndex + 1] as nat == rest
    ensures IntegerAt(block, blockIndex, prefixLength) == Ok(DecodedInteger(Pow2(prefixLength) - 1 + rest, blockIndex + 2))
  {
    PrefixByteMasked(prefixLength, prefixValue, Pow2(prefixLength) - 1);
    ContinuationMasked(rest);
  }

  /** A continuation byte below 128 is its own value under the 0x7f mask. */
  lemma {:induction false} ContinuationMasked(b: nat)
    requires b < 128
    ensures BitAnd(b, 0x7f) == b
  {
    BitAndLowMask(b, 7);
    assert Pow2(7) == 128;
    DivModUnique(b, 128, 0, b);
  }

  // ---------------------------------------------------------------- decoding strings

  /** What `decodeString` returns: the string and the index just past its bytes. */
  datatype DecodedString = DecodedString(str: string, index: nat)

  /** The bit string `decodeString` builds: every byte as eight binary digits, the first byte first. */
  function BitStream(bytes: seq<byte>): (bits: string)
    ensures |bits| == 8 * |bytes|
    ensures IsBinary(bits)
  {
    if bytes == [] then "" else BitStream(bytes[..|bytes| - 1]) + BinaryDigits(8, bytes[|bytes| - 1])
  }

  /** `s.substr(start, length)`: at most `length` characters from `start` on, none when `start` is past the end. */
  function Substr(s: string, start: nat, length: nat): (r: string)
    ensures |r| <= length
  {
    if start >= |s| then "" else s[start..if start + length < |s| then start + length else |s|]
  }

  /** The inner loop of `decodeString`: one more bit at a time while the key is not in the decoding table. */
  function Extend(bits: string, key: string, pos: nat): (r: (string, nat))
    ensures r.1 >= pos
    decreases |bits| - pos
  {
    if DecodingTableLookup(key).None? && pos < |bits| then Extend(bits, key + [bits[pos]], pos + 1) else (key, pos)
  }

  /** The inner loop stops short of the end of the bits only on a key. */
  lemma {:induction false} ExtendEnd(bits: string, key: string, pos: nat)
    ensures DecodingTableLookup(Extend(bits, key, pos).0).None? ==> Extend(bits, key, pos).1 >= |bits|
    decreases |bits| - pos
  {
    if DecodingTableLookup(key).None? && pos < |bits| {
      ExtendEnd(bits, key + [bits[pos]], pos + 1);
    }
  }

  /** `s.replace(/1/g, "")`: the characters of `s` other than '1'. */
  function WithoutOnes(s: string): (r: string)
    ensures r == "" <==> forall i :: 0 <= i < |s| ==> s[i] == '1'
  {
    if s == [] then "" else (if s[0] == '1' then "" else [s[0]]) + WithoutOnes(s[1..])
  }

  /** `prefix` in front of a successful result; a failure stays as it is. */
  function Prepend(prefix: seq<byte>, r: Result<seq<byte>>): Result<seq<byte>>
  {
    match r
    case Ok(rest) => Ok(prefix + rest)
    case Throw(e) => Throw(e)
  }

  lemma {:induction false} PrependTwice(a: seq<byte>, b: seq<byte>, r: Result<seq<byte>>)
    ensures Prepend(a + b, r) == Prepend(a, Prepend(b, r))
  {
    if r.Ok? {
      assert (a + b) + r.value == a + (b + r.value);
    }
  }

  /** What one pass of the outer loop of `decodeString` does with the key that starts at a bit. */
  datatype DecodeStep = Symbol(symbol: byte, next: nat) | Padding(next: nat) | BadPadding(message: string)

  /**
   * One pass of the outer loop at bit `pos`: five bits, extended until they
   * form a key; a key gives its byte, and what is left over at the end is
   * padding, refused when longer than seven bits or when it holds a zero,
   * skipped otherwise.
   */
  function StepAt(bits: string, pos: nat): (r: DecodeStep)
    requires pos < |bits|
    ensures !r.BadPadding? ==> r.next > pos
    ensures r.Padding? ==> r.next >= |bits|
  {
    var next := Extend(bits, Substr(bits, pos, 5), pos + 5);
    match DecodingTableLookup(next.0)
    case None =>
      ExtendEnd(bits, Substr(bits, pos, 5), pos + 5);
      if |next.0| > 7 then BadPadding("Padding too long")
      else if WithoutOnes(next.0) != "" then BadPadding("Padding incorrect")
      else Padding(next.1)
    case Some(b) => Symbol(b, next.1)
  }

  /** The outer loop of `decodeString` from bit `pos` on. */
  function HuffmanDecodeFrom(bits: string, pos: nat): Result<seq<byte>>
    decreases |bits| - pos
  {
    if pos >= |bits| then Ok([])
    else
      match StepAt(bits, pos)
      case BadPadding(message) => Raise(message, CompressionError)
      case Padding(next) => HuffmanDecodeFrom(bits, next)
      case Symbol(b, next) => Prepend([b], HuffmanDecodeFrom(bits, next))
  }

  /**
   * `decodeString` as the code computes it: the 0x80 bit of the first byte
   * chooses Huffman coding, a 7-bit-prefix integer gives the byte count, and
   * the bytes after it are decoded, or, for a raw string, copied into a
   * zero-filled buffer of that size (cut short at the end of the block) and
   * decoded as 'ascii'.  Huffman output goes through `Latin1Decode` in place
   * of UTF-8 decoding; the two agree on bytes below 0x80.
   */
  function StringAt(block: seq<byte>, blockIndex: nat): (r: Result<DecodedString>)
    ensures r.Ok? ==> r.value.index > blockIndex
  {
    var initialByte :- ReadByte(block, blockIndex);
    var length :- IntegerAt(block, blockIndex, 7);
    StringContent(block, BitAnd(initialByte, 0x80) != 0, length.num, length.index)
  }

  /** The `strLength` bytes of a string literal that start at `index`, decoded. */
  function StringContent(block: seq<byte>, huffman: bool, strLength: nat, index: nat): (r: Result<DecodedString>)
    requires index <= |block|
    ensures r.Ok? ==> r.value.index == index + strLength
  {
    if huffman then
      if index + strLength > |block| then Throw(RangeError)
      else
        var bytes :- HuffmanDecodeFrom(BitStream(block[index..index + strLength]), 0);
        Ok(DecodedString(Latin1Decode(bytes), index + strLength))
    else
      Ok(DecodedString(AsciiDecode(CopyBytes(block, Zeros(strLength), 0, index, index + strLength)), index + strLength))
  }

  /** A zero digit in front of the binary digits of `b` does not change their value. */
  lemma {:induction false} PadOneZero(b: nat, length: nat)
    requires b < Pow2(length)
    ensures "0" + BinaryDigits(length, b) == BinaryDigits(length + 1, b)
    ensures b < Pow2(length + 1)
  {
    ZeroPadDigits(1, length, b);
    assert Repeat('0', 1) == "0";
    Pow2Monotone(length, length + 1);
  }

  lemma {:induction false} BitStreamSnoc(block: seq<byte>, index: nat, i: nat)
    requires index + i < |block|
    ensures BitStream(block[index..index + i + 1]) == BitStream(block[index..index + i]) + BinaryDigits(8, block[index + i])
  {
    var s := block[index..index + i + 1];
    assert s[..|s| - 1] == block[index..index + i];
  }

  /** The first loop of `decodeString`: the Huffman bytes as a bit string, `toString(2)` padded to eight digits. */
  method ReadHuffmanBits(block: seq<byte>, index: nat, strLength: nat) returns (r: Result<string>)
    requires index <= |block|
    ensures index + strLength > |block| ==> r == Throw(RangeError)
    ensures index + strLength <= |block| ==> r == Ok(BitStream(block[index..index + strLength]))
  {
    var huffByteStream := "";
    for i := 0 to strLength
      invariant index + i <= |block|
      invariant huffByteStream == BitStream(block[index..index + i])
    {
      var b :- ReadByte(block, index + i);
      var huffByte := ByteDigits(b);
      BitStreamSnoc(block, index, i);
      huffByteStream := huffByteStream + huffByte;
    }
    return Ok(huffByteStream);
  }

  /** `b.toString(2)`, padded with zeros in front to eight digits. */
  method ByteDigits(b: byte) returns (huffByte: string)
    ensures huffByte == BinaryDigits(8, b)
  {
    huffByte := ToBinaryString(b);
    ToBinaryStringDigits(b, 8);
    ToBinaryStringBound(b);
    while |huffByte| < 8
      invariant |huffByte| <= 8 && b < Pow2(|huffByte|)
      invariant huffByte == BinaryDigits(|huffByte|, b)
      decreases 8 - |huffByte|
    {
      PadOneZero(b, |huffByte|);
      huffByte := "0" + huffByte;
    }
  }

  /** The inner loop of `decodeString`: the key that starts at bit `pos`, and the bit just past it. */
  method ReadKey(bits: string, pos: nat) returns (huffChar: string, next: nat)
    ensures (huffChar, next) == Extend(bits, Substr(bits, pos, 5), pos + 5)
  {
    huffChar := Substr(bits, pos, 5);
    next := pos + 5;
    while DecodingTableLookup(huffChar).None? && next < |bits|
      invariant Extend(bits, huffChar, next) == Extend(bits, Substr(bits, pos, 5), pos + 5)
      decreases |bits| - next
    {
      huffChar := huffChar + [bits[next]];
      next := next + 1;
    }
  }

  /** One pass of the outer loop of `decodeString`. */
  method DecodeKey(bits: string, pos: nat) returns (step: DecodeStep)
    requires pos < |bits|
    ensures step == StepAt(bits, pos)
  {
    var huffChar, next := ReadKey(bits, pos);
    var decodedHuffChar := DecodingTableLookup(huffChar);
    if decodedHuffChar.None? {
      if |huffChar| > 7 {
        return BadPadding("Padding too long");
      } else if WithoutOnes(huffChar) != "" {
        return BadPadding("Padding incorrect");
      }
      return Padding(next);
    }
    return Symbol(decodedHuffChar.value, next);
  }

  lemma {:induction false} PrependEmpty(r: Result<seq<byte>>)
    ensures Prepend([], r) == r
  {
    if r.Ok? {
      assert [] + r.value == r.value;
    }
  }

  /** The outer loop of `decodeString` that turns the bit string into bytes. */
  method HuffmanDecode(bits: string) returns (r: Result<seq<byte>>)
    ensures r == HuffmanDecodeFrom(bits, 0)
  {
    var huffStrBytes: seq<byte> := [];
    var pos: nat := 0;
    PrependEmpty(HuffmanDecodeFrom(bits, 0));
    while pos < |bits|
      invariant Prepend(huffStrBytes, HuffmanDecodeFrom(bits, pos)) == HuffmanDecodeFrom(bits, 0)
      decreases |bits| - pos
    {
      var step := DecodeKey(bits, pos);
      match step
      case BadPadding(message) =>
        return Raise(message, CompressionError);
      case Padding(next) =>
        pos := next;
      case Symbol(b, next) =>
        PrependTwice(huffStrBytes, [b], HuffmanDecodeFrom(bits, next));
        huffStrBytes := huffStrBytes + [b];
        pos := next;
    }
    assert huffStrBytes + [] == huffStrBytes;
    return Ok(huffStrBytes);
  }

  /** `decodeString`. */
  method DecodeString(block: seq<byte>, blockIndex: nat) returns (r: Result<DecodedString>)
    ensures r == StringAt(block, blockIndex)
  {
    var initialByte :- ReadByte(block, blockIndex);
    var huffman := BitAnd(initialByte, 0x80) != 0;
    var decodedInteger :- DecodeInteger(block, blockIndex, 7);
    r := DecodeContent(block, huffman, decodedInteger.num, decodedInteger.index);
  }

  /** The part of `decodeString` after the length: the bytes of the literal, decoded. */
  method DecodeContent(block: seq<byte>, huffman: bool, strLength: nat, index: nat) returns (r: Result<DecodedString>)
    requires index <= |block|
    ensures r == StringContent(block, huffman, strLength, index)
  {
    var str;
    if huffman {
      var huffByteStream :- ReadHuffmanBits(block, index, strLength);
      var huffStrBytes :- HuffmanDecode(huffByteStream);
      str := Latin1Decode(huffStrBytes);
    } else {
      var strBuffer := Zeros(strLength);
      strBuffer := CopyBytes(block, strBuffer, 0, index, index + strLength);
      str := AsciiDecode(strBuffer);
    }
    return Ok(DecodedString(str, index + strLength));
  }

  // ---------------------------------------------------------------- encoding strings

  /** The characters `encodeString` accepts for Huffman coding: printable ASCII, 0x20 to 0x7e. */
  predicate PrintableChar(c: char)
  {
    0x20 <= c as int <= 0x7e
  }

  predicate Printable(str: string)
  {
    forall i :: 0 <= i < |str| ==> PrintableChar(str[i])
  }

  /** The strings `f` gives for the characters of `s`, one after the other. */
  function ConcatMap(f: char -> string, s: string): string
  {
    if s == [] then "" else ConcatMap(f, s[..|s| - 1]) + f(s[|s| - 1])
  }

  /** The strings for two strings in a row are the strings for the concatenation. */
  lemma {:induction false} ConcatMapAppend(f: char -> string, a: string, b: string)
    ensures ConcatMap(f, a + b) == ConcatMap(f, a) + ConcatMap(f, b)
    decreases |b|
  {
    if b == [] {
      assert a + b == a;
    } else {
      var init := b[..|b| - 1];
      assert (a + b)[..|a + b| - 1] == a + init;
      assert (a + b)[|a + b| - 1] == b[|b| - 1];
      ConcatMapAppend(f, a, init);
    }
  }

  /** The strings for a non-empty string are the one for its first character, then the rest. */
  lemma {:induction false} ConcatMapCons(f: char -> string, s: string)
    requires s != []
    ensures ConcatMap(f, s) == f(s[0]) + ConcatMap(f, s[1..])
  {
    var head, tail := [s[0]], s[1..];
    assert head + tail == s;
    ConcatMapAppend(f, head, tail);
    assert ConcatMap(f, head) == f(s[0]) by {
      assert head[..0] == [];
    }
  }

  /** The Huffman keys of the characters of `str`, one after the other. */
  function HuffmanBits(str: string): string
  {
    ConcatMap(EncodingTableLookup, str)
  }

  /** The number of '1's that fill `n` bits up to a whole number of bytes. */
  function PadLength(n: nat): (k: nat)
    ensures k < 8 && (n + k) % 8 == 0
  {
    (8 - n % 8) % 8
  }

  /** No fewer '1's than `PadLength` reach a multiple of eight. */
  lemma {:induction false} PadLengthLeast(n: nat, k: nat)
    requires k < 8 && (n + k) % 8 == 0
    ensures k == PadLength(n)
  {
  }

  /** The bit string with '1's added until its length is a multiple of eight. */
  function PadWithOnes(bits: string): (padded: string)
    ensures |padded| % 8 == 0
  {
    bits + Repeat('1', PadLength(|bits|))
  }

  /** `parseInt(chunk, 2)` of at most eight characters, written as a byte; `NaN` is written as 0. */
  function OctetValue(chunk: string): (b: byte)
    requires |chunk| <= 8
  {
    match ParseIntBase2(chunk)
    case None => 0
    case Some(v) =>
      ParseIntBase2Bound(chunk);
      Pow2Monotone(BinaryPrefixLength(chunk), 8);
      assert Pow2(8) == 256;
      v
  }

  /** The bytes the last loop of `encodeString` writes: one per eight bits, the first bits first. */
  function Octets(padded: string): (bytes: seq<byte>)
    ensures |bytes| * 8 <= |padded| < |bytes| * 8 + 8
  {
    if |padded| < 8 then [] else Octets(padded[..|padded| - 8]) + [OctetValue(padded[|padded| - 8..])]
  }

  /**
   * The bytes `encodeString` writes for `str` with Huffman coding: the byte
   * count as a 7-bit-prefix integer with the 0x80 flag, then the padded
   * keys; a character outside printable ASCII is refused.
   */
  function HuffmanString(str: string): (r: Result<seq<byte>>)
    ensures r.Ok? <==> Printable(str)
  {
    if !Printable(str) then Raise("Header field contains non-ASCII or non-printable character", CompressionError)
    else
      var padded := PadWithOnes(HuffmanBits(str));
      assert Pow2(7) == 128;
      Ok(IntegerBytes(|padded| / 8, 7, 0x80) + Octets(padded))
  }

  /** The bytes `encodeString` writes for `str` without Huffman coding: the UTF-8 length, then the UTF-8 bytes. */
  function RawString(str: string): seq<byte>
  {
    assert Pow2(7) == 128;
    IntegerBytes(|Utf8(str)|, 7, 0) + Utf8(str)
  }

  /** What `encodeString` writes, either way. */
  function StringBytes(str: string, huffman: bool): Result<seq<byte>>
  {
    if huffman then HuffmanString(str) else Ok(RawString(str))
  }

  /** The first loop of `encodeString`: each character checked and replaced by its key. */
  method HuffmanBitString(str: string) returns (r: Result<string>)
    ensures Printable(str) ==> r == Ok(HuffmanBits(str))
    ensures !Printable(str) ==> r == Raise("Header field contains non-ASCII or non-printable character", CompressionError)
  {
    var huffByteStream := "";
    for i := 0 to |str|
      invariant Printable(str[..i])
      invariant huffByteStream == HuffmanBits(str[..i])
    {
      if (str[i] as int) < 0x20 || (str[i] as int) > 0x7e {
        assert !PrintableChar(str[i]);
        return Raise("Header field contains non-ASCII or non-printable character", CompressionError);
      }
      assert str[..i + 1][..i] == str[..i];
      huffByteStream := huffByteStream + EncodingTableLookup(str[i]);
    }
    assert str[..|str|] == str;
    return Ok(huffByteStream);
  }

  /** The padding loop of `encodeString`. */
  method PadBits(bits: string) returns (padded: string)
    ensures padded == PadWithOnes(bits)
  {
    padded := bits;
    ghost var k := 0;
    while |padded| % 8 != 0
      invariant k <= PadLength(|bits|) && padded == bits + Repeat('1', k)
      decreases PadLength(|bits|) - k
    {
      padded := padded + "1";
      k := k + 1;
    }
    PadLengthLeast(|bits|, k);
  }

  /** The last loop of `encodeString`: `parseInt` of eight bits at a time, each written as one byte. */
  method WriteOctets(block: seq<byte>, blockIndex: nat, padded: string) returns (e: EncodedValue)
    requires blockIndex <= |block| && |padded| % 8 == 0
    ensures Encoded(block, blockIndex, Octets(padded), e)
  {
    var buffer := block;
    var index := blockIndex;
    var i := 0;
    ghost var j := 0;
    ghost var m := |padded| / 8;
    while i < |padded|
      invariant i == 8 * j && |padded| == 8 * m && j <= m
      invariant Encoded(block, blockIndex, Octets(padded[..i]), EncodedValue(index, buffer))
      decreases m - j
    {
      var charCode := OctetValue(Substr(padded, i, 8));
      var next := Put(buffer, charCode, index);
      OctetWritten(block, blockIndex, padded, i, j, EncodedValue(index, buffer), next);
      buffer, index := next, index + 1;
      i, j := i + 8, j + 1;
    }
    assert padded[..i] == padded;
    e := EncodedValue(index, buffer);
  }

  /** One turn of the loop of `encodeHuffman` writes the byte of the next eight bits. */
  lemma {:induction false} OctetWritten(block: seq<byte>, blockIndex: nat, padded: string, i: nat, j: nat, e: EncodedValue, next: seq<byte>)
    requires i == 8 * j && i + 8 <= |padded|
    requires Encoded(block, blockIndex, Octets(padded[..i]), e)
    requires |next| > e.index && next[..e.index] == e.buffer[..e.index] && next[e.index] == OctetValue(Substr(padded, i, 8))
    ensures Encoded(block, blockIndex, Octets(padded[..i + 8]), EncodedValue(e.index + 1, next))
  {
    var b := OctetValue(Substr(padded, i, 8));
    OctetsStep(padded, i, j);
    PutExtends(e.buffer, next, e.index, b);
    EncodedTwice(block, blockIndex, Octets(padded[..i]), e, [b], EncodedValue(e.index + 1, next));
  }

  /** Eight more bits give one more byte. */
  lemma {:induction false} OctetsStep(padded: string, i: nat, j: nat)
    requires i == 8 * j && i + 8 <= |padded|
    ensures Octets(padded[..i + 8]) == Octets(padded[..i]) + [OctetValue(Substr(padded, i, 8))]
  {
    var p := padded[..i + 8];
    assert Substr(padded, i, 8) == p[|p| - 8..];
    assert p[..|p| - 8] == padded[..i];
  }

  /**
   * `encodeString`: Huffman coding, which refuses characters outside
   * printable ASCII, or raw UTF-8 bytes.  The raw bytes go through
   * `bufferCopy`, which grows the buffer only once, so they land whole when
   * there are no more than `DefaultHeaderSize` of them; the index moves past
   * them in any case.
   */
  method EncodeString(block: seq<byte>, blockIndex: nat, str: string, huffman: bool) returns (r: Result<EncodedValue>)
    requires blockIndex <= |block|
    ensures r.Ok? <==> StringBytes(str, huffman).Ok?
    ensures r.Throw? ==> r == Raise("Header field contains non-ASCII or non-printable character", CompressionError)
    ensures r.Ok? ==> r.value.index == blockIndex + |StringBytes(str, huffman).value|
    ensures r.Ok? && (huffman || |Utf8(str)| <= DefaultHeaderSize) ==>
              Encoded(block, blockIndex, StringBytes(str, huffman).value, r.value)
  {
    assert Pow2(7) == 128;
    if huffman {
      var huffByteStream :- HuffmanBitString(str);
      huffByteStream := PadBits(huffByteStream);
      var encodedInteger := EncodeInteger(block, blockIndex, |huffByteStream| / 8, 7, 0x80);
      var e := WriteOctets(encodedInteger.buffer, encodedInteger.index, huffByteStream);
      EncodedTwice(block, blockIndex, IntegerBytes(|huffByteStream| / 8, 7, 0x80), encodedInteger, Octets(huffByteStream), e);
      return Ok(e);
    } else {
      var buffer := Utf8(str);
      var encodedInteger := EncodeInteger(block, blockIndex, |buffer|, 7, 0x00);
      var copied := BufferCopy(buffer, encodedInteger.buffer, encodedInteger.index, 0, |buffer|);
      var e := EncodedValue(encodedInteger.index + |buffer|, copied);
      if |buffer| <= DefaultHeaderSize {
        EncodedTwice(block, blockIndex, IntegerBytes(|buffer|, 7, 0), encodedInteger, buffer, e);
      }
      return Ok(e);
    }
  }

  // ---------------------------------------------------------------- string round trips

  /** The character codes of `str`, one byte each. */
  function CharBytes(str: string): (bytes: seq<byte>)
    requires forall i :: 0 <= i < |str| ==> str[i] as int < 256
    ensures |bytes| == |str|
  {
    if str == [] then [] else [str[0] as int] + CharBytes(str[1..])
  }

  /** Each byte is the code of the character at its position. */
  lemma {:induction false} CharBytesIndex(str: string)
    requires forall i :: 0 <= i < |str| ==> str[i] as int < 256
    ensures forall i :: 0 <= i < |str| ==> CharBytes(str)[i] == str[i] as int
  {
    if str != [] {
      CharBytesIndex(str[1..]);
      assert forall i :: 1 <= i < |str| ==> CharBytes(str)[i] == CharBytes(str[1..])[i - 1];
    }
  }

  /** Decoding the character codes as Latin-1 gives the string back. */
  lemma {:induction false} CharBytesDecode(str: string)
    requires forall i :: 0 <= i < |str| ==> str[i] as int < 256
    ensures Latin1Decode(CharBytes(str)) == str
  {
    var d := Latin1Decode(CharBytes(str));
    Latin1DecodeIndex(CharBytes(str));
    CharBytesIndex(str);
    assert |d| == |str|;
    forall i | 0 <= i < |str|
      ensures d[i] == str[i]
    {
      assert d[i] as int == str[i] as int;
    }
  }

  /** A string the encoder's table spells in binary: printable ASCII with no '`', whose key has a '|' in it. */
  predicate HuffmanEncodable(str: string)
  {
    Printable(str) && forall i :: 0 <= i < |str| ==> str[i] != '`'
  }

  /** The key of an encodable character is a binary key of the table. */
  lemma {:induction false} EncodableKey(c: char) returns (l: nat, code: nat)
    requires PrintableChar(c) && c != '`'
    ensures EncodingTableLookup(c) == BinaryDigits(l, code)
    ensures 5 <= l <= 30 && FirstCode(l) <= code < EndCode(l) && code < Pow2(l)
  {
    if GarbledKey(c as int).Some? {
      GarbledKeysNotBinary(c as int);
    }
    l, code := BinaryKey(c as int);
  }

  /** The bits of an encodable string, padded, are binary digits. */
  lemma {:induction false} HuffmanBitsBinary(str: string)
    requires HuffmanEncodable(str)
    ensures IsBinary(HuffmanBits(str))
    decreases |str|
  {
    if str != [] {
      var init := str[..|str| - 1];
      assert HuffmanEncodable(init);
      HuffmanBitsBinary(init);
      var l, code := EncodableKey(str[|str| - 1]);
    }
  }

  /** For a binary string, the bytes `encodeString` makes unpack to the same bits. */
  lemma {:induction false} OctetsBitStream(padded: string)
    requires |padded| % 8 == 0 && IsBinary(padded)
    ensures BitStream(Octets(padded)) == padded
    decreases |padded|
  {
    if padded != [] {
      var init, chunk := padded[..|padded| - 8], padded[|padded| - 8..];
      assert IsBinary(init) && IsBinary(chunk);
      OctetsBitStream(init);
      assert padded == init + chunk;
      OctetsStepBits(init, chunk);
    }
  }

  /** Eight more binary digits after bytes that unpack to `init` unpack to them too. */
  lemma {:induction false} OctetsStepBits(init: string, chunk: string)
    requires |chunk| == 8 && IsBinary(chunk)
    requires BitStream(Octets(init)) == init
    ensures BitStream(Octets(init + chunk)) == init + chunk
  {
    var padded := init + chunk;
    assert padded[..|padded| - 8] == init && padded[|padded| - 8..] == chunk;
    assert Octets(padded) == Octets(init) + [OctetValue(chunk)];
    ChunkValue(chunk);
    BitStreamAppend(Octets(init), OctetValue(chunk));
  }

  /** Eight binary digits are written as the byte they spell. */
  lemma {:induction false} ChunkValue(chunk: string)
    requires |chunk| == 8 && IsBinary(chunk)
    ensures BinaryDigits(8, OctetValue(chunk)) == chunk
  {
    BinaryValueDigits(chunk);
    ParseIntOfDigits(8, BinaryValue(chunk));
  }

  lemma {:induction false} BitStreamAppend(bytes: seq<byte>, b: byte)
    ensures BitStream(bytes + [b]) == BitStream(bytes) + BinaryDigits(8, b)
  {
    assert (bytes + [b])[..|bytes|] == bytes;
  }

  /** The inner loop of the decoder, started on the first five bits of a binary key, reads exactly that key. */
  lemma {:induction false} ExtendToKey(bits: string, pos: nat, key: string, k: nat)
    requires pos + |key| <= |bits| && bits[pos..pos + |key|] == key
    requires 5 <= k <= |key|
    requires forall m :: k <= m < |key| ==> DecodingTableLookup(key[..m]).None?
    requires DecodingTableLookup(key).Some?
    ensures Extend(bits, key[..k], pos + k) == (key, pos + |key|)
    decreases |key| - k
  {
    if k < |key| {
      assert bits[pos + k] == key[k];
      assert key[..k] + [bits[pos + k]] == key[..k + 1];
      ExtendToKey(bits, pos, key, k + 1);
    } else {
      assert key[..k] == key;
    }
  }

  /** At the start of a character's key, one pass of the decoder gives back that character. */
  lemma {:induction false} SymbolStep(bits: string, pos: nat, c: char)
    requires PrintableChar(c) && c != '`'
    requires pos + |EncodingTableLookup(c)| <= |bits|
    requires bits[pos..pos + |EncodingTableLookup(c)|] == EncodingTableLookup(c)
    ensures pos < |bits|
    ensures StepAt(bits, pos) == Symbol(c as int, pos + |EncodingTableLookup(c)|)
  {
    var key := EncodingTableLookup(c);
    var l, code := EncodableKey(c);
    forall m | 5 <= m < l
      ensures DecodingTableLookup(key[..m]).None?
    {
      PrefixNotAKey(l, code, m);
    }
    LookupOwnKey(c as int);
    assert Substr(bits, pos, 5) == key[..5];
    ExtendToKey(bits, pos, key, 5);
  }

  /** Once the key read so far is five or more '1's, the inner loop runs on to the end of the trailing '1's. */
  lemma {:induction false} ExtendOverOnes(bits: string, pos: nat, k: nat, m: nat)
    requires 5 <= m <= k <= 7 && pos + k == |bits| && bits[pos..] == Repeat('1', k)
    ensures Extend(bits, Repeat('1', m), pos + m) == (Repeat('1', k), |bits|)
    decreases k - m
  {
    PaddingNotAKey(m);
    if m < k {
      assert bits[pos + m] == bits[pos..][m] == '1';
      assert Repeat('1', m) + [bits[pos + m]] == Repeat('1', m + 1);
      ExtendOverOnes(bits, pos, k, m + 1);
    }
  }

  /** On one to seven '1's at the end, one pass of the decoder skips them as padding. */
  lemma {:induction false} PaddingStep(bits: string, pos: nat, k: nat)
    requires 1 <= k <= 7 && pos + k == |bits| && bits[pos..] == Repeat('1', k)
    ensures StepAt(bits, pos).Padding? && StepAt(bits, pos).next >= |bits|
  {
    var first := Substr(bits, pos, 5);
    var next := Extend(bits, first, pos + 5);
    if k <= 5 {
      assert first == Repeat('1', k);
      PaddingNotAKey(k);
      assert next == (Repeat('1', k), pos + 5);
    } else {
      assert first == Repeat('1', 5);
      ExtendOverOnes(bits, pos, k, 5);
      assert next == (Repeat('1', k), |bits|);
    }
    PaddingNotAKey(k);
    assert WithoutOnes(Repeat('1', k)) == "";
  }

  /** Padding alone decodes to nothing. */
  lemma {:induction false} PaddingDecodes(bits: string, pos: nat, k: nat)
    requires k <= 7 && pos + k == |bits| && bits[pos..] == Repeat('1', k)
    ensures HuffmanDecodeFrom(bits, pos) == Ok([])
  {
    if k > 0 {
      PaddingStep(bits, pos, k);
    }
  }

  /** Where no key starts at `pos`, the inner loop runs from bit `k` to the end and collects every remaining bit. */
  lemma {:induction false} ExtendToEnd(bits: string, pos: nat, k: nat)
    requires pos < k <= |bits|
    requires forall j :: pos < j <= |bits| ==> DecodingTableLookup(bits[pos..j]).None?
    ensures Extend(bits, bits[pos..k], k) == (bits[pos..], |bits|)
    decreases |bits| - k
  {
    if k < |bits| {
      assert bits[pos..k] + [bits[k]] == bits[pos..k + 1];
      ExtendToEnd(bits, pos, k + 1);
    } else {
      assert bits[pos..k] == bits[pos..];
    }
  }

  /** Where no key starts at `pos`, one pass of the outer loop collects the whole rest of the bits as the left-over key. */
  lemma {:induction false} NoKeyStep(bits: string, pos: nat)
    requires pos < |bits|
    requires forall j :: pos < j <= |bits| ==> DecodingTableLookup(bits[pos..j]).None?
    ensures Extend(bits, Substr(bits, pos, 5), pos + 5).0 == bits[pos..]
    ensures DecodingTableLookup(bits[pos..]).None?
  {
    assert DecodingTableLookup(bits[pos..|bits|]).None?;
    assert bits[pos..|bits|] == bits[pos..];
    if pos + 5 < |bits| {
      assert Substr(bits, pos, 5) == bits[pos..pos + 5];
      ExtendToEnd(bits, pos, pos + 5);
    } else {
      assert Substr(bits, pos, 5) == bits[pos..];
    }
  }

  /**
   * The refusing half of the padding check: where no key starts at `pos`,
   * the bits left are padding, refused as too long past seven bits and as
   * incorrect when they hold a '0', and skipped otherwise.
   */
  lemma {:induction false} PaddingRefused(bits: string, pos: nat)
    requires pos < |bits|
    requires forall j :: pos < j <= |bits| ==> DecodingTableLookup(bits[pos..j]).None?
    ensures |bits| - pos > 7 ==> HuffmanDecodeFrom(bits, pos) == Raise("Padding too long", CompressionError)
    ensures |bits| - pos <= 7 && WithoutOnes(bits[pos..]) != "" ==>
      HuffmanDecodeFrom(bits, pos) == Raise("Padding incorrect", CompressionError)
    ensures |bits| - pos <= 7 && WithoutOnes(bits[pos..]) == "" ==> HuffmanDecodeFrom(bits, pos) == Ok([])
  {
    NoKeyStep(bits, pos);
    var step := StepAt(bits, pos);
    if |bits| - pos > 7 {
      assert step == BadPadding("Padding too long");
    } else if WithoutOnes(bits[pos..]) != "" {
      assert step == BadPadding("Padding incorrect");
    } else {
      assert step.Padding?;
    }
  }

  /** The middle part of three strings in a row. */
  /** The keys of a string are the key of its first character followed by the keys of the rest. */
  lemma {:induction false} HuffmanBitsCons(s: string)
    requires s != []
    ensures HuffmanBits(s) == EncodingTableLookup(s[0]) + HuffmanBits(s[1..])
  {
    ConcatMapCons(EncodingTableLookup, s);
  }

  /** Where the bits from `pos` on are the keys of `s` and then `tail`, the key of `s[0]` comes first. */
  lemma {:induction false} KeysAt(bits: string, pos: nat, s: string, tail: string)
    requires s != [] && pos <= |bits| && bits[pos..] == HuffmanBits(s) + tail
    ensures pos + |EncodingTableLookup(s[0])| <= |bits|
    ensures bits[pos..pos + |EncodingTableLookup(s[0])|] == EncodingTableLookup(s[0])
    ensures bits[pos + |EncodingTableLookup(s[0])|..] == HuffmanBits(s[1..]) + tail
  {
    var key := EncodingTableLookup(s[0]);
    HuffmanBitsCons(s);
    var rest := HuffmanBits(s[1..]) + tail;
    assert bits[pos..] == key + rest;
    assert bits[pos..pos + |key|] == bits[pos..][..|key|];
    assert bits[pos + |key|..] == bits[pos..][|key|..];
  }

  /** A pass of the decoder that reads a symbol puts it in front of what the rest decodes to. */
  lemma {:induction false} DecodeAfterSymbol(bits: string, pos: nat, b: byte, next: nat, rest: seq<byte>)
    requires pos < |bits| && StepAt(bits, pos) == Symbol(b, next)
    requires HuffmanDecodeFrom(bits, next) == Ok(rest)
    ensures HuffmanDecodeFrom(bits, pos) == Ok([b] + rest)
  {
  }

  /** At the key of an encodable character, the decoder reads that character and goes on after the key. */
  lemma {:induction false} DecodeKeyThen(bits: string, pos: nat, c: char, next: nat, rest: seq<byte>)
    requires PrintableChar(c) && c != '`'
    requires next == pos + |EncodingTableLookup(c)| <= |bits|
    requires bits[pos..next] == EncodingTableLookup(c)
    requires HuffmanDecodeFrom(bits, next) == Ok(rest)
    ensures HuffmanDecodeFrom(bits, pos) == Ok([c as int] + rest)
  {
    SymbolStep(bits, pos, c);
    DecodeAfterSymbol(bits, pos, c as int, next, rest);
  }

  /**
   * Bits that hold, from `pos` on, the keys of an encodable string followed
   * by at most seven '1's decode from there to the codes of that string.
   */
  lemma {:induction false} DecodeKeys(bits: string, pos: nat, s: string, k: nat)
    requires HuffmanEncodable(s) && k <= 7
    requires pos <= |bits| && bits[pos..] == HuffmanBits(s) + Repeat('1', k)
    ensures HuffmanDecodeFrom(bits, pos) == Ok(CharBytes(s))
    decreases |s|
  {
    if s == [] {
      assert bits[pos..] == Repeat('1', k);
      PaddingDecodes(bits, pos, k);
    } else {
      KeysAt(bits, pos, s, Repeat('1', k));
      var next := pos + |EncodingTableLookup(s[0])|;
      assert HuffmanEncodable(s[1..]);
      DecodeKeys(bits, next, s[1..], k);
      DecodeKeyThen(bits, pos, s[0], next, CharBytes(s[1..]));
    }
  }

  /** The padding check of `PaddingRefused`, for a `tail` of bits in which no key starts, found at `pos`. */
  lemma {:induction false} TailRefused(bits: string, pos: nat, tail: string)
    requires tail != [] && pos <= |bits| && bits[pos..] == tail
    requires forall j :: 0 < j <= |tail| ==> DecodingTableLookup(tail[..j]).None?
    ensures |tail| > 7 ==> HuffmanDecodeFrom(bits, pos) == Raise("Padding too long", CompressionError)
    ensures |tail| <= 7 && WithoutOnes(tail) != "" ==>
      HuffmanDecodeFrom(bits, pos) == Raise("Padding incorrect", CompressionError)
  {
    forall j | pos < j <= |bits|
      ensures DecodingTableLookup(bits[pos..j]).None?
    {
      assert bits[pos..j] == tail[..j - pos];
    }
    PaddingRefused(bits, pos);
  }

  /** A pass of the decoder that reads a symbol passes on an exception raised after it. */
  lemma {:induction false} ThrowAfterSymbol(bits: string, pos: nat, b: byte, next: nat)
    requires pos < |bits| && StepAt(bits, pos) == Symbol(b, next)
    requires HuffmanDecodeFrom(bits, next).Throw?
    ensures HuffmanDecodeFrom(bits, pos) == HuffmanDecodeFrom(bits, next)
  {
  }

  /**
   * Bits that hold, from `pos` on, the keys of an encodable string followed
   * by bits in which no key starts are refused by the padding check: as too
   * long past seven bits, as incorrect when they hold a '0'.
   */
  lemma {:induction false} DecodeKeysRefused(bits: string, pos: nat, s: string, tail: string)
    requires HuffmanEncodable(s) && tail != []
    requires pos <= |bits| && bits[pos..] == HuffmanBits(s) + tail
    requires forall j :: 0 < j <= |tail| ==> DecodingTableLookup(tail[..j]).None?
    ensures |tail| > 7 ==> HuffmanDecodeFrom(bits, pos) == Raise("Padding too long", CompressionError)
    ensures |tail| <= 7 && WithoutOnes(tail) != "" ==>
      HuffmanDecodeFrom(bits, pos) == Raise("Padding incorrect", CompressionError)
    decreases |s|
  {
    if s == [] {
      assert bits[pos..] == tail;
      TailRefused(bits, pos, tail);
    } else {
      KeysAt(bits, pos, s, tail);
      var c := s[0];
      var next := pos + |EncodingTableLookup(c)|;
      assert HuffmanEncodable(s[1..]);
      DecodeKeysRefused(bits, next, s[1..], tail);
      SymbolStep(bits, pos, c);
      if |tail| > 7 || WithoutOnes(tail) != "" {
        ThrowAfterSymbol(bits, pos, c as int, next);
      }
    }
  }

  /** A byte with its 0x80 bit set. */
  lemma {:induction false} HighBitSet(b: nat)
    requires 128 <= b < 256
    ensures BitAnd(b, 0x80) != 0
  {
    assert Pow2(7) == 128;
    BitAndSingleBit(b, 7);
    DivModUnique(b, 128, 1, b - 128);
  }

  /** The two parts of a slice that holds `x` followed by `y`. */
  lemma {:induction false} SliceSplit(block: seq<byte>, start: nat, x: seq<byte>, y: seq<byte>)
    requires start + |x| + |y| <= |block| && block[start..start + |x| + |y|] == x + y
    ensures block[start..start + |x|] == x
    ensures block[start + |x|..start + |x| + |y|] == y
  {
    var s := block[start..start + |x| + |y|];
    assert block[start..start + |x|] == s[..|x|];
    assert block[start + |x|..start + |x| + |y|] == s[|x|..];
  }

  /** Once the length has been read, `decodeString` goes on with its content. */
  lemma {:induction false} StringAtContent(block: seq<byte>, blockIndex: nat, length: DecodedInteger)
    requires blockIndex < |block| && IntegerAt(block, blockIndex, 7) == Ok(length)
    ensures StringAt(block, blockIndex) == StringContent(block, BitAnd(block[blockIndex], 0x80) != 0, length.num, length.index)
  {
  }

  /** The bytes that hold the padded keys of `str`. */
  function HuffmanOctets(str: string): seq<byte>
  {
    Octets(PadWithOnes(HuffmanBits(str)))
  }

  /** The padded keys of an encodable string decode to its character codes. */
  lemma {:induction false} HuffmanOctetsDecode(str: string)
    requires HuffmanEncodable(str)
    ensures HuffmanDecodeFrom(BitStream(HuffmanOctets(str)), 0) == Ok(CharBytes(str))
  {
    var padded := PadWithOnes(HuffmanBits(str));
    HuffmanBitsBinary(str);
    assert IsBinary(Repeat('1', PadLength(|HuffmanBits(str)|)));
    assert IsBinary(padded);
    OctetsBitStream(padded);
    DecodeKeys(padded, 0, str, PadLength(|HuffmanBits(str)|));
  }

  /** Content bytes that decode to the character codes of `str` are read as `str`. */
  lemma {:induction false} HuffmanContent(block: seq<byte>, index: nat, content: seq<byte>, str: string, end: nat)
    requires forall i :: 0 <= i < |str| ==> str[i] as int < 256
    requires HuffmanDecodeFrom(BitStream(content), 0) == Ok(CharBytes(str))
    requires end == index + |content| && end <= |block| && block[index..end] == content
    ensures StringContent(block, true, |content|, index) == Ok(DecodedString(str, end))
  {
    CharBytesDecode(str);
  }

  /**
   * Huffman content whose bits are the keys of an encodable string and then
   * bits in which no key starts is refused by `decodeString` with the padding
   * check's `COMPRESSION_ERROR`.
   */
  lemma {:induction false} HuffmanContentRefused(block: seq<byte>, index: nat, content: seq<byte>, s: string, tail: string)
    requires HuffmanEncodable(s) && tail != []
    requires BitStream(content) == HuffmanBits(s) + tail
    requires forall j :: 0 < j <= |tail| ==> DecodingTableLookup(tail[..j]).None?
    requires index + |content| <= |block| && block[index..index + |content|] == content
    ensures |tail| > 7 ==>
      StringContent(block, true, |content|, index) == Raise("Padding too long", CompressionError)
    ensures |tail| <= 7 && WithoutOnes(tail) != "" ==>
      StringContent(block, true, |content|, index) == Raise("Padding incorrect", CompressionError)
  {
    DecodeKeysRefused(BitStream(content), 0, s, tail);
  }

  /** A whole number of bytes' worth of bits gives one octet per eight bits. */
  lemma {:induction false} OctetsCount(padded: string)
    requires |padded| % 8 == 0
    ensures |Octets(padded)| == |padded| / 8
  {
    var n := |Octets(padded)|;
    DivModUnique(|padded|, 8, n, 0);
  }

  /**
   * A string literal whose length prefix, with flag `flag`, counts the bytes
   * of `content` that follow it: `decodeString` reads the length and goes on
   * with that content, so it yields what the content decodes to.
   */
  lemma {:induction false} StringAtFrom(block: seq<byte>, blockIndex: nat, flag: nat, huffman: bool, content: seq<byte>, d: DecodedString)
    requires ((flag == 0 && !huffman) || (flag == 0x80 && huffman)) && |content| < 255
    requires blockIndex + |IntegerBytes(|content|, 7, flag)| + |content| <= |block|
    requires block[blockIndex..blockIndex + |IntegerBytes(|content|, 7, flag)| + |content|] == IntegerBytes(|content|, 7, flag) + content
    requires StringContent(block, huffman, |content|, blockIndex + |IntegerBytes(|content|, 7, flag)|) == Ok(d)
    ensures StringAt(block, blockIndex) == Ok(d)
  {
    var n := |content|;
    var integer := IntegerBytes(n, 7, flag);
    SliceSplit(block, blockIndex, integer, content);
    assert Pow2(7) == 128 && flag % 128 == 0;
    IntegerRoundTrip(block, blockIndex, n, 7, flag);
    var length := DecodedInteger(n, blockIndex + |integer|);
    assert IntegerAt(block, blockIndex, 7) == Ok(length);
    SliceByte(block, blockIndex, integer, 0);
    var first := block[blockIndex];
    assert first == integer[0];
    if flag == 0 {
      MaskedHasNoHighBit(first);
    } else {
      HighBitSet(first);
    }
    assert (BitAnd(first, 0x80) != 0) == huffman;
    StringAtContent(block, blockIndex, length);
  }

  /** The content of a literal sits just past its length prefix. */
  lemma {:induction false} ContentAfterPrefix(block: seq<byte>, blockIndex: nat, integer: seq<byte>, content: seq<byte>)
    requires blockIndex + |integer| + |content| <= |block|
    requires block[blockIndex..blockIndex + |integer| + |content|] == integer + content
    ensures block[blockIndex + |integer|..blockIndex + |integer| + |content|] == content
  {
    SliceSplit(block, blockIndex, integer, content);
  }

  /**
   * A Huffman-coded literal of fewer than 255 bytes, ending at `end`, whose
   * content is read as `d` is read by `decodeString` as `d`.
   */
  lemma {:induction false} HuffmanBytesAt(block: seq<byte>, blockIndex: nat, content: seq<byte>, d: DecodedString, end: nat)
    requires |content| < 255
    requires end == blockIndex + |IntegerBytes(|content|, 7, 0x80) + content| && end <= |block|
    requires block[blockIndex..end] == IntegerBytes(|content|, 7, 0x80) + content
    requires StringContent(block, true, |content|, blockIndex + |IntegerBytes(|content|, 7, 0x80)|) == Ok(d)
    ensures StringAt(block, blockIndex) == Ok(d)
  {
    var integer := IntegerBytes(|content|, 7, 0x80);
    assert end == blockIndex + |integer| + |content|;
    StringAtFrom(block, blockIndex, 0x80, true, content, d);
  }

  /**
   * The bytes `literal` between `blockIndex` and `end`, a 0x80-flagged length
   * prefix and content that decodes to the character codes of `str`, are
   * read as `str`.
   */
  lemma {:induction false} HuffmanLiteralAt(block: seq<byte>, blockIndex: nat, literal: seq<byte>, content: seq<byte>, str: string, end: nat)
    requires forall i :: 0 <= i < |str| ==> str[i] as int < 256
    requires literal == IntegerBytes(|content|, 7, 0x80) + content && |content| < 255
    requires HuffmanDecodeFrom(BitStream(content), 0) == Ok(CharBytes(str))
    requires end == blockIndex + |literal| <= |block| && block[blockIndex..end] == literal
    ensures StringAt(block, blockIndex) == Ok(DecodedString(str, end))
  {
    var integer := IntegerBytes(|content|, 7, 0x80);
    ContentAfterPrefix(block, blockIndex, integer, content);
    HuffmanContent(block, blockIndex + |integer|, content, str, end);
    HuffmanBytesAt(block, blockIndex, content, DecodedString(str, end), end);
  }

  /**
   * What `HuffmanString` writes for an encodable string: the octet count,
   * then octets that decode to the character codes of the string.
   */
  lemma {:induction false} HuffmanStringParts(str: string) returns (content: seq<byte>)
    requires HuffmanEncodable(str) && |PadWithOnes(HuffmanBits(str))| / 8 < 255
    ensures forall i :: 0 <= i < |str| ==> str[i] as int < 256
    ensures HuffmanString(str).value == IntegerBytes(|content|, 7, 0x80) + content
    ensures |content| < 255
    ensures HuffmanDecodeFrom(BitStream(content), 0) == Ok(CharBytes(str))
  {
    content := HuffmanOctets(str);
    OctetsCount(PadWithOnes(HuffmanBits(str)));
    HuffmanOctetsDecode(str);
  }

  /**
   * Decoding undoes Huffman encoding: an encodable string of at most 254
   * bytes' worth of keys, written at `blockIndex`, is read back, and the
   * index lands just past it.
   */
  lemma {:induction false} HuffmanStringRoundTrip(block: seq<byte>, blockIndex: nat, str: string, literal: seq<byte>, end: nat)
    requires HuffmanEncodable(str) && |PadWithOnes(HuffmanBits(str))| / 8 < 255 && literal == HuffmanString(str).value
    requires end == blockIndex + |literal| <= |block| && block[blockIndex..end] == literal
    ensures StringAt(block, blockIndex) == Ok(DecodedString(str, end))
  {
    var content := HuffmanStringParts(str);
    HuffmanLiteralAt(block, blockIndex, literal, content, str, end);
  }

  /** `source.copy` of a whole slice into a fresh buffer of its size gives the slice. */
  lemma {:induction false} CopyIntoZeros(source: seq<byte>, start: nat, n: nat)
    requires start + n <= |source|
    ensures CopyBytes(source, Zeros(n), 0, start, start + n) == source[start..start + n]
  {
  }

  /** The content of a raw string: its bytes, decoded as 'ascii'. */
  lemma {:induction false} RawContent(block: seq<byte>, index: nat, content: seq<byte>, end: nat)
    requires end == index + |content| && end <= |block| && block[index..end] == content
    ensures StringContent(block, false, |content|, index) == Ok(DecodedString(AsciiDecode(content), end))
  {
    var copied := CopyBytes(block, Zeros(|content|), 0, index, index + |content|);
    CopyIntoZeros(block, index, |content|);
    assert copied == content;
    assert AsciiDecode(copied) == AsciiDecode(content);
  }

  /** A raw string literal of fewer than 255 bytes is read back as those bytes decoded as 'ascii'. */
  lemma {:induction false} RawBytesAt(block: seq<byte>, blockIndex: nat, content: seq<byte>)
    requires |content| < 255
    requires blockIndex + |IntegerBytes(|content|, 7, 0)| + |content| <= |block|
    requires block[blockIndex..blockIndex + |IntegerBytes(|content|, 7, 0)| + |content|] == IntegerBytes(|content|, 7, 0) + content
    ensures StringAt(block, blockIndex) == Ok(DecodedString(AsciiDecode(content), blockIndex + |IntegerBytes(|content|, 7, 0)| + |content|))
  {
    ContentAfterPrefix(block, blockIndex, IntegerBytes(|content|, 7, 0), content);
    RawContent(block, blockIndex + |IntegerBytes(|content|, 7, 0)|, content, blockIndex + |IntegerBytes(|content|, 7, 0)| + |content|);
    StringAtFrom(block, blockIndex, 0, false, content, DecodedString(AsciiDecode(content), blockIndex + |IntegerBytes(|content|, 7, 0)| + |content|));
  }

  /** Decoding undoes raw encoding of 7-bit text of fewer than 255 characters. */
  lemma {:induction false} RawStringRoundTrip(block: seq<byte>, blockIndex: nat, str: string)
    requires forall i :: 0 <= i < |str| ==> str[i] as int < 0x80
    requires |str| < 255
    requires blockIndex + |RawString(str)| <= |block|
    requires block[blockIndex..blockIndex + |RawString(str)|] == RawString(str)
    ensures StringAt(block, blockIndex) == Ok(DecodedString(str, blockIndex + |RawString(str)|))
  {
    var content := Utf8(str);
    AsciiRoundTrip(str);
    assert RawString(str) == IntegerBytes(|content|, 7, 0) + content;
    RawBytesAt(block, blockIndex, content);
    assert DecodedString(AsciiDecode(content), blockIndex + |IntegerBytes(|content|, 7, 0)| + |content|)
        == DecodedString(str, blockIndex + |RawString(str)|);
  }
}
