# HPACK header compression and SETTINGS frames of a small HTTP/2 server

This project is a Dafny model of the protocol core of a TypeScript HTTP/2 server:

- the HPACK engine `Compression` (lib/compression.ts), which encodes and decodes header blocks. It follows RFC 7541 loosely.
- the frame layer (lib/frame.ts), with the nine-octet frame header and the `SettingsFrame` class.
- the error types (lib/error.ts).

Each operation of the source has a counterpart in the model, and the proofs are about those counterparts.

## Model structure

The modules follow the program:

| Module | File | Contents |
|---|---|---|
| `Http2Errors` | errors.dfy | `Http2ErrorType` and the `Http2Error` class of lib/error.ts; a `Result` type for code that throws |
| `JsRuntime` | runtime.dfy | The parts of Node and JavaScript the core relies on (see below) |
| `HpackHuffman` | huffman.dfy | The Huffman decoding table of `Compression`, with its three malformed keys; the encoding table the constructor derives from it; the facts about the table that decoding needs |
| `HpackPrimitives` | hpack.dfy | The static helpers (see below), as functions and as methods with their loops |
| `HpackTables` | tables.dfy | The static table; the dynamic table with its size and its eviction; the combined index space and the table search |
| `HpackCompression` | compression.dfy | The class `Compression` with its four fields; its decoding and encoding of header blocks; the round trip between them |
| `Http2Frame` | frame.dfy | The frame header; the class `SettingsFrame`, with its parsing constructor, `setDefaults`, `getValue` and `getBytes`; `Frame.parse` |

`JsRuntime` covers:

- `Buffer.readUIntBE` and `writeUIntBE`;
- the `&` operator;
- `toString(2)` and `parseInt(_, 2)`;
- UTF-8, `'ascii'` and Latin-1 conversion between text and bytes.

`HpackPrimitives` covers the static helpers of `Compression`:

- `bufferWriteUIntBE` and `bufferCopy`;
- `decodeInteger` and `encodeInteger`;
- `decodeString` and `encodeString`.

### How the model is written

- Buffers are `seq<byte>`. A helper that returns a grown buffer returns it as a new sequence.
- Every `throw` becomes a `Throw` of a `Result`. This covers two cases:
  - the `Http2Error`s the code raises;
  - the `RangeError` that a Node buffer raises when an access falls outside it.
- Each method is proved equal to a function. That function is the reference the lemmas talk about.
- The class `Compression` keeps its four fields as Dafny fields. Its decoding methods state their new state through `old(State())`.

### Where the code departs from the standards

In each case below the model follows the code.

**HPACK (RFC 7541)**
- `decodeInteger` masks each continuation byte with 0x7f before it tests the byte's 0x80 bit. So its do-while loop reads exactly one continuation byte. The integer decoding of section 5.1 of RFC 7541 allows any number of them.
- `resizeDynamicTable` takes one octet off the running size per entry it pops, not the entry's size. The table then ends up within its maximum, but it can lose more entries than it needs to (`HpackTables.EvictionOvershoots`).
- The encoder writes literals "with incremental indexing" (0x40) but never inserts anything into its own dynamic table. Its index search therefore only finds dynamic entries that the same object decoded.
- A field whose table entry is on the never-index list is sent as a literal with a new name, again with the 0x40 flag.

**HTTP/2 (RFC 7540)**
- `Frame.getBytes` masks the stream identifier with `0 << 31`, so it always writes stream identifier 0.
- `SettingsFrame.getBytes` never advances its write offset. Every pair is written over the one before, at octet 9 (`Http2Frame.LastEntryWins`).
- The parsing constructor starts reading pairs at the absolute offset 9 but compares that offset with the payload length. A payload of `m` pairs therefore yields `m - 1` of them (`Http2Frame.TurnsOfPayload`).

**The Huffman table**
- The decoding table has a `|` in the middle of the key of '`'. It also has a trailing space after the keys of 0xc6 and 0xeb.
- So '`' cannot be Huffman-encoded and read back. The round-trip lemmas exclude that one character.

## Model

| member | source | states |
|---|---|---|
| Http2Errors.ErrorTypeOfCode | lib/error.ts:1-16 | a member of `Http2ErrorType` exists exactly for the codes 0x0 to 0xd |
| Http2Errors.ErrorCodeRoundTrip | lib/error.ts:1-16 | every member's code lies in 0x0..0xd and names that member again; every defined code is the code of the member it names |
| Http2Errors.ErrorGetters | lib/error.ts:22-36 | the message and the `connectionErrorType` and `streamErrorType` getters give back what the error was constructed with, the stream type absent when none was given |
| JsRuntime.ReadUIntBE | lib/frame.ts:32-35 | succeeds exactly when the `length` octets at `offset` lie inside the buffer (otherwise a `RangeError`); the number read fits `length` octets and its big-endian bytes are the octets read |
| JsRuntime.ReadByte | lib/compression.ts:815 | a one-octet read succeeds exactly when the offset is inside the buffer |
| JsRuntime.ReadByteIsReadUIntBE | lib/compression.ts:815 | the one-octet read is `readUIntBE(offset, 1)` |
| JsRuntime.WriteUIntBE | lib/frame.ts:57-60 | succeeds exactly when the octets lie inside the buffer; keeps the buffer's length; reading the octets back gives the number; every other octet is unchanged |
| JsRuntime.WriteUIntBESplice | lib/frame.ts:57-60 | a write that fits replaces exactly the `length` octets at `offset` by the number's big-endian bytes |
| JsRuntime.WriteIntoZeros | lib/frame.ts:56-60 | writing into the zeroed rest of a buffer puts the number's bytes right after what was written before and leaves the rest zero |
| JsRuntime.BigEndianRoundTrip | lib/frame.ts:32-35 | reading back the big-endian bytes of a number that fits gives the number |
| JsRuntime.BigEndianValueRoundTrip | lib/frame.ts:32-35 | writing back the number that some octets spell gives those octets |
| JsRuntime.BigEndianValueBound | lib/frame.ts:32-35 | a number read from `n` octets is below 2^(8n) |
| JsRuntime.Zeros | lib/frame.ts:56 | `new Buffer(n)` has `n` octets |
| JsRuntime.BitAndLowMask | lib/compression.ts:816-821 | the mask `decodeInteger` builds from `prefixLength` one-bits keeps the value modulo 2^prefixLength |
| JsRuntime.BitAndSingleBit | lib/compression.ts:1091-1124 | a test `b & 2^k` of `decodeHeaderBlock` is non-zero exactly when bit k of `b` is set |
| JsRuntime.BitAndZero | lib/frame.ts:60 | `streamId & (0 << 31)` is 0 for every stream identifier |
| JsRuntime.ToBinaryStringBound | lib/compression.ts:916 | `n.toString(2)` has enough digits to hold `n` |
| JsRuntime.ToBinaryStringDigits | lib/compression.ts:916-919 | `n.toString(2)` is the binary spelling of `n` at its own length, no longer than any length `n` fits in |
| JsRuntime.BinaryDigitsValue | lib/compression.ts:916-920 | the binary digits of a number that fits read back as that number |
| JsRuntime.BinaryValueDigits | lib/compression.ts:916-920 | a string of binary digits is the spelling of the number it denotes |
| JsRuntime.BinaryDigitsInjective | lib/compression.ts:916-920 | two numbers of one width are equal exactly when their binary digits are |
| JsRuntime.ParseIntBase2Bound | lib/compression.ts:1006 | `parseInt(_, 2)` is NaN exactly when the string does not start with a binary digit, and below 2^n for an n-digit binary prefix |
| JsRuntime.ParseIntOfDigits | lib/compression.ts:1006 | on a whole string of binary digits, `parseInt(_, 2)` gives back the number they spell |
| JsRuntime.Utf8Char | lib/compression.ts:1017 | one to four UTF-8 bytes per character, one exactly for characters below 0x80 |
| JsRuntime.Utf8 | lib/compression.ts:1017 | `new Buffer(s)` holds at least one and at most four bytes per character of `s` |
| JsRuntime.AsciiDecode | lib/compression.ts:957 | `toString("ascii")` gives one character per byte |
| JsRuntime.Latin1Decode | lib/compression.ts:951 | one character per byte |
| JsRuntime.Latin1DecodeIndex | lib/compression.ts:951 | each character has the code of its byte |
| JsRuntime.AsciiRoundTrip | lib/compression.ts:1016-1025 | 7-bit text is one byte per character in UTF-8, and `'ascii'` decoding gives it back |
| HpackHuffman.CodeLength | lib/compression.ts:325-582 | every symbol of the decoding table has a key of 5 to 30 bits |
| HpackHuffman.KeyMatchesText | lib/compression.ts:930-937 | comparing a key by its length and its value is comparing its text |
| HpackHuffman.FindSymbolSpec | lib/compression.ts:930-937 | the search by halving finds, in its range, a symbol stored under the key exactly when there is one |
| HpackHuffman.DecodingTableLookupSpec | lib/compression.ts:930-937 | `HuffmanDecodingTable[key]` gives a symbol whose key is `key`, and `undefined` only when no symbol has that key |
| HpackHuffman.StoredKeySpec | lib/compression.ts:632-637 | the constructor's loop stores, under every character 0 to 255, the key the decoding table lists for it, and nothing under any other character |
| HpackHuffman.EncodingTableEntry | lib/compression.ts:632-637 | every symbol's entry in `HuffmanEncodingTable` is its key in the decoding table |
| HpackHuffman.CodeFacts | lib/compression.ts:325-582 | every binary key lies in its length's range of the canonical code, and no two symbols share a code |
| HpackHuffman.CodeLengthsUsed | lib/compression.ts:325-582 | no key has 9, 16, 17, 18 or 29 digits |
| HpackHuffman.GarbledKeysNotBinary | lib/compression.ts:422 | exactly the keys of '`', 0xc6 and 0xeb are not binary strings, with 16, 23 and 26 characters |
| HpackHuffman.CodeChain | lib/compression.ts:325-582 | each length's first code is at least the previous length's end, doubled |
| HpackHuffman.CodeFits | lib/compression.ts:325-582 | a binary key's code fits its number of digits |
| HpackHuffman.ChainBound | lib/compression.ts:325-582 | below each length's first code lie, shifted, all codes of every shorter length |
| HpackHuffman.KeyDeterminesSymbol | lib/compression.ts:325-582 | no two symbols share a key |
| HpackHuffman.LookupOwnKey | lib/compression.ts:632-637 | the encoding table inverts the decoding table: looking up a symbol's key gives the symbol |
| HpackHuffman.NotAKey | lib/compression.ts:930-937 | a binary string outside its length's code range is not in the table |
| HpackHuffman.PrefixNotAKey | lib/compression.ts:930-934 | no proper prefix of a binary key is a key, so the inner loop never stops early |
| HpackHuffman.BinaryKey | lib/compression.ts:993 | the key of every symbol but the three garbled ones is its code in binary |
| HpackHuffman.PaddingNotAKey | lib/compression.ts:938-945 | one to seven '1's, the padding the encoder adds, are not a key |
| HpackPrimitives.CopyBytes | lib/compression.ts:954 | `copy` keeps the target's length and the bytes before the target offset |
| HpackPrimitives.BufferWriteUIntBE | lib/compression.ts:656-670 | a write fails only past the grown buffer; the buffer grows by `DefaultHeaderSize` octets exactly when too short; the number reads back; every other old byte is kept |
| HpackPrimitives.BufferCopy | lib/compression.ts:687-704 | the same growth; the bytes before the offset are kept; a whole source that fits lands right after them |
| HpackPrimitives.Put | lib/compression.ts:656-670 | a one-octet `bufferWriteUIntBE` at or before the end keeps every earlier byte and puts the octet at its offset |
| HpackPrimitives.IntegerAt | lib/compression.ts:813-846 | succeeds exactly when the prefix byte, and a continuation byte if the prefix is full, are inside the block (else a `RangeError`); reads one or two bytes, the second exactly when the value reaches the prefix mask; the value is below the mask plus 128 |
| HpackPrimitives.IntegerAtCases | lib/compression.ts:813-846 | the four outcomes: a `RangeError` past the end, a value inside the prefix, a full prefix plus the low seven bits of the next byte, and a `RangeError` for a full prefix with no byte after it |
| HpackPrimitives.MaskedHasNoHighBit | lib/compression.ts:834-839 | the byte masked with 0x7f never has its 0x80 bit set, so the do-while runs once |
| HpackPrimitives.DecodeInteger | lib/compression.ts:813-846 | the method with its mask loop and its do-while computes `IntegerAt` |
| HpackPrimitives.Continuation | lib/compression.ts:878-885 | the continuation bytes are a single byte exactly when the rest is below 128 |
| HpackPrimitives.IntegerBytes | lib/compression.ts:862-891 | one byte exactly when the value is below 2^prefixLength - 1, two exactly when it is below that plus 128 |
| HpackPrimitives.EncodeInteger | lib/compression.ts:862-891 | writes `IntegerBytes` at `blockIndex` with the index just past them, keeping every earlier byte |
| HpackPrimitives.EncodeContinuation | lib/compression.ts:878-885 | the loop writes the continuation bytes of the rest at the index, keeping every earlier byte |
| HpackPrimitives.ContinuationStep | lib/compression.ts:878-883 | one turn of the loop emits the first continuation byte and leaves the rest divided by 128 |
| HpackPrimitives.EncodedTwice | lib/compression.ts:1164-1193 | writing after what an earlier write produced keeps it: the two byte strings end up one after the other |
| HpackPrimitives.PrefixByteMasked | lib/compression.ts:816-821 | masking `prefixValue` plus the prefix bits gives the prefix bits back when `prefixValue` has no bits there |
| HpackPrimitives.IntegerRoundTrip | lib/compression.ts:813-891 | `decodeInteger` reads back every value `encodeInteger` wrote below 2^prefixLength - 1 + 128, and stops just past its bytes |
| HpackPrimitives.ShortIntegerAt | lib/compression.ts:813-828 | a value below the prefix mask is read back from its one byte |
| HpackPrimitives.LongIntegerAt | lib/compression.ts:813-846 | a full prefix followed by a byte below 128 is read back as their sum |
| HpackPrimitives.BitStream | lib/compression.ts:915-921 | every byte becomes eight binary digits |
| HpackPrimitives.Substr | lib/compression.ts:926-927 | `substr` takes at most `length` characters |
| HpackPrimitives.Extend | lib/compression.ts:930-934 | the inner loop never moves backwards |
| HpackPrimitives.ExtendEnd | lib/compression.ts:930-934 | the inner loop stops before the end of the bits only on a key of the table |
| HpackPrimitives.WithoutOnes | lib/compression.ts:942 | `replace(/1/g, "")` is empty exactly when the string is all '1's |
| HpackPrimitives.StepAt | lib/compression.ts:925-949 | a pass of the outer loop moves forward unless it throws, and a padding pass stops the loop |
| HpackPrimitives.StringAt | lib/compression.ts:902-965 | a string literal that is read ends past its start |
| HpackPrimitives.StringContent | lib/compression.ts:913-959 | the content read ends exactly `strLength` octets after its start |
| HpackPrimitives.ReadHuffmanBits | lib/compression.ts:914-921 | the first loop gives a `RangeError` when the bytes run past the block, else their bit string |
| HpackPrimitives.ByteDigits | lib/compression.ts:916-919 | `toString(2)` padded with '0's is the byte's eight binary digits |
| HpackPrimitives.ReadKey | lib/compression.ts:926-934 | the method computes `Extend` from five bits on |
| HpackPrimitives.DecodeKey | lib/compression.ts:926-948 | the method computes one pass `StepAt` |
| HpackPrimitives.HuffmanDecode | lib/compression.ts:923-949 | the outer loop computes `HuffmanDecodeFrom` |
| HpackPrimitives.DecodeString | lib/compression.ts:902-965 | the method computes `StringAt` |
| HpackPrimitives.DecodeContent | lib/compression.ts:913-964 | the method computes `StringContent` |
| HpackPrimitives.PadLength | lib/compression.ts:996-998 | fewer than eight '1's reach a multiple of eight |
| HpackPrimitives.PadLengthLeast | lib/compression.ts:996-998 | and that number of '1's is the only such one, since the loop adds no more than it needs |
| HpackPrimitives.PadWithOnes | lib/compression.ts:996-998 | the padded bits are a whole number of octets |
| HpackPrimitives.Octets | lib/compression.ts:1005-1010 | one octet per eight bits |
| HpackPrimitives.HuffmanString | lib/compression.ts:979-1015 | Huffman encoding succeeds exactly on printable ASCII |
| HpackPrimitives.HuffmanBitString | lib/compression.ts:982-994 | printable text becomes its keys one after another; anything else raises the non-printable `COMPRESSION_ERROR` |
| HpackPrimitives.PadBits | lib/compression.ts:996-998 | the padding loop computes `PadWithOnes` |
| HpackPrimitives.WriteOctets | lib/compression.ts:1005-1010 | the last loop writes `Octets` at the index, keeping every earlier byte |
| HpackPrimitives.OctetWritten | lib/compression.ts:1005-1010 | one turn writes the byte of the next eight bits |
| HpackPrimitives.OctetsStep | lib/compression.ts:1005-1010 | eight more bits give one more octet |
| HpackPrimitives.EncodeString | lib/compression.ts:979-1032 | succeeds exactly when the bytes are defined (otherwise it raises the non-printable error); the index moves past them; they are written at the index keeping every earlier byte |
| HpackPrimitives.CharBytes | lib/compression.ts:947 | one byte per character |
| HpackPrimitives.CharBytesIndex | lib/compression.ts:947 | each byte is `charCodeAt` of its character |
| HpackPrimitives.CharBytesDecode | lib/compression.ts:951 | decoding the character codes gives the string back |
| HpackPrimitives.EncodableKey | lib/compression.ts:993 | a printable character other than '`' has a binary key in its code range |
| HpackPrimitives.HuffmanBitsBinary | lib/compression.ts:982-998 | the padded bits of an encodable string are binary digits |
| HpackPrimitives.OctetsBitStream | lib/compression.ts:1005-1010 | the octets the encoder makes unpack, as the decoder unpacks them, to the same bits |
| HpackPrimitives.OctetsStepBits | lib/compression.ts:1005-1010 | eight more binary digits keep that agreement |
| HpackPrimitives.ChunkValue | lib/compression.ts:1006 | eight binary digits are written as the byte they spell |
| HpackPrimitives.ExtendToKey | lib/compression.ts:930-934 | started on the first five bits of a key, the inner loop reads exactly that key |
| HpackPrimitives.SymbolStep | lib/compression.ts:925-948 | at a character's key, one pass gives that character and moves past the key |
| HpackPrimitives.ExtendOverOnes | lib/compression.ts:930-934 | on trailing '1's the inner loop runs to the end of the bits |
| HpackPrimitives.PaddingStep | lib/compression.ts:938-945 | one to seven trailing '1's are skipped as padding |
| HpackPrimitives.PaddingDecodes | lib/compression.ts:925-949 | padding alone decodes to nothing |
| HpackPrimitives.ExtendToEnd | lib/compression.ts:930-934 | where no key starts at a position, the inner loop collects every remaining bit |
| HpackPrimitives.NoKeyStep | lib/compression.ts:926-937 | where no key starts at a position, one pass ends with all the remaining bits as an unmatched key |
| HpackPrimitives.PaddingRefused | lib/compression.ts:936-945 | where no key starts at a position, the rest is refused with "Padding too long" past seven bits, with "Padding incorrect" when it holds a '0', and decodes to nothing otherwise |
| HpackPrimitives.TailRefused | lib/compression.ts:936-945 | the same refusals for a tail of bits, without a key, found at a position |
| HpackPrimitives.HuffmanBitsCons | lib/compression.ts:982-994 | the keys of a string are the key of its first character, then the keys of the rest |
| HpackPrimitives.KeysAt | lib/compression.ts:925-934 | where the keys of a string and then any bits follow a position, the first character's key comes first |
| HpackPrimitives.DecodeAfterSymbol | lib/compression.ts:925-949 | a pass that reads a symbol puts it before what the rest decodes to |
| HpackPrimitives.ThrowAfterSymbol | lib/compression.ts:925-949 | an exception raised after a symbol is read ends the whole decoding with that exception |
| HpackPrimitives.DecodeKeyThen | lib/compression.ts:925-949 | at the key of an encodable character, the decoder reads that character and goes on after the key |
| HpackPrimitives.DecodeKeys | lib/compression.ts:923-949 | keys of an encodable string followed by at most seven '1's decode to the string's character codes |
| HpackPrimitives.DecodeKeysRefused | lib/compression.ts:925-949 | the keys of an encodable string followed by bits in which no key starts are refused with "Padding too long" past seven bits and "Padding incorrect" when they hold a '0' |
| HpackPrimitives.StringAtContent | lib/compression.ts:904-910 | once the length has been read, `decodeString` continues with the content, as Huffman or raw by the 0x80 bit |
| HpackPrimitives.HuffmanOctetsDecode | lib/compression.ts:923-951 | the padded keys of an encodable string, packed into octets, decode to its character codes |
| HpackPrimitives.HuffmanContent | lib/compression.ts:913-951 | content bytes that decode to a string's codes are read as that string, ending just past them |
| HpackPrimitives.HuffmanContentRefused | lib/compression.ts:913-949 | Huffman content made of keys and then such a tail makes `decodeString` raise the padding `COMPRESSION_ERROR` |
| HpackPrimitives.OctetsCount | lib/compression.ts:1001 | the byte count the encoder writes is the number of octets |
| HpackPrimitives.StringAtFrom | lib/compression.ts:902-965 | a literal whose length prefix counts the content after it is read as that content |
| HpackPrimitives.ContentAfterPrefix | lib/compression.ts:908-910 | the content of a literal sits just past its length prefix |
| HpackPrimitives.HuffmanBytesAt | lib/compression.ts:902-951 | a 0x80-flagged literal of fewer than 255 octets is read as its decoded content |
| HpackPrimitives.HuffmanLiteralAt | lib/compression.ts:902-951 | a 0x80-flagged length and content that decodes to a string's codes are read as that string |
| HpackPrimitives.HuffmanStringParts | lib/compression.ts:999-1015 | what `encodeString` writes is the octet count with the 0x80 flag, then octets that decode to the string's codes |
| HpackPrimitives.HuffmanStringRoundTrip | lib/compression.ts:979-1015 | `decodeString` reads back every encodable string `encodeString` Huffman-coded into fewer than 255 octets, and stops just past it |
| HpackPrimitives.CopyIntoZeros | lib/compression.ts:953-954 | copying a whole slice into a fresh buffer of its size gives the slice |
| HpackPrimitives.RawContent | lib/compression.ts:952-957 | raw content is its bytes decoded as `'ascii'` |
| HpackPrimitives.RawBytesAt | lib/compression.ts:952-959 | a raw literal of fewer than 255 bytes is read back as those bytes decoded as `'ascii'` |
| HpackPrimitives.RawStringRoundTrip | lib/compression.ts:1016-1030 | raw encoding of 7-bit text of fewer than 255 characters is read back by `decodeString` |
| HpackTables.EntrySize | lib/compression.ts:714-717 | an entry counts its UTF-8 name and value and 32 octets |
| HpackTables.TableSize | lib/compression.ts:711-720 | the table size is at least 32 octets per entry |
| HpackTables.TableSizePrefix | lib/compression.ts:711-720 | dropping entries from the end frees at least 32 octets each |
| HpackTables.TableSizeCons | lib/compression.ts:745-749 | an entry put in front adds its size |
| HpackTables.EvictedFits | lib/compression.ts:726-738 | after the pop loop the table fits the maximum |
| HpackTables.EvictedPrefix | lib/compression.ts:726-738 | the pop loop keeps the newest entries in order, and changes nothing exactly when the table already fits |
| HpackTables.EvictionOvershoots | lib/compression.ts:733-737 | two 32-octet entries under a maximum of 32 are both popped, although the newer alone would fit |
| HpackTables.Resized | lib/compression.ts:726-738 | `resizeDynamicTable` clamps the maximum to the limit, leaves the table within it, and keeps the limit and the never-index list |
| HpackTables.InsertedWithoutEviction | lib/compression.ts:745-749 | a field that fits beside the whole table goes in front without evicting anything |
| HpackTables.StaticTableLength | lib/compression.ts:75-320 | the static table has 61 entries |
| HpackTables.IndexedField | lib/compression.ts:759-773 | indices 1..61 name the static entries, the next ones the dynamic entries newest first, and any other index raises "Invalid compression index" |
| HpackTables.FirstAnswer | lib/compression.ts:784-800 | the search returns the first position that answers for the field, or none when none does |
| HpackTables.FieldIndexSpec | lib/compression.ts:783-801 | the index found names the first entry of the index space that answers for the field (a static entry with an empty value answers for any value); `null` means no static entry answers and the field is not in the dynamic table |
| HpackCompression.NameAt | lib/compression.ts:1047-1061 | a name that is read ends past the representation byte |
| HpackCompression.FieldAt | lib/compression.ts:1045-1077 | a field that is read ends past its start |
| HpackCompression.RepresentationAt | lib/compression.ts:1089-1129 | every representation read ends past its first byte, so the loop moves forward |
| HpackCompression.RepresentationBits | lib/compression.ts:1091-1124 | the bit tests of the first byte pick the ranges 0x80-0xff, 0x40-0x7f, 0x20-0x3f, 0x10-0x1f and 0x00-0x0f |
| HpackCompression.RepresentationKinds | lib/compression.ts:1089-1129 | an indexed field emits one field and changes nothing; incremental indexing emits one field and inserts it; a size update above the limit raises the `COMPRESSION_ERROR`, otherwise it emits nothing and sets the maximum; a literal without indexing emits one field and only never-index literals extend the never-index list |
| HpackCompression.RepresentationBounded | lib/compression.ts:1104-1116 | every representation keeps the table within its maximum and the maximum within the limit |
| HpackCompression.DecodeFromBounded | lib/compression.ts:1086-1131 | so does a whole block, whether read to the end or stopped by an exception |
| HpackCompression.BlockBytesSnoc | lib/compression.ts:1143-1195 | one field more appends its bytes, or ends with its exception |
| HpackCompression.BlockBytesStops | lib/compression.ts:1143-1195 | once a field throws, the fields after it are not looked at |
| HpackCompression.BlockBytesCons | lib/compression.ts:1143-1195 | a block's bytes are those of its first field, then those of the others |
| HpackCompression.FieldBytesDefined | lib/compression.ts:1143-1194 | the encoder only fails on a field it cannot Huffman-code: every index it finds names an entry |
| HpackCompression.IndexedRepresentation | lib/compression.ts:1091-1096 | an indexed header field emits the entry its index names and leaves the state alone |
| HpackCompression.IncrementalRepresentation | lib/compression.ts:1097-1104 | a literal with incremental indexing emits its field and inserts it |
| HpackCompression.IndexedNameAt | lib/compression.ts:1055-1060 | an indexed name is the name of the entry its 6-bit index names |
| HpackCompression.StaticEntry | lib/compression.ts:759-763 | a static index names the same entry whatever the dynamic table holds |
| HpackCompression.OneByteIntegerAt | lib/compression.ts:813-828 | an index below the prefix, written as one byte after the flag, reads back as itself |
| HpackCompression.IndexedRoundTrip | lib/compression.ts:1158-1165 | the byte `0x80 + i` the encoder writes for a static entry is read by a decoder in any state as that entry, with the state unchanged |
| HpackCompression.FieldAtParts | lib/compression.ts:1063-1076 | a name followed by a Huffman-coded value is read as that field |
| HpackCompression.NewNameAt | lib/compression.ts:1048-1054 | a new name is the Huffman literal after the representation byte |
| HpackCompression.NewNameFieldAt | lib/compression.ts:1045-1077 | a new name and a value, as the encoder writes them, read back as the field |
| HpackCompression.IndexedNameFieldAt | lib/compression.ts:1045-1077 | an indexed name and a Huffman-coded value read back as the entry's name with that value |
| HpackCompression.IndexedNameAtByte | lib/compression.ts:1055-1060 | the one byte `0x40 + i` names the static entry `i`'s name |
| HpackCompression.IncrementalIndexingByte | lib/compression.ts:1097-1099 | `0x40 + i` is a literal with incremental indexing, which is a new name exactly when `i` is 0 |
| HpackCompression.IncrementalRepresentationAt | lib/compression.ts:1097-1104 | a literal with incremental indexing whose representation byte is `0x40 + i` emits its field and inserts it |
| HpackCompression.OneByteInteger | lib/compression.ts:865-869 | a value below the prefix is written as the one byte flag plus value |
| HpackCompression.NewNameBytesShape | lib/compression.ts:1180-1193 | a literal with a new name is 0x40, the Huffman-coded name, then the Huffman-coded value |
| HpackCompression.NewNameRoundTrip | lib/compression.ts:1180-1193 | a decoder in any state reads that literal back as the field, inserts it, and stops just past it |
| HpackCompression.IndexedNameRoundTrip | lib/compression.ts:1166-1178 | a literal under an indexed static name reads back as the field, inserts it, and stops just past it |
| HpackCompression.FieldBytesForm | lib/compression.ts:1143-1194 | an encoder with an empty dynamic table writes one of three forms for a printable field: a new-name literal, the index of a static entry equal to the field, or a static entry's index with the field's name and then its value |
| HpackCompression.FieldRoundTrip | lib/compression.ts:1143-1194 | whatever the decoder's table holds, each of those forms is read back as the field, ending just past its bytes |
| HpackCompression.DecodeFromStep | lib/compression.ts:1089-1129 | one turn of the loop of `decodeHeaderBlock` |
| HpackCompression.DecodeFromFirst | lib/compression.ts:1086-1131 | reading the first of the encoded fields emits it and goes on at the bytes of the others |
| HpackCompression.FirstFieldBytes | lib/compression.ts:1143-1195 | a block holding the encoder's bytes for some fields holds those of the first, then those of the others |
| HpackCompression.DecodeFromBlockBytes | lib/compression.ts:1086-1131 | the rest of a block holding the encoder's bytes for some fields decodes to exactly those fields |
| HpackCompression.BlockRoundTrip | lib/compression.ts:1140-1200 | an encoder with an empty dynamic table and any never-index list writes a block of transmittable fields that a decoder in any state reads back as exactly those fields |
| HpackCompression.BlockBytesDefined | lib/compression.ts:1140-1200 | fields whose names and values are all printable always encode |
| HpackCompression.EncodeNewName | lib/compression.ts:1180-1193 | the new-name branch writes `NewNameBytes` at the index, keeping every earlier byte, or raises its error |
| HpackCompression.SearchTable | lib/compression.ts:784-800 | one loop of `getIndexForHeaderField` returns the first position that answers for the field |
| HpackCompression.Compression.constructor | lib/compression.ts:625-638 | empty tables, a maximum equal to its limit, and the bound holds |
| HpackCompression.Compression.GetSizeOfDynamicTable | lib/compression.ts:711-720 | the loop sums the entry sizes |
| HpackCompression.Compression.ResizeDynamicTable | lib/compression.ts:726-738 | the new state is `Resized` of the old one |
| HpackCompression.Compression.AddHeaderFieldToDynamicTable | lib/compression.ts:745-749 | the new state is the old one with the field in front, resized |
| HpackCompression.Compression.GetHeaderFieldForIndex | lib/compression.ts:759-773 | the index space of `IndexedField` over the current dynamic table |
| HpackCompression.Compression.GetIndexForHeaderField | lib/compression.ts:783-801 | the two searches compute the index `FieldIndexSpec` describes |
| HpackCompression.Compression.DecodeFieldName | lib/compression.ts:1047-1061 | the name branch computes `NameAt` |
| HpackCompression.Compression.DecodeHeaderField | lib/compression.ts:1045-1077 | the method computes `FieldAt` |
| HpackCompression.Compression.DecodeRepresentation | lib/compression.ts:1089-1129 | one turn gives `RepresentationAt` and leaves its new state, or the old state on an exception |
| HpackCompression.Compression.DecodeHeaderBlock | lib/compression.ts:1086-1131 | the fields and the state left are those of `DecodeBlock`, also when an exception stops the block |
| HpackCompression.Compression.IsNeverIndexed | lib/compression.ts:1149-1155 | true exactly when the entry is on the never-index list |
| HpackCompression.Compression.EncodeHeaderField | lib/compression.ts:1143-1194 | one turn writes the field's bytes at the index, keeping every earlier byte, or raises the field's error |
| HpackCompression.Compression.EncodeHeaderBlock | lib/compression.ts:1140-1200 | returns the bytes of all fields in order, or the first exception |
| HpackCompression.Compression.SetMaxDynamicTableSizeLimit | lib/compression.ts:1202-1205 | the new limit, then a resize under it |
| Http2Frame.FrameTypeOfCode | lib/frame.ts:5-16 | a frame type exists exactly for the octets 0x0 to 0x9 |
| Http2Frame.FrameTypeRoundTrip | lib/frame.ts:5-16 | the type octets name their members one to one |
| Http2Frame.HeaderAt | lib/frame.ts:29-35 | a header is read exactly when there are nine octets; its fields fit 3, 1, 1 and 4 octets and are the big-endian numbers of those octets |
| Http2Frame.FrameBytes | lib/frame.ts:55-62 | `Frame.getBytes` gives `length + 9` octets, the payload octets as `new Buffer` leaves them |
| Http2Frame.FrameBytesRoundTrip | lib/frame.ts:55-62 | the written header reads back as the frame's length, type and flags, with stream identifier 0 written as four zero octets |
| Http2Frame.ZeroStreamOctets | lib/frame.ts:60 | stream identifier 0 is written as four zero octets |
| Http2Frame.LimitsArePowers | lib/frame.ts:158-167 | the two limits are 2^31 - 1 and 2^24 - 1 |
| Http2Frame.EntryAt | lib/frame.ts:151-172 | an accepted pair is the big-endian identifier and value of the six octets, within their widths and allowed by the ENABLE_PUSH, INITIAL_WINDOW_SIZE and MAX_FRAME_SIZE checks; a short buffer gives a `RangeError`, a refused value the parameter-value `PROTOCOL_ERROR` |
| Http2Frame.TurnsOfPayload | lib/frame.ts:149-150 | a payload of `m` six-octet entries gives `m - 1` turns, none for an empty one |
| Http2Frame.EntriesFromLength | lib/frame.ts:149-174 | a loop that succeeds pushed one pair per turn after the pairs it started with |
| Http2Frame.EntriesFromTurn | lib/frame.ts:149-174 | the pair pushed on turn `k` is the accepted entry at `9 + 6k` |
| Http2Frame.EntriesFromRefused | lib/frame.ts:149-174 | a loop that fails met a refused entry on one of its turns |
| Http2Frame.EntriesFromAllOk | lib/frame.ts:149-174 | the loop succeeds exactly when every entry it meets is accepted |
| Http2Frame.EntriesFromThrows | lib/frame.ts:149-174 | a loop that fails throws a `RangeError` or the parameter-value `PROTOCOL_ERROR` |
| Http2Frame.SettingsErrors | lib/frame.ts:128-174 | a short buffer gives a `RangeError`; then, in order, a non-zero stream identifier gives `PROTOCOL_ERROR`, a length not a multiple of 6 `FRAME_SIZE_ERROR`, an ACK with a payload `FRAME_SIZE_ERROR`; nothing else goes wrong but the pairs; a parsed frame has four zero stream octets |
| Http2Frame.PayloadErrors | lib/frame.ts:134-174 | the same once the header is read |
| Http2Frame.SettingsEntries | lib/frame.ts:128-174 | a SETTINGS frame parses exactly when its header reads, its stream is 0, its length a multiple of 6 (0 for an ACK) and every entry met is accepted; then its pairs are those entries, `m - 1` of them for `m` in the payload |
| Http2Frame.PayloadAccepted | lib/frame.ts:134-174 | the iff of `SettingsEntries` once the header is read |
| Http2Frame.PayloadEntries | lib/frame.ts:149-174 | the pairs of `SettingsEntries` once the header is read |
| Http2Frame.SettingsAtFits | lib/frame.ts:128-174 | every field of a parsed frame fits its wire width, and a frame with pairs is at least 12 octets long |
| Http2Frame.PayloadFits | lib/frame.ts:134-174 | the same once the header is read |
| Http2Frame.LookupFirst | lib/frame.ts:187-191 | the lookup gives the value of the first pair with the identifier, and nothing when none has it |
| Http2Frame.DefaultValues | lib/frame.ts:105-124 | a frame without pairs answers 4096, 1, no limit, 65535, 16384 and 1024 for the identifiers 1 to 6, `null` for any other |
| Http2Frame.ValueForOwnFirst | lib/frame.ts:186-200 | the frame's first own pair with the identifier decides; without one the default does; the defaults as own pairs answer like no pairs |
| Http2Frame.EntryWrittenAt | lib/frame.ts:207-208 | a pair written at 9 replaces octets 9-14 and nothing else; a shorter buffer gives a `RangeError` |
| Http2Frame.LastEntryWins | lib/frame.ts:205-209 | with the offset never moving, the buffer ends up with the last pair in octets 9-14 and is otherwise unchanged |
| Http2Frame.SettingsBytesLayout | lib/frame.ts:202-212 | an ACK or a frame without pairs is its header and `length` octets as `new Buffer` leaves them (zeros in the model); otherwise the header, the last pair and `length - 6` such octets, or a `RangeError` when the length is below 6 |
| Http2Frame.LocalState | lib/frame.ts:176-177 | a local frame's fields fit their widths |
| Http2Frame.WithDefaults | lib/frame.ts:181-184 | after `setDefaults` the length is 30 and every identifier answers its default |
| Http2Frame.DefaultFrameBytes | lib/frame.ts:202-212 | a local frame after `setDefaults` is written as the header `0 0 30 4 0 0 0 0 0`, the pair MAX_HEADER_LIST_SIZE 1024, then 24 octets as `new Buffer` leaves them (zeros in the model) |
| Http2Frame.DefaultHeaderOctets | lib/frame.ts:176-177 | the octets of a local frame's header |
| Http2Frame.DefaultPairOctets | lib/frame.ts:122-123 | the octets of the pair MAX_HEADER_LIST_SIZE 1024 |
| Http2Frame.FrameBytesPrefix | lib/frame.ts:57-60 | the first nine octets are the length, type, flags and a zero stream identifier |
| Http2Frame.HeaderWrites | lib/frame.ts:56-60 | the four writes into a zeroed buffer, one at a time, end with `FrameBytes` |
| Http2Frame.SettingsFrame.Local | lib/frame.ts:175-177 | `new SettingsFrame(undefined, ack)`: length 30, type SETTINGS, the ACK flag if asked, stream 0 |
| Http2Frame.SettingsFrame.Parsed | lib/frame.ts:128-133 | the object holds the state the parse built |
| Http2Frame.SettingsFrame.Parse | lib/frame.ts:128-174 | `new SettingsFrame(frameData)` succeeds exactly when `SettingsAt` does, with its state or its exception |
| Http2Frame.SettingsFrame.ParsePayload | lib/frame.ts:134-174 | the checks in order, then the loop, compute `SettingsOfHeader` |
| Http2Frame.SettingsFrame.ReadEntries | lib/frame.ts:149-174 | the loop computes `EntriesFrom` from offset 9 |
| Http2Frame.SettingsFrame.ReadEntry | lib/frame.ts:151-172 | one turn computes `EntryAt` |
| Http2Frame.SettingsFrame.SetDefaults | lib/frame.ts:181-184 | the new state is `WithDefaults` of the old one |
| Http2Frame.SettingsFrame.GetValue | lib/frame.ts:186-200 | the two loops compute `ValueFor` |
| Http2Frame.SettingsFrame.FrameGetBytes | lib/frame.ts:55-62 | the buffer is `FrameBytes` of the header |
| Http2Frame.SettingsFrame.WriteEntry | lib/frame.ts:207-208 | one turn computes `EntryWritten` |
| Http2Frame.SettingsFrame.GetBytes | lib/frame.ts:202-212 | the bytes are `SettingsBytes` of the state |
| Http2Frame.ParseFrame | lib/frame.ts:44-49 | a `RangeError` below four octets; nothing for a type other than SETTINGS; for SETTINGS, a new frame exactly when `SettingsAt` succeeds, with its state, or its exception |

## Left out

- Streams, connections, the server, the request and response objects, and every frame type but SETTINGS are not part of this model. None of them is in the three modelled files except the `FrameType` enumeration.
- Sockets, timers and the event loop: the core does no I/O of its own.
- `Frame` is an abstract base class in the source. Its constructor, `type` getter and `getBytes` are folded into `SettingsFrame`, its only subclass here. `type` is the `frameType` field.
- `new Buffer(n)` is modelled as `n` zero octets. Old Node versions left it uninitialised. The zeros that `Http2Frame.FrameBytes`, `Http2Frame.SettingsBytesLayout` and `Http2Frame.DefaultFrameBytes` state past the last write come from this choice, not from the program.
- The model uses value semantics for buffers and header lists:
  - `setDefaults` shares the `DefaultParameters` array with the class, so changing one would change the other; there is no such aliasing here.
  - The decoder returns header objects that the dynamic table also holds; modelled as values, they are ordinary copies.
- HpackPrimitives.IntegerRoundTrip: stated only for values below `2^prefixLength - 1 + 128`. The decoder reads a single continuation byte, so the round trip fails for larger values.
- HpackPrimitives.HuffmanStringRoundTrip: stated only for strings of fewer than 255 encoded octets, for the same reason, and only for printable characters other than '`', whose key in the table is malformed.
- HpackPrimitives.RawStringRoundTrip: stated only for 7-bit text of fewer than 255 bytes.
- The round trip of raw strings ignores what `bufferCopy` does with a string longer than the grown buffer. Raw strings are never produced by the encoder, which always Huffman-codes.
- HpackPrimitives.StringContent: the Huffman output is decoded as Latin-1, in place of the UTF-8 decoding of `toString()`. The two agree on bytes below 0x80, which is all the encoder produces. They differ on a peer's block that Huffman-codes UTF-8: the octets 0xc3 0xa9 are one character in the program and two in the model.
- HpackPrimitives.EncodeString: the raw branch is stated to write its bytes only when their UTF-8 length is at most `DefaultHeaderSize`. A longer raw string is cut short by `bufferCopy`.
- HpackCompression.BlockRoundTrip: stated for an encoder whose dynamic table is empty and for transmittable fields (printable, no '`', each name and value under 255 encoded octets). With a non-empty table the encoder may cite dynamic indices the decoder does not share.
- HpackCompression.FieldRoundTrip: stated for the three forms an encoder with an empty dynamic table writes, not for dynamic indices.
- Several methods of the model are parts of one method of the source. Each is proved to compute, or to write into the buffer up to its new index, the function for its part (`WriteOctets`, `EncodeContinuation` and `EncodeNewName` write it and leave the octets past that index unspecified):
  - `DecodeFieldName`, `ReadHuffmanBits`, `ReadKey`, `DecodeKey`, `HuffmanDecode`, `DecodeContent`, `HuffmanBitString`, `PadBits`, `WriteOctets`, `EncodeContinuation`, `EncodeNewName`, `SearchTable` and `IsNeverIndexed`;
  - the `SettingsFrame` methods `ParsePayload`, `ReadEntries`, `ReadEntry` and `WriteEntry`.
- The parsing constructor builds the frame's state first and then constructs the object, so a constructor that throws leaves no object behind. In the source a half-filled object is discarded with the exception, which comes to the same.
- A `writeUIntBE` of a value too wide for its octets raises a `RangeError` in Node. In the model it is excluded by `Valid()`, which every parsed or local frame satisfies. `getBytes` after a caller stores a wider value is not modelled.
- `Math.pow(2, 31) - 1` and `Math.pow(2, 24) - 1` are the constants `MaxWindowSize` and `MaxFrameSizeLimit`, proved equal by `Http2Frame.LimitsArePowers`.
- `encodeInteger` divides by 128 in floating point. The model uses integer division, which writes the same bytes, because every write truncates and the loop compares with 128.
- JavaScript's `undefined`, `null` and NaN appear in the model only where the code can meet them:
  - the `_parameters` of a local frame before `setDefaults` are `None`, and `getValue` and `getBytes` then raise the `TypeError` of a loop over `undefined`;
  - a `null` parameter value is `None`, and it is written as 0;
  - a NaN from `parseInt` is written as the octet 0.
