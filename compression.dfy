/**
 * The HPACK engine `Compression` (lib/compression.ts): the four header field
 * representations of section 6 of RFC 7541 read from a header block and
 * written into one, over the tables of `HpackTables` and the integer and
 * string literals of `HpackPrimitives`.
 *
 * Each representation read is a specification function from the state of
 * the engine, the block and an index to the fields it yields, the new state
 * and the index past it; `Compression.DecodeHeaderBlock` runs its loop
 * against them.  The bytes written for each field are a specification
 * function too, which `Compression.EncodeHeaderBlock` is proved to write.
 */
module HpackCompression {
  import opened Http2Errors
  import opened JsRuntime
  import opened HpackPrimitives
  import opened HpackTables

  // ---------------------------------------------------------------- decoding

  /** What `decodeHeaderField` returns: the field and the index just past it. */
  datatype DecodedHeaderField = DecodedHeaderField(field: HeaderField, index: nat)

  /**
   * The name read by `decodeHeaderField`.  Its flag `isIndex` means a new
   * name: a string literal after the representation byte.  Otherwise the
   * name comes from the entry that an index with a 6-bit prefix names.
   */
  function NameAt(dynamicTable: seq<HeaderField>, block: seq<byte>, blockIndex: nat, isIndex: bool): (r: Result<DecodedString>)
    ensures r.Ok? ==> r.value.index > blockIndex
  {
    if isIndex then StringAt(block, blockIndex + 1)
    else
      var decodedInteger :- IntegerAt(block, blockIndex, 6);
      var entry :- FieldForIndex(dynamicTable, decodedInteger.num);
      Ok(DecodedString(entry.name, decodedInteger.index))
  }

  /** `decodeHeaderField`: the name, then the value as a string literal. */
  function FieldAt(dynamicTable: seq<HeaderField>, block: seq<byte>, blockIndex: nat, isIndex: bool): (r: Result<DecodedHeaderField>)
    ensures r.Ok? ==> r.value.index > blockIndex
  {
    var name :- NameAt(dynamicTable, block, blockIndex, isIndex);
    var value :- StringAt(block, name.index);
    Ok(DecodedHeaderField(HeaderField(name.str, value.str), value.index))
  }

  /** What one representation of a header block does: the fields it yields, the state after it and the index past it. */
  datatype Representation = Representation(emitted: seq<HeaderField>, state: TableState, index: nat)

  /**
   * One turn of the loop of `decodeHeaderBlock`, chosen by the bits of the
   * first byte: an indexed field (0x80), a literal with incremental indexing
   * (0x40), a dynamic table size update (0x20), or a literal without
   * indexing, never indexed when 0x10 is set.  Both literal kinds read an
   * indexed name with a 6-bit prefix.
   */
  function RepresentationAt(s: TableState, block: seq<byte>, blockIndex: nat): (r: Result<Representation>)
    requires blockIndex < |block|
    ensures r.Ok? ==> r.value.index > blockIndex
  {
    var firstByte := block[blockIndex];
    if BitAnd(firstByte, 0x80) != 0 then
      var decodedInteger :- IntegerAt(block, blockIndex, 7);
      var field :- FieldForIndex(s.dynamicTable, decodedInteger.num);
      Ok(Representation([field], s, decodedInteger.index))
    else if BitAnd(firstByte, 0x40) != 0 then
      var decodedField :- FieldAt(s.dynamicTable, block, blockIndex, BitAnd(firstByte, 0x3f) == 0);
      Ok(Representation([decodedField.field], Inserted(s, decodedField.field), decodedField.index))
    else if BitAnd(firstByte, 0x20) != 0 then
      var decodedInteger :- IntegerAt(block, blockIndex, 5);
      if decodedInteger.num > s.maxDynamicTableSizeLimit then
        Raise("Dynamic table size update value exceeds SETTINGS frame limit", CompressionError)
      else
        Ok(Representation([], Resized(s.(maxDynamicTableSize := decodedInteger.num)), decodedInteger.index))
    else
      var decodedField :- FieldAt(s.dynamicTable, block, blockIndex, BitAnd(firstByte, 0x0f) == 0);
      var neverIndexTable := if BitAnd(firstByte, 0x10) != 0 then s.neverIndexTable + [decodedField.field] else s.neverIndexTable;
      Ok(Representation([decodedField.field], s.(neverIndexTable := neverIndexTable), decodedField.index))
  }

  /** The state a header block leaves behind and the fields it yields, or the exception that stopped it. */
  datatype BlockOutcome = BlockOutcome(state: TableState, fields: Result<seq<HeaderField>>)

  /**
   * The rest of `decodeHeaderBlock` from `blockIndex`, with `fields` already
   * read.  An exception leaves the state as the representations before it
   * made it.
   */
  function DecodeFrom(s: TableState, block: seq<byte>, blockIndex: nat, fields: seq<HeaderField>): BlockOutcome
    decreases |block| - blockIndex
  {
    if blockIndex >= |block| then BlockOutcome(s, Ok(fields))
    else
      match RepresentationAt(s, block, blockIndex)
      case Throw(e) => BlockOutcome(s, Throw(e))
      case Ok(rep) => DecodeFrom(rep.state, block, rep.index, fields + rep.emitted)
  }

  /** `decodeHeaderBlock` from the start of the block. */
  function DecodeBlock(s: TableState, block: seq<byte>): BlockOutcome
  {
    DecodeFrom(s, block, 0, [])
  }

  /** A byte below 2^(k+1) has the bit 2^k set exactly when it is at least 2^k. */
  lemma {:induction false} TopBitOfByte(b: byte, k: nat, m: nat)
    requires m == Pow2(k) && b < 2 * m
    ensures BitAnd(b, m) != 0 <==> b >= m
  {
    BitAndSingleBit(b, k);
    if b >= m {
      DivModUnique(b, m, 1, b - m);
    } else {
      DivModUnique(b, m, 0, b);
    }
  }

  /** The representation bits of a first byte, as ranges. */
  lemma {:induction false} RepresentationBits(b: byte)
    ensures BitAnd(b, 0x80) != 0 <==> b >= 0x80
    ensures b < 0x80 ==> (BitAnd(b, 0x40) != 0 <==> b >= 0x40)
    ensures b < 0x40 ==> (BitAnd(b, 0x20) != 0 <==> b >= 0x20)
    ensures b < 0x20 ==> (BitAnd(b, 0x10) != 0 <==> b >= 0x10)
  {
    assert Pow2(7) == 128;
    TopBitOfByte(b, 7, 128);
    if b < 0x80 {
      assert Pow2(6) == 64;
      TopBitOfByte(b, 6, 64);
    }
    if b < 0x40 {
      assert Pow2(5) == 32;
      TopBitOfByte(b, 5, 32);
    }
    if b < 0x20 {
      assert Pow2(4) == 16;
      TopBitOfByte(b, 4, 16);
    }
  }

  /**
   * What each kind of representation does to the state: an indexed field and
   * a literal without indexing leave the dynamic table and its sizes alone,
   * and only a never-indexed literal (first byte 0x10 to 0x1f) adds to the
   * never-index list; a literal with incremental indexing inserts the field
   * it yields; a size update beyond the limit fails, and otherwise yields no
   * field.
   */
  lemma {:induction false} RepresentationKinds(s: TableState, block: seq<byte>, blockIndex: nat)
    requires blockIndex < |block|
    ensures var r := RepresentationAt(s, block, blockIndex);
            r.Ok? && block[blockIndex] >= 0x80 ==> r.value.state == s && |r.value.emitted| == 1
    ensures var r := RepresentationAt(s, block, blockIndex);
            r.Ok? && 0x40 <= block[blockIndex] < 0x80 ==>
              |r.value.emitted| == 1 && r.value.state == Inserted(s, r.value.emitted[0])
    ensures var r := RepresentationAt(s, block, blockIndex);
            0x20 <= block[blockIndex] < 0x40 && IntegerAt(block, blockIndex, 5).Ok? ==>
              (IntegerAt(block, blockIndex, 5).value.num > s.maxDynamicTableSizeLimit <==>
               r == Raise("Dynamic table size update value exceeds SETTINGS frame limit", CompressionError))
    ensures var r := RepresentationAt(s, block, blockIndex);
            r.Ok? && 0x20 <= block[blockIndex] < 0x40 ==>
              r.value.emitted == [] && r.value.state.maxDynamicTableSize == IntegerAt(block, blockIndex, 5).value.num
    ensures var r := RepresentationAt(s, block, blockIndex);
            r.Ok? && block[blockIndex] < 0x20 ==>
              |r.value.emitted| == 1 &&
              r.value.state.dynamicTable == s.dynamicTable &&
              r.value.state.maxDynamicTableSize == s.maxDynamicTableSize &&
              r.value.state.maxDynamicTableSizeLimit == s.maxDynamicTableSizeLimit &&
              r.value.state.neverIndexTable ==
                if block[blockIndex] >= 0x10 then s.neverIndexTable + r.value.emitted else s.neverIndexTable
  {
    RepresentationBits(block[blockIndex]);
  }

  /** Every representation keeps the table within its maximum and the maximum within the limit. */
  lemma {:induction false} RepresentationBounded(s: TableState, block: seq<byte>, blockIndex: nat)
    requires blockIndex < |block| && Bounded(s)
    ensures RepresentationAt(s, block, blockIndex).Ok? ==> Bounded(RepresentationAt(s, block, blockIndex).value.state)
  {
  }

  /** So does a whole header block, whether it is read to the end or stopped by an exception. */
  lemma {:induction false} DecodeFromBounded(s: TableState, block: seq<byte>, blockIndex: nat, fields: seq<HeaderField>)
    requires Bounded(s)
    ensures Bounded(DecodeFrom(s, block, blockIndex, fields).state)
    decreases |block| - blockIndex
  {
    if blockIndex < |block| {
      var r := RepresentationAt(s, block, blockIndex);
      if r.Ok? {
        RepresentationBounded(s, block, blockIndex);
        DecodeFromBounded(r.value.state, block, r.value.index, fields + r.value.emitted);
      }
    }
  }

  // ---------------------------------------------------------------- encoding

  /** A literal header field with a new name: the byte 0x40, then the name and the value as Huffman-coded string literals. */
  function NewNameBytes(field: HeaderField): Result<seq<byte>>
  {
    assert Pow2(6) == 64;
    var name :- HuffmanString(field.name);
    var value :- HuffmanString(field.value);
    Ok(IntegerBytes(0, 6, 0x40) + name + value)
  }

  /**
   * What the loop of `encodeHeaderBlock` writes for one field.  A field
   * found in the tables is sent as an index when the entry found has a
   * value, and as a literal with incremental indexing (without inserting it
   * anywhere) under the indexed name when it has none; a field not found,
   * or whose entry is on the never-index list, is sent as a literal with a
   * new name.
   */
  function FieldBytes(dynamicTable: seq<HeaderField>, neverIndexTable: seq<HeaderField>, field: HeaderField): Result<seq<byte>>
  {
    assert Pow2(7) == 128 && Pow2(6) == 64;
    match IndexForField(dynamicTable, field)
    case None => NewNameBytes(field)
    case Some(tableIndex) =>
      var entry :- FieldForIndex(dynamicTable, tableIndex);
      if entry in neverIndexTable then NewNameBytes(field)
      else if entry.value != "" then Ok(IntegerBytes(tableIndex, 7, 0x80))
      else
        var value :- HuffmanString(field.value);
        Ok(IntegerBytes(tableIndex, 6, 0x40) + value)
  }

  /** The bytes of each field, or the exception it raises, in order. */
  function FieldResults(dynamicTable: seq<HeaderField>, neverIndexTable: seq<HeaderField>, fields: seq<HeaderField>): (r: seq<Result<seq<byte>>>)
    ensures |r| == |fields|
  {
    MapFields(field => FieldBytes(dynamicTable, neverIndexTable, field), fields)
  }

  /** What `encode` gives for each of the fields, in order. */
  function MapFields(encode: HeaderField -> Result<seq<byte>>, fields: seq<HeaderField>): (r: seq<Result<seq<byte>>>)
    ensures |r| == |fields|
  {
    seq(|fields|, i requires 0 <= i < |fields| => encode(fields[i]))
  }

  /** The results joined in order: their bytes one after another, or the first exception. */
  function Joined(results: seq<Result<seq<byte>>>): Result<seq<byte>>
    decreases |results|
  {
    if results == [] then Ok([])
    else
      var first :- results[0];
      var rest :- Joined(results[1..]);
      Ok(first + rest)
  }

  /** What `encodeHeaderBlock` returns: the bytes of each field in order, or the first exception. */
  function BlockBytes(dynamicTable: seq<HeaderField>, neverIndexTable: seq<HeaderField>, fields: seq<HeaderField>): Result<seq<byte>>
  {
    Joined(FieldResults(dynamicTable, neverIndexTable, fields))
  }

  /** One result more appends its bytes, or its exception. */
  lemma {:induction false} JoinedSnoc(results: seq<Result<seq<byte>>>, last: Result<seq<byte>>)
    ensures Joined(results).Throw? ==> Joined(results + [last]) == Joined(results)
    ensures Joined(results).Ok? && last.Throw? ==> Joined(results + [last]) == Throw(last.exception)
    ensures Joined(results).Ok? && last.Ok? ==> Joined(results + [last]) == Ok(Joined(results).value + last.value)
    decreases |results|
  {
    if results == [] {
      assert [] + [last] == [last] && [last][1..] == [];
      if last.Ok? {
        assert Joined([last]) == Ok(last.value + []);
        assert last.value + [] == [] + last.value;
      }
    } else {
      var longer := results + [last];
      assert longer[0] == results[0] && longer[1..] == results[1..] + [last];
      JoinedSnoc(results[1..], last);
      if results[0].Ok? && Joined(results[1..]).Ok? && last.Ok? {
        var first := results[0].value;
        var rest := Joined(results[1..]).value;
        assert Joined(results) == Ok(first + rest);
        assert Joined(longer) == Ok(first + (rest + last.value));
        assert first + (rest + last.value) == first + rest + last.value;
      }
    }
  }

  /** Once a result is an exception, the results after it are not looked at. */
  lemma {:induction false} JoinedStops(results: seq<Result<seq<byte>>>, more: seq<Result<seq<byte>>>)
    requires Joined(results).Throw?
    ensures Joined(results + more) == Joined(results)
    decreases |results|
  {
    assert (results + more)[0] == results[0] && (results + more)[1..] == results[1..] + more;
    if results[0].Ok? {
      JoinedStops(results[1..], more);
    }
  }

  /** Mapping over a concatenation of fields maps each part. */
  lemma {:induction false} MapFieldsAppend(encode: HeaderField -> Result<seq<byte>>, fields: seq<HeaderField>, more: seq<HeaderField>)
    ensures MapFields(encode, fields + more) == MapFields(encode, fields) + MapFields(encode, more)
  {
    var whole := fields + more;
    forall i | 0 <= i < |whole|
      ensures MapFields(encode, whole)[i] == (MapFields(encode, fields) + MapFields(encode, more))[i]
    {
      if i < |fields| {
        assert whole[i] == fields[i];
      } else {
        assert whole[i] == more[i - |fields|];
      }
    }
  }

  /** The results of a concatenation of fields. */
  lemma {:induction false} FieldResultsAppend(dynamicTable: seq<HeaderField>, neverIndexTable: seq<HeaderField>, fields: seq<HeaderField>, more: seq<HeaderField>)
    ensures FieldResults(dynamicTable, neverIndexTable, fields + more) ==
            FieldResults(dynamicTable, neverIndexTable, fields) + FieldResults(dynamicTable, neverIndexTable, more)
  {
    MapFieldsAppend(field => FieldBytes(dynamicTable, neverIndexTable, field), fields, more);
  }

  /** The results of the fields after the first. */
  lemma {:induction false} FieldResultsTail(dynamicTable: seq<HeaderField>, neverIndexTable: seq<HeaderField>, fields: seq<HeaderField>)
    requires fields != []
    ensures FieldResults(dynamicTable, neverIndexTable, fields)[0] == FieldBytes(dynamicTable, neverIndexTable, fields[0])
    ensures FieldResults(dynamicTable, neverIndexTable, fields)[1..] == FieldResults(dynamicTable, neverIndexTable, fields[1..])
  {
    assert [fields[0]] + fields[1..] == fields;
    FieldResultsAppend(dynamicTable, neverIndexTable, [fields[0]], fields[1..]);
  }

  /** One field more appends its bytes, or its exception. */
  lemma {:induction false} BlockBytesSnoc(dynamicTable: seq<HeaderField>, neverIndexTable: seq<HeaderField>, fields: seq<HeaderField>, field: HeaderField)
    ensures BlockBytes(dynamicTable, neverIndexTable, fields).Throw? ==>
              BlockBytes(dynamicTable, neverIndexTable, fields + [field]) == BlockBytes(dynamicTable, neverIndexTable, fields)
    ensures BlockBytes(dynamicTable, neverIndexTable, fields).Ok? && FieldBytes(dynamicTable, neverIndexTable, field).Throw? ==>
              BlockBytes(dynamicTable, neverIndexTable, fields + [field]) == Throw(FieldBytes(dynamicTable, neverIndexTable, field).exception)
    ensures BlockBytes(dynamicTable, neverIndexTable, fields).Ok? && FieldBytes(dynamicTable, neverIndexTable, field).Ok? ==>
              BlockBytes(dynamicTable, neverIndexTable, fields + [field]) ==
              Ok(BlockBytes(dynamicTable, neverIndexTable, fields).value + FieldBytes(dynamicTable, neverIndexTable, field).value)
  {
    var results := FieldResults(dynamicTable, neverIndexTable, fields);
    var last := FieldBytes(dynamicTable, neverIndexTable, field);
    FieldResultsAppend(dynamicTable, neverIndexTable, fields, [field]);
    assert FieldResults(dynamicTable, neverIndexTable, [field]) == [last];
    assert FieldResults(dynamicTable, neverIndexTable, fields + [field]) == results + [last];
    JoinedSnoc(results, last);
  }

  /** Once a field throws, the fields after it are not looked at. */
  lemma {:induction false} BlockBytesStops(dynamicTable: seq<HeaderField>, neverIndexTable: seq<HeaderField>, fields: seq<HeaderField>, more: seq<HeaderField>)
    requires BlockBytes(dynamicTable, neverIndexTable, fields).Throw?
    ensures BlockBytes(dynamicTable, neverIndexTable, fields + more) == BlockBytes(dynamicTable, neverIndexTable, fields)
  {
    FieldResultsAppend(dynamicTable, neverIndexTable, fields, more);
    JoinedStops(FieldResults(dynamicTable, neverIndexTable, fields), FieldResults(dynamicTable, neverIndexTable, more));
  }

  /**
   * The encoder fails only on a field whose name or value it cannot
   * Huffman-code: the index it finds always names an entry.
   */
  lemma {:induction false} FieldBytesDefined(dynamicTable: seq<HeaderField>, neverIndexTable: seq<HeaderField>, field: HeaderField)
    requires Printable(field.name) && Printable(field.value)
    ensures FieldBytes(dynamicTable, neverIndexTable, field).Ok?
  {
    FieldIndexSpec(StaticTable, dynamicTable, field);
  }

  // ---------------------------------------------------------------- round trip

  /** A string the encoder writes so that the decoder reads it back: Huffman-coded into fewer than 255 octets. */
  predicate ShortHuffman(str: string)
  {
    HuffmanEncodable(str) && |PadWithOnes(HuffmanBits(str))| / 8 < 255
  }

  /** A field whose name and value both are short Huffman strings. */
  predicate Transmittable(field: HeaderField)
  {
    ShortHuffman(field.name) && ShortHuffman(field.value)
  }

  /** An index read with a 7-bit prefix names the field of an indexed header field. */
  lemma {:induction false} IndexedRepresentation(s: TableState, block: seq<byte>, blockIndex: nat, integer: DecodedInteger, field: HeaderField)
    requires blockIndex < |block| && BitAnd(block[blockIndex], 0x80) != 0
    requires IntegerAt(block, blockIndex, 7) == Ok(integer) && FieldForIndex(s.dynamicTable, integer.num) == Ok(field)
    ensures RepresentationAt(s, block, blockIndex) == Ok(Representation([field], s, integer.index))
  {
  }

  /** A literal with incremental indexing yields its field and inserts it. */
  lemma {:induction false} IncrementalRepresentation(s: TableState, block: seq<byte>, blockIndex: nat, decoded: DecodedHeaderField)
    requires blockIndex < |block| && BitAnd(block[blockIndex], 0x80) == 0 && BitAnd(block[blockIndex], 0x40) != 0
    requires FieldAt(s.dynamicTable, block, blockIndex, BitAnd(block[blockIndex], 0x3f) == 0) == Ok(decoded)
    ensures RepresentationAt(s, block, blockIndex) == Ok(Representation([decoded.field], Inserted(s, decoded.field), decoded.index))
  {
  }

  /** An indexed name is the name of the entry its index names. */
  lemma {:induction false} IndexedNameAt(dynamicTable: seq<HeaderField>, block: seq<byte>, blockIndex: nat, integer: DecodedInteger, entry: HeaderField)
    requires IntegerAt(block, blockIndex, 6) == Ok(integer) && FieldForIndex(dynamicTable, integer.num) == Ok(entry)
    ensures NameAt(dynamicTable, block, blockIndex, false) == Ok(DecodedString(entry.name, integer.index))
  {
  }

  /** An index of the static table names the same entry whatever the dynamic table holds. */
  lemma {:induction false} StaticEntry(dynamicTable: seq<HeaderField>, tableIndex: nat, entry: HeaderField)
    requires 1 <= tableIndex <= |StaticTable| && FieldForIndex([], tableIndex) == Ok(entry)
    ensures FieldForIndex(dynamicTable, tableIndex) == Ok(entry)
  {
  }

  /** An index below the prefix, written as one byte after `prefixValue`, reads back as itself. */
  lemma {:induction false} OneByteIntegerAt(block: seq<byte>, blockIndex: nat, integerValue: nat, prefixLength: nat, prefixValue: nat)
    requires prefixValue + Pow2(prefixLength) - 1 < 256 && prefixValue % Pow2(prefixLength) == 0
    requires integerValue < Pow2(prefixLength) - 1
    requires blockIndex < |block| && block[blockIndex] == prefixValue + integerValue
    ensures IntegerAt(block, blockIndex, prefixLength) == Ok(DecodedInteger(integerValue, blockIndex + 1))
  {
    assert IntegerBytes(integerValue, prefixLength, prefixValue) == [prefixValue + integerValue] == block[blockIndex..blockIndex + 1];
    IntegerRoundTrip(block, blockIndex, integerValue, prefixLength, prefixValue);
  }

  /** An index into the static table, written as an indexed header field, reads back as its entry whatever the decoder's state. */
  lemma {:induction false} IndexedRoundTrip(s: TableState, block: seq<byte>, blockIndex: nat, tableIndex: nat, field: HeaderField, bytes: seq<byte>)
    returns (r: Representation)
    requires 1 <= tableIndex <= |StaticTable| && FieldForIndex([], tableIndex) == Ok(field) && bytes == [0x80 + tableIndex]
    requires blockIndex + |bytes| <= |block| && block[blockIndex..blockIndex + |bytes|] == bytes
    ensures RepresentationAt(s, block, blockIndex) == Ok(r)
    ensures r.emitted == [field] && r.state == s && r.index == blockIndex + |bytes|
  {
    assert block[blockIndex] == block[blockIndex..blockIndex + |bytes|][0];
    r := Representation([field], s, blockIndex + 1);
    StaticTableLength();
    RepresentationBits(block[blockIndex]);
    assert Pow2(7) == 128;
    OneByteIntegerAt(block, blockIndex, tableIndex, 7, 0x80);
    StaticEntry(s.dynamicTable, tableIndex, field);
    IndexedRepresentation(s, block, blockIndex, DecodedInteger(tableIndex, blockIndex + 1), field);
  }

  /** A field read as its name, then a Huffman-coded value the encoder wrote after it. */
  lemma {:induction false} FieldAtParts(dynamicTable: seq<HeaderField>, block: seq<byte>, blockIndex: nat, isIndex: bool, name: DecodedString,
                                        fieldValue: string, literal: seq<byte>, end: nat, decoded: DecodedHeaderField)
    requires NameAt(dynamicTable, block, blockIndex, isIndex) == Ok(name)
    requires ShortHuffman(fieldValue) && literal == HuffmanString(fieldValue).value
    requires end == name.index + |literal| <= |block| && block[name.index..end] == literal
    requires decoded == DecodedHeaderField(HeaderField(name.str, fieldValue), end)
    ensures FieldAt(dynamicTable, block, blockIndex, isIndex) == Ok(decoded)
  {
    HuffmanStringRoundTrip(block, name.index, fieldValue, literal, end);
  }

  /** A new name is the Huffman-coded string literal the encoder wrote after the representation byte. */
  lemma {:induction false} NewNameAt(dynamicTable: seq<HeaderField>, block: seq<byte>, blockIndex: nat, fieldName: string, literal: seq<byte>, end: nat)
    requires ShortHuffman(fieldName) && literal == HuffmanString(fieldName).value
    requires end == blockIndex + 1 + |literal| <= |block| && block[blockIndex + 1..end] == literal
    ensures NameAt(dynamicTable, block, blockIndex, true) == Ok(DecodedString(fieldName, end))
  {
    HuffmanStringRoundTrip(block, blockIndex + 1, fieldName, literal, end);
  }

  /** A new name and a value, as Huffman strings after a representation byte, read back as the field. */
  lemma {:induction false} NewNameFieldAt(dynamicTable: seq<HeaderField>, block: seq<byte>, blockIndex: nat, field: HeaderField,
                                          name: seq<byte>, value: seq<byte>, middle: nat, end: nat)
    requires Transmittable(field) && name == HuffmanString(field.name).value && value == HuffmanString(field.value).value
    requires middle == blockIndex + 1 + |name| && end == middle + |value| <= |block|
    requires block[blockIndex + 1..middle] == name && block[middle..end] == value
    ensures FieldAt(dynamicTable, block, blockIndex, true) == Ok(DecodedHeaderField(field, end))
  {
    NewNameAt(dynamicTable, block, blockIndex, field.name, name, middle);
    FieldAtParts(dynamicTable, block, blockIndex, true, DecodedString(field.name, middle), field.value, value, end,
                 DecodedHeaderField(HeaderField(field.name, field.value), end));
    assert HeaderField(field.name, field.value) == field;
  }

  /** An indexed name with a 6-bit prefix and a Huffman-coded value read back as the entry's name with that value. */
  lemma {:induction false} IndexedNameFieldAt(dynamicTable: seq<HeaderField>, block: seq<byte>, blockIndex: nat, tableIndex: nat, entry: HeaderField,
                                              fieldValue: string, value: seq<byte>)
    requires 1 <= tableIndex <= |StaticTable| && FieldForIndex([], tableIndex) == Ok(entry)
    requires ShortHuffman(fieldValue) && value == HuffmanString(fieldValue).value
    requires blockIndex + 1 + |value| <= |block| && block[blockIndex] == 0x40 + tableIndex
    requires block[blockIndex + 1..blockIndex + 1 + |value|] == value
    ensures FieldAt(dynamicTable, block, blockIndex, false) == Ok(DecodedHeaderField(HeaderField(entry.name, fieldValue), blockIndex + 1 + |value|))
  {
    var start := blockIndex + 1;
    IndexedNameAtByte(dynamicTable, block, blockIndex, tableIndex, entry);
    FieldAtParts(dynamicTable, block, blockIndex, false, DecodedString(entry.name, start), fieldValue, value, start + |value|,
                 DecodedHeaderField(HeaderField(entry.name, fieldValue), blockIndex + 1 + |value|));
  }

  /** An index of the static table written as one byte 0x40 + i names the entry's name. */
  lemma {:induction false} IndexedNameAtByte(dynamicTable: seq<HeaderField>, block: seq<byte>, blockIndex: nat, tableIndex: nat, entry: HeaderField)
    requires 1 <= tableIndex <= |StaticTable| && FieldForIndex([], tableIndex) == Ok(entry)
    requires blockIndex < |block| && block[blockIndex] == 0x40 + tableIndex
    ensures NameAt(dynamicTable, block, blockIndex, false) == Ok(DecodedString(entry.name, blockIndex + 1))
  {
    StaticTableLength();
    assert Pow2(6) == 64;
    OneByteIntegerAt(block, blockIndex, tableIndex, 6, 0x40);
    StaticEntry(dynamicTable, tableIndex, entry);
    IndexedNameAt(dynamicTable, block, blockIndex, DecodedInteger(tableIndex, blockIndex + 1), entry);
  }

  /** The representation byte 0x40 + i of a literal with incremental indexing: its low six bits are i. */
  lemma {:induction false} IncrementalIndexingByte(b: byte, tableIndex: nat)
    requires tableIndex < 64 && b == 0x40 + tableIndex
    ensures b < 0x80 && BitAnd(b, 0x80) == 0 && BitAnd(b, 0x40) != 0
    ensures (BitAnd(b, 0x3f) == 0) == (tableIndex == 0)
  {
    RepresentationBits(b);
    assert Pow2(6) == 64;
    BitAndLowMask(b, 6);
    ModAddSmall(64, tableIndex, 64);
  }

  /** The slices of a block that holds `whole == a + b + c`. */
  lemma {:induction false} SlicesOfParts(block: seq<byte>, at: nat, whole: seq<byte>, a: seq<byte>, b: seq<byte>, c: seq<byte>)
    requires whole == a + b + c && at + |whole| <= |block| && block[at..at + |whole|] == whole
    ensures |whole| == |a| + |b| + |c|
    ensures block[at..at + |a|] == a
    ensures block[at + |a|..at + |a| + |b|] == b
    ensures block[at + |a| + |b|..at + |a| + |b| + |c|] == c
  {
    assert |whole| == |a| + |b| + |c|;
    var w := block[at..at + |a| + |b| + |c|];
    assert w == whole;
    assert block[at..at + |a|] == w[..|a|] == (a + b + c)[..|a|] == a;
    assert block[at..at + |a| + |b|] == w[..|a| + |b|] == (a + b + c)[..|a| + |b|] == a + b;
    assert block[at + |a|..at + |a| + |b|] == block[at..at + |a| + |b|][|a|..] == (a + b)[|a|..] == b;
    assert block[at + |a| + |b|..at + |a| + |b| + |c|] == w[|a| + |b|..] == (a + b + c)[|a| + |b|..] == c;
  }

  /** The first byte and the slices of a block that holds `whole == [first] + b + c`. */
  lemma {:induction false} FirstAndParts(block: seq<byte>, at: nat, whole: seq<byte>, first: byte, b: seq<byte>, c: seq<byte>)
    requires whole == [first] + b + c && at + |whole| <= |block| && block[at..at + |whole|] == whole
    ensures |whole| == 1 + |b| + |c| && block[at] == first
    ensures block[at + 1..at + 1 + |b|] == b
    ensures block[at + 1 + |b|..at + 1 + |b| + |c|] == c
  {
    SlicesOfParts(block, at, whole, [first], b, c);
    assert block[at] == block[at..at + 1][0];
  }

  /** A literal with incremental indexing whose representation byte is 0x40 + i yields its field and inserts it. */
  lemma {:induction false} IncrementalRepresentationAt(s: TableState, block: seq<byte>, blockIndex: nat, tableIndex: nat, decoded: DecodedHeaderField)
    requires tableIndex < 64 && blockIndex < |block| && block[blockIndex] == 0x40 + tableIndex
    requires FieldAt(s.dynamicTable, block, blockIndex, tableIndex == 0) == Ok(decoded)
    ensures RepresentationAt(s, block, blockIndex) == Ok(Representation([decoded.field], Inserted(s, decoded.field), decoded.index))
  {
    IncrementalIndexingByte(block[blockIndex], tableIndex);
    IncrementalRepresentation(s, block, blockIndex, decoded);
  }

  /** A value below the prefix is written as one byte. */
  lemma {:induction false} OneByteInteger(integerValue: nat, prefixLength: nat, prefixValue: nat)
    requires prefixValue + Pow2(prefixLength) - 1 < 256 && integerValue < Pow2(prefixLength) - 1
    ensures IntegerBytes(integerValue, prefixLength, prefixValue) == [prefixValue + integerValue]
  {
  }

  /** The bytes of a literal with a new name. */
  lemma {:induction false} NewNameBytesShape(field: HeaderField)
    requires Printable(field.name) && Printable(field.value)
    ensures NewNameBytes(field) == Ok([0x40] + HuffmanString(field.name).value + HuffmanString(field.value).value)
  {
    assert Pow2(6) == 64;
    OneByteInteger(0, 6, 0x40);
  }

  /** A literal with a new name, as the encoder writes it, reads back as the field and inserts it. */
  lemma {:induction false} NewNameRoundTrip(s: TableState, block: seq<byte>, blockIndex: nat, field: HeaderField, bytes: seq<byte>)
    returns (r: Representation)
    requires Transmittable(field) && bytes == [0x40] + HuffmanString(field.name).value + HuffmanString(field.value).value
    requires blockIndex + |bytes| <= |block| && block[blockIndex..blockIndex + |bytes|] == bytes
    ensures RepresentationAt(s, block, blockIndex) == Ok(r)
    ensures r.emitted == [field] && r.state == Inserted(s, field) && r.index == blockIndex + |bytes|
  {
    var name := HuffmanString(field.name).value;
    var value := HuffmanString(field.value).value;
    FirstAndParts(block, blockIndex, bytes, 0x40, name, value);
    var middle := blockIndex + 1 + |name|;
    NewNameFieldAt(s.dynamicTable, block, blockIndex, field, name, value, middle, middle + |value|);
    var decoded := DecodedHeaderField(field, middle + |value|);
    IncrementalRepresentationAt(s, block, blockIndex, 0, decoded);
    r := Representation([decoded.field], Inserted(s, decoded.field), decoded.index);
  }

  /** A literal under an indexed name, as the encoder writes it, reads back as the field and inserts it. */
  lemma {:induction false} IndexedNameRoundTrip(s: TableState, block: seq<byte>, blockIndex: nat, tableIndex: nat, entry: HeaderField,
                                                field: HeaderField, bytes: seq<byte>) returns (r: Representation)
    requires 1 <= tableIndex <= |StaticTable| && FieldForIndex([], tableIndex) == Ok(entry) && entry.name == field.name
    requires Transmittable(field) && bytes == [0x40 + tableIndex] + HuffmanString(field.value).value
    requires blockIndex + |bytes| <= |block| && block[blockIndex..blockIndex + |bytes|] == bytes
    ensures RepresentationAt(s, block, blockIndex) == Ok(r)
    ensures r.emitted == [field] && r.state == Inserted(s, field) && r.index == blockIndex + |bytes|
  {
    StaticTableLength();
    var value := HuffmanString(field.value).value;
    FirstAndParts(block, blockIndex, bytes, 0x40 + tableIndex, value, []);
    IndexedNameFieldAt(s.dynamicTable, block, blockIndex, tableIndex, entry, field.value, value);
    assert HeaderField(entry.name, field.value) == field;
    var decoded := DecodedHeaderField(field, blockIndex + 1 + |value|);
    IncrementalRepresentationAt(s, block, blockIndex, tableIndex, decoded);
    r := Representation([decoded.field], Inserted(s, decoded.field), decoded.index);
  }

  /** The three forms of header field the encoder writes, as used by the round trip. */
  datatype FieldForm = NewName | Indexed(tableIndex: nat) | IndexedName(tableIndex: nat, entry: HeaderField)

  /** The bytes of `field` in the given form. */
  predicate FormWrites(form: FieldForm, field: HeaderField, bytes: seq<byte>)
  {
    match form
    case NewName =>
      HuffmanString(field.name).Ok? && HuffmanString(field.value).Ok? &&
      bytes == [0x40] + HuffmanString(field.name).value + HuffmanString(field.value).value
    case Indexed(i) => 1 <= i <= |StaticTable| && FieldForIndex([], i) == Ok(field) && bytes == [0x80 + i]
    case IndexedName(i, entry) =>
      1 <= i <= |StaticTable| && FieldForIndex([], i) == Ok(entry) && entry.name == field.name &&
      HuffmanString(field.value).Ok? && bytes == [0x40 + i] + HuffmanString(field.value).value
  }

  /**
   * What the encoder with an empty dynamic table writes for a
   * transmittable field: a literal with a new name, an index of the static
   * table whose entry is the field, or a literal under the name of a static
   * entry.
   */
  lemma {:induction false} FieldBytesForm(neverIndexTable: seq<HeaderField>, field: HeaderField, bytes: seq<byte>) returns (form: FieldForm)
    requires Printable(field.name) && Printable(field.value) && FieldBytes([], neverIndexTable, field) == Ok(bytes)
    ensures FormWrites(form, field, bytes)
  {
    StaticTableLength();
    FieldIndexSpec(StaticTable, [], field);
    assert Pow2(7) == 128 && Pow2(6) == 64;
    var tableIndex := IndexForField([], field);
    if tableIndex.None? || FieldForIndex([], tableIndex.value).value in neverIndexTable {
      NewNameBytesShape(field);
      form := NewName;
    } else {
      var i := tableIndex.value;
      var entry := FieldForIndex([], i).value;
      if entry.value != "" {
        OneByteInteger(i, 7, 0x80);
        assert entry == field;
        form := Indexed(i);
      } else {
        OneByteInteger(i, 6, 0x40);
        form := IndexedName(i, entry);
      }
    }
  }

  /** Whatever the table holds, a field read back from the encoder's bytes for it is that field. */
  lemma {:induction false} FieldRoundTrip(s: TableState, block: seq<byte>, blockIndex: nat, field: HeaderField, bytes: seq<byte>, form: FieldForm)
    returns (r: Representation)
    requires Transmittable(field) && FormWrites(form, field, bytes)
    requires blockIndex + |bytes| <= |block| && block[blockIndex..blockIndex + |bytes|] == bytes
    ensures RepresentationAt(s, block, blockIndex) == Ok(r)
    ensures r.emitted == [field] && r.index == blockIndex + |bytes|
  {
    match form
    case NewName =>
      r := NewNameRoundTrip(s, block, blockIndex, field, bytes);
    case Indexed(i) =>
      r := IndexedRoundTrip(s, block, blockIndex, i, field, bytes);
    case IndexedName(i, entry) =>
      r := IndexedNameRoundTrip(s, block, blockIndex, i, entry, field, bytes);
  }

  /** A block holding `a + b` from `at` on. */
  lemma {:induction false} SuffixParts(block: seq<byte>, at: nat, a: seq<byte>, b: seq<byte>)
    requires at <= |block| && block[at..] == a + b
    ensures at + |a| <= |block| && block[at..at + |a|] == a && block[at + |a|..] == b
  {
    assert block[at..at + |a|] == block[at..][..|a|] == (a + b)[..|a|] == a;
    assert block[at + |a|..] == block[at..][|a|..] == (a + b)[|a|..] == b;
  }

  /** The bytes of a block of fields: those of the first field, then those of the others. */
  lemma {:induction false} BlockBytesCons(dynamicTable: seq<HeaderField>, neverIndexTable: seq<HeaderField>, fields: seq<HeaderField>)
    requires fields != [] && BlockBytes(dynamicTable, neverIndexTable, fields).Ok?
    ensures FieldBytes(dynamicTable, neverIndexTable, fields[0]).Ok? && BlockBytes(dynamicTable, neverIndexTable, fields[1..]).Ok?
    ensures BlockBytes(dynamicTable, neverIndexTable, fields).value ==
            FieldBytes(dynamicTable, neverIndexTable, fields[0]).value + BlockBytes(dynamicTable, neverIndexTable, fields[1..]).value
  {
    FieldResultsTail(dynamicTable, neverIndexTable, fields);
  }

  /** One turn of `DecodeFrom`. */
  lemma {:induction false} DecodeFromStep(s: TableState, block: seq<byte>, blockIndex: nat, decoded: seq<HeaderField>, r: Representation)
    requires blockIndex < |block| && RepresentationAt(s, block, blockIndex) == Ok(r)
    ensures DecodeFrom(s, block, blockIndex, decoded) == DecodeFrom(r.state, block, r.index, decoded + r.emitted)
  {
  }

  /** Putting the first element back. */
  lemma {:induction false} ConsBack(decoded: seq<HeaderField>, fields: seq<HeaderField>)
    requires fields != []
    ensures decoded + [fields[0]] + fields[1..] == decoded + fields
  {
    assert [fields[0]] + fields[1..] == fields;
  }

  /** The fields after the first of transmittable fields are transmittable. */
  lemma {:induction false} TransmittableTail(fields: seq<HeaderField>)
    requires fields != [] && forall i :: 0 <= i < |fields| ==> Transmittable(fields[i])
    ensures Transmittable(fields[0]) && forall i :: 0 <= i < |fields[1..]| ==> Transmittable(fields[1..][i])
  {
    forall i | 0 <= i < |fields[1..]|
      ensures Transmittable(fields[1..][i])
    {
      assert fields[1..][i] == fields[i + 1];
    }
  }

  /** Reading the first of the encoded fields: the decoder emits it and goes on at the bytes of the others. */
  lemma {:induction false} DecodeFromFirst(s: TableState, neverIndexTable: seq<HeaderField>, block: seq<byte>, blockIndex: nat,
                                           decoded: seq<HeaderField>, fields: seq<HeaderField>) returns (r: Representation)
    requires fields != [] && forall i :: 0 <= i < |fields| ==> Transmittable(fields[i])
    requires BlockBytes([], neverIndexTable, fields).Ok?
    requires blockIndex <= |block| && block[blockIndex..] == BlockBytes([], neverIndexTable, fields).value
    ensures forall i :: 0 <= i < |fields[1..]| ==> Transmittable(fields[1..][i])
    ensures BlockBytes([], neverIndexTable, fields[1..]).Ok?
    ensures r.emitted == [fields[0]]
    ensures r.index <= |block| && block[r.index..] == BlockBytes([], neverIndexTable, fields[1..]).value
    ensures DecodeFrom(s, block, blockIndex, decoded) == DecodeFrom(r.state, block, r.index, decoded + r.emitted)
  {
    var first := FirstFieldBytes(neverIndexTable, block, blockIndex, fields);
    var form := FieldBytesForm(neverIndexTable, fields[0], first);
    r := FieldRoundTrip(s, block, blockIndex, fields[0], first, form);
    SameSuffix(block, blockIndex + |first|, r.index, BlockBytes([], neverIndexTable, fields[1..]).value);
    DecodeFromStep(s, block, blockIndex, decoded, r);
  }

  /** Equal positions cut a block into equal suffixes. */
  lemma {:induction false} SameSuffix(block: seq<byte>, at: nat, index: nat, rest: seq<byte>)
    requires at == index <= |block| && block[at..] == rest
    ensures block[index..] == rest
  {
  }

  /** A block holding the encoder's bytes for `fields` holds those of the first field, then those of the others. */
  lemma {:induction false} FirstFieldBytes(neverIndexTable: seq<HeaderField>, block: seq<byte>, blockIndex: nat, fields: seq<HeaderField>)
    returns (first: seq<byte>)
    requires fields != [] && forall i :: 0 <= i < |fields| ==> Transmittable(fields[i])
    requires BlockBytes([], neverIndexTable, fields).Ok?
    requires blockIndex <= |block| && block[blockIndex..] == BlockBytes([], neverIndexTable, fields).value
    ensures Transmittable(fields[0]) && forall i :: 0 <= i < |fields[1..]| ==> Transmittable(fields[1..][i])
    ensures FieldBytes([], neverIndexTable, fields[0]) == Ok(first) && BlockBytes([], neverIndexTable, fields[1..]).Ok?
    ensures blockIndex + |first| <= |block| && block[blockIndex..blockIndex + |first|] == first
    ensures block[blockIndex + |first|..] == BlockBytes([], neverIndexTable, fields[1..]).value
  {
    BlockBytesCons([], neverIndexTable, fields);
    first := FieldBytes([], neverIndexTable, fields[0]).value;
    SuffixParts(block, blockIndex, first, BlockBytes([], neverIndexTable, fields[1..]).value);
    TransmittableTail(fields);
  }

  /** The rest of a block holding the encoder's bytes for `fields` reads back as those fields. */
  lemma {:induction false} DecodeFromBlockBytes(s: TableState, neverIndexTable: seq<HeaderField>, block: seq<byte>, blockIndex: nat,
                                                decoded: seq<HeaderField>, fields: seq<HeaderField>)
    requires forall i :: 0 <= i < |fields| ==> Transmittable(fields[i])
    requires BlockBytes([], neverIndexTable, fields).Ok?
    requires blockIndex <= |block| && block[blockIndex..] == BlockBytes([], neverIndexTable, fields).value
    ensures DecodeFrom(s, block, blockIndex, decoded).fields == Ok(decoded + fields)
    decreases |fields|
  {
    if fields == [] {
      assert Joined([]) == Ok([]);
      assert decoded + fields == decoded;
    } else {
      var r := DecodeFromFirst(s, neverIndexTable, block, blockIndex, decoded, fields);
      DecodeFromBlockBytes(r.state, neverIndexTable, block, r.index, decoded + r.emitted, fields[1..]);
      ConsBack(decoded, fields);
    }
  }

  /** The first `k + 1` fields are the first `k` and the next one, and they and the rest make up all. */
  lemma {:induction false} PrefixSnoc(fields: seq<HeaderField>, k: nat)
    requires k < |fields|
    ensures fields[..k + 1] == fields[..k] + [fields[k]] && fields[..k + 1] + fields[k + 1..] == fields
  {
  }

  /** A whole block is itself from position 0, and fields after none are themselves. */
  lemma {:induction false} WholeSequence(block: seq<byte>, fields: seq<HeaderField>)
    ensures block[0..] == block && [] + fields == fields
  {
  }

  /** The new-name branch of the loop of `encodeHeaderBlock`: writes `NewNameBytes` at `blockIndex`. */
  method EncodeNewName(block: seq<byte>, blockIndex: nat, field: HeaderField) returns (r: Result<EncodedValue>)
    requires blockIndex <= |block|
    ensures r.Ok? <==> NewNameBytes(field).Ok?
    ensures r.Throw? ==> r.exception == NewNameBytes(field).exception
    ensures r.Ok? ==> Encoded(block, blockIndex, NewNameBytes(field).value, r.value)
  {
    assert Pow2(6) == 64;
    var encodedInteger := EncodeInteger(block, blockIndex, 0, 6, 0x40);
    var encodedName :- EncodeString(encodedInteger.buffer, encodedInteger.index, field.name, true);
    EncodedTwice(block, blockIndex, IntegerBytes(0, 6, 0x40), encodedInteger, HuffmanString(field.name).value, encodedName);
    var encodedValue :- EncodeString(encodedName.buffer, encodedName.index, field.value, true);
    EncodedTwice(block, blockIndex, IntegerBytes(0, 6, 0x40) + HuffmanString(field.name).value, encodedName,
                 HuffmanString(field.value).value, encodedValue);
    return Ok(encodedValue);
  }

  /**
   * An encoder whose dynamic table is empty, with any never-index list,
   * writes a header block of transmittable fields that a decoder in any
   * state reads back as the same fields.
   */
  lemma {:induction false} BlockRoundTrip(s: TableState, neverIndexTable: seq<HeaderField>, fields: seq<HeaderField>)
    requires forall i :: 0 <= i < |fields| ==> Transmittable(fields[i])
    ensures BlockBytes([], neverIndexTable, fields).Ok?
    ensures DecodeBlock(s, BlockBytes([], neverIndexTable, fields).value).fields == Ok(fields)
  {
    BlockBytesDefined([], neverIndexTable, fields);
    var block := BlockBytes([], neverIndexTable, fields).value;
    WholeSequence(block, fields);
    DecodeFromBlockBytes(s, neverIndexTable, block, 0, [], fields);
  }

  /** Fields whose names and values all are printable are always encoded. */
  lemma {:induction false} BlockBytesDefined(dynamicTable: seq<HeaderField>, neverIndexTable: seq<HeaderField>, fields: seq<HeaderField>)
    requires forall i :: 0 <= i < |fields| ==> Printable(fields[i].name) && Printable(fields[i].value)
    ensures BlockBytes(dynamicTable, neverIndexTable, fields).Ok?
    decreases |fields|
  {
    if fields != [] {
      FieldBytesDefined(dynamicTable, neverIndexTable, fields[0]);
      BlockBytesDefined(dynamicTable, neverIndexTable, fields[1..]);
      FieldResultsTail(dynamicTable, neverIndexTable, fields);
    }
  }

  // ---------------------------------------------------------------- the engine

  /** One loop of `getIndexForHeaderField`: the first position whose entry answers for the field. */
  method SearchTable(table: seq<HeaderField>, field: HeaderField, inStaticTable: bool) returns (r: Option<nat>)
    ensures r == FirstAnswer(table, field, inStaticTable, 0)
  {
    for i := 0 to |table|
      invariant FirstAnswer(table, field, inStaticTable, i) == FirstAnswer(table, field, inStaticTable, 0)
    {
      if field.name == table[i].name && (field.value == table[i].value || (inStaticTable && table[i].value == "")) {
        return Some(i);
      }
    }
    return None;
  }

  /** `Compression`: the dynamic table, newest entry first, its maximum size and the limit on it, and the never-index list. */
  class Compression {
    var dynamicTable: seq<HeaderField>
    var maxDynamicTableSizeLimit: nat
    var maxDynamicTableSize: nat
    var neverIndexTable: seq<HeaderField>

    /** The four fields, as a value. */
    function State(): TableState
      reads this
    {
      TableState(dynamicTable, maxDynamicTableSizeLimit, maxDynamicTableSize, neverIndexTable)
    }

    /** The constructor: empty tables, and a maximum size equal to its limit. */
    constructor(maxDynamicTableSizeLimit: nat)
      ensures State() == TableState([], maxDynamicTableSizeLimit, maxDynamicTableSizeLimit, [])
      ensures Bounded(State())
    {
      dynamicTable := [];
      maxDynamicTableSize := maxDynamicTableSizeLimit;
      this.maxDynamicTableSizeLimit := maxDynamicTableSizeLimit;
      neverIndexTable := [];
    }

    /** `getSizeOfDynamicTable`: its loop sums the entry sizes. */
    method GetSizeOfDynamicTable() returns (length: nat)
      ensures length == TableSize(dynamicTable)
    {
      length := 0;
      for i := 0 to |dynamicTable|
        invariant length == TableSize(dynamicTable[..i])
      {
        assert dynamicTable[..i + 1][..i] == dynamicTable[..i];
        length := length + ByteLength(dynamicTable[i].name);
        length := length + ByteLength(dynamicTable[i].value);
        length := length + 32;
      }
      assert dynamicTable[..|dynamicTable|] == dynamicTable;
    }

    /** `resizeDynamicTable`: the clamp, then the pop loop that takes one octet off the size per entry. */
    method ResizeDynamicTable()
      modifies this
      ensures State() == Resized(old(State()))
    {
      if maxDynamicTableSize > maxDynamicTableSizeLimit {
        maxDynamicTableSize := maxDynamicTableSizeLimit;
      }
      var size: int := GetSizeOfDynamicTable();
      ghost var table := dynamicTable;
      ghost var popped: nat := 0;
      while size > maxDynamicTableSize
        invariant size == TableSize(table) - popped
        invariant popped == 0 || size >= maxDynamicTableSize
        invariant maxDynamicTableSize == Min(old(maxDynamicTableSize), old(maxDynamicTableSizeLimit))
        invariant maxDynamicTableSizeLimit == old(maxDynamicTableSizeLimit) && neverIndexTable == old(neverIndexTable)
        invariant dynamicTable == table[..|table| - Min(|table|, popped)]
        decreases size
      {
        if |dynamicTable| > 0 {
          dynamicTable := dynamicTable[..|dynamicTable| - 1];
        }
        size := size - 1;
        popped := popped + 1;
      }
      if popped == 0 {
        assert table[..|table|] == table;
      } else {
        assert TableSize(table) - maxDynamicTableSize == popped;
      }
      assert dynamicTable == Evicted(table, maxDynamicTableSize);
    }

    /** `addHeaderFieldToDynamicTable`: the field goes in front, then the table is resized. */
    method AddHeaderFieldToDynamicTable(field: HeaderField)
      modifies this
      ensures State() == Inserted(old(State()), field)
    {
      dynamicTable := [field] + dynamicTable;
      ResizeDynamicTable();
    }

    /** `getHeaderFieldForIndex`: its two ranges and the error for every other index. */
    method GetHeaderFieldForIndex(index: nat) returns (r: Result<HeaderField>)
      ensures r == FieldForIndex(dynamicTable, index)
    {
      if 1 <= index <= |StaticTable| {
        return Ok(StaticTable[index - 1]);
      } else if |StaticTable| + 1 <= index <= |StaticTable| + |dynamicTable| {
        return Ok(dynamicTable[index - |StaticTable| - 1]);
      } else {
        return Raise("Invalid compression index", CompressionError);
      }
    }

    /** `getIndexForHeaderField`: its search of the static table, then of the dynamic table. */
    method GetIndexForHeaderField(field: HeaderField) returns (r: Option<nat>)
      ensures r == IndexForField(dynamicTable, field)
    {
      var i := SearchTable(StaticTable, field, true);
      if i.Some? {
        return Some(i.value + 1);
      }
      i := SearchTable(dynamicTable, field, false);
      if i.Some? {
        return Some(i.value + 1 + |StaticTable|);
      }
      return None;
    }

    /** The first half of `decodeHeaderField`: a new name as a string literal, or an indexed name with a 6-bit prefix. */
    method DecodeFieldName(block: seq<byte>, blockIndex: nat, isIndex: bool) returns (r: Result<DecodedString>)
      ensures r == NameAt(dynamicTable, block, blockIndex, isIndex)
    {
      if isIndex {
        r := DecodeString(block, blockIndex + 1);
      } else {
        var decodedInteger :- DecodeInteger(block, blockIndex, 6);
        var entry :- GetHeaderFieldForIndex(decodedInteger.num);
        r := Ok(DecodedString(entry.name, decodedInteger.index));
      }
    }

    /** `decodeHeaderField`: the name, then the value as a string literal. */
    method DecodeHeaderField(block: seq<byte>, blockIndex: nat, isIndex: bool) returns (r: Result<DecodedHeaderField>)
      ensures r == FieldAt(dynamicTable, block, blockIndex, isIndex)
    {
      var name :- DecodeFieldName(block, blockIndex, isIndex);
      var decodedString :- DecodeString(block, name.index);
      return Ok(DecodedHeaderField(HeaderField(name.str, decodedString.str), decodedString.index));
    }

    /**
     * One turn of the loop of `decodeHeaderBlock`: the representation at
     * `blockIndex`, with the state it leaves; an exception leaves the state
     * as it was.
     */
    method DecodeRepresentation(block: seq<byte>, blockIndex: nat) returns (r: Result<Representation>)
      requires blockIndex < |block|
      modifies this
      ensures r == RepresentationAt(old(State()), block, blockIndex)
      ensures State() == if r.Ok? then r.value.state else old(State())
    {
      var firstByte := block[blockIndex];
      if BitAnd(firstByte, 0x80) != 0 {
        // an indexed header field
        var decodedInteger :- DecodeInteger(block, blockIndex, 7);
        var field :- GetHeaderFieldForIndex(decodedInteger.num);
        return Ok(Representation([field], State(), decodedInteger.index));
      } else if BitAnd(firstByte, 0x40) != 0 {
        // a literal header field with incremental indexing
        var newName := BitAnd(firstByte, 0x3f) == 0;
        var decodedField :- DecodeHeaderField(block, blockIndex, newName);
        AddHeaderFieldToDynamicTable(decodedField.field);
        return Ok(Representation([decodedField.field], State(), decodedField.index));
      } else if BitAnd(firstByte, 0x20) != 0 {
        // a dynamic table size update
        var decodedInteger :- DecodeInteger(block, blockIndex, 5);
        if decodedInteger.num > maxDynamicTableSizeLimit {
          return Raise("Dynamic table size update value exceeds SETTINGS frame limit", CompressionError);
        }
        maxDynamicTableSize := decodedInteger.num;
        ResizeDynamicTable();
        return Ok(Representation([], State(), decodedInteger.index));
      } else {
        // a literal header field without indexing, or never indexed
        var newName := BitAnd(firstByte, 0x0f) == 0;
        var decodedField :- DecodeHeaderField(block, blockIndex, newName);
        if BitAnd(firstByte, 0x10) != 0 {
          neverIndexTable := neverIndexTable + [decodedField.field];
        }
        return Ok(Representation([decodedField.field], State(), decodedField.index));
      }
    }

    /**
     * `decodeHeaderBlock`: yields the fields of the block and leaves the
     * state `DecodeBlock` computes, also when an exception stops it.
     */
    method DecodeHeaderBlock(block: seq<byte>) returns (r: Result<seq<HeaderField>>)
      modifies this
      ensures BlockOutcome(State(), r) == DecodeBlock(old(State()), block)
    {
      var blockIndex := 0;
      var fields: seq<HeaderField> := [];
      while blockIndex < |block|
        invariant DecodeFrom(State(), block, blockIndex, fields) == DecodeBlock(old(State()), block)
        decreases |block| - blockIndex
      {
        var representation :- DecodeRepresentation(block, blockIndex);
        fields := fields + representation.emitted;
        blockIndex := representation.index;
      }
      return Ok(fields);
    }

    /** The never-index loop of `encodeHeaderBlock`: whether the entry found is on the list. */
    method IsNeverIndexed(entry: HeaderField) returns (found: bool)
      ensures found <==> entry in neverIndexTable
    {
      found := false;
      for i := 0 to |neverIndexTable|
        invariant !found ==> entry !in neverIndexTable[..i]
        invariant found ==> entry in neverIndexTable
      {
        if neverIndexTable[i].name == entry.name && neverIndexTable[i].value == entry.value {
          found := true;
          break;
        }
      }
      if !found {
        assert neverIndexTable[..|neverIndexTable|] == neverIndexTable;
      }
    }

    /** One turn of the loop of `encodeHeaderBlock`: writes `FieldBytes` at `blockIndex`. */
    method EncodeHeaderField(block: seq<byte>, blockIndex: nat, field: HeaderField) returns (r: Result<EncodedValue>)
      requires blockIndex <= |block|
      ensures r.Ok? <==> FieldBytes(dynamicTable, neverIndexTable, field).Ok?
      ensures r.Throw? ==> r.exception == FieldBytes(dynamicTable, neverIndexTable, field).exception
      ensures r.Ok? ==> Encoded(block, blockIndex, FieldBytes(dynamicTable, neverIndexTable, field).value, r.value)
    {
      assert Pow2(7) == 128 && Pow2(6) == 64;
      var tableIndex := GetIndexForHeaderField(field);
      if tableIndex.Some? {
        var entry :- GetHeaderFieldForIndex(tableIndex.value);
        var neverIndexed := IsNeverIndexed(entry);
        if !neverIndexed {
          if entry.value != "" {
            // an indexed header field
            var encodedInteger := EncodeInteger(block, blockIndex, tableIndex.value, 7, 0x80);
            return Ok(encodedInteger);
          } else {
            // a literal header field with an indexed name
            var encodedInteger := EncodeInteger(block, blockIndex, tableIndex.value, 6, 0x40);
            var encodedString :- EncodeString(encodedInteger.buffer, encodedInteger.index, field.value, true);
            EncodedTwice(block, blockIndex, IntegerBytes(tableIndex.value, 6, 0x40), encodedInteger,
                         HuffmanString(field.value).value, encodedString);
            return Ok(encodedString);
          }
        }
      }
      // a literal header field with a new name
      r := EncodeNewName(block, blockIndex, field);
    }

    /**
     * `encodeHeaderBlock`: the fields written one after another into a
     * buffer of `DefaultHeaderSize` octets, which grows as needed, then
     * copied into a buffer of the length written.
     */
    method EncodeHeaderBlock(fields: seq<HeaderField>) returns (r: Result<seq<byte>>)
      ensures r == BlockBytes(dynamicTable, neverIndexTable, fields)
    {
      var block := Zeros(DefaultHeaderSize);
      var blockIndex := 0;
      for k := 0 to |fields|
        invariant BlockBytes(dynamicTable, neverIndexTable, fields[..k]).Ok?
        invariant Encoded(Zeros(DefaultHeaderSize), 0, BlockBytes(dynamicTable, neverIndexTable, fields[..k]).value, EncodedValue(blockIndex, block))
      {
        PrefixSnoc(fields, k);
        BlockBytesSnoc(dynamicTable, neverIndexTable, fields[..k], fields[k]);
        var encoded := EncodeHeaderField(block, blockIndex, fields[k]);
        if encoded.Throw? {
          BlockBytesStops(dynamicTable, neverIndexTable, fields[..k + 1], fields[k + 1..]);
          return Throw(encoded.exception);
        }
        EncodedTwice(Zeros(DefaultHeaderSize), 0, BlockBytes(dynamicTable, neverIndexTable, fields[..k]).value, EncodedValue(blockIndex, block),
                     FieldBytes(dynamicTable, neverIndexTable, fields[k]).value, encoded.value);
        block := encoded.value.buffer;
        blockIndex := encoded.value.index;
      }
      assert fields[..|fields|] == fields;
      CopyIntoZeros(block, 0, blockIndex);
      return Ok(CopyBytes(block, Zeros(blockIndex), 0, 0, blockIndex));
    }

    /** The `maxDynamicTableSizeLimit` setter: the new limit, then a resize. */
    method SetMaxDynamicTableSizeLimit(value: nat)
      modifies this
      ensures State() == Resized(old(State()).(maxDynamicTableSizeLimit := value))
    {
      maxDynamicTableSizeLimit := value;
      ResizeDynamicTable();
    }
  }
}
