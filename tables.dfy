/**
 * The header tables of `Compression` (lib/compression.ts): the static table
 * of Appendix A of RFC 7541, the dynamic table with its size bound and
 * eviction (section 4 of RFC 7541), and the combined index space of section
 * 2.3.3, in which indices 1 to 61 name static entries and the next ones name
 * dynamic entries, newest first.
 */
module HpackTables {
  import opened Http2Errors
  import opened JsRuntime

  /** A header field: a name and a value. */
  datatype HeaderField = HeaderField(name: string, value: string)

  /** `Compression.StaticTable`. */
  const StaticTable: seq<HeaderField> := [
    HeaderField(":authority", ""), HeaderField(":method", "GET"), HeaderField(":method", "POST"),
    HeaderField(":path", "/"), HeaderField(":path", "/index.html"), HeaderField(":scheme", "http"),
    HeaderField(":scheme", "https"), HeaderField(":status", "200"), HeaderField(":status", "204"),
    HeaderField(":status", "206"), HeaderField(":status", "304"), HeaderField(":status", "400"),
    HeaderField(":status", "404"), HeaderField(":status", "500"), HeaderField("accept-charset", ""),
    HeaderField("accept-encoding", "gzip, deflate"), HeaderField("accept-language", ""),
    HeaderField("accept-ranges", ""), HeaderField("accept", ""), HeaderField("access-control-allow-origin", ""),
    HeaderField("age", ""), HeaderField("allow", ""), HeaderField("authorization", ""),
    HeaderField("cache-control", ""), HeaderField("content-disposition", ""), HeaderField("content-encoding", ""),
    HeaderField("content-language", ""), HeaderField("content-length", ""), HeaderField("content-location", ""),
    HeaderField("content-range", ""), HeaderField("content-type", ""), HeaderField("cookie", ""),
    HeaderField("date", ""), HeaderField("etag", ""), HeaderField("expect", ""), HeaderField("expires", ""),
    HeaderField("from", ""), HeaderField("host", ""), HeaderField("if-match", ""),
    HeaderField("if-modified-since", ""), HeaderField("if-none-match", ""), HeaderField("if-range", ""),
    HeaderField("if-unmodified-since", ""), HeaderField("last-modified", ""), HeaderField("link", ""),
    HeaderField("location", ""), HeaderField("max-forwards", ""), HeaderField("proxy-authenticate", ""),
    HeaderField("proxy-authorization", ""), HeaderField("range", ""), HeaderField("referer", ""),
    HeaderField("refresh", ""), HeaderField("retry-after", ""), HeaderField("server", ""),
    HeaderField("set-cookie", ""), HeaderField("strict-transport-security", ""),
    HeaderField("transfer-encoding", ""), HeaderField("user-agent", ""), HeaderField("vary", ""),
    HeaderField("via", ""), HeaderField("www-authenticate", "")
  ]

  function Min(a: int, b: int): int
  {
    if a <= b then a else b
  }

  // ---------------------------------------------------------------- sizes

  /** The size of one entry: its name and value in UTF-8 and 32 octets of overhead. */
  function EntrySize(field: HeaderField): (n: nat)
    ensures n >= 32
  {
    ByteLength(field.name) + ByteLength(field.value) + 32
  }

  /** `getSizeOfDynamicTable`: the sum of the entry sizes; at least 32 per entry. */
  function TableSize(table: seq<HeaderField>): (n: nat)
    ensures n >= 32 * |table|
  {
    if table == [] then 0 else TableSize(table[..|table| - 1]) + EntrySize(table[|table| - 1])
  }

  /** Dropping entries from the end frees at least 32 octets per entry. */
  lemma {:induction false} TableSizePrefix(table: seq<HeaderField>, k: nat)
    requires k <= |table|
    ensures TableSize(table[..k]) + 32 * (|table| - k) <= TableSize(table)
    decreases |table|
  {
    if k < |table| {
      var init := table[..|table| - 1];
      assert init[..k] == table[..k];
      TableSizePrefix(init, k);
    } else {
      assert table[..k] == table;
    }
  }

  /** A new entry at the front adds its size. */
  lemma {:induction false} TableSizeCons(field: HeaderField, table: seq<HeaderField>)
    ensures TableSize([field] + table) == EntrySize(field) + TableSize(table)
    decreases |table|
  {
    if table == [] {
      assert [field] + table == [field];
      assert [field][..0] == [];
    } else {
      var init := table[..|table| - 1];
      assert ([field] + table)[..|table|] == [field] + init;
      assert ([field] + table)[|table|] == table[|table| - 1];
      TableSizeCons(field, init);
    }
  }

  // ---------------------------------------------------------------- eviction

  /**
   * What `resizeDynamicTable` leaves of `table` under `maxSize`.  The code
   * pops the oldest entry while a running size exceeds the maximum, but takes
   * one octet, not the entry's size, off that running size per pop (popping
   * an empty table does nothing): the excess in octets is the number of
   * entries removed, which can remove more entries than needed.
   */
  function Evicted(table: seq<HeaderField>, maxSize: nat): seq<HeaderField>
  {
    if TableSize(table) <= maxSize then table
    else table[..|table| - Min(|table|, TableSize(table) - maxSize)]
  }

  /** After eviction the table fits: each popped entry frees at least the one octet taken off the count. */
  lemma {:induction false} EvictedFits(table: seq<HeaderField>, maxSize: nat)
    ensures TableSize(Evicted(table, maxSize)) <= maxSize
  {
    if TableSize(table) > maxSize {
      var k := |table| - Min(|table|, TableSize(table) - maxSize);
      TableSizePrefix(table, k);
      if k == 0 {
        assert table[..k] == [];
      }
    }
  }

  /** Eviction keeps the newest entries, in order: what is left is a prefix. */
  lemma {:induction false} EvictedPrefix(table: seq<HeaderField>, maxSize: nat)
    ensures |Evicted(table, maxSize)| <= |table|
    ensures Evicted(table, maxSize) == table[..|Evicted(table, maxSize)|]
    ensures TableSize(table) <= maxSize <==> Evicted(table, maxSize) == table
  {
    if TableSize(table) > maxSize {
      var k := |table| - Min(|table|, TableSize(table) - maxSize);
      assert |Evicted(table, maxSize)| == k < |table|;
    }
  }

  /**
   * The over-eviction: two entries of 32 octets under a maximum of 32 are
   * both popped, although the newer one alone would fit.
   */
  lemma {:induction false} EvictionOvershoots()
    ensures Evicted([HeaderField("", ""), HeaderField("", "")], 32) == []
  {
    var t := [HeaderField("", ""), HeaderField("", "")];
    assert t[..1] == [HeaderField("", "")] && t[..1][..0] == [];
    assert TableSize(t) == 64;
  }

  // ---------------------------------------------------------------- compression state

  /** The four fields of `Compression`, as a value. */
  datatype TableState = TableState(dynamicTable: seq<HeaderField>, maxDynamicTableSizeLimit: nat,
                                   maxDynamicTableSize: nat, neverIndexTable: seq<HeaderField>)

  /** The bound resizing re-establishes: the maximum within the limit and the table within the maximum. */
  predicate Bounded(s: TableState)
  {
    s.maxDynamicTableSize <= s.maxDynamicTableSizeLimit && TableSize(s.dynamicTable) <= s.maxDynamicTableSize
  }

  /** `resizeDynamicTable`: the maximum clamped to the limit, then eviction under it. */
  function Resized(s: TableState): (t: TableState)
    ensures Bounded(t)
    ensures t.maxDynamicTableSize == Min(s.maxDynamicTableSize, s.maxDynamicTableSizeLimit)
    ensures t.maxDynamicTableSizeLimit == s.maxDynamicTableSizeLimit && t.neverIndexTable == s.neverIndexTable
  {
    var maxSize := Min(s.maxDynamicTableSize, s.maxDynamicTableSizeLimit);
    EvictedFits(s.dynamicTable, maxSize);
    s.(dynamicTable := Evicted(s.dynamicTable, maxSize), maxDynamicTableSize := maxSize)
  }

  /** `addHeaderFieldToDynamicTable`: the field goes to the front, then the table is resized. */
  function Inserted(s: TableState, field: HeaderField): TableState
  {
    Resized(s.(dynamicTable := [field] + s.dynamicTable))
  }

  /** A field that fits beside the whole table is inserted without evicting anything. */
  lemma {:induction false} InsertedWithoutEviction(s: TableState, field: HeaderField)
    requires Bounded(s) && TableSize(s.dynamicTable) + EntrySize(field) <= s.maxDynamicTableSize
    ensures Inserted(s, field).dynamicTable == [field] + s.dynamicTable
    ensures Inserted(s, field).maxDynamicTableSize == s.maxDynamicTableSize
  {
    TableSizeCons(field, s.dynamicTable);
  }

  // ---------------------------------------------------------------- index space

  /** The number of entries of the static table. */
  lemma {:induction false} StaticTableLength()
    ensures |StaticTable| == 61
  {
  }

  /**
   * `getHeaderFieldForIndex` over a static table `statics`: the static and
   * the dynamic table form one index space starting at 1.
   */
  function IndexedField(statics: seq<HeaderField>, dynamicTable: seq<HeaderField>, index: nat): (r: Result<HeaderField>)
    ensures 1 <= index <= |statics| ==> r == Ok(statics[index - 1])
    ensures |statics| < index <= |statics| + |dynamicTable| ==> r == Ok(dynamicTable[index - |statics| - 1])
    ensures (index == 0 || index > |statics| + |dynamicTable|) ==> r == Raise("Invalid compression index", CompressionError)
  {
    var table := statics + dynamicTable;
    if 1 <= index <= |table| then Ok(table[index - 1]) else Raise("Invalid compression index", CompressionError)
  }

  /** `getHeaderFieldForIndex` of the engine: over the static table of Appendix A of RFC 7541. */
  function FieldForIndex(dynamicTable: seq<HeaderField>, index: nat): Result<HeaderField>
  {
    IndexedField(StaticTable, dynamicTable, index)
  }

  /**
   * Whether `entry` stands for `field` in the search of
   * `getIndexForHeaderField`: the same name and the same value, where in the
   * static table an entry without a value stands for every value.
   */
  predicate Answers(field: HeaderField, entry: HeaderField, inStaticTable: bool)
  {
    field.name == entry.name && (field.value == entry.value || (inStaticTable && entry.value == ""))
  }

  /** The first position from `from` on whose entry answers for `field`. */
  function FirstAnswer(table: seq<HeaderField>, field: HeaderField, inStaticTable: bool, from: nat): (r: Option<nat>)
    requires from <= |table|
    ensures r.Some? ==> from <= r.value < |table| && Answers(field, table[r.value], inStaticTable)
    ensures r.Some? ==> forall j :: from <= j < r.value ==> !Answers(field, table[j], inStaticTable)
    ensures r.None? ==> forall j :: from <= j < |table| ==> !Answers(field, table[j], inStaticTable)
    decreases |table| - from
  {
    if from == |table| then None
    else if Answers(field, table[from], inStaticTable) then Some(from)
    else FirstAnswer(table, field, inStaticTable, from + 1)
  }

  /** `getIndexForHeaderField` over a static table `statics`: that table first, then the dynamic one; `None` for `null`. */
  function FieldIndex(statics: seq<HeaderField>, dynamicTable: seq<HeaderField>, field: HeaderField): Option<nat>
  {
    match FirstAnswer(statics, field, true, 0)
    case Some(i) => Some(i + 1)
    case None =>
      match FirstAnswer(dynamicTable, field, false, 0)
      case Some(i) => Some(i + 1 + |statics|)
      case None => None
  }

  /** `getIndexForHeaderField` of the engine. */
  function IndexForField(dynamicTable: seq<HeaderField>, field: HeaderField): Option<nat>
  {
    FieldIndex(StaticTable, dynamicTable, field)
  }

  /**
   * The index found names, through `getHeaderFieldForIndex`, the first entry
   * of the index space that answers for the field; when none is found, no
   * static entry answers and the field is not in the dynamic table.
   */
  lemma {:induction false} FieldIndexSpec(statics: seq<HeaderField>, dynamicTable: seq<HeaderField>, field: HeaderField)
    ensures FieldIndex(statics, dynamicTable, field).Some? ==>
              var i := FieldIndex(statics, dynamicTable, field).value;
              1 <= i <= |statics| + |dynamicTable| && IndexedField(statics, dynamicTable, i).Ok? &&
              Answers(field, IndexedField(statics, dynamicTable, i).value, i <= |statics|) &&
              forall k :: 1 <= k < i ==> !Answers(field, IndexedField(statics, dynamicTable, k).value, k <= |statics|)
    ensures FieldIndex(statics, dynamicTable, field).None? ==>
              (forall k :: 0 <= k < |statics| ==> !Answers(field, statics[k], true)) && field !in dynamicTable
  {
    var s := FirstAnswer(statics, field, true, 0);
    var d := FirstAnswer(dynamicTable, field, false, 0);
    if s.None? && d.Some? {
      var i := d.value + 1 + |statics|;
      forall k | 1 <= k < i
        ensures !Answers(field, IndexedField(statics, dynamicTable, k).value, k <= |statics|)
      {
        if k > |statics| {
          assert IndexedField(statics, dynamicTable, k).value == dynamicTable[k - |statics| - 1];
        } else {
          assert IndexedField(statics, dynamicTable, k).value == statics[k - 1];
        }
      }
    }
  }
}
