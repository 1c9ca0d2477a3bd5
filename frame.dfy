/**
 * The HTTP/2 frame header (section 4.1 of RFC 7540) and the SETTINGS frame
 * (section 6.5 of RFC 7540) as `Frame` and `SettingsFrame` read them from a
 * buffer and write them back.  The fields of a frame are the class
 * `SettingsFrame`; which bytes a buffer parses to, and which bytes a frame is
 * written as, are the functions `HeaderAt`, `SettingsAt`, `FrameBytes` and
 * `SettingsBytes`, and the methods are proved against them.
 */
module Http2Frame {
  import opened Http2Errors
  import opened JsRuntime

  // ---------------------------------------------------------------- frame types

  /** The members of the `FrameType` enumeration. */
  datatype FrameType =
    | Data
    | Headers
    | Priority
    | RstStream
    | Settings
    | PushPromise
    | Ping
    | GoAway
    | WindowUpdate
    | Continuation

  /** The type octet each member stands for. */
  function FrameTypeCode(t: FrameType): byte
  {
    match t
    case Data => 0x0
    case Headers => 0x1
    case Priority => 0x2
    case RstStream => 0x3
    case Settings => 0x4
    case PushPromise => 0x5
    case Ping => 0x6
    case GoAway => 0x7
    case WindowUpdate => 0x8
    case Continuation => 0x9
  }

  /** The member whose type octet is `code`, if any. */
  function FrameTypeOfCode(code: int): (t: Option<FrameType>)
    ensures t.Some? <==> 0x0 <= code <= 0x9
  {
    match code
    case 0x0 => Some(Data)
    case 0x1 => Some(Headers)
    case 0x2 => Some(Priority)
    case 0x3 => Some(RstStream)
    case 0x4 => Some(Settings)
    case 0x5 => Some(PushPromise)
    case 0x6 => Some(Ping)
    case 0x7 => Some(GoAway)
    case 0x8 => Some(WindowUpdate)
    case 0x9 => Some(Continuation)
    case _ => None
  }

  /** The type octets are 0x0..0x9 and name their members one to one. */
  lemma {:induction false} FrameTypeRoundTrip(t: FrameType, code: int)
    ensures FrameTypeCode(t) <= 0x9 && FrameTypeOfCode(FrameTypeCode(t)) == Some(t)
    ensures FrameTypeOfCode(code).Some? ==> FrameTypeCode(FrameTypeOfCode(code).value) == code
  {
  }

  // ---------------------------------------------------------------- the frame header

  /** `Frame.HeaderSize`: the octets of the frame header. */
  const HeaderSize: nat := 9

  /** The fields `_length`, `_type`, `_flags` and `_streamId` of a `Frame`. */
  datatype FrameHeader = FrameHeader(length: nat, frameType: nat, flags: nat, streamId: nat)

  /** `num` can be written in `octets` octets. */
  predicate FitsIn(num: nat, octets: nat)
  {
    num < Pow2(8 * octets)
  }

  /** The widths the header gives its fields: 3, 1, 1 and 4 octets. */
  predicate HeaderFits(h: FrameHeader)
  {
    FitsIn(h.length, 3) && FitsIn(h.frameType, 1) && FitsIn(h.flags, 1) && FitsIn(h.streamId, 4)
  }

  /**
   * The parsing branch of the `Frame` constructor: the length in octets 0-2,
   * the type in octet 3, the flags in octet 4 and the stream identifier in
   * octets 5-8, all big-endian, the reserved bit included; a `RangeError`
   * when the buffer is shorter than the header.
   */
  function HeaderAt(frameData: seq<byte>): (r: Result<FrameHeader>)
    ensures r.Ok? <==> |frameData| >= HeaderSize
    ensures r.Ok? ==> HeaderFits(r.value)
    ensures r.Ok? ==> BigEndian(r.value.length, 3) == frameData[0..3] && BigEndian(r.value.frameType, 1) == frameData[3..4] &&
                      BigEndian(r.value.flags, 1) == frameData[4..5] && BigEndian(r.value.streamId, 4) == frameData[5..9]
  {
    var length :- ReadUIntBE(frameData, 0, 3);
    var frameType :- ReadUIntBE(frameData, 3, 1);
    var flags :- ReadUIntBE(frameData, 4, 1);
    var streamId :- ReadUIntBE(frameData, 5, 4);
    Ok(FrameHeader(length, frameType, flags, streamId))
  }

  /**
   * What `Frame.getBytes` writes: `length + 9` octets, the length, the type
   * and the flags in octets 0-4, and octets 5-8 zero, since the stream
   * identifier is masked with `0 << 31`, which is 0.
   */
  function FrameBytes(h: FrameHeader): (bytes: seq<byte>)
    ensures |bytes| == h.length + HeaderSize
  {
    BigEndian(h.length, 3) + BigEndian(h.frameType, 1) + BigEndian(h.flags, 1) + BigEndian(0, 4) + Zeros(h.length)
  }

  /** The written header reads back as the frame's length, type and flags, with stream identifier 0. */
  lemma {:induction false} FrameBytesRoundTrip(h: FrameHeader)
    requires HeaderFits(h)
    ensures HeaderAt(FrameBytes(h)) == Ok(h.(streamId := 0))
    ensures FrameBytes(h)[5..9] == [0, 0, 0, 0]
  {
    var bytes := FrameBytes(h);
    HeaderSlices(BigEndian(h.length, 3), BigEndian(h.frameType, 1), BigEndian(h.flags, 1), BigEndian(0, 4), Zeros(h.length));
    ZeroStreamOctets();
    var r := HeaderAt(bytes).value;
    BigEndianInjective(r.length, h.length, 3);
    BigEndianInjective(r.frameType, h.frameType, 1);
    BigEndianInjective(r.flags, h.flags, 1);
    BigEndianInjective(r.streamId, 0, 4);
  }

  /** The four fields of a header written one after another, then the payload. */
  lemma {:induction false} HeaderSlices(a: seq<byte>, b: seq<byte>, c: seq<byte>, d: seq<byte>, z: seq<byte>)
    requires |a| == 3 && |b| == 1 && |c| == 1 && |d| == 4
    ensures (a + b + c + d + z)[0..3] == a && (a + b + c + d + z)[3..4] == b
    ensures (a + b + c + d + z)[4..5] == c && (a + b + c + d + z)[5..9] == d
  {
    var w := a + b + c + d + z;
    assert w[0..3] == a;
    assert w[3..4] == b;
    assert w[4..5] == c;
    assert w[5..9] == d;
  }

  /** Stream identifier 0 is written as four zero octets. */
  lemma {:induction false} ZeroStreamOctets()
    ensures BigEndian(0, 4) == [0, 0, 0, 0]
  {
  }

  /** Numbers of `length` octets are equal when their big-endian bytes are. */
  lemma {:induction false} BigEndianInjective(a: nat, b: nat, length: nat)
    requires a < Pow2(8 * length) && b < Pow2(8 * length) && BigEndian(a, length) == BigEndian(b, length)
    ensures a == b
  {
    BigEndianRoundTrip(a, length);
    BigEndianRoundTrip(b, length);
  }

  // ---------------------------------------------------------------- SETTINGS parameters

  /** The members of `SettingsFrameParameters`: the identifiers of section 6.5.2 of RFC 7540. */
  const HeaderTableSize: nat := 0x1
  const EnablePush: nat := 0x2
  const MaxConcurrentStreams: nat := 0x3
  const InitialWindowSize: nat := 0x4
  const MaxFrameSize: nat := 0x5
  const MaxHeaderListSize: nat := 0x6

  /** `SettingsFrameFlags.Ack`. */
  const Ack: nat := 0x1

  /** `flags & SettingsFrameFlags.Ack` is non-zero. */
  predicate IsAck(flags: nat)
  {
    BitAnd(flags, Ack) != 0
  }

  /** A `SettingsFrameParameterPair`; a `paramValue` of `null` is `None`. */
  datatype ParameterPair = ParameterPair(paramType: nat, paramValue: Option<nat>)

  /** `SettingsFrame.DefaultParametersLength`. */
  const DefaultParametersLength: nat := 30

  /** `SettingsFrame.DefaultParameters`: no limit (`null`) on concurrent streams. */
  const DefaultParameters: seq<ParameterPair> := [
    ParameterPair(HeaderTableSize, Some(4096)),
    ParameterPair(EnablePush, Some(1)),
    ParameterPair(MaxConcurrentStreams, None),
    ParameterPair(InitialWindowSize, Some(65535)),
    ParameterPair(MaxFrameSize, Some(16384)),
    ParameterPair(MaxHeaderListSize, Some(1024))
  ]

  /**
   * The checks of the parsing constructor: ENABLE_PUSH is 0 or 1,
   * INITIAL_WINDOW_SIZE at most 2^31 - 1, MAX_FRAME_SIZE at most 2^24 - 1;
   * every other identifier, known or not, takes any value.
   */
  predicate ValueAllowed(parameter: nat, value: nat)
  {
    if parameter == EnablePush then value == 0 || value == 1
    else if parameter == InitialWindowSize then value <= MaxWindowSize
    else if parameter == MaxFrameSize then value <= MaxFrameSizeLimit
    else true
  }

  /** `Math.pow(2, 31) - 1`, the largest window size. */
  const MaxWindowSize: nat := 0x7FFF_FFFF

  /** `Math.pow(2, 24) - 1`, the largest frame size limit. */
  const MaxFrameSizeLimit: nat := 0xFF_FFFF

  /** The two limits are the powers of two the parsing constructor computes. */
  lemma {:induction false} LimitsArePowers()
    ensures MaxWindowSize == Pow2(31) - 1 && MaxFrameSizeLimit == Pow2(24) - 1
  {
    Pow2Octets();
    assert Pow2(32) == 2 * Pow2(31);
  }

  /** One turn of the loop of the parsing constructor: the six octets at `index` as a pair, or why they are refused. */
  function EntryAt(frameData: seq<byte>, index: nat): (r: Result<ParameterPair>)
    ensures r.Ok? ==> index + 6 <= |frameData| && r.value.paramValue.Some?
    ensures r.Ok? ==> BigEndian(r.value.paramType, 2) == frameData[index..index + 2] &&
                      BigEndian(r.value.paramValue.value, 4) == frameData[index + 2..index + 6]
    ensures r.Ok? ==> FitsIn(r.value.paramType, 2) && FitsIn(r.value.paramValue.value, 4)
    ensures r.Ok? ==> ValueAllowed(r.value.paramType, r.value.paramValue.value)
    ensures index + 6 > |frameData| ==> r == Throw(RangeError)
    ensures index + 6 <= |frameData| && r.Throw? ==> r == Raise("Invalid SETTINGS frame parameter value", ProtocolError)
  {
    var parameter :- ReadUIntBE(frameData, index, 2);
    var value :- ReadUIntBE(frameData, index + 2, 4);
    if !ValueAllowed(parameter, value) then Raise("Invalid SETTINGS frame parameter value", ProtocolError)
    else Ok(ParameterPair(parameter, Some(value)))
  }

  /** The loop of the parsing constructor from `index` on, with `parameters` pushed so far. */
  function EntriesFrom(frameData: seq<byte>, index: nat, length: nat, parameters: seq<ParameterPair>): Result<seq<ParameterPair>>
    decreases length - index
  {
    if index >= length then Ok(parameters)
    else
      var entry :- EntryAt(frameData, index);
      EntriesFrom(frameData, index + 6, length, parameters + [entry])
  }

  /** How many turns the loop `while (index < length) { ...; index += 6; }` takes from `index`. */
  function Turns(index: nat, length: nat): nat
    decreases length - index
  {
    if index >= length then 0 else 1 + Turns(index + 6, length)
  }

  /**
   * Since the loop starts at the absolute offset 9 but stops at the payload
   * length, a payload of `m` six-octet entries gives `m - 1` turns (none for
   * an empty payload).
   */
  lemma {:induction false} TurnsOfPayload(m: nat)
    ensures Turns(HeaderSize, 6 * m) == if m == 0 then 0 else m - 1
  {
    if m > 0 {
      TurnsFrom(m, 0);
    }
  }

  lemma {:induction false} TurnsFrom(m: nat, j: nat)
    requires j <= m - 1
    ensures Turns(HeaderSize + 6 * j, 6 * m) == m - 1 - j
    decreases m - j
  {
    if j < m - 1 {
      TurnsFrom(m, j + 1);
    }
  }

  /** A loop that succeeds has pushed one pair per turn after the pairs it started with. */
  lemma {:induction false} EntriesFromLength(frameData: seq<byte>, index: nat, length: nat, parameters: seq<ParameterPair>)
    requires EntriesFrom(frameData, index, length, parameters).Ok?
    ensures var r := EntriesFrom(frameData, index, length, parameters).value;
            |r| == |parameters| + Turns(index, length) && r[..|parameters|] == parameters
    decreases length - index
  {
    if index < length {
      var more := parameters + [EntryAt(frameData, index).value];
      EntriesFromLength(frameData, index + 6, length, more);
      var r := EntriesFrom(frameData, index, length, parameters).value;
      assert r[..|parameters|] == r[..|more|][..|parameters|] == more[..|parameters|];
    }
  }

  /** The pair a successful loop pushed on turn `k` is the entry at `at == index + 6k`, which was accepted. */
  lemma {:induction false} EntriesFromTurn(frameData: seq<byte>, index: nat, length: nat, parameters: seq<ParameterPair>, k: nat, at: nat)
    requires EntriesFrom(frameData, index, length, parameters).Ok? && k < Turns(index, length) && at == index + 6 * k
    ensures EntryAt(frameData, at).Ok? &&
            |parameters| + k < |EntriesFrom(frameData, index, length, parameters).value| &&
            EntriesFrom(frameData, index, length, parameters).value[|parameters| + k] == EntryAt(frameData, at).value
    decreases k
  {
    var entry := EntryAt(frameData, index).value;
    var more := parameters + [entry];
    var r := EntriesFrom(frameData, index, length, parameters).value;
    assert r == EntriesFrom(frameData, index + 6, length, more).value;
    EntriesFromLength(frameData, index + 6, length, more);
    if k == 0 {
      assert r[|parameters|] == r[..|more|][|parameters|] == entry;
    } else {
      EntriesFromTurn(frameData, index + 6, length, more, k - 1, at);
    }
  }

  /** A loop that fails met an entry, on some turn `k`, at `at == index + 6k`, that was refused. */
  lemma {:induction false} EntriesFromRefused(frameData: seq<byte>, index: nat, length: nat, parameters: seq<ParameterPair>)
    returns (k: nat, at: nat)
    requires EntriesFrom(frameData, index, length, parameters).Throw?
    ensures k < Turns(index, length) && at == index + 6 * k && EntryAt(frameData, at).Throw?
    decreases length - index
  {
    if EntryAt(frameData, index).Ok? {
      var k', at' := EntriesFromRefused(frameData, index + 6, length, parameters + [EntryAt(frameData, index).value]);
      k, at := k' + 1, at';
    } else {
      k, at := 0, index;
    }
  }

  /** The loop succeeds exactly when every entry it meets is accepted. */
  lemma {:induction false} EntriesFromAllOk(frameData: seq<byte>, index: nat, length: nat, parameters: seq<ParameterPair>)
    ensures EntriesFrom(frameData, index, length, parameters).Ok? <==>
              forall k :: 0 <= k < Turns(index, length) ==> EntryAt(frameData, index + 6 * k).Ok?
  {
    if EntriesFrom(frameData, index, length, parameters).Ok? {
      forall k | 0 <= k < Turns(index, length)
        ensures EntryAt(frameData, index + 6 * k).Ok?
      {
        EntriesFromTurn(frameData, index, length, parameters, k, index + 6 * k);
      }
    } else {
      var k, at := EntriesFromRefused(frameData, index, length, parameters);
      assert !EntryAt(frameData, index + 6 * k).Ok?;
    }
  }

  /** A loop that fails throws a `RangeError` for a short buffer, or a `PROTOCOL_ERROR` for a refused value. */
  lemma {:induction false} EntriesFromThrows(frameData: seq<byte>, index: nat, length: nat, parameters: seq<ParameterPair>)
    requires EntriesFrom(frameData, index, length, parameters).Throw?
    ensures EntriesFrom(frameData, index, length, parameters) == Throw(RangeError) ||
            EntriesFrom(frameData, index, length, parameters) == Raise("Invalid SETTINGS frame parameter value", ProtocolError)
    decreases length - index
  {
    var entry := EntryAt(frameData, index);
    if entry.Ok? {
      EntriesFromThrows(frameData, index + 6, length, parameters + [entry.value]);
    }
  }

  /** The fields of a `SettingsFrame`; `parameters` is `None` while `_parameters` is `undefined`. */
  datatype SettingsFrameState = SettingsFrameState(header: FrameHeader, parameters: Option<seq<ParameterPair>>)

  /** A pair whose identifier fits 16 bits and whose value fits 32 bits. */
  predicate PairFits(pair: ParameterPair)
  {
    FitsIn(pair.paramType, 2) && FitsIn(WireValue(pair.paramValue), 4)
  }

  /** Every field fits the octets the wire gives it. */
  predicate StateFits(s: SettingsFrameState)
  {
    HeaderFits(s.header) && (s.parameters.Some? ==> forall i :: 0 <= i < |s.parameters.value| ==> PairFits(s.parameters.value[i]))
  }

  /**
   * The parsing branch of the `SettingsFrame` constructor: the header,
   * then, in this order, a `PROTOCOL_ERROR` for a non-zero stream
   * identifier, a `FRAME_SIZE_ERROR` for a length that is not a multiple of
   * 6, a `FRAME_SIZE_ERROR` for an ACK with a payload, and then the pairs
   * of the loop.
   */
  function SettingsAt(frameData: seq<byte>): Result<SettingsFrameState>
  {
    var header :- HeaderAt(frameData);
    SettingsOfHeader(frameData, header)
  }

  /** The checks of the parsing constructor once `header` has been read from `frameData`. */
  function SettingsOfHeader(frameData: seq<byte>, header: FrameHeader): Result<SettingsFrameState>
  {
    if header.streamId != 0 then Raise("Invalid SETTINGS frame stream type", ProtocolError)
    else if header.length % 6 != 0 then Raise("Invalid SETTINGS frame size", FrameSizeError)
    else if IsAck(header.flags) && header.length != 0 then Raise("Invalid SETTINGS frame size", FrameSizeError)
    else
      var parameters :- EntriesFrom(frameData, HeaderSize, header.length, []);
      Ok(SettingsFrameState(header, Some(parameters)))
  }

  /** The checks of the header come first, in their order, and each one that fails decides the error. */
  lemma {:induction false} SettingsErrors(frameData: seq<byte>)
    ensures |frameData| < HeaderSize ==> SettingsAt(frameData) == Throw(RangeError)
    ensures HeaderAt(frameData).Ok? && HeaderAt(frameData).value.streamId != 0 ==>
              Raised(SettingsAt(frameData), ProtocolError)
    ensures HeaderAt(frameData).Ok? && HeaderAt(frameData).value.streamId == 0 && HeaderAt(frameData).value.length % 6 != 0 ==>
              Raised(SettingsAt(frameData), FrameSizeError)
    ensures HeaderAt(frameData).Ok? && HeaderAt(frameData).value.streamId == 0 && IsAck(HeaderAt(frameData).value.flags) &&
            HeaderAt(frameData).value.length != 0 ==>
              Raised(SettingsAt(frameData), FrameSizeError)
    ensures SettingsAt(frameData).Throw? ==>
              SettingsAt(frameData) == Throw(RangeError) || Raised(SettingsAt(frameData), ProtocolError) ||
              Raised(SettingsAt(frameData), FrameSizeError)
    ensures SettingsAt(frameData).Ok? ==> frameData[5..9] == [0, 0, 0, 0]
  {
    if HeaderAt(frameData).Ok? {
      PayloadErrors(frameData, HeaderAt(frameData).value);
      ZeroStreamOctets();
    }
  }

  /** `SettingsErrors` once the header has been read. */
  lemma {:induction false} PayloadErrors(frameData: seq<byte>, h: FrameHeader)
    ensures h.streamId != 0 ==> Raised(SettingsOfHeader(frameData, h), ProtocolError)
    ensures h.streamId == 0 && h.length % 6 != 0 ==> Raised(SettingsOfHeader(frameData, h), FrameSizeError)
    ensures h.streamId == 0 && IsAck(h.flags) && h.length != 0 ==> Raised(SettingsOfHeader(frameData, h), FrameSizeError)
    ensures SettingsOfHeader(frameData, h).Throw? ==>
              SettingsOfHeader(frameData, h) == Throw(RangeError) || Raised(SettingsOfHeader(frameData, h), ProtocolError) ||
              Raised(SettingsOfHeader(frameData, h), FrameSizeError)
    ensures SettingsOfHeader(frameData, h).Ok? ==> h.streamId == 0
  {
    if h.streamId == 0 && h.length % 6 == 0 && !(IsAck(h.flags) && h.length != 0) {
      if EntriesFrom(frameData, HeaderSize, h.length, []).Throw? {
        EntriesFromThrows(frameData, HeaderSize, h.length, []);
      }
    }
  }

  /**
   * A SETTINGS frame parses exactly when its header does, its stream
   * identifier is 0, its length is a multiple of 6 (and 0 for an ACK), and
   * every entry the loop meets is accepted; a payload of `m` entries then
   * gives `m - 1` pairs (none when it is empty), the pair `k` being octets
   * `9 + 6k` to `14 + 6k` of the buffer.
   */
  lemma {:induction false} SettingsEntries(frameData: seq<byte>)
    ensures SettingsAt(frameData).Ok? <==>
              HeaderAt(frameData).Ok? && HeaderAt(frameData).value.streamId == 0 && HeaderAt(frameData).value.length % 6 == 0 &&
              (IsAck(HeaderAt(frameData).value.flags) ==> HeaderAt(frameData).value.length == 0) &&
              forall k :: 0 <= k < Turns(HeaderSize, HeaderAt(frameData).value.length) ==> EntryAt(frameData, HeaderSize + 6 * k).Ok?
    ensures SettingsAt(frameData).Ok? ==>
              var s := SettingsAt(frameData).value;
              var m := s.header.length / 6;
              s.header == HeaderAt(frameData).value && s.parameters.Some? &&
              |s.parameters.value| == (if m == 0 then 0 else m - 1) &&
              forall k :: 0 <= k < |s.parameters.value| ==>
                EntryAt(frameData, HeaderSize + 6 * k).Ok? && s.parameters.value[k] == EntryAt(frameData, HeaderSize + 6 * k).value
  {
    if HeaderAt(frameData).Ok? {
      PayloadAccepted(frameData, HeaderAt(frameData).value);
      if SettingsAt(frameData).Ok? {
        PayloadEntries(frameData, HeaderAt(frameData).value);
      }
    }
  }

  /** The first half of `SettingsEntries` once the header has been read. */
  lemma {:induction false} PayloadAccepted(frameData: seq<byte>, h: FrameHeader)
    ensures SettingsOfHeader(frameData, h).Ok? <==>
              h.streamId == 0 && h.length % 6 == 0 && (IsAck(h.flags) ==> h.length == 0) &&
              forall k :: 0 <= k < Turns(HeaderSize, h.length) ==> EntryAt(frameData, HeaderSize + 6 * k).Ok?
  {
    if h.streamId == 0 && h.length % 6 == 0 && !(IsAck(h.flags) && h.length != 0) {
      EntriesFromAllOk(frameData, HeaderSize, h.length, []);
    }
  }

  /** The second half of `SettingsEntries` once the header has been read. */
  lemma {:induction false} PayloadEntries(frameData: seq<byte>, h: FrameHeader)
    requires SettingsOfHeader(frameData, h).Ok?
    ensures var s := SettingsOfHeader(frameData, h).value;
            var m := h.length / 6;
            s.header == h && s.parameters.Some? &&
            |s.parameters.value| == (if m == 0 then 0 else m - 1) &&
            forall k :: 0 <= k < |s.parameters.value| ==>
              EntryAt(frameData, HeaderSize + 6 * k).Ok? && s.parameters.value[k] == EntryAt(frameData, HeaderSize + 6 * k).value
  {
    var entries := EntriesFrom(frameData, HeaderSize, h.length, []).value;
    EntriesFromLength(frameData, HeaderSize, h.length, []);
    forall k | 0 <= k < |entries|
      ensures EntryAt(frameData, HeaderSize + 6 * k).Ok? && entries[k] == EntryAt(frameData, HeaderSize + 6 * k).value
    {
      EntriesFromTurn(frameData, HeaderSize, h.length, [], k, HeaderSize + 6 * k);
    }
    TurnsOfPayload(h.length / 6);
    assert 6 * (h.length / 6) == h.length;
  }

  /** Whatever it parses fits the wire widths, and a frame with pairs is at least 12 octets long. */
  lemma {:induction false} SettingsAtFits(frameData: seq<byte>)
    requires SettingsAt(frameData).Ok?
    ensures StateFits(SettingsAt(frameData).value)
    ensures |SettingsAt(frameData).value.parameters.value| > 0 ==> SettingsAt(frameData).value.header.length >= 12
  {
    PayloadFits(frameData, HeaderAt(frameData).value);
  }

  /** `SettingsAtFits` once the header has been read. */
  lemma {:induction false} PayloadFits(frameData: seq<byte>, h: FrameHeader)
    requires HeaderFits(h) && SettingsOfHeader(frameData, h).Ok?
    ensures StateFits(SettingsOfHeader(frameData, h).value)
    ensures |SettingsOfHeader(frameData, h).value.parameters.value| > 0 ==> h.length >= 12
  {
    PayloadEntries(frameData, h);
    var ps := SettingsOfHeader(frameData, h).value.parameters.value;
    forall i | 0 <= i < |ps|
      ensures PairFits(ps[i])
    {
      assert EntryAt(frameData, HeaderSize + 6 * i).Ok?;
    }
  }

  // ---------------------------------------------------------------- lookups, writing

  /** The value of the first pair with identifier `parameter` (itself `None` for `null`), if there is one. */
  function Lookup(pairs: seq<ParameterPair>, parameter: nat): Option<Option<nat>>
  {
    if pairs == [] then None
    else if pairs[0].paramType == parameter then Some(pairs[0].paramValue)
    else Lookup(pairs[1..], parameter)
  }

  /** `Lookup` finds the first pair with the identifier, and finds nothing when none has it. */
  lemma {:induction false} LookupFirst(pairs: seq<ParameterPair>, parameter: nat)
    ensures Lookup(pairs, parameter).None? <==> forall i :: 0 <= i < |pairs| ==> pairs[i].paramType != parameter
    ensures forall i :: 0 <= i < |pairs| && pairs[i].paramType == parameter && (forall j :: 0 <= j < i ==> pairs[j].paramType != parameter) ==>
              Lookup(pairs, parameter) == Some(pairs[i].paramValue)
  {
    if pairs != [] && pairs[0].paramType != parameter {
      var tail := pairs[1..];
      LookupFirst(tail, parameter);
      forall i | 0 <= i < |pairs| && pairs[i].paramType == parameter && (forall j :: 0 <= j < i ==> pairs[j].paramType != parameter)
        ensures Lookup(pairs, parameter) == Some(pairs[i].paramValue)
      {
        assert pairs[i] == tail[i - 1];
        forall j | 0 <= j < i - 1
          ensures tail[j].paramType != parameter
        {
          assert tail[j] == pairs[j + 1];
        }
      }
      if forall i :: 0 <= i < |tail| ==> tail[i].paramType != parameter {
        forall i | 0 <= i < |pairs|
          ensures pairs[i].paramType != parameter
        {
          if i > 0 {
            assert pairs[i] == tail[i - 1];
          }
        }
      } else {
        var i :| 0 <= i < |tail| && tail[i].paramType == parameter;
        assert pairs[i + 1] == tail[i];
      }
    }
  }

  /**
   * What `getValue(parameter)` returns: the value of the frame's first pair
   * with that identifier, else that of the defaults, else `null`; a
   * `TypeError` while `_parameters` is `undefined`.
   */
  function ValueFor(parameters: Option<seq<ParameterPair>>, parameter: nat): Result<Option<nat>>
  {
    if parameters.None? then Throw(TypeError)
    else
      match Lookup(parameters.value, parameter)
      case Some(value) => Ok(value)
      case None =>
        match Lookup(DefaultParameters, parameter)
        case Some(value) => Ok(value)
        case None => Ok(None)
  }

  /**
   * The defaults a frame without pairs answers with: 4096, 1, no limit, 65535,
   * 16384 and 1024 for the identifiers 1 to 6, `null` for any other.
   */
  lemma {:induction false} DefaultValues(parameter: nat)
    ensures ValueFor(Some([]), HeaderTableSize) == Ok(Some(4096))
    ensures ValueFor(Some([]), EnablePush) == Ok(Some(1))
    ensures ValueFor(Some([]), MaxConcurrentStreams) == Ok(None)
    ensures ValueFor(Some([]), InitialWindowSize) == Ok(Some(65535))
    ensures ValueFor(Some([]), MaxFrameSize) == Ok(Some(16384))
    ensures ValueFor(Some([]), MaxHeaderListSize) == Ok(Some(1024))
    ensures !(1 <= parameter <= 6) ==> ValueFor(Some([]), parameter) == Ok(None)
  {
    LookupFirst(DefaultParameters, HeaderTableSize);
    LookupFirst(DefaultParameters, EnablePush);
    LookupFirst(DefaultParameters, MaxConcurrentStreams);
    LookupFirst(DefaultParameters, InitialWindowSize);
    assert DefaultParameters[3].paramType == InitialWindowSize && forall j :: 0 <= j < 3 ==> DefaultParameters[j].paramType != InitialWindowSize;
    LookupFirst(DefaultParameters, MaxFrameSize);
    assert DefaultParameters[4].paramType == MaxFrameSize && forall j :: 0 <= j < 4 ==> DefaultParameters[j].paramType != MaxFrameSize;
    LookupFirst(DefaultParameters, MaxHeaderListSize);
    assert DefaultParameters[5].paramType == MaxHeaderListSize && forall j :: 0 <= j < 5 ==> DefaultParameters[j].paramType != MaxHeaderListSize;
    LookupFirst(DefaultParameters, parameter);
  }

  /**
   * The first of a frame's own pairs with the identifier decides the value;
   * without one the default does; and with the default pairs as its own
   * every answer is the default.
   */
  lemma {:induction false} ValueForOwnFirst(pairs: seq<ParameterPair>, parameter: nat)
    ensures forall i :: 0 <= i < |pairs| && pairs[i].paramType == parameter && (forall j :: 0 <= j < i ==> pairs[j].paramType != parameter) ==>
              ValueFor(Some(pairs), parameter) == Ok(pairs[i].paramValue)
    ensures (forall i :: 0 <= i < |pairs| ==> pairs[i].paramType != parameter) ==> ValueFor(Some(pairs), parameter) == ValueFor(Some([]), parameter)
    ensures ValueFor(Some(DefaultParameters), parameter) == ValueFor(Some([]), parameter)
  {
    LookupFirst(pairs, parameter);
    LookupFirst(DefaultParameters, parameter);
  }

  /** The octets one pair is written as: the identifier in 2 octets, the value (0 for `null`) in 4. */
  function EntryBytes(pair: ParameterPair): seq<byte>
    requires PairFits(pair)
  {
    BigEndian(pair.paramType, 2) + BigEndian(WireValue(pair.paramValue), 4)
  }

  /** `writeUIntBE` converts `null` to the number 0. */
  function WireValue(value: Option<nat>): nat
  {
    if value.None? then 0 else value.value
  }

  /** One turn of the loop of `SettingsFrame.getBytes`: the pair written at offset 9. */
  function EntryWritten(buffer: seq<byte>, pair: ParameterPair): Result<seq<byte>>
    requires PairFits(pair)
  {
    var withType :- WriteUIntBE(buffer, pair.paramType, HeaderSize, 2);
    WriteUIntBE(withType, WireValue(pair.paramValue), HeaderSize + 2, 4)
  }

  /** A pair written at offset 9 replaces octets 9-14 and nothing else; a shorter buffer gives a `RangeError`. */
  lemma {:induction false} EntryWrittenAt(buffer: seq<byte>, pair: ParameterPair)
    requires PairFits(pair)
    ensures |buffer| < HeaderSize + 6 ==> EntryWritten(buffer, pair) == Throw(RangeError)
    ensures |buffer| >= HeaderSize + 6 ==> EntryWritten(buffer, pair) == Ok(buffer[..HeaderSize] + EntryBytes(pair) + buffer[HeaderSize + 6..])
  {
    if |buffer| >= HeaderSize + 6 {
      var idBytes, valueBytes := BigEndian(pair.paramType, 2), BigEndian(WireValue(pair.paramValue), 4);
      WriteUIntBESplice(buffer, pair.paramType, HeaderSize, 2);
      var withType := buffer[..HeaderSize] + idBytes + buffer[HeaderSize + 2..];
      assert withType[..HeaderSize + 2] == buffer[..HeaderSize] + idBytes;
      assert withType[HeaderSize + 6..] == buffer[HeaderSize + 6..];
      WriteUIntBESplice(withType, WireValue(pair.paramValue), HeaderSize + 2, 4);
      assert buffer[..HeaderSize] + idBytes + valueBytes + buffer[HeaderSize + 6..] == buffer[..HeaderSize] + EntryBytes(pair) + buffer[HeaderSize + 6..];
    }
  }

  /** The loop of `SettingsFrame.getBytes` after it wrote `pairs`, each of them at offset 9, since `index` never moves. */
  function EntriesWritten(buffer: seq<byte>, pairs: seq<ParameterPair>): Result<seq<byte>>
    requires forall i :: 0 <= i < |pairs| ==> PairFits(pairs[i])
    decreases |pairs|
  {
    if pairs == [] then Ok(buffer)
    else
      var written :- EntriesWritten(buffer, pairs[..|pairs| - 1]);
      EntryWritten(written, pairs[|pairs| - 1])
  }

  /**
   * Each pair overwrites the one before: the buffer ends up holding the
   * last pair in octets 9-14 and is otherwise unchanged; a buffer too short
   * for them gives a `RangeError`.
   */
  lemma {:induction false} LastEntryWins(buffer: seq<byte>, pairs: seq<ParameterPair>)
    requires forall i :: 0 <= i < |pairs| ==> PairFits(pairs[i])
    requires pairs != []
    ensures |buffer| < HeaderSize + 6 ==> EntriesWritten(buffer, pairs) == Throw(RangeError)
    ensures |buffer| >= HeaderSize + 6 ==>
              EntriesWritten(buffer, pairs) == Ok(buffer[..HeaderSize] + EntryBytes(pairs[|pairs| - 1]) + buffer[HeaderSize + 6..])
    decreases |pairs|
  {
    var init, last := pairs[..|pairs| - 1], pairs[|pairs| - 1];
    assert forall i :: 0 <= i < |init| ==> init[i] == pairs[i];
    if init == [] {
      EntryWrittenAt(buffer, last);
    } else {
      LastEntryWins(buffer, init);
      if |buffer| >= HeaderSize + 6 {
        var written := buffer[..HeaderSize] + EntryBytes(init[|init| - 1]) + buffer[HeaderSize + 6..];
        assert written[..HeaderSize] == buffer[..HeaderSize] && written[HeaderSize + 6..] == buffer[HeaderSize + 6..];
        EntryWrittenAt(written, last);
      }
    }
  }

  /**
   * What `SettingsFrame.getBytes` returns: the header `Frame.getBytes`
   * writes, then, unless the frame is an ACK, the pairs written over one
   * another at offset 9; a `TypeError` while `_parameters` is `undefined`.
   */
  function SettingsBytes(s: SettingsFrameState): Result<seq<byte>>
    requires StateFits(s)
  {
    var buffer := FrameBytes(s.header);
    if IsAck(s.header.flags) then Ok(buffer)
    else if s.parameters.None? then Throw(TypeError)
    else EntriesWritten(buffer, s.parameters.value)
  }

  /**
   * The bytes of a frame: for an ACK or a frame without pairs, the header and
   * `length` zeros; otherwise the header, the last pair and `length - 6`
   * zeros; a `RangeError` when the last pair does not fit in the length.
   */
  lemma {:induction false} SettingsBytesLayout(s: SettingsFrameState)
    requires StateFits(s)
    ensures IsAck(s.header.flags) || s.parameters == Some([]) ==> SettingsBytes(s) == Ok(FrameBytes(s.header))
    ensures !IsAck(s.header.flags) && s.parameters.Some? && s.parameters.value != [] ==>
              if s.header.length < 6 then SettingsBytes(s) == Throw(RangeError)
              else SettingsBytes(s) == Ok(FrameBytes(s.header)[..HeaderSize] + EntryBytes(s.parameters.value[|s.parameters.value| - 1]) +
                                          Zeros(s.header.length - 6))
  {
    var buffer := FrameBytes(s.header);
    if !IsAck(s.header.flags) && s.parameters.Some? && s.parameters.value != [] {
      LastEntryWins(buffer, s.parameters.value);
      if s.header.length >= 6 {
        var zeros := Zeros(s.header.length);
        ZerosSplit(6, s.header.length - 6);
        assert buffer[HeaderSize + 6..] == zeros[6..];
      }
    }
  }

  /** The frame `new SettingsFrame(undefined, ack)` builds: length 30, type SETTINGS, the ACK flag if asked for, stream 0, no pairs yet. */
  function LocalState(ack: bool): (s: SettingsFrameState)
    ensures StateFits(s)
  {
    assert Pow2(8) == 256;
    SettingsFrameState(FrameHeader(DefaultParametersLength, FrameTypeCode(Settings), if ack then Ack else 0, 0), None)
  }

  /**
   * The state `setDefaults` leaves: the default pairs and their length 30.
   * Afterwards every lookup gives the default, and a frame that is not an
   * ACK is written with the last default pair, MAX_HEADER_LIST_SIZE 1024.
   */
  function WithDefaults(s: SettingsFrameState): (r: SettingsFrameState)
    requires StateFits(s)
    ensures StateFits(r) && r.header.length == DefaultParametersLength
    ensures forall parameter: nat :: ValueFor(r.parameters, parameter) == ValueFor(Some([]), parameter)
  {
    Pow2Octets();
    forall parameter: nat
      ensures ValueFor(Some(DefaultParameters), parameter) == ValueFor(Some([]), parameter)
    {
      ValueForOwnFirst([], parameter);
    }
    s.(header := s.header.(length := DefaultParametersLength), parameters := Some(DefaultParameters))
  }

  /** A local frame after `setDefaults`, not an ACK, is written as its header, the pair (6, 1024) and 24 zeros. */
  lemma {:induction false} DefaultFrameBytes()
    ensures SettingsBytes(WithDefaults(LocalState(false))) ==
              Ok([0, 0, 30, 4, 0, 0, 0, 0, 0] + [0, 6, 0, 0, 4, 0] + Zeros(24))
  {
    var h := FrameHeader(DefaultParametersLength, FrameTypeCode(Settings), 0, 0);
    var s := WithDefaults(LocalState(false));
    assert s == SettingsFrameState(h, Some(DefaultParameters));
    BitAndZero(Ack);
    assert BitAnd(0, Ack) == 0;
    SettingsBytesLayout(s);
    FrameBytesPrefix(h);
    DefaultHeaderOctets();
    DefaultPairOctets();
  }

  /** The octets of a local frame's header: length 30, type SETTINGS, no flags, stream 0. */
  lemma {:induction false} DefaultHeaderOctets()
    ensures BigEndian(30, 3) + BigEndian(4, 1) + BigEndian(0, 1) + BigEndian(0, 4) == [0, 0, 30, 4, 0, 0, 0, 0, 0]
  {
    assert BigEndian(30, 3) == [0, 0, 30];
    assert BigEndian(0, 4) == [0, 0, 0, 0];
  }

  /** The octets of the pair MAX_HEADER_LIST_SIZE 1024. */
  lemma {:induction false} DefaultPairOctets()
    ensures PairFits(ParameterPair(MaxHeaderListSize, Some(1024)))
    ensures EntryBytes(ParameterPair(MaxHeaderListSize, Some(1024))) == [0, 6, 0, 0, 4, 0]
  {
    Pow2Octets();
    assert BigEndian(6, 2) == [0, 6];
    assert BigEndian(1024, 4) == [0, 0, 4, 0];
  }

  /** The first nine octets `Frame.getBytes` writes are the header fields. */
  lemma {:induction false} FrameBytesPrefix(h: FrameHeader)
    ensures FrameBytes(h)[..HeaderSize] == BigEndian(h.length, 3) + BigEndian(h.frameType, 1) + BigEndian(h.flags, 1) + BigEndian(0, 4)
  {
    var a, b, c, d := BigEndian(h.length, 3), BigEndian(h.frameType, 1), BigEndian(h.flags, 1), BigEndian(0, 4);
    assert FrameBytes(h) == (a + b + c + d) + Zeros(h.length);
  }

  /** The four writes of `Frame.getBytes` into a zeroed buffer, one at a time. */
  lemma {:induction false} HeaderWrites(length: nat, frameType: nat, flags: nat, streamId: nat)
    requires FitsIn(length, 3) && FitsIn(frameType, 1) && FitsIn(flags, 1)
    ensures WriteUIntBE(Zeros(length + HeaderSize), length, 0, 3) == Ok(BigEndian(length, 3) + Zeros(length + 6))
    ensures WriteUIntBE(BigEndian(length, 3) + Zeros(length + 6), frameType, 3, 1) ==
              Ok(BigEndian(length, 3) + BigEndian(frameType, 1) + Zeros(length + 5))
    ensures WriteUIntBE(BigEndian(length, 3) + BigEndian(frameType, 1) + Zeros(length + 5), flags, 4, 1) ==
              Ok(BigEndian(length, 3) + BigEndian(frameType, 1) + BigEndian(flags, 1) + Zeros(length + 4))
    ensures WriteUIntBE(BigEndian(length, 3) + BigEndian(frameType, 1) + BigEndian(flags, 1) + Zeros(length + 4), 0, 5, 4) ==
              Ok(FrameBytes(FrameHeader(length, frameType, flags, streamId)))
  {
    var a, b, c := BigEndian(length, 3), BigEndian(frameType, 1), BigEndian(flags, 1);
    WriteIntoZeros([], length, 3, length + HeaderSize);
    assert [] + Zeros(length + HeaderSize) == Zeros(length + HeaderSize) && [] + a == a;
    WriteIntoZeros(a, frameType, 1, length + 6);
    WriteIntoZeros(a + b, flags, 1, length + 5);
    assert Pow2(8 * 4) > 0;
    WriteIntoZeros(a + b + c, 0, 4, length + 4);
  }

  // ---------------------------------------------------------------- the frame object

  /** A `SettingsFrame`: the four fields it inherits from `Frame`, and `_parameters`. */
  class SettingsFrame {
    var length: nat
    var frameType: nat
    var flags: nat
    var streamId: nat
    var parameters: Option<seq<ParameterPair>>

    function State(): SettingsFrameState
      reads this
    {
      SettingsFrameState(FrameHeader(length, frameType, flags, streamId), parameters)
    }

    /** Every field fits the octets it is written to. */
    predicate Valid()
      reads this
    {
      StateFits(State())
    }

    /** `new SettingsFrame(undefined, ack)`. */
    constructor Local(ack: bool)
      ensures State() == LocalState(ack) && Valid()
    {
      length := DefaultParametersLength;
      frameType := FrameTypeCode(Settings);
      flags := if ack then Ack else 0;
      streamId := 0;
      parameters := None;
    }

    /** The object the parsing constructor fills in. */
    constructor Parsed(s: SettingsFrameState)
      requires StateFits(s)
      ensures State() == s && Valid()
    {
      length := s.header.length;
      frameType := s.header.frameType;
      flags := s.header.flags;
      streamId := s.header.streamId;
      parameters := s.parameters;
    }

    /**
     * `new SettingsFrame(frameData)`: the header, then the checks and the
     * pairs of `ParsePayload`.
     */
    static method Parse(frameData: seq<byte>) returns (r: Result<SettingsFrame>)
      ensures r.Ok? <==> SettingsAt(frameData).Ok?
      ensures r.Throw? ==> r.exception == SettingsAt(frameData).exception
      ensures r.Ok? ==> fresh(r.value) && r.value.State() == SettingsAt(frameData).value && r.value.Valid()
    {
      var header :- HeaderAt(frameData);
      var s :- ParsePayload(frameData, header);
      PayloadFits(frameData, header);
      var frame := new SettingsFrame.Parsed(s);
      return Ok(frame);
    }

    /** The checks of the parsing constructor in their order, then its loop. */
    static method ParsePayload(frameData: seq<byte>, header: FrameHeader) returns (r: Result<SettingsFrameState>)
      ensures r == SettingsOfHeader(frameData, header)
    {
      if header.streamId != 0 {
        return Raise("Invalid SETTINGS frame stream type", ProtocolError);
      }
      if header.length % 6 != 0 {
        return Raise("Invalid SETTINGS frame size", FrameSizeError);
      }
      if IsAck(header.flags) && header.length != 0 {
        return Raise("Invalid SETTINGS frame size", FrameSizeError);
      }
      var parameters :- ReadEntries(frameData, header.length);
      return Ok(SettingsFrameState(header, Some(parameters)));
    }

    /** The loop of the parsing constructor: a pair every six octets from offset 9 while the offset is below `length`. */
    static method ReadEntries(frameData: seq<byte>, length: nat) returns (r: Result<seq<ParameterPair>>)
      ensures r == EntriesFrom(frameData, HeaderSize, length, [])
    {
      var parameters: seq<ParameterPair> := [];
      var index := HeaderSize;
      while index < length
        invariant EntriesFrom(frameData, index, length, parameters) == EntriesFrom(frameData, HeaderSize, length, [])
        decreases length - index
      {
        var entry :- ReadEntry(frameData, index);
        parameters := parameters + [entry];
        index := index + 6;
      }
      return Ok(parameters);
    }

    /** One turn of the loop of the parsing constructor: read a pair at `index` and check its value. */
    static method ReadEntry(frameData: seq<byte>, index: nat) returns (r: Result<ParameterPair>)
      ensures r == EntryAt(frameData, index)
    {
      var parameter :- ReadUIntBE(frameData, index, 2);
      var value :- ReadUIntBE(frameData, index + 2, 4);
      if parameter == EnablePush {
        if value != 0 && value != 1 {
          return Raise("Invalid SETTINGS frame parameter value", ProtocolError);
        }
      } else if parameter == InitialWindowSize {
        if value > MaxWindowSize {
          return Raise("Invalid SETTINGS frame parameter value", ProtocolError);
        }
      } else if parameter == MaxFrameSize {
        if value > MaxFrameSizeLimit {
          return Raise("Invalid SETTINGS frame parameter value", ProtocolError);
        }
      }
      return Ok(ParameterPair(parameter, Some(value)));
    }

    /** `setDefaults`: the default pairs and the default length. */
    method SetDefaults()
      requires Valid()
      modifies this
      ensures State() == WithDefaults(old(State())) && Valid()
    {
      parameters := Some(DefaultParameters);
      length := DefaultParametersLength;
    }

    /** `getValue`: the frame's own pairs first, then the defaults. */
    method GetValue(parameter: nat) returns (r: Result<Option<nat>>)
      ensures r == ValueFor(parameters, parameter)
    {
      if parameters.None? {
        return Throw(TypeError);
      }
      var own := parameters.value;
      for i := 0 to |own|
        invariant Lookup(own, parameter) == Lookup(own[i..], parameter)
      {
        assert own[i..][1..] == own[i + 1..];
        if own[i].paramType == parameter {
          return Ok(own[i].paramValue);
        }
      }
      for i := 0 to |DefaultParameters|
        invariant Lookup(DefaultParameters, parameter) == Lookup(DefaultParameters[i..], parameter)
      {
        assert DefaultParameters[i..][1..] == DefaultParameters[i + 1..];
        if DefaultParameters[i].paramType == parameter {
          return Ok(DefaultParameters[i].paramValue);
        }
      }
      return Ok(None);
    }

    /** `Frame.getBytes`: a buffer of `length + 9` octets, the header written at its start. */
    method FrameGetBytes() returns (buffer: seq<byte>)
      requires Valid()
      ensures buffer == FrameBytes(State().header)
    {
      BitAndZero(streamId);
      var masked := BitAnd(streamId, 0);
      HeaderWrites(length, frameType, flags, streamId);
      buffer := Zeros(length + HeaderSize);
      buffer := WriteUIntBE(buffer, length, 0, 3).value;
      buffer := WriteUIntBE(buffer, frameType, 3, 1).value;
      buffer := WriteUIntBE(buffer, flags, 4, 1).value;
      buffer := WriteUIntBE(buffer, masked, 5, 4).value;
    }

    /** One turn of the loop of `SettingsFrame.getBytes`: the pair's identifier and value written at `index`, which is 9. */
    static method WriteEntry(buffer: seq<byte>, index: nat, pair: ParameterPair) returns (r: Result<seq<byte>>)
      requires index == HeaderSize && PairFits(pair)
      ensures r == EntryWritten(buffer, pair)
    {
      var written :- WriteUIntBE(buffer, pair.paramType, index, 2);
      r := WriteUIntBE(written, WireValue(pair.paramValue), index + 2, 4);
    }

    /** `SettingsFrame.getBytes`. */
    method GetBytes() returns (r: Result<seq<byte>>)
      requires Valid()
      ensures r == SettingsBytes(State())
    {
      var buffer := FrameGetBytes();
      if !IsAck(flags) {
        if parameters.None? {
          return Throw(TypeError);
        }
        var index := HeaderSize;
        var pairs := parameters.value;
        if pairs != [] {
          LastEntryWins(buffer, pairs);
        }
        for i := 0 to |pairs|
          invariant EntriesWritten(FrameBytes(State().header), pairs[..i]) == Ok(buffer)
          invariant |buffer| == length + HeaderSize
        {
          assert pairs[..i + 1][..i] == pairs[..i];
          buffer :- WriteEntry(buffer, index, pairs[i]);
        }
        assert pairs[..|pairs|] == pairs;
      }
      return Ok(buffer);
    }
  }

  /**
   * `Frame.parse`: a `SettingsFrame` for a buffer whose type octet is 0x4,
   * nothing (`undefined`) for any other type, and a `RangeError` for a
   * buffer without a type octet.
   */
  method ParseFrame(frameData: seq<byte>) returns (r: Result<Option<SettingsFrame>>)
    ensures |frameData| < 4 ==> r == Throw(RangeError)
    ensures |frameData| >= 4 && frameData[3] != FrameTypeCode(Settings) ==> r == Ok(None)
    ensures |frameData| >= 4 && frameData[3] == FrameTypeCode(Settings) ==>
              (r.Ok? <==> SettingsAt(frameData).Ok?) && (r.Throw? ==> r.exception == SettingsAt(frameData).exception)
    ensures r.Ok? && r.value.Some? ==>
              |frameData| >= 4 && frameData[3] == FrameTypeCode(Settings) && fresh(r.value.value) &&
              r.value.value.State() == SettingsAt(frameData).value
  {
    var frameType :- ReadUIntBE(frameData, 3, 1);
    assert Pow2(8) == 256 && BigEndian(frameType, 1) == [frameType];
    if frameType == FrameTypeCode(Settings) {
      var frame :- SettingsFrame.Parse(frameData);
      return Ok(Some(frame));
    }
    return Ok(None);
  }
}
