/** The Frame Streams reader (services/src/cadns/collector/framestreams.py): control frames and sessions. */
module FrameStreams {
  import opened Common

  type U32 = x: int | 0 <= x < 0x1_0000_0000

  // ----- 32-bit big-endian integers -----

  function Pack16(n: int): (b: Bytes)
    requires 0 <= n < 0x1_0000
    ensures |b| == 2 && Unpack16(b) == n
  {
    [(n / 256) as Byte, (n % 256) as Byte]
  }

  function Unpack16(b: Bytes): (n: int)
    requires |b| == 2
    ensures 0 <= n < 0x1_0000
  {
    b[0] as int * 256 + b[1] as int
  }

  function Pack(n: U32): (b: Bytes)
    ensures |b| == 4
  {
    Pack16(n / 0x1_0000) + Pack16(n % 0x1_0000)
  }

  function Unpack(b: Bytes): U32
    requires |b| == 4
  {
    Unpack16(b[..2]) * 0x1_0000 + Unpack16(b[2..])
  }

  lemma UnpackPack(n: U32)
    ensures Unpack(Pack(n)) == n
  {
    assert Pack(n)[..2] == Pack16(n / 0x1_0000) && Pack(n)[2..] == Pack16(n % 0x1_0000);
  }

  lemma PackUnpack16(b: Bytes)
    requires |b| == 2
    ensures Pack16(Unpack16(b)) == b
  {
  }

  lemma PackUnpack(b: Bytes)
    requires |b| == 4
    ensures Pack(Unpack(b)) == b
  {
    PackUnpack16(b[..2]);
    PackUnpack16(b[2..]);
    var high, low := Unpack16(b[..2]), Unpack16(b[2..]);
    assert Unpack(b) / 0x1_0000 == high && Unpack(b) % 0x1_0000 == low;
    assert b == b[..2] + b[2..];
  }

  /** The four bytes are a number, most significant byte first. */
  lemma BigEndian(b: Bytes)
    requires |b| == 4
    ensures Unpack(b) == b[0] as int * 16777216 + b[1] as int * 65536 + b[2] as int * 256 + b[3] as int
  {
    assert b[..2][0] == b[0] && b[..2][1] == b[1] && b[2..][0] == b[2] && b[2..][1] == b[3];
  }

  /** Numbers below 256 take the last byte. */
  lemma PackByte(n: U32)
    requires n < 256
    ensures Pack(n) == [0, 0, 0, n as Byte]
  {
    assert n / 0x1_0000 == 0 && n % 0x1_0000 == n;
  }

  // ----- control frames -----

  const CONTROL_ACCEPT: U32 := 1
  const CONTROL_START: U32 := 2
  const CONTROL_STOP: U32 := 3
  const CONTROL_READY: U32 := 4
  const CONTROL_FINISH: U32 := 5
  const FIELD_CONTENT_TYPE: U32 := 1
  const CONTROL_FRAME_MAX: nat := 512
  const DATA_FRAME_MAX: nat := 0x10_0000

  datatype Error =
    | TooShort
    | TruncatedField
    | TruncatedValue
    | TooLong
    | NotStarted
    | NotOffered
    | WrongType
    | Unexpected

  datatype Field = Field(ftype: U32, value: Bytes)

  predicate Short(value: Bytes) {
    |value| < 0x1_0000_0000
  }

  function EncodeField(f: Field): Bytes
    requires Short(f.value)
  {
    Pack(f.ftype) + Pack(|f.value|) + f.value
  }

  function EncodeFields(fs: seq<Field>): Bytes
    requires forall i :: 0 <= i < |fs| ==> Short(fs[i].value)
  {
    if fs == [] then [] else EncodeField(fs[0]) + EncodeFields(fs[1..])
  }

  /** The field at the front of a non-empty buffer, and what follows it. */
  function TakeField(p: Bytes): (r: Result<(Field, Bytes), Error>)
    ensures r.Ok? ==> |r.value.1| + 8 <= |p| && Short(r.value.0.value)
  {
    if |p| < 8 then Err(TruncatedField)
    else
      var length := Unpack(p[4..8]);
      if 8 + length > |p| then Err(TruncatedValue)
      else Ok((Field(Unpack(p[..4]), p[8..8 + length]), p[8 + length..]))
  }

  function DecodeFields(p: Bytes): Result<seq<Field>, Error>
    decreases |p|
  {
    if p == [] then Ok([])
    else
      match TakeField(p)
      case Err(e) => Err(e)
      case Ok((f, tail)) =>
        match DecodeFields(tail)
        case Err(e) => Err(e)
        case Ok(rest) => Ok([f] + rest)
  }

  lemma TakeEncoded(f: Field, t: Bytes)
    requires Short(f.value)
    ensures TakeField(EncodeField(f) + t) == Ok((f, t))
  {
    var p := EncodeField(f) + t;
    UnpackPack(f.ftype);
    UnpackPack(|f.value|);
    assert p[..4] == Pack(f.ftype);
    assert p[4..8] == Pack(|f.value|);
    assert p[8..8 + |f.value|] == f.value;
    assert p[8 + |f.value|..] == t;
  }

  lemma TakenIsEncoded(p: Bytes)
    requires TakeField(p).Ok?
    ensures var (f, t) := TakeField(p).value; p == EncodeField(f) + t
  {
    var (f, t) := TakeField(p).value;
    PackUnpack(p[..4]);
    PackUnpack(p[4..8]);
    assert p == p[..4] + p[4..8] + p[8..8 + |f.value|] + t;
  }

  function ContentTypes(fs: seq<Field>): seq<Bytes> {
    if fs == [] then []
    else (if fs[0].ftype == FIELD_CONTENT_TYPE then [fs[0].value] else []) + ContentTypes(fs[1..])
  }

  function ContentFields(cts: seq<Bytes>): (fs: seq<Field>)
    ensures |fs| == |cts| && forall i :: 0 <= i < |fs| ==> fs[i] == Field(FIELD_CONTENT_TYPE, cts[i])
  {
    seq(|cts|, i requires 0 <= i < |cts| => Field(FIELD_CONTENT_TYPE, cts[i]))
  }

  predicate AllShort(cts: seq<Bytes>) {
    forall i :: 0 <= i < |cts| ==> Short(cts[i])
  }

  function ControlPayload(ctype: U32, cts: seq<Bytes>): Bytes
    requires AllShort(cts)
  {
    Pack(ctype) + EncodeFields(ContentFields(cts))
  }

  /** encode_control; a payload whose length does not fit 32 bits cannot be packed. */
  function EncodeControl(ctype: U32, cts: seq<Bytes>): Bytes
    requires AllShort(cts) && Short(ControlPayload(ctype, cts))
  {
    Pack(0) + Pack(|ControlPayload(ctype, cts)|) + ControlPayload(ctype, cts)
  }

  function DecodeControl(payload: Bytes): Result<(U32, seq<Bytes>), Error> {
    if |payload| < 4 then Err(TooShort)
    else
      match DecodeFields(payload[4..])
      case Err(e) => Err(e)
      case Ok(fs) => Ok((Unpack(payload[..4]), ContentTypes(fs)))
  }

  /** decode_control, with its loop. */
  method DecodeControlLoop(payload: Bytes) returns (r: Result<(U32, seq<Bytes>), Error>)
    ensures r == DecodeControl(payload)
  {
    if |payload| < 4 {
      return Err(TooShort);
    }
    var pos, cts := 4, [];
    ghost var fs: seq<Field>, spec := [], DecodeFields(payload[4..]);
    PrefixedEmpty(spec);
    while pos < |payload|
      invariant 4 <= pos <= |payload|
      invariant cts == ContentTypes(fs)
      invariant spec == Prefixed(fs, DecodeFields(payload[pos..]))
    {
      FieldStep(payload, pos, fs);
      if pos + 8 > |payload| {
        return Err(TruncatedField);
      }
      var fieldType, length := Unpack(payload[pos..pos + 4]), Unpack(payload[pos + 4..pos + 8]);
      pos := pos + 8;
      if pos + length > |payload| {
        return Err(TruncatedValue);
      }
      var value := payload[pos..pos + length];
      if fieldType == FIELD_CONTENT_TYPE {
        cts := cts + [value];
      }
      pos := pos + length;
      fs := fs + [Field(fieldType, value)];
    }
    assert payload[pos..] == [];
    assert fs + [] == fs;
    return Ok((Unpack(payload[..4]), cts));
  }

  /** One round of the loop: how the field at pos continues the decoding, with fs already read. */
  lemma FieldStep(payload: Bytes, pos: nat, fs: seq<Field>)
    requires pos < |payload|
    ensures var whole := Prefixed(fs, DecodeFields(payload[pos..]));
            if pos + 8 > |payload| then whole == Err(TruncatedField)
            else
              var length := Unpack(payload[pos + 4..pos + 8]);
              if pos + 8 + length > |payload| then whole == Err(TruncatedValue)
              else
                var f := Field(Unpack(payload[pos..pos + 4]), payload[pos + 8..pos + 8 + length]);
                && whole == Prefixed(fs + [f], DecodeFields(payload[pos + 8 + length..]))
                && ContentTypes(fs + [f]) == ContentTypes(fs) +
                    (if f.ftype == FIELD_CONTENT_TYPE then [f.value] else [])
  {
    TakeAt(payload, pos);
    if pos + 8 <= |payload| {
      var length := Unpack(payload[pos + 4..pos + 8]);
      if pos + 8 + length <= |payload| {
        var f := Field(Unpack(payload[pos..pos + 4]), payload[pos + 8..pos + 8 + length]);
        ContentTypesAppend(fs, f);
        PrefixedAgain(fs, f, DecodeFields(payload[pos + 8 + length..]));
      }
    }
  }

  lemma TakeAt(payload: Bytes, pos: nat)
    requires pos <= |payload|
    ensures pos + 8 > |payload| ==> TakeField(payload[pos..]) == Err(TruncatedField)
    ensures pos + 8 <= |payload| ==>
              var length := Unpack(payload[pos + 4..pos + 8]);
              TakeField(payload[pos..]) ==
                if pos + 8 + length > |payload| then Err(TruncatedValue)
                else Ok((Field(Unpack(payload[pos..pos + 4]), payload[pos + 8..pos + 8 + length]),
                    payload[pos + 8 + length..]))
  {
    var tail := payload[pos..];
    if pos + 8 <= |payload| {
      assert tail[..4] == payload[pos..pos + 4] && tail[4..8] == payload[pos + 4..pos + 8];
      var length := Unpack(payload[pos + 4..pos + 8]);
      if pos + 8 + length <= |payload| {
        assert tail[8..8 + length] == payload[pos + 8..pos + 8 + length];
        assert tail[8 + length..] == payload[pos + 8 + length..];
      }
    }
  }

  lemma PrefixedEmpty(r: Result<seq<Field>, Error>)
    ensures Prefixed([], r) == r
  {
    if r.Ok? {
      assert [] + r.value == r.value;
    }
  }

  /** A decoding of what follows, with the fields already read in front. */
  ghost function Prefixed(fs: seq<Field>, r: Result<seq<Field>, Error>): Result<seq<Field>, Error> {
    if r.Ok? then Ok(fs + r.value) else r
  }

  lemma PrefixedAgain(fs: seq<Field>, f: Field, r: Result<seq<Field>, Error>)
    ensures Prefixed(fs, Prefixed([f], r)) == Prefixed(fs + [f], r)
  {
    if r.Ok? {
      assert fs + ([f] + r.value) == fs + [f] + r.value;
    }
  }

  lemma {:induction false} ContentTypesAppend(fs: seq<Field>, f: Field)
    ensures ContentTypes(fs + [f]) == ContentTypes(fs) + (if f.ftype == FIELD_CONTENT_TYPE then [f.value] else [])
  {
    if fs == [] {
      assert fs + [f] == [f];
      assert [f][1..] == [];
    } else {
      ContentTypesAppend(fs[1..], f);
      assert (fs + [f])[1..] == fs[1..] + [f];
    }
  }

  lemma {:induction false} FieldsRoundTrip(fs: seq<Field>)
    requires forall i :: 0 <= i < |fs| ==> Short(fs[i].value)
    ensures DecodeFields(EncodeFields(fs)) == Ok(fs)
  {
    if fs != [] {
      TakeEncoded(fs[0], EncodeFields(fs[1..]));
      FieldsRoundTrip(fs[1..]);
      assert EncodeFields(fs) == EncodeField(fs[0]) + EncodeFields(fs[1..]);
      assert [fs[0]] + fs[1..] == fs;
    }
  }

  /** A parse is full: a buffer that decodes is nothing but its fields, one after another. */
  lemma {:induction false} FieldsFullParse(p: Bytes)
    requires DecodeFields(p).Ok?
    ensures var fs := DecodeFields(p).value;
            (forall i :: 0 <= i < |fs| ==> Short(fs[i].value)) && EncodeFields(fs) == p
    decreases |p|
  {
    if p != [] {
      TakenIsEncoded(p);
      var (f, tail) := TakeField(p).value;
      FieldsFullParse(tail);
      assert ([f] + DecodeFields(tail).value)[1..] == DecodeFields(tail).value;
    }
  }

  lemma {:induction false} ContentTypesOfFields(cts: seq<Bytes>)
    ensures ContentTypes(ContentFields(cts)) == cts
  {
    if cts != [] {
      ContentTypesOfFields(cts[1..]);
      assert ContentFields(cts)[1..] == ContentFields(cts[1..]);
    }
  }

  /** Control-frame round trip: decoding an encoded payload gives the type and the content types back. */
  lemma ControlRoundTrip(ctype: U32, cts: seq<Bytes>)
    requires AllShort(cts)
    ensures DecodeControl(ControlPayload(ctype, cts)) == Ok((ctype, cts))
  {
    var p := ControlPayload(ctype, cts);
    assert p[..4] == Pack(ctype) && p[4..] == EncodeFields(ContentFields(cts));
    UnpackPack(ctype);
    FieldsRoundTrip(ContentFields(cts));
    ContentTypesOfFields(cts);
  }

  /** A payload is a type followed by whole fields. */
  ghost predicate IsControlOf(payload: Bytes, ctype: U32, fs: seq<Field>) {
    (forall i :: 0 <= i < |fs| ==> Short(fs[i].value)) && payload == Pack(ctype) + EncodeFields(fs)
  }

  /** The decoder accepts exactly a type followed by whole fields, whatever their field types. */
  lemma ControlDecodesIff(payload: Bytes, ctype: U32, fs: seq<Field>)
    ensures DecodeControl(payload).Ok? ==> exists c: U32, gs: seq<Field> :: IsControlOf(payload, c, gs)
    ensures IsControlOf(payload, ctype, fs) ==> DecodeControl(payload) == Ok((ctype, ContentTypes(fs)))
  {
    if DecodeControl(payload).Ok? {
      FieldsFullParse(payload[4..]);
      PackUnpack(payload[..4]);
      assert payload == payload[..4] + payload[4..];
      assert IsControlOf(payload, Unpack(payload[..4]), DecodeFields(payload[4..]).value);
    }
    if IsControlOf(payload, ctype, fs) {
      FieldsRoundTrip(fs);
      UnpackPack(ctype);
      assert payload[..4] == Pack(ctype) && payload[4..] == EncodeFields(fs);
    }
  }

  // ----- the newline-joined list of content types -----

  const NEWLINE: Byte := 10

  function Join(cts: seq<Bytes>): Bytes {
    if cts == [] then [] else if |cts| == 1 then cts[0] else cts[0] + [NEWLINE] + Join(cts[1..])
  }

  function Split(b: Bytes): (parts: seq<Bytes>)
    ensures parts != []
  {
    if b == [] then [[]]
    else if b[0] == NEWLINE then [[]] + Split(b[1..])
    else
      var rest := Split(b[1..]);
      [[b[0]] + rest[0]] + rest[1..]
  }

  /** Prefixing one byte to a split affects only its first part. */
  lemma SplitHead(a: Bytes, tail: seq<Bytes>)
    requires a != []
    ensures var parts := Split(a[1..]) + tail;
            Split(a) + tail == if a[0] == NEWLINE then [[]] + parts else [[a[0]] + parts[0]] + parts[1..]
  {
  }

  lemma {:induction false} SplitAtNewline(a: Bytes, b: Bytes)
    ensures Split(a + [NEWLINE] + b) == Split(a) + Split(b)
    decreases |a|
  {
    var s := a + [NEWLINE] + b;
    if a == [] {
      assert s == [NEWLINE] + b && s[1..] == b;
    } else {
      SplitAtNewline(a[1..], b);
      assert s[1..] == a[1..] + [NEWLINE] + b && s[0] == a[0];
      SplitHead(a, Split(b));
    }
  }

  lemma {:induction false} SplitLine(a: Bytes)
    requires NEWLINE !in a
    ensures Split(a) == [a]
  {
    if a != [] {
      assert a[0] in a;
      SplitLine(a[1..]);
      assert [a[0]] + a[1..] == a;
    }
  }

  /** Exactly what the READY test accepts: a line of some offered content type, or "" for an empty offer. */
  lemma {:induction false} OfferTest(ct: Bytes, cts: seq<Bytes>)
    ensures ct in Split(Join(cts)) <==>
            (cts == [] && ct == []) || exists i :: 0 <= i < |cts| && ct in Split(cts[i])
  {
    if |cts| > 1 {
      SplitAtNewline(cts[0], Join(cts[1..]));
      OfferTest(ct, cts[1..]);
      var rest := cts[1..];
      if i :| 0 <= i < |rest| && ct in Split(rest[i]) {
        assert cts[i + 1] == rest[i];
      }
      if i :| 1 <= i < |cts| && ct in Split(cts[i]) {
        assert rest[i - 1] == cts[i];
      }
    }
  }

  /** No part of a split holds a newline. */
  lemma {:induction false} PartsAreLines(b: Bytes, i: nat)
    requires i < |Split(b)|
    ensures NEWLINE !in Split(b)[i]
  {
    if b != [] {
      var rest := Split(b[1..]);
      if b[0] == NEWLINE {
        if i > 0 {
          PartsAreLines(b[1..], i - 1);
        }
      } else {
        PartsAreLines(b[1..], i);
      }
    }
  }

  /** For newline-free content types the test is list membership, except that an empty offer holds "". */
  lemma LinesOffered(ct: Bytes, cts: seq<Bytes>)
    requires forall i :: 0 <= i < |cts| ==> NEWLINE !in cts[i]
    ensures ct in Split(Join(cts)) <==> ct in cts || (cts == [] && ct == [])
  {
    OfferTest(ct, cts);
    forall i | 0 <= i < |cts|
      ensures Split(cts[i]) == [cts[i]]
    {
      SplitLine(cts[i]);
    }
  }

  /** A content type with a newline is offered, yet never passes the test. */
  lemma NewlineNeverPasses(cts: seq<Bytes>, i: nat)
    requires i < |cts| && NEWLINE in cts[i]
    ensures cts[i] in cts && cts[i] != [] && cts[i] !in Split(Join(cts))
  {
    if k :| 0 <= k < |Split(Join(cts))| && Split(Join(cts))[k] == cts[i] {
      PartsAreLines(Join(cts), k);
    }
  }

  /**
   * The READY test is list membership for every non-empty wanted content type exactly when no offered
   * one holds a newline, and for the empty one too exactly when, besides, something is offered.
   */
  lemma OfferTestIsMembershipIff(cts: seq<Bytes>)
    ensures (forall ct :: ct != [] ==> (ct in Split(Join(cts)) <==> ct in cts)) <==>
            (forall i :: 0 <= i < |cts| ==> NEWLINE !in cts[i])
    ensures (forall ct :: ct in Split(Join(cts)) <==> ct in cts) <==>
            cts != [] && (forall i :: 0 <= i < |cts| ==> NEWLINE !in cts[i])
  {
    if forall i :: 0 <= i < |cts| ==> NEWLINE !in cts[i] {
      forall ct
        ensures ct in Split(Join(cts)) <==> ct in cts || (cts == [] && ct == [])
      {
        LinesOffered(ct, cts);
      }
    } else {
      var i :| 0 <= i < |cts| && NEWLINE in cts[i];
      NewlineNeverPasses(cts, i);
    }
    if cts == [] {
      LinesOffered([], cts);
    }
  }

  /** A newline inside one offered content type also lets through one that is not offered. */
  lemma NewlineFoolsOfferTest(ct: Bytes)
    requires NEWLINE !in ct
    ensures var cts := [ct + [NEWLINE]]; ct !in cts && ct in Split(Join(cts))
  {
    SplitAtNewline(ct, []);
    SplitLine(ct);
    assert ct + [NEWLINE] + [] == ct + [NEWLINE];
    assert |ct + [NEWLINE]| != |ct|;
  }

  // ----- frames -----

  /** One _read_frame on the bytes still to come: it may run out of bytes, object, or give a frame. */
  datatype Read =
    | Incomplete
    | Bad(error: Error)
    | Data(payload: Bytes, rest: Bytes)
    | Control(ctype: U32, data: Bytes, rest: Bytes)

  function ReadFrame(s: Bytes): (r: Read)
    ensures r.Data? || r.Control? ==> |r.rest| < |s|
  {
    if |s| < 4 then Incomplete
    else
      var length := Unpack(s[..4]);
      if length > 0 then
        if length > DATA_FRAME_MAX then Bad(TooLong)
        else if |s| < 4 + length then Incomplete
        else Data(s[4..4 + length], s[4 + length..])
      else if |s| < 8 then Incomplete
      else
        var size := Unpack(s[4..8]);
        if size > CONTROL_FRAME_MAX then Bad(TooLong)
        else if |s| < 8 + size then Incomplete
        else
          match DecodeControl(s[8..8 + size])
          case Err(e) => Bad(e)
          case Ok((ctype, cts)) => Control(ctype, Join(cts), s[8 + size..])
  }

  /** The same frame, followed by more bytes. */
  function Followed(r: Read, t: Bytes): Read {
    match r
    case Data(p, rest) => Data(p, rest + t)
    case Control(c, d, rest) => Control(c, d, rest + t)
    case _ => r
  }

  /** A frame once readable reads the same whatever follows. */
  lemma ReadLocal(s: Bytes, t: Bytes)
    requires !ReadFrame(s).Incomplete?
    ensures ReadFrame(s + t) == Followed(ReadFrame(s), t)
  {
    SliceOfAppend(s, t, 0, 4);
    var length := Unpack(s[..4]);
    if length > 0 {
      if length <= DATA_FRAME_MAX {
        SliceOfAppend(s, t, 4, 4 + length);
      }
    } else {
      SliceOfAppend(s, t, 4, 8);
      var size := Unpack(s[4..8]);
      if size <= CONTROL_FRAME_MAX {
        SliceOfAppend(s, t, 8, 8 + size);
      }
    }
  }

  // ----- sessions -----

  datatype End = Stopped | Disconnected | Aborted(error: Error)

  datatype Session = Session(delivered: seq<Bytes>, written: Bytes, end: End)

  /** The reader's content type can be packed into a control frame at all. */
  predicate Packable(ct: Bytes) {
    |ct| + 12 < 0x1_0000_0000
  }

  predicate ShortEnough(ct: Bytes) {
    |ct| <= 500
  }

  function Accept(ct: Bytes): Bytes
    requires Packable(ct)
  {
    var p := Pack(CONTROL_ACCEPT) + Pack(FIELD_CONTENT_TYPE) + Pack(|ct|) + ct;
    Pack(0) + Pack(|p|) + p
  }

  const FINISH: Bytes := Pack(0) + Pack(4) + Pack(CONTROL_FINISH)

  /** What one frame leads to: the end of the session, or deliveries and writes before the next frame. */
  datatype Verdict = Done(session: Session) | Go(deliver: seq<Bytes>, write: Bytes, started: bool)

  function Judge(r: Read, started: bool, ct: Bytes): (v: Verdict)
    requires Packable(ct)
    ensures v.Go? ==> r.Data? || r.Control?
  {
    match r
    case Incomplete => Done(Session([], [], Disconnected))
    case Bad(e) => Done(Session([], [], Aborted(e)))
    case Data(p, _) =>
      if started then Go([p], [], true) else Done(Session([], [], Aborted(NotStarted)))
    case Control(c, data, _) =>
      if c == CONTROL_READY then
        if ct in Split(data) then Go([], Accept(ct), started) else Done(Session([], [], Aborted(NotOffered)))
      else if c == CONTROL_START then
        if data == [] || data == ct then Go([], [], true) else Done(Session([], [], Aborted(WrongType)))
      else if c == CONTROL_STOP then Done(Session([], FINISH, Stopped))
      else Done(Session([], [], Aborted(Unexpected)))
  }

  /** A session that goes on after some deliveries and writes. */
  function Resume(delivered: seq<Bytes>, written: Bytes, more: Session): Session {
    Session(delivered + more.delivered, written + more.written, more.end)
  }

  /** serve_connection on a stream of bytes that then ends, in the state `started`. */
  function Serve(s: Bytes, started: bool, ct: Bytes): Session
    requires Packable(ct)
    decreases |s|
  {
    var r := ReadFrame(s);
    match Judge(r, started, ct)
    case Done(session) => session
    case Go(deliver, write, started') => Resume(deliver, write, Serve(r.rest, started', ct))
  }

  lemma ResumeAgain(d: seq<Bytes>, w: Bytes, d': seq<Bytes>, w': Bytes, more: Session)
    ensures Resume(d, w, Resume(d', w', more)) == Resume(d + d', w + w', more)
  {
    AppendAssoc(d, d', more.delivered);
    AppendAssoc(w, w', more.written);
  }

  lemma ResumeNothing(d: seq<Bytes>, w: Bytes, more: Session)
    ensures Resume([], w, more) == more.(written := w + more.written)
    ensures Resume(d, [], more) == more.(delivered := d + more.delivered)
    ensures Resume(d, w, Session([], [], more.end)) == Session(d, w, more.end)
  {
    AppendEmpty(more.delivered);
    AppendEmpty(more.written);
    AppendEmpty(d);
    AppendEmpty(w);
  }

  /** serve_connection, with its loop; `frames` is the count it returns. */
  method ServeConnection(stream: Bytes, ct: Bytes) returns (frames: nat, session: Session)
    requires Packable(ct)
    ensures session == Serve(stream, false, ct)
    ensures frames == |session.delivered|
  {
    frames := 0;
    var started, rest := false, stream;
    var delivered: seq<Bytes>, written: Bytes := [], [];
    AppendEmpty(Serve(stream, false, ct).delivered);
    AppendEmpty(Serve(stream, false, ct).written);
    while true
      invariant frames == |delivered|
      invariant Serve(stream, false, ct) == Resume(delivered, written, Serve(rest, started, ct))
      decreases |rest|
    {
      var r := ReadFrame(rest);
      AppendEmpty(delivered);
      AppendEmpty(written);
      ghost var v := Judge(r, started, ct);
      if v.Go? {
        ResumeAgain(delivered, written, v.deliver, v.write, Serve(r.rest, v.started, ct));
      }
      match r {
        case Incomplete => return frames, Session(delivered, written, Disconnected);
        case Bad(e) => return frames, Session(delivered, written, Aborted(e));
        case Data(p, tail) =>
          if !started {
            return frames, Session(delivered, written, Aborted(NotStarted));
          }
          delivered := delivered + [p];
          frames := frames + 1;
          rest := tail;
        case Control(c, data, tail) =>
          if c == CONTROL_READY {
            if ct !in Split(data) {
              return frames, Session(delivered, written, Aborted(NotOffered));
            }
            written := written + Accept(ct);
          } else if c == CONTROL_START {
            if data != [] && data != ct {
              return frames, Session(delivered, written, Aborted(WrongType));
            }
            started := true;
          } else if c == CONTROL_STOP {
            return frames, Session(delivered, written + FINISH, Stopped);
          } else {
            return frames, Session(delivered, written, Aborted(Unexpected));
          }
          rest := tail;
      }
    }
  }

  /**
   * Cutting any byte stream at any byte delivers and writes a prefix of what the whole stream would;
   * a session that already ended by itself does not depend on what follows.
   */
  lemma {:induction false} CutDeliversPrefix(s: Bytes, t: Bytes, started: bool, ct: Bytes)
    requires Packable(ct)
    ensures var cut, whole := Serve(s, started, ct), Serve(s + t, started, ct);
            && cut.delivered <= whole.delivered && cut.written <= whole.written
            && (cut.end.Disconnected? || cut == whole)
    decreases |s|
  {
    var r := ReadFrame(s);
    if !r.Incomplete? {
      ReadLocal(s, t);
      var v := Judge(r, started, ct);
      assert v == Judge(Followed(r, t), started, ct);
      if v.Go? {
        CutDeliversPrefix(r.rest, t, v.started, ct);
        PrefixKept(v.deliver, Serve(r.rest, v.started, ct).delivered, Serve(r.rest + t, v.started, ct).delivered);
        PrefixKept(v.write, Serve(r.rest, v.started, ct).written, Serve(r.rest + t, v.started, ct).written);
      }
    }
  }

  // ----- well-formed sessions -----

  function Frame(p: Bytes): Bytes
    requires Short(p)
  {
    Pack(|p|) + p
  }

  predicate IsPayload(p: Bytes) {
    1 <= |p| <= 1048576
  }

  function Frames(ps: seq<Bytes>): Bytes
    requires forall i :: 0 <= i < |ps| ==> IsPayload(ps[i])
  {
    if ps == [] then [] else
      assert IsPayload(ps[0]);
      Frame(ps[0]) + Frames(ps[1..])
  }

  lemma ReadsFrame(p: Bytes, t: Bytes)
    requires IsPayload(p)
    ensures ReadFrame(Frame(p) + t) == Data(p, t)
  {
    var s := Frame(p) + t;
    assert s[..4] == Pack(|p|);
    UnpackPack(|p|);
    assert s[4..4 + |p|] == p && s[4 + |p|..] == t;
  }

  lemma ReadsControl(ctype: U32, cts: seq<Bytes>, t: Bytes)
    requires AllShort(cts) && |ControlPayload(ctype, cts)| <= CONTROL_FRAME_MAX
    ensures ReadFrame(EncodeControl(ctype, cts) + t) == Control(ctype, Join(cts), t)
  {
    var p := ControlPayload(ctype, cts);
    var s := EncodeControl(ctype, cts) + t;
    assert s[..4] == Pack(0) && s[4..8] == Pack(|p|);
    UnpackPack(0);
    UnpackPack(|p|);
    assert s[8..8 + |p|] == p && s[8 + |p|..] == t;
    ControlRoundTrip(ctype, cts);
  }

  lemma ControlSizes(ctype: U32, ct: Bytes)
    requires ShortEnough(ct)
    ensures ControlPayload(ctype, []) == Pack(ctype)
    ensures ControlPayload(ctype, [ct]) == Pack(ctype) + Pack(FIELD_CONTENT_TYPE) + Pack(|ct|) + ct
    ensures |ControlPayload(ctype, [ct])| <= CONTROL_FRAME_MAX
  {
    var fs := ContentFields([ct]);
    assert fs == [Field(FIELD_CONTENT_TYPE, ct)];
    assert fs[1..] == [];
    assert EncodeFields(fs[1..]) == [];
    assert EncodeFields(fs) == EncodeField(fs[0]) + [];
  }

  lemma ServesFrame(p: Bytes, t: Bytes, ct: Bytes)
    requires Packable(ct) && IsPayload(p)
    ensures var after := Serve(t, true, ct);
            Serve(Frame(p) + t, true, ct) == Session([p] + after.delivered, after.written, after.end)
  {
    ReadsFrame(p, t);
    ResumeNothing([p], [], Serve(t, true, ct));
  }

  lemma ServesFrames(ps: seq<Bytes>, t: Bytes, ct: Bytes)
    requires Packable(ct) && (forall i :: 0 <= i < |ps| ==> IsPayload(ps[i])) && ps != []
    ensures var after := Serve(Frames(ps[1..]) + t, true, ct);
            Serve(Frames(ps) + t, true, ct) == Session([ps[0]] + after.delivered, after.written, after.end)
  {
    ServesFrame(ps[0], Frames(ps[1..]) + t, ct);
    assert Frames(ps) + t == Frame(ps[0]) + (Frames(ps[1..]) + t);
  }

  /** Frames after START are delivered in order, and what follows them is served next. */
  lemma {:induction false} FramesDelivered(ps: seq<Bytes>, t: Bytes, ct: Bytes)
    requires Packable(ct) && forall i :: 0 <= i < |ps| ==> IsPayload(ps[i])
    ensures var after := Serve(t, true, ct);
            Serve(Frames(ps) + t, true, ct) == Session(ps + after.delivered, after.written, after.end)
    decreases |ps|
  {
    var after := Serve(t, true, ct);
    if ps == [] {
      AppendEmpty(t);
      AppendEmpty(after.delivered);
    } else {
      ServesFrames(ps, t, ct);
      FramesDelivered(ps[1..], t, ct);
      ConsAppend(ps, after.delivered);
    }
  }

  lemma StartServes(ct: Bytes, t: Bytes)
    requires ShortEnough(ct)
    ensures Short(ControlPayload(CONTROL_START, [ct]))
    ensures Serve(EncodeControl(CONTROL_START, [ct]) + t, false, ct) == Serve(t, true, ct)
  {
    ControlSizes(CONTROL_START, ct);
    ReadsControl(CONTROL_START, [ct], t);
    ResumeNothing([], [], Serve(t, true, ct));
  }

  lemma StopServes(ct: Bytes, trailing: Bytes, started: bool)
    requires ShortEnough(ct)
    ensures Short(ControlPayload(CONTROL_STOP, [])) && Short(ControlPayload(CONTROL_FINISH, []))
    ensures Serve(EncodeControl(CONTROL_STOP, []) + trailing, started, ct) ==
            Session([], EncodeControl(CONTROL_FINISH, []), Stopped)
  {
    ControlSizes(CONTROL_STOP, ct);
    ControlSizes(CONTROL_FINISH, ct);
    ReadsControl(CONTROL_STOP, [], trailing);
  }

  /**
   * START, data frames, STOP: exactly the payloads are delivered, in order, and exactly FINISH is
   * written, whatever the writer sends after STOP.
   */
  lemma SessionDelivers(ps: seq<Bytes>, ct: Bytes, trailing: Bytes)
    requires ShortEnough(ct) && forall i :: 0 <= i < |ps| ==> IsPayload(ps[i])
    ensures Short(ControlPayload(CONTROL_FINISH, []))
    ensures Serve(Stream(ps, ct) + trailing, false, ct) == Session(ps, EncodeControl(CONTROL_FINISH, []), Stopped)
  {
    ServesToStop(ps, ct, trailing);
    Regroup(Start(ct), Frames(ps), Stop(), trailing);
    StartServes(ct, Frames(ps) + (Stop() + trailing));
  }

  lemma ServesToStop(ps: seq<Bytes>, ct: Bytes, trailing: Bytes)
    requires ShortEnough(ct) && forall i :: 0 <= i < |ps| ==> IsPayload(ps[i])
    ensures Short(ControlPayload(CONTROL_FINISH, []))
    ensures Serve(Frames(ps) + (Stop() + trailing), true, ct) == Session(ps, EncodeControl(CONTROL_FINISH, []), Stopped)
  {
    StopServes(ct, trailing, true);
    FramesDelivered(ps, Stop() + trailing, ct);
    AppendEmpty(ps);
  }

  lemma Regroup<T>(a: seq<T>, b: seq<T>, c: seq<T>, d: seq<T>)
    ensures (a + (b + c)) + d == a + (b + (c + d))
  {
  }

  // ----- what each frame does, on the bytes -----

  /** The control frames of a session, byte by byte; only lengths are written with Pack. */
  lemma ControlBytes(ct: Bytes)
    requires ShortEnough(ct)
    ensures Start(ct) == [0, 0, 0, 0] + Pack(12 + |ct|) + [0, 0, 0, 2] + [0, 0, 0, 1] + Pack(|ct|) + ct
    ensures Accept(ct) == [0, 0, 0, 0] + Pack(12 + |ct|) + [0, 0, 0, 1] + [0, 0, 0, 1] + Pack(|ct|) + ct
    ensures Stop() == [0, 0, 0, 0, 0, 0, 0, 4, 0, 0, 0, 3]
    ensures FINISH == [0, 0, 0, 0, 0, 0, 0, 4, 0, 0, 0, 5]
  {
    ControlSizes(CONTROL_START, ct);
    ControlSizes(CONTROL_ACCEPT, ct);
    ControlSizes(CONTROL_STOP, []);
    PackByte(0);
    PackByte(1);
    PackByte(2);
    PackByte(3);
    PackByte(4);
    PackByte(5);
    assert |Pack(CONTROL_START) + Pack(FIELD_CONTENT_TYPE) + Pack(|ct|) + ct| == 12 + |ct|;
    assert |Pack(CONTROL_ACCEPT) + Pack(FIELD_CONTENT_TYPE) + Pack(|ct|) + ct| == 12 + |ct|;
  }

  /**
   * A control frame, whatever its content types: READY (4) is answered with ACCEPT if it passes the
   * test; START (2) starts the session if it names no other content type; STOP (3) is answered with
   * FINISH and ends it; anything else, refusals included, ends it with an error and nothing written.
   */
  lemma ControlDecides(ctype: U32, cts: seq<Bytes>, ct: Bytes, t: Bytes, started: bool)
    requires AllShort(cts) && ShortEnough(ct) && |ControlPayload(ctype, cts)| <= 512
    ensures var after := Serve(t, started, ct);
            Serve(EncodeControl(ctype, cts) + t, started, ct) ==
              if ctype == 4 then
                if ct in Split(Join(cts)) then after.(written := Accept(ct) + after.written)
                else Session([], [], Aborted(NotOffered))
              else if ctype == 2 then
                if Join(cts) == [] || Join(cts) == ct then Serve(t, true, ct) else Session([], [], Aborted(WrongType))
              else if ctype == 3 then Session([], [0, 0, 0, 0, 0, 0, 0, 4, 0, 0, 0, 5], Stopped)
              else Session([], [], Aborted(Unexpected))
  {
    ReadsControl(ctype, cts, t);
    ResumeNothing([], Accept(ct), Serve(t, started, ct));
    ResumeNothing([], [], Serve(t, true, ct));
    ControlBytes(ct);
  }

  /** A data frame is delivered in a started session and ends any other with an error. */
  lemma DataDecides(p: Bytes, ct: Bytes, t: Bytes, started: bool)
    requires Packable(ct) && IsPayload(p)
    ensures var after := Serve(t, true, ct);
            Serve(Pack(|p|) + p + t, started, ct) ==
              if started then after.(delivered := [p] + after.delivered) else Session([], [], Aborted(NotStarted))
  {
    ReadsFrame(p, t);
    ResumeNothing([p], [], Serve(t, true, ct));
  }

  /** Frames over the limits, 2^20 bytes of data or 512 of control, end the session with an error. */
  lemma OversizedAborts(s: Bytes, ct: Bytes, started: bool)
    requires Packable(ct)
    requires || (|s| >= 4 && Unpack(s[..4]) > 1048576)
             || (|s| >= 8 && Unpack(s[..4]) == 0 && Unpack(s[4..8]) > 512)
    ensures Serve(s, started, ct) == Session([], [], Aborted(TooLong))
  {
  }

  /** How many whole frames n bytes hold. */
  function Complete(ps: seq<Bytes>, n: int): nat {
    if ps == [] || n < 4 + |ps[0]| then 0 else 1 + Complete(ps[1..], n - 4 - |ps[0]|)
  }

  lemma {:induction false} CompleteBound(ps: seq<Bytes>, n: int)
    ensures Complete(ps, n) <= |ps|
  {
    if ps != [] && n >= 4 + |ps[0]| {
      CompleteBound(ps[1..], n - 4 - |ps[0]|);
    }
  }

  /** A frame cut short is not read at all. */
  lemma CutFrameIncomplete(p: Bytes, t: Bytes, n: nat)
    requires IsPayload(p) && n < 4 + |p|
    ensures ReadFrame((Frame(p) + t)[..n]).Incomplete?
  {
    var s := (Frame(p) + t)[..n];
    if n >= 4 {
      assert s[..4] == Pack(|p|);
      UnpackPack(|p|);
    }
  }

  lemma CutBehindFrame(p: Bytes, t: Bytes, n: nat)
    requires Short(p) && 4 + |p| <= n <= 4 + |p| + |t|
    ensures (Frame(p) + t)[..n] == Frame(p) + t[..n - 4 - |p|]
  {
  }

  /** Data frames cut at byte n: exactly the whole frames are delivered and the writer counts as gone. */
  lemma {:induction false} CutFrames(ps: seq<Bytes>, n: nat, ct: Bytes)
    requires Packable(ct) && (forall i :: 0 <= i < |ps| ==> IsPayload(ps[i])) && n <= |Frames(ps)|
    ensures Complete(ps, n) <= |ps|
    ensures Serve(Frames(ps)[..n], true, ct) == Session(ps[..Complete(ps, n)], [], Disconnected)
    decreases |ps|
  {
    CompleteBound(ps, n);
    if ps != [] {
      var p, rest := ps[0], Frames(ps[1..]);
      if n < 4 + |p| {
        CutFrameIncomplete(p, rest, n);
      } else {
        CutBehindFrame(p, rest, n);
        ServesFrame(p, rest[..n - 4 - |p|], ct);
        CutFrames(ps[1..], n - 4 - |p|, ct);
        TakeCons(ps, Complete(ps, n));
      }
    }
  }

  lemma TakeCons<T>(s: seq<T>, k: nat)
    requires 0 < k <= |s|
    ensures s[..k] == [s[0]] + s[1..][..k - 1]
  {
  }

  lemma {:induction false} CompleteAll(ps: seq<Bytes>, n: int)
    requires (forall i :: 0 <= i < |ps| ==> IsPayload(ps[i])) && n >= |Frames(ps)|
    ensures Complete(ps, n) == |ps|
    decreases |ps|
  {
    if ps != [] {
      CompleteAll(ps[1..], n - 4 - |ps[0]|);
    }
  }

  /** A control frame cut short is not read at all. */
  lemma CutControlIncomplete(ctype: U32, cts: seq<Bytes>, n: nat)
    requires AllShort(cts) && |ControlPayload(ctype, cts)| <= CONTROL_FRAME_MAX && n < |EncodeControl(ctype, cts)|
    ensures ReadFrame(EncodeControl(ctype, cts)[..n]).Incomplete?
  {
    var p, e := ControlPayload(ctype, cts), EncodeControl(ctype, cts);
    assert e[..4] == Pack(0) && e[4..8] == Pack(|p|) && |e| == 8 + |p|;
    UnpackPack(0);
    UnpackPack(|p|);
    if n >= 4 {
      assert e[..n][..4] == e[..4];
    }
    if n >= 8 {
      assert e[..n][4..8] == e[4..8];
    }
  }

  /** START, data frames, STOP, as the writer sends them. */
  function Stream(ps: seq<Bytes>, ct: Bytes): Bytes
    requires ShortEnough(ct) && forall i :: 0 <= i < |ps| ==> IsPayload(ps[i])
  {
    Start(ct) + (Frames(ps) + Stop())
  }

  function Start(ct: Bytes): Bytes
    requires ShortEnough(ct)
  {
    ControlSizes(CONTROL_START, ct);
    EncodeControl(CONTROL_START, [ct])
  }

  function Stop(): Bytes {
    ControlSizes(CONTROL_STOP, []);
    EncodeControl(CONTROL_STOP, [])
  }

  /** After START, a cut inside the frames or inside STOP delivers exactly the whole frames. */
  lemma CutBehindStart(ps: seq<Bytes>, n: nat, ct: Bytes)
    requires ShortEnough(ct) && (forall i :: 0 <= i < |ps| ==> IsPayload(ps[i])) && n < |Frames(ps) + Stop()|
    ensures Complete(ps, n) <= |ps|
    ensures Serve((Frames(ps) + Stop())[..n], true, ct) == Session(ps[..Complete(ps, n)], [], Disconnected)
  {
    var frames := Frames(ps);
    CutOfAppend(frames, Stop(), n);
    if n <= |frames| {
      CutFrames(ps, n, ct);
    } else {
      var part := Stop()[..n - |frames|];
      FramesDelivered(ps, part, ct);
      ControlSizes(CONTROL_STOP, []);
      CutControlIncomplete(CONTROL_STOP, [], n - |frames|);
      CompleteAll(ps, n);
      AppendEmpty(ps);
    }
  }

  /**
   * A session cut at any byte, START and STOP included, delivers exactly the frames it holds whole
   * and writes nothing.
   */
  lemma CutSession(ps: seq<Bytes>, n: nat, ct: Bytes)
    requires ShortEnough(ct) && (forall i :: 0 <= i < |ps| ==> IsPayload(ps[i])) && n < |Stream(ps, ct)|
    ensures var k := Complete(ps, n - |Start(ct)|);
            k <= |ps| && Serve(Stream(ps, ct)[..n], false, ct) == Session(ps[..k], [], Disconnected)
  {
    if n < |Start(ct)| {
      CutInStart(n, ct);
    } else {
      CutPastStart(ps, n - |Start(ct)|, ct);
    }
    CutJoined(Start(ct), Frames(ps) + Stop(), ps, n, ct);
  }

  /** A cut in two parts: what it does in the first part, or behind it. */
  lemma CutJoined(start: Bytes, rest: Bytes, ps: seq<Bytes>, n: nat, ct: Bytes)
    requires Packable(ct) && n < |start + rest|
    requires n < |start| ==> Serve(start[..n], false, ct) == Session([], [], Disconnected)
    requires n >= |start| ==>
               var k := Complete(ps, n - |start|);
               k <= |ps| && Serve(start + rest[..n - |start|], false, ct) == Session(ps[..k], [], Disconnected)
    ensures var k := Complete(ps, n - |start|);
            k <= |ps| && Serve((start + rest)[..n], false, ct) == Session(ps[..k], [], Disconnected)
  {
    CutOfAppend(start, rest, n);
  }

  lemma CutPastStart(ps: seq<Bytes>, n: nat, ct: Bytes)
    requires ShortEnough(ct) && (forall i :: 0 <= i < |ps| ==> IsPayload(ps[i])) && n < |Frames(ps) + Stop()|
    ensures Complete(ps, n) <= |ps|
    ensures Serve(Start(ct) + (Frames(ps) + Stop())[..n], false, ct) == Session(ps[..Complete(ps, n)], [], Disconnected)
  {
    StartServes(ct, (Frames(ps) + Stop())[..n]);
    CutBehindStart(ps, n, ct);
  }

  lemma CutInStart(n: nat, ct: Bytes)
    requires ShortEnough(ct) && n < |Start(ct)|
    ensures Serve(Start(ct)[..n], false, ct) == Session([], [], Disconnected)
  {
    ControlSizes(CONTROL_START, ct);
    CutControlIncomplete(CONTROL_START, [ct], n);
  }

  lemma CutOfAppend<T>(a: seq<T>, b: seq<T>, n: nat)
    requires n <= |a + b|
    ensures n <= |a| ==> (a + b)[..n] == a[..n]
    ensures n >= |a| ==> (a + b)[..n] == a + b[..n - |a|]
  {
  }

  // ----- nothing is delivered before START -----

  /** The bytes of the first frame of s. */
  function Head(s: Bytes): Bytes
    requires ReadFrame(s).Control?
  {
    s[..|s| - |ReadFrame(s).rest|]
  }

  lemma HeadReadsAlone(s: Bytes)
    requires ReadFrame(s).Control?
    ensures s == Head(s) + ReadFrame(s).rest
    ensures ReadFrame(Head(s)) == Control(ReadFrame(s).ctype, ReadFrame(s).data, [])
  {
    var size := Unpack(s[4..8]);
    var h := Head(s);
    assert |h| == 8 + size;
    assert h[..4] == s[..4] && h[4..8] == s[4..8] && h[8..8 + size] == s[8..8 + size];
  }

  /** A READY that is accepted leaves the deliveries to the frames after it. */
  lemma ReadyDefers(s: Bytes, started: bool, ct: Bytes)
    requires Packable(ct) && ReadFrame(s).Control? && ReadFrame(s).ctype == CONTROL_READY &&
        ct in Split(ReadFrame(s).data)
    ensures Serve(s, started, ct).delivered == Serve(ReadFrame(s).rest, started, ct).delivered
  {
    AppendEmpty(Serve(ReadFrame(s).rest, started, ct).delivered);
  }

  /** Without START a delivering stream begins with START or with an accepted READY. */
  lemma FirstFrame(s: Bytes, ct: Bytes)
    requires Packable(ct) && Serve(s, false, ct).delivered != []
    ensures ReadFrame(s).Control?
    ensures var r := ReadFrame(s);
            || (r.ctype == CONTROL_READY && ct in Split(r.data))
            || (r.ctype == CONTROL_START && (r.data == [] || r.data == ct)
                && Serve(s, false, ct) == Serve(r.rest, true, ct))
  {
    var r := ReadFrame(s);
    if r.Control? {
      ResumeNothing([], [], Serve(r.rest, true, ct));
    }
  }

  /**
   * For any byte stream: if anything is delivered, the stream is some bytes that deliver nothing, then
   * an accepted START frame, then the bytes the deliveries come from.
   */
  lemma {:induction false} NothingBeforeStart(s: Bytes, ct: Bytes) returns (before: Bytes, after: Bytes)
    requires Packable(ct) && Serve(s, false, ct).delivered != []
    ensures s == before + after
    ensures Serve(before, false, ct).delivered == []
    ensures ReadFrame(after).Control? && ReadFrame(after).ctype == CONTROL_START
    ensures ReadFrame(after).data == [] || ReadFrame(after).data == ct
    ensures Serve(s, false, ct).delivered == Serve(ReadFrame(after).rest, true, ct).delivered
    decreases |s|
  {
    var r := ReadFrame(s);
    FirstFrame(s, ct);
    if r.ctype == CONTROL_START {
      before, after := [], s;
      AppendEmpty(s);
    } else {
      ReadyDefers(s, false, ct);
      var b, a := NothingBeforeStart(r.rest, ct);
      before := BehindReady(s, b, ct);
      after := a;
      AppendAssoc(Head(s), b, a);
    }
  }

  /** Putting the READY frame of s in front of a stretch that delivers nothing still delivers nothing. */
  lemma BehindReady(s: Bytes, b: Bytes, ct: Bytes) returns (before: Bytes)
    requires Packable(ct) && ReadFrame(s).Control? && ReadFrame(s).ctype == CONTROL_READY &&
        ct in Split(ReadFrame(s).data)
    requires Serve(b, false, ct).delivered == []
    ensures before == Head(s) + b && s == Head(s) + ReadFrame(s).rest
    ensures Serve(before, false, ct).delivered == []
  {
    HeadReadsAlone(s);
    before := Head(s) + b;
    ReadLocal(Head(s), b);
    assert [] + b == b;
    ReadyDefers(before, false, ct);
  }
}
