/** The dnstap reader (services/src/cadns/collector/dnstap.py): a small protobuf decoder. */
module Dnstap {
  import opened Common

  datatype Error = BadVarint | TruncatedField | UnsupportedWireType | NotANumber

  // ----- varints -----

  /** A varint is cut off after shift 63: at most ten bytes. */
  const VARINT_MAX: nat := 10

  /** The base-128 number at the front of b, of at most n bytes, and what follows. */
  function Varint(b: Bytes, n: nat): (r: Result<(nat, Bytes), Error>)
    ensures r.Ok? ==> |r.value.1| < |b| <= |r.value.1| + n
    decreases n
  {
    if b == [] || n == 0 then Err(BadVarint)
    else if b[0] < 128 then Ok((Low(b[0]), b[1..]))
    else
      match Varint(b[1..], n - 1)
      case Err(e) => Err(e)
      case Ok((high, rest)) => Ok((Low(b[0]) + 128 * high, rest))
  }

  function EncodeVarint(v: nat): (b: Bytes)
    ensures b != []
  {
    if v < 128 then [v as Byte] else [(v % 128 + 128) as Byte] + EncodeVarint(v / 128)
  }

  /** v takes at most n bytes. */
  predicate Fits(v: nat, n: nat) {
    n > 0 && (v < 128 || Fits(v / 128, n - 1))
  }

  function Pow128(n: nat): nat {
    if n == 0 then 1 else 128 * Pow128(n - 1)
  }

  lemma {:induction false} FitsIffBelow(v: nat, n: nat)
    requires n > 0
    ensures Fits(v, n) <==> v < Pow128(n)
  {
    if n > 1 {
      FitsIffBelow(v / 128, n - 1);
      assert Pow128(n - 1) >= 1 by { PowPositive(n - 1); }
    } else {
      assert Pow128(1) == 128;
    }
  }

  lemma {:induction false} PowPositive(n: nat)
    ensures Pow128(n) >= 1
  {
    if n > 0 {
      PowPositive(n - 1);
    }
  }

  /** Ten bytes hold exactly the values below 2^70. */
  lemma TenBytesHold(v: nat)
    ensures Fits(v, VARINT_MAX) <==> v < 0x40_0000_0000_0000_0000
  {
    FitsIffBelow(v, VARINT_MAX);
    assert Pow128(2) == 128 * 128;
    assert Pow128(4) == 128 * 128 * Pow128(2);
    assert Pow128(6) == 128 * 128 * Pow128(4);
    assert Pow128(8) == 128 * 128 * Pow128(6);
    assert Pow128(10) == 128 * 128 * Pow128(8);
  }

  /** Varint decoding inverts base-128 encoding, whatever follows. */
  lemma {:induction false} VarintRoundTrip(v: nat, n: nat, t: Bytes)
    requires Fits(v, n)
    ensures Varint(EncodeVarint(v) + t, n) == Ok((v, t))
    decreases n
  {
    var b := EncodeVarint(v) + t;
    if v < 128 {
      assert b[0] == v as Byte && b[1..] == t;
    } else {
      assert b[1..] == EncodeVarint(v / 128) + t;
      VarintRoundTrip(v / 128, n - 1, t);
    }
  }

  /** A varint once readable reads the same whatever follows. */
  lemma {:induction false} VarintLocal(b: Bytes, n: nat, t: Bytes)
    requires Varint(b, n).Ok?
    ensures Varint(b + t, n) == Ok((Varint(b, n).value.0, Varint(b, n).value.1 + t))
    decreases n
  {
    assert (b + t)[1..] == b[1..] + t;
    if b[0] >= 128 {
      VarintLocal(b[1..], n - 1, t);
    }
  }

  /** byte & 0x7F. */
  function Low(b: Byte): (n: nat) {
    if b < 128 then b as nat else b as nat - 128
  }

  /** x << shift. */
  function LeftShift(x: nat, shift: nat): nat {
    if shift == 0 then x else 2 * LeftShift(x, shift - 1)
  }

  lemma {:induction false} ShiftAdds(x: nat, y: nat, shift: nat)
    ensures LeftShift(x + y, shift) == LeftShift(x, shift) + LeftShift(y, shift)
  {
    if shift > 0 {
      ShiftAdds(x, y, shift - 1);
    }
  }

  lemma {:induction false} ShiftBySeven(x: nat, shift: nat)
    ensures LeftShift(128 * x, shift) == LeftShift(x, shift + 7)
  {
    if shift > 0 {
      ShiftBySeven(x, shift - 1);
    } else {
      assert LeftShift(x, 1) == 2 * x && LeftShift(x, 2) == 4 * x && LeftShift(x, 3) == 8 * x;
      assert LeftShift(x, 4) == 16 * x && LeftShift(x, 5) == 32 * x && LeftShift(x, 6) == 64 * x;
    }
  }

  /** A decoding of the bytes still to come, at `shift`, on top of what was read. */
  ghost function OnTop(value: nat, shift: nat, r: Result<(nat, Bytes), Error>): Result<(nat, Bytes), Error> {
    if r.Ok? then Ok((value + LeftShift(r.value.0, shift), r.value.1)) else r
  }

  /** Reading the byte at pos: seven bits at `shift`, the rest seven places higher. */
  lemma OnTopStep(value: nat, shift: nat, buf: Bytes, pos: nat, n: nat)
    requires pos < |buf| && n > 0
    ensures var low := Low(buf[pos]);
            OnTop(value, shift, Varint(buf[pos..], n)) ==
              if buf[pos] < 128 then Ok((value + LeftShift(low, shift), buf[pos + 1..]))
              else OnTop(value + LeftShift(low, shift), shift + 7, Varint(buf[pos + 1..], n - 1))
  {
    assert buf[pos..][1..] == buf[pos + 1..];
    var low := Low(buf[pos]);
    if buf[pos] >= 128 && Varint(buf[pos + 1..], n - 1).Ok? {
      var high := Varint(buf[pos + 1..], n - 1).value.0;
      ShiftAdds(low, 128 * high, shift);
      ShiftBySeven(high, shift);
    }
  }

  /**
   * _varint, with its loop. Each round adds seven bits above those already read, so the source's
   * bitwise or is an addition.
   */
  method VarintLoop(buf: Bytes, start: nat) returns (ok: bool, value: nat, pos: nat)
    requires start <= |buf|
    ensures ok ==> start < pos <= |buf| && pos <= start + VARINT_MAX
    ensures Varint(buf[start..], VARINT_MAX) == if ok then Ok((value, buf[pos..])) else Err(BadVarint)
  {
    var shift: nat;
    ok, value, shift, pos := false, 0, 0, start;
    ghost var spec, left := Varint(buf[start..], VARINT_MAX), VARINT_MAX;
    while !ok
      invariant start <= pos <= |buf| && (ok ==> start < pos)
      invariant pos == start + VARINT_MAX - left && shift == 7 * (VARINT_MAX - left) && left >= 0
      invariant if ok then spec == Ok((value, buf[pos..])) else spec == OnTop(value, shift, Varint(buf[pos..], left))
      decreases |buf| - pos, !ok
    {
      if pos >= |buf| || shift > 63 {
        VarintStops(buf, pos, left);
        return;
      }
      OnTopStep(value, shift, buf, pos, left);
      var byte := buf[pos];
      pos, left := pos + 1, left - 1;
      value, shift, ok := value + LeftShift(Low(byte), shift), shift + 7, byte < 128;
    }
  }

  lemma VarintStops(buf: Bytes, pos: nat, n: nat)
    requires pos <= |buf| && (pos == |buf| || n == 0)
    ensures Varint(buf[pos..], n) == Err(BadVarint)
  {
  }

  // ----- fields -----

  /** Varint and fixed-width fields give numbers, length-delimited ones bytes. */
  datatype Value = Num(n: nat) | Blob(b: Bytes)

  datatype Field = Field(number: nat, value: Value)

  function LittleEndian(b: Bytes): nat {
    if b == [] then 0 else b[0] as nat + 256 * LittleEndian(b[1..])
  }

  /** The field at the front of b, and what follows. */
  function TakeField(b: Bytes): (r: Result<(Field, Bytes), Error>)
    ensures r.Ok? ==> |r.value.1| < |b|
  {
    match Varint(b, VARINT_MAX)
    case Err(e) => Err(e)
    case Ok((key, rest)) => TakeValue(key / 8, key % 8, rest)
  }

  function TakeValue(number: nat, wireType: nat, b: Bytes): (r: Result<(Field, Bytes), Error>)
    ensures r.Ok? ==> |r.value.1| <= |b|
  {
    if wireType == 0 then
      match Varint(b, VARINT_MAX)
      case Err(e) => Err(e)
      case Ok((v, rest)) => Ok((Field(number, Num(v)), rest))
    else if wireType == 1 then
      if |b| < 8 then Err(TruncatedField) else Ok((Field(number, Num(LittleEndian(b[..8]))), b[8..]))
    else if wireType == 2 then
      match Varint(b, VARINT_MAX)
      case Err(e) => Err(e)
      case Ok((length, rest)) =>
        if |rest| < length then Err(TruncatedField) else Ok((Field(number, Blob(rest[..length])), rest[length..]))
    else if wireType == 5 then
      if |b| < 4 then Err(TruncatedField) else Ok((Field(number, Num(LittleEndian(b[..4]))), b[4..]))
    else Err(UnsupportedWireType)
  }

  /** iter_fields run to its end: all fields, or the error it raises. */
  function IterFields(b: Bytes): Result<seq<Field>, Error>
    decreases |b|
  {
    if b == [] then Ok([])
    else
      match TakeField(b)
      case Err(e) => Err(e)
      case Ok((f, rest)) => Prepend(f, IterFields(rest))
  }

  function Prepend(f: Field, r: Result<seq<Field>, Error>): Result<seq<Field>, Error> {
    if r.Ok? then Ok([f] + r.value) else r
  }

  lemma ValueLocal(number: nat, wireType: nat, b: Bytes, t: Bytes)
    requires TakeValue(number, wireType, b).Ok?
    ensures var (f, rest) := TakeValue(number, wireType, b).value;
            TakeValue(number, wireType, b + t) == Ok((f, rest + t))
  {
    if wireType == 0 {
      VarintLocal(b, VARINT_MAX, t);
    } else if wireType == 1 {
      assert (b + t)[..8] == b[..8] && (b + t)[8..] == b[8..] + t;
    } else if wireType == 2 {
      VarintLocal(b, VARINT_MAX, t);
      var (length, rest) := Varint(b, VARINT_MAX).value;
      assert (rest + t)[..length] == rest[..length] && (rest + t)[length..] == rest[length..] + t;
    } else {
      assert (b + t)[..4] == b[..4] && (b + t)[4..] == b[4..] + t;
    }
  }

  lemma FieldLocal(b: Bytes, t: Bytes)
    requires TakeField(b).Ok?
    ensures var (f, rest) := TakeField(b).value; TakeField(b + t) == Ok((f, rest + t))
  {
    VarintLocal(b, VARINT_MAX, t);
    var (key, rest) := Varint(b, VARINT_MAX).value;
    ValueLocal(key / 8, key % 8, rest, t);
  }

  /** A decoding with fields already read in front. */
  function Prefixed(fs: seq<Field>, r: Result<seq<Field>, Error>): Result<seq<Field>, Error> {
    if r.Ok? then Ok(fs + r.value) else r
  }

  /** Decoding distributes over concatenation after a well-formed buffer. */
  lemma {:induction false} FieldsConcat(a: Bytes, b: Bytes)
    requires IterFields(a).Ok?
    ensures IterFields(a + b) == Prefixed(IterFields(a).value, IterFields(b))
    decreases |a|
  {
    if a == [] {
      AppendEmpty(b);
      if IterFields(b).Ok? {
        AppendEmpty(IterFields(b).value);
      }
    } else {
      FieldLocal(a, b);
      var (f, rest) := TakeField(a).value;
      FieldsConcat(rest, b);
      if IterFields(b).Ok? {
        AppendAssoc([f], IterFields(rest).value, IterFields(b).value);
      }
    }
  }

  /** One round of iter_fields after the key: the value at `pos` and the position behind it. */
  method ReadValue(buf: Bytes, start: nat, number: nat, wireType: nat) returns (r: Result<(Value, nat), Error>)
    requires start <= |buf|
    ensures r.Ok? ==> start <= r.value.1 <= |buf|
    ensures TakeValue(number, wireType, buf[start..]) ==
            if r.Ok? then Ok((Field(number, r.value.0), buf[r.value.1..])) else Err(r.error)
  {
    var pos := start;
    if wireType == 0 {
      var ok, v, end := VarintLoop(buf, pos);
      if !ok {
        return Err(BadVarint);
      }
      return Ok((Num(v), end));
    } else if wireType == 1 || wireType == 5 {
      var width := if wireType == 1 then 8 else 4;
      if pos + width > |buf| {
        return Err(TruncatedField);
      }
      assert buf[start..][..width] == buf[pos..pos + width] && buf[start..][width..] == buf[pos + width..];
      return Ok((Num(LittleEndian(buf[pos..pos + width])), pos + width));
    } else if wireType == 2 {
      var ok, length;
      ok, length, pos := VarintLoop(buf, pos);
      if !ok {
        return Err(BadVarint);
      }
      if pos + length > |buf| {
        return Err(TruncatedField);
      }
      assert buf[pos..][..length] == buf[pos..pos + length] && buf[pos..][length..] == buf[pos + length..];
      return Ok((Blob(buf[pos..pos + length]), pos + length));
    } else {
      return Err(UnsupportedWireType);
    }
  }

  /** iter_fields, with its loop. */
  method IterFieldsLoop(buf: Bytes) returns (r: Result<seq<Field>, Error>)
    ensures r == IterFields(buf)
  {
    var pos, fs := 0, [];
    assert buf[0..] == buf;
    PrefixedEmpty(IterFields(buf));
    while pos < |buf|
      invariant 0 <= pos <= |buf|
      invariant IterFields(buf) == Prefixed(fs, IterFields(buf[pos..]))
    {
      var ok, key, valuePos := VarintLoop(buf, pos);
      if !ok {
        return Err(BadVarint);
      }
      var number, wireType := key / 8, key % 8;
      var value := ReadValue(buf, valuePos, number, wireType);
      if value.Err? {
        return Err(value.error);
      }
      PrefixedAgain(fs, Field(number, value.value.0), IterFields(buf[value.value.1..]));
      fs := fs + [Field(number, value.value.0)];
      pos := value.value.1;
    }
    AppendEmpty(fs);
    return Ok(fs);
  }

  lemma PrefixedEmpty(r: Result<seq<Field>, Error>)
    ensures Prefixed([], r) == r
  {
    if r.Ok? {
      AppendEmpty(r.value);
    }
  }

  lemma PrefixedAgain(fs: seq<Field>, f: Field, r: Result<seq<Field>, Error>)
    ensures Prefixed(fs, Prepend(f, r)) == Prefixed(fs + [f], r)
  {
    if r.Ok? {
      AppendAssoc(fs, [f], r.value);
    }
  }

  // ----- encoding -----

  datatype Wire =
    | VarintField(number: nat, v: nat)
    | Fixed64(number: nat, bytes: Bytes)
    | Delimited(number: nat, bytes: Bytes)
    | Fixed32(number: nat, bytes: Bytes)

  function WireType(w: Wire): nat {
    match w
    case VarintField(_, _) => 0
    case Fixed64(_, _) => 1
    case Delimited(_, _) => 2
    case Fixed32(_, _) => 5
  }

  predicate ValidWire(w: Wire) {
    && Fits(w.number * 8 + WireType(w), VARINT_MAX)
    && match w
       case VarintField(_, v) => Fits(v, VARINT_MAX)
       case Fixed64(_, b) => |b| == 8
       case Delimited(_, b) => Fits(|b|, VARINT_MAX)
       case Fixed32(_, b) => |b| == 4
  }

  function Body(w: Wire): Bytes {
    match w
    case VarintField(_, v) => EncodeVarint(v)
    case Delimited(_, b) => EncodeVarint(|b|) + b
    case _ => w.bytes
  }

  function EncodeWire(w: Wire): Bytes {
    EncodeVarint(w.number * 8 + WireType(w)) + Body(w)
  }

  function Meaning(w: Wire): Field {
    match w
    case VarintField(number, v) => Field(number, Num(v))
    case Delimited(number, b) => Field(number, Blob(b))
    case _ => Field(w.number, Num(LittleEndian(w.bytes)))
  }

  function EncodeAll(ws: seq<Wire>): Bytes {
    if ws == [] then [] else EncodeWire(ws[0]) + EncodeAll(ws[1..])
  }

  function Meanings(ws: seq<Wire>): seq<Field> {
    if ws == [] then [] else [Meaning(ws[0])] + Meanings(ws[1..])
  }

  lemma TakesKeyed(key: nat, body: Bytes)
    requires Fits(key, VARINT_MAX)
    ensures TakeField(EncodeVarint(key) + body) == TakeValue(key / 8, key % 8, body)
  {
    VarintRoundTrip(key, VARINT_MAX, body);
  }

  lemma TakesDelimited(number: nat, b: Bytes, t: Bytes)
    requires Fits(|b|, VARINT_MAX)
    ensures TakeValue(number, 2, EncodeVarint(|b|) + b + t) == Ok((Field(number, Blob(b)), t))
  {
    AppendAssoc(EncodeVarint(|b|), b, t);
    VarintRoundTrip(|b|, VARINT_MAX, b + t);
    SliceOfAppend(b, t, 0, |b|);
  }

  lemma TakesBody(w: Wire, t: Bytes)
    requires ValidWire(w)
    ensures TakeValue(w.number, WireType(w), Body(w) + t) == Ok((Meaning(w), t))
  {
    match w
    case VarintField(_, v) => VarintRoundTrip(v, VARINT_MAX, t);
    case Delimited(number, b) => TakesDelimited(number, b, t);
    case Fixed64(_, b) => SliceOfAppend(b, t, 0, 8);
    case Fixed32(_, b) => SliceOfAppend(b, t, 0, 4);
  }

  lemma TakesWire(w: Wire, t: Bytes)
    requires ValidWire(w)
    ensures TakeField(EncodeWire(w) + t) == Ok((Meaning(w), t))
  {
    var key := w.number * 8 + WireType(w);
    assert key / 8 == w.number && key % 8 == WireType(w);
    AppendAssoc(EncodeVarint(key), Body(w), t);
    TakesKeyed(key, Body(w) + t);
    TakesBody(w, t);
  }

  /** iter_fields inverts field encoding. */
  lemma {:induction false} FieldsRoundTrip(ws: seq<Wire>)
    requires forall i :: 0 <= i < |ws| ==> ValidWire(ws[i])
    ensures IterFields(EncodeAll(ws)) == Ok(Meanings(ws))
    decreases |ws|
  {
    if ws != [] {
      TakesWire(ws[0], EncodeAll(ws[1..]));
      FieldsRoundTrip(ws[1..]);
    }
  }

  // ----- what is refused -----

  /** Wire types other than varint, 64-bit, length-delimited and 32-bit are an error. */
  lemma OtherWireTypesRefused(key: nat, body: Bytes)
    requires Fits(key, VARINT_MAX) && key % 8 !in {0, 1, 2, 5}
    ensures IterFields(EncodeVarint(key) + body) == Err(UnsupportedWireType)
  {
    TakesKeyed(key, body);
  }

  lemma {:induction false} CutVarint(v: nat, k: nat, n: nat)
    requires n < |EncodeVarint(v)|
    ensures Varint(EncodeVarint(v)[..n], k) == Err(BadVarint)
    decreases n
  {
    if n > 0 && k > 0 {
      assert EncodeVarint(v)[..n][1..] == EncodeVarint(v / 128)[..n - 1];
      CutVarint(v / 128, k - 1, n - 1);
    }
  }

  lemma CutBody(w: Wire, n: nat)
    requires ValidWire(w) && n < |Body(w)|
    ensures TakeValue(w.number, WireType(w), Body(w)[..n]).Err?
  {
    match w
    case VarintField(_, v) => CutVarint(v, VARINT_MAX, n);
    case Delimited(_, b) =>
      var size := EncodeVarint(|b|);
      if n < |size| {
        assert Body(w)[..n] == size[..n];
        CutVarint(|b|, VARINT_MAX, n);
      } else {
        assert Body(w)[..n] == size + b[..n - |size|];
        VarintRoundTrip(|b|, VARINT_MAX, b[..n - |size|]);
      }
    case Fixed64(_, _) =>
    case Fixed32(_, _) =>
  }

  /** A field cut anywhere inside is an error, never a shorter field. */
  lemma CutFieldRefused(w: Wire, n: nat)
    requires ValidWire(w) && 0 < n < |EncodeWire(w)|
    ensures IterFields(EncodeWire(w)[..n]).Err?
  {
    var key := w.number * 8 + WireType(w);
    assert key / 8 == w.number && key % 8 == WireType(w);
    var k := EncodeVarint(key);
    if n < |k| {
      assert EncodeWire(w)[..n] == k[..n];
      CutVarint(key, VARINT_MAX, n);
    } else {
      assert EncodeWire(w)[..n] == k + Body(w)[..n - |k|];
      TakesKeyed(key, Body(w)[..n - |k|]);
      CutBody(w, n - |k|);
    }
  }

  // ----- decode_client_response -----

  const DNSTAP_TYPE_MESSAGE := 1
  const MESSAGE_CLIENT_RESPONSE := 6

  datatype ClientResponse = ClientResponse(time: Option<real>, wire: Bytes)

  /** Seconds and nanoseconds as one number of seconds. */
  function Instant(seconds: nat, nanoseconds: nat): real {
    seconds as real + nanoseconds as real / 1_000_000_000.0
  }

  /** Last-wins: the last field numbered n that `wanted` accepts. */
  function LastValue(fs: seq<Field>, n: nat, wanted: Value -> bool): Option<Value> {
    if fs == [] then None
    else
      var f := fs[|fs| - 1];
      if f.number == n && wanted(f.value) then Some(f.value) else LastValue(fs[..|fs| - 1], n, wanted)
  }

  const Any: Value -> bool := (v: Value) => true
  const IsBlob: Value -> bool := (v: Value) => v.Blob?
  const IsNum: Value -> bool := (v: Value) => v.Num?

  lemma {:induction false} LastValueSatisfies(fs: seq<Field>, n: nat, wanted: Value -> bool)
    ensures LastValue(fs, n, wanted).Some? ==> wanted(LastValue(fs, n, wanted).value)
    decreases |fs|
  {
    if fs != [] {
      LastValueSatisfies(fs[..|fs| - 1], n, wanted);
    }
  }

  lemma LastValueStep(fs: seq<Field>, i: nat, n: nat, wanted: Value -> bool)
    requires i < |fs|
    ensures LastValue(fs[..i + 1], n, wanted) ==
            if fs[i].number == n && wanted(fs[i].value) then Some(fs[i].value) else LastValue(fs[..i], n, wanted)
  {
    assert fs[..i + 1][..i] == fs[..i];
  }

  /** The verdict on the fields of the inner message. */
  function Respond(fs: seq<Field>): Result<Option<ClientResponse>, Error> {
    var wire := LastValue(fs, 14, IsBlob);
    if LastValue(fs, 1, Any) != Some(Num(MESSAGE_CLIENT_RESPONSE)) || wire.None? then Ok(None)
    else
      var seconds, nanos := LastValue(fs, 12, Any), LastValue(fs, 13, IsNum);
      LastValueSatisfies(fs, 14, IsBlob);
      LastValueSatisfies(fs, 13, IsNum);
      if seconds.None? then Ok(Some(ClientResponse(None, wire.value.b)))
      else if seconds.value.Blob? then Err(NotANumber)
      else
        var ns := if nanos.Some? then nanos.value.n else 0;
        Ok(Some(ClientResponse(Some(Instant(seconds.value.n, ns)), wire.value.b)))
  }

  function DecodeMessage(message: Bytes): Result<Option<ClientResponse>, Error> {
    match IterFields(message)
    case Err(e) => Err(e)
    case Ok(fs) => Respond(fs)
  }

  /** What the fields of the frame lead to. */
  function Unwrap(fs: seq<Field>): Result<Option<ClientResponse>, Error> {
    var message := LastValue(fs, 14, IsBlob);
    LastValueSatisfies(fs, 14, IsBlob);
    if LastValue(fs, 15, Any) != Some(Num(DNSTAP_TYPE_MESSAGE)) || message.None? then Ok(None)
    else DecodeMessage(message.value.b)
  }

  function Decode(frame: Bytes): Result<Option<ClientResponse>, Error> {
    match IterFields(frame)
    case Err(e) => Err(e)
    case Ok(fs) => Unwrap(fs)
  }

  /** decode_client_response, with its two loops over last-wins variables. */
  method DecodeClientResponse(frame: Bytes) returns (r: Result<Option<ClientResponse>, Error>)
    ensures r == Decode(frame)
  {
    var outer := IterFieldsLoop(frame);
    if outer.Err? {
      return Err(outer.error);
    }
    var fs := outer.value;
    var dnstapType: Option<Value>, message: Option<Value> := None, None;
    for i := 0 to |fs|
      invariant dnstapType == LastValue(fs[..i], 15, Any)
      invariant message == LastValue(fs[..i], 14, IsBlob)
    {
      LastValueStep(fs, i, 15, Any);
      LastValueStep(fs, i, 14, IsBlob);
      if fs[i].number == 15 {
        dnstapType := Some(fs[i].value);
      } else if fs[i].number == 14 && fs[i].value.Blob? {
        message := Some(fs[i].value);
      }
    }
    assert fs[..|fs|] == fs;
    LastValueSatisfies(fs, 14, IsBlob);
    if dnstapType != Some(Num(DNSTAP_TYPE_MESSAGE)) || message.None? {
      return Ok(None);
    }
    r := DecodeInner(message.value.b);
  }

  method DecodeInner(message: Bytes) returns (r: Result<Option<ClientResponse>, Error>)
    ensures r == DecodeMessage(message)
  {
    var inner := IterFieldsLoop(message);
    if inner.Err? {
      return Err(inner.error);
    }
    var fs := inner.value;
    var messageType, seconds, nanos, wire := LastInner(fs);
    LastValueSatisfies(fs, 14, IsBlob);
    LastValueSatisfies(fs, 13, IsNum);
    if messageType != Some(Num(MESSAGE_CLIENT_RESPONSE)) || wire.None? {
      return Ok(None);
    }
    if seconds.None? {
      return Ok(Some(ClientResponse(None, wire.value.b)));
    }
    if seconds.value.Blob? {
      return Err(NotANumber);
    }
    var ns := if nanos.Some? then nanos.value.n else 0;
    r := Ok(Some(ClientResponse(Some(Instant(seconds.value.n, ns)), wire.value.b)));
  }

  /** The loop over the fields of the inner message. */
  method LastInner(fs: seq<Field>)
    returns (messageType: Option<Value>, seconds: Option<Value>, nanos: Option<Value>, wire: Option<Value>)
    ensures messageType == LastValue(fs, 1, Any)
    ensures seconds == LastValue(fs, 12, Any)
    ensures nanos == LastValue(fs, 13, IsNum)
    ensures wire == LastValue(fs, 14, IsBlob)
  {
    messageType, seconds, nanos, wire := None, None, None, None;
    for i := 0 to |fs|
      invariant messageType == LastValue(fs[..i], 1, Any)
      invariant seconds == LastValue(fs[..i], 12, Any)
      invariant nanos == LastValue(fs[..i], 13, IsNum)
      invariant wire == LastValue(fs[..i], 14, IsBlob)
    {
      LastValueStep(fs, i, 1, Any);
      LastValueStep(fs, i, 12, Any);
      LastValueStep(fs, i, 13, IsNum);
      LastValueStep(fs, i, 14, IsBlob);
      if fs[i].number == 1 {
        messageType := Some(fs[i].value);
      } else if fs[i].number == 12 {
        seconds := Some(fs[i].value);
      } else if fs[i].number == 13 && fs[i].value.Num? {
        nanos := Some(fs[i].value);
      } else if fs[i].number == 14 && fs[i].value.Blob? {
        wire := Some(fs[i].value);
      }
    }
    assert fs[..|fs|] == fs;
  }

  // ----- well-formed responses -----

  /** The low `width` bytes of n, least significant first. */
  function EncodeLittle(n: nat, width: nat): (b: Bytes)
    ensures |b| == width
  {
    if width == 0 then [] else [(n % 256) as Byte] + EncodeLittle(n / 256, width - 1)
  }

  function Pow256(n: nat): nat {
    if n == 0 then 1 else 256 * Pow256(n - 1)
  }

  lemma {:induction false} LittleRoundTrip(n: nat, width: nat)
    requires n < Pow256(width)
    ensures LittleEndian(EncodeLittle(n, width)) == n
    decreases width
  {
    if width > 0 {
      LittleRoundTrip(n / 256, width - 1);
    }
  }

  /** The inner message of a client response as a writer lays it out. */
  function ResponseMessage(seconds: nat, nanos: nat, wire: Bytes): seq<Wire> {
    [VarintField(1, 6), VarintField(12, seconds), Fixed32(13, EncodeLittle(nanos, 4)), Delimited(14, wire)]
  }

  function ResponseFrame(message: Bytes): seq<Wire> {
    [Delimited(14, message), VarintField(15, 1)]
  }

  lemma {:induction false} MeaningsAt(ws: seq<Wire>)
    ensures |Meanings(ws)| == |ws| && forall i :: 0 <= i < |ws| ==> Meanings(ws)[i] == Meaning(ws[i])
  {
    if ws != [] {
      MeaningsAt(ws[1..]);
    }
  }

  /** The last value is that of the last field with the number, if it is wanted. */
  lemma {:induction false} LastValueIs(fs: seq<Field>, n: nat, wanted: Value -> bool, k: nat)
    requires k < |fs| && fs[k].number == n && wanted(fs[k].value)
    requires forall i :: k < i < |fs| ==> fs[i].number != n
    ensures LastValue(fs, n, wanted) == Some(fs[k].value)
    decreases |fs|
  {
    if k < |fs| - 1 {
      LastValueIs(fs[..|fs| - 1], n, wanted, k);
    }
  }

  lemma MessageResponds(seconds: nat, nanos: nat, wire: Bytes)
    requires nanos < 4294967296
    ensures Respond(Meanings(ResponseMessage(seconds, nanos, wire))) ==
            Ok(Some(ClientResponse(Some(Instant(seconds, nanos)), wire)))
  {
    var fs := Meanings(ResponseMessage(seconds, nanos, wire));
    MeaningsAt(ResponseMessage(seconds, nanos, wire));
    assert Pow256(4) == 256 * (256 * (256 * (256 * Pow256(0))));
    LittleRoundTrip(nanos, 4);
    LastValueIs(fs, 1, Any, 0);
    LastValueIs(fs, 12, Any, 1);
    LastValueIs(fs, 13, IsNum, 2);
    LastValueIs(fs, 14, IsBlob, 3);
  }

  lemma FrameUnwraps(message: Bytes)
    ensures Unwrap(Meanings(ResponseFrame(message))) == DecodeMessage(message)
  {
    var fs := Meanings(ResponseFrame(message));
    MeaningsAt(ResponseFrame(message));
    LastValueIs(fs, 14, IsBlob, 0);
    LastValueIs(fs, 15, Any, 1);
  }

  lemma ResponseWires(seconds: nat, nanos: nat, wire: Bytes)
    requires Fits(seconds, VARINT_MAX) && Fits(|wire|, VARINT_MAX)
    ensures forall w :: w in ResponseMessage(seconds, nanos, wire) ==> ValidWire(w)
  {
  }

  /** A client response written as a dnstap frame is read back: its time, to the nanosecond, and its DNS message. */
  lemma ResponseRoundTrip(seconds: nat, nanos: nat, wire: Bytes)
    requires Fits(seconds, VARINT_MAX) && nanos < 4294967296 && Fits(|wire|, VARINT_MAX)
    requires Fits(|EncodeAll(ResponseMessage(seconds, nanos, wire))|, VARINT_MAX)
    ensures var r := Decode(EncodeAll(ResponseFrame(EncodeAll(ResponseMessage(seconds, nanos, wire)))));
            && r.Ok? && r.value.Some? && r.value.value.wire == wire && r.value.value.time.Some?
            && r.value.value.time.value * 1000000000.0 == (seconds * 1000000000 + nanos) as real
  {
    var message := EncodeAll(ResponseMessage(seconds, nanos, wire));
    ResponseWires(seconds, nanos, wire);
    FieldsRoundTrip(ResponseMessage(seconds, nanos, wire));
    FieldsRoundTrip(ResponseFrame(message));
    MessageResponds(seconds, nanos, wire);
    FrameUnwraps(message);
    InstantIs(seconds, nanos);
  }

  lemma InstantIs(seconds: nat, nanos: nat)
    ensures Instant(seconds, nanos) * 1000000000.0 == (seconds * 1000000000 + nanos) as real
  {
    assert (seconds * 1000000000) as real == seconds as real * 1000000000.0;
  }

  // ----- what is not a client response -----

  /** Field k is the last one numbered n that `wanted` accepts. */
  ghost predicate LastOf(fs: seq<Field>, n: nat, wanted: Value -> bool, k: int) {
    && 0 <= k < |fs| && fs[k].number == n && wanted(fs[k].value)
    && forall i :: k < i < |fs| ==> !(fs[i].number == n && wanted(fs[i].value))
  }

  lemma {:induction false} LastValueAt(fs: seq<Field>, n: nat, wanted: Value -> bool)
    ensures LastValue(fs, n, wanted).None? <==>
            forall i :: 0 <= i < |fs| ==> !(fs[i].number == n && wanted(fs[i].value))
    ensures forall k :: LastOf(fs, n, wanted, k) ==> LastValue(fs, n, wanted) == Some(fs[k].value)
    ensures LastValue(fs, n, wanted).Some? ==> exists k :: LastOf(fs, n, wanted, k)
    decreases |fs|
  {
    if fs != [] {
      var m := |fs| - 1;
      LastValueAt(fs[..m], n, wanted);
      if fs[m].number == n && wanted(fs[m].value) {
        assert LastOf(fs, n, wanted, m);
      } else {
        if k :| LastOf(fs[..m], n, wanted, k) {
          assert LastOf(fs, n, wanted, k);
        }
        forall k | LastOf(fs, n, wanted, k)
          ensures LastOf(fs[..m], n, wanted, k)
        {
        }
      }
    }
  }

  /** The last field numbered n, of whatever kind, is the number v. */
  ghost predicate LastIsNum(fs: seq<Field>, n: nat, v: nat) {
    exists k :: LastOf(fs, n, _ => true, k) && fs[k].value == Num(v)
  }

  ghost predicate HasBlob(fs: seq<Field>, n: nat) {
    exists k :: 0 <= k < |fs| && fs[k].number == n && fs[k].value.Blob?
  }

  lemma AnyIs(fs: seq<Field>, n: nat, v: nat)
    ensures LastIsNum(fs, n, v) <==> LastValue(fs, n, Any) == Some(Num(v))
  {
    LastValueAt(fs, n, Any);
    if k :| LastOf(fs, n, _ => true, k) && fs[k].value == Num(v) {
      assert LastOf(fs, n, Any, k);
    }
    if LastValue(fs, n, Any) == Some(Num(v)) {
      var k :| LastOf(fs, n, Any, k);
      assert LastOf(fs, n, _ => true, k);
    }
  }

  /**
   * A message is a client response exactly when its last type field is 6 and it carries a DNS message;
   * any other is skipped. It has a time exactly when it has a seconds field, whose last value must be
   * a number.
   */
  lemma RespondsIff(fs: seq<Field>)
    ensures Respond(fs) == Ok(None) <==> !(LastIsNum(fs, 1, 6) && HasBlob(fs, 14))
    ensures Respond(fs).Ok? && Respond(fs).value.Some? ==>
              var r := Respond(fs).value.value;
              && (r.time == None <==> forall i :: 0 <= i < |fs| ==> fs[i].number != 12)
              && exists k :: LastOf(fs, 14, IsBlob, k) && fs[k].value == Blob(r.wire)
    ensures Respond(fs).Err? ==> exists k :: LastOf(fs, 12, Any, k) && fs[k].value.Blob?
  {
    AnyIs(fs, 1, 6);
    LastValueAt(fs, 14, IsBlob);
    LastValueAt(fs, 12, Any);
    LastValueSatisfies(fs, 14, IsBlob);
  }

  /** A response's time is made of the last seconds and the last numeric nanoseconds, 0 without any. */
  lemma ResponseTime(fs: seq<Field>, seconds: nat, nanos: nat)
    requires Respond(fs).Ok? && Respond(fs).value.Some? && LastIsNum(fs, 12, seconds)
    requires || (exists k :: LastOf(fs, 13, IsNum, k) && fs[k].value == Num(nanos))
             || (nanos == 0 && forall i :: 0 <= i < |fs| ==> !(fs[i].number == 13 && fs[i].value.Num?))
    ensures Respond(fs).value.value.time.Some?
    ensures Respond(fs).value.value.time.value * 1000000000.0 == (seconds * 1000000000 + nanos) as real
  {
    AnyIs(fs, 12, seconds);
    LastValueAt(fs, 13, IsNum);
    InstantIs(seconds, nanos);
  }

  /** A frame is looked into exactly when its last type field is 1 and it carries a message: its last one. */
  lemma UnwrapsIff(fs: seq<Field>)
    ensures !(LastIsNum(fs, 15, 1) && HasBlob(fs, 14)) ==> Unwrap(fs) == Ok(None)
    ensures LastIsNum(fs, 15, 1) && HasBlob(fs, 14) ==>
              exists k :: LastOf(fs, 14, IsBlob, k) && fs[k].value.Blob? && Unwrap(fs) == DecodeMessage(fs[k].value.b)
  {
    AnyIs(fs, 15, 1);
    LastValueAt(fs, 14, IsBlob);
  }

  // ----- unknown fields -----

  lemma {:induction false} LastValueAppend(fs: seq<Field>, gs: seq<Field>, n: nat, wanted: Value -> bool)
    ensures LastValue(fs + gs, n, wanted) ==
            if LastValue(gs, n, wanted).Some? then LastValue(gs, n, wanted) else LastValue(fs, n, wanted)
    decreases |gs|
  {
    if gs == [] {
      AppendEmpty(fs);
    } else {
      var all := fs + gs;
      assert all[..|all| - 1] == fs + gs[..|gs| - 1];
      LastValueAppend(fs, gs[..|gs| - 1], n, wanted);
    }
  }

  lemma {:induction false} UnknownHasNone(us: seq<Field>, n: nat, wanted: Value -> bool)
    requires forall i :: 0 <= i < |us| ==> us[i].number != n
    ensures LastValue(us, n, wanted).None?
    decreases |us|
  {
    if us != [] {
      UnknownHasNone(us[..|us| - 1], n, wanted);
    }
  }

  ghost predicate Without(us: seq<Field>, numbers: set<nat>) {
    forall i :: 0 <= i < |us| ==> us[i].number !in numbers
  }

  lemma SkipsUnknown(xs: seq<Field>, us: seq<Field>, ys: seq<Field>, n: nat, wanted: Value -> bool)
    requires forall i :: 0 <= i < |us| ==> us[i].number != n
    ensures LastValue(xs + (us + ys), n, wanted) == LastValue(xs + ys, n, wanted)
  {
    UnknownHasNone(us, n, wanted);
    LastValueAppend(us, ys, n, wanted);
    LastValueAppend(xs, us + ys, n, wanted);
    LastValueAppend(xs, ys, n, wanted);
  }

  /** Fields after well-formed ones: what is decoded, or the error, comes from the rest alone. */
  lemma FieldsAround(x: Bytes, u: Bytes, y: Bytes)
    requires IterFields(x).Ok? && IterFields(u).Ok?
    ensures IterFields(x + (u + y)) == Prefixed(IterFields(x).value, Prefixed(IterFields(u).value, IterFields(y)))
    ensures IterFields(x + y) == Prefixed(IterFields(x).value, IterFields(y))
  {
    FieldsConcat(u, y);
    FieldsConcat(x, u + y);
    FieldsConcat(x, y);
  }

  /** Unknown fields at any field boundary of a frame are ignored, whatever follows them. */
  lemma UnknownOuterFieldsIgnored(x: Bytes, u: Bytes, y: Bytes)
    requires IterFields(x).Ok? && IterFields(u).Ok?
    requires Without(IterFields(u).value, {14, 15})
    ensures Decode(x + (u + y)) == Decode(x + y)
  {
    FieldsAround(x, u, y);
    if IterFields(y).Ok? {
      var xs, us, ys := IterFields(x).value, IterFields(u).value, IterFields(y).value;
      SkipsUnknown(xs, us, ys, 14, IsBlob);
      SkipsUnknown(xs, us, ys, 15, Any);
    }
  }

  /** Unknown fields at any field boundary of the inner message are ignored, whatever follows them. */
  lemma UnknownInnerFieldsIgnored(x: Bytes, u: Bytes, y: Bytes)
    requires IterFields(x).Ok? && IterFields(u).Ok?
    requires Without(IterFields(u).value, {1, 12, 13, 14})
    ensures DecodeMessage(x + (u + y)) == DecodeMessage(x + y)
  {
    FieldsAround(x, u, y);
    if IterFields(y).Ok? {
      RespondSkips(IterFields(x).value, IterFields(u).value, IterFields(y).value);
    }
  }

  lemma RespondSkips(xs: seq<Field>, us: seq<Field>, ys: seq<Field>)
    requires Without(us, {1, 12, 13, 14})
    ensures Respond(xs + (us + ys)) == Respond(xs + ys)
  {
    SkipsUnknown(xs, us, ys, 1, Any);
    SkipsUnknown(xs, us, ys, 12, Any);
    SkipsUnknown(xs, us, ys, 13, IsNum);
    SkipsUnknown(xs, us, ys, 14, IsBlob);
  }

  /** A frame sees its message field only through what the message decodes to. */
  lemma MessageMattersByMeaning(pre: Bytes, m: Bytes, m': Bytes, post: Bytes)
    requires IterFields(pre).Ok?
    requires ValidWire(Delimited(14, m)) && ValidWire(Delimited(14, m'))
    requires DecodeMessage(m) == DecodeMessage(m')
    ensures Decode(pre + (EncodeWire(Delimited(14, m)) + post)) == Decode(pre + (EncodeWire(Delimited(14, m')) + post))
  {
    OneField(m);
    OneField(m');
    FieldsAround(pre, EncodeWire(Delimited(14, m)), post);
    FieldsAround(pre, EncodeWire(Delimited(14, m')), post);
    if IterFields(post).Ok? {
      var xs, ys := IterFields(pre).value, IterFields(post).value;
      MessageField(xs, m, ys);
      MessageField(xs, m', ys);
    }
  }

  lemma OneField(m: Bytes)
    requires ValidWire(Delimited(14, m))
    ensures IterFields(EncodeWire(Delimited(14, m))) == Ok([Field(14, Blob(m))])
  {
    TakesWire(Delimited(14, m), []);
    AppendEmpty(EncodeWire(Delimited(14, m)));
    var fs: seq<Field> := [Field(14, Blob(m))];
    AppendEmpty(fs);
  }

  /** The last-wins values around one message field. */
  lemma MessageField(xs: seq<Field>, m: Bytes, ys: seq<Field>)
    ensures var all := xs + ([Field(14, Blob(m))] + ys);
            && LastValue(all, 15, Any) == LastValue(xs + ys, 15, Any)
            && LastValue(all, 14, IsBlob) ==
               if LastValue(ys, 14, IsBlob).Some? then LastValue(ys, 14, IsBlob) else Some(Blob(m))
  {
    var one := [Field(14, Blob(m))];
    assert one[..0] == [];
    SkipsUnknown(xs, one, ys, 15, Any);
    LastValueAppend(one, ys, 14, IsBlob);
    LastValueAppend(xs, one + ys, 14, IsBlob);
  }

  /** So a frame decodes the same with unknown fields inserted anywhere in its message. */
  lemma UnknownFieldsInMessageIgnored(pre: Bytes, x: Bytes, u: Bytes, y: Bytes, post: Bytes)
    requires IterFields(pre).Ok? && IterFields(x).Ok? && IterFields(u).Ok?
    requires Without(IterFields(u).value, {1, 12, 13, 14})
    requires ValidWire(Delimited(14, x + (u + y))) && ValidWire(Delimited(14, x + y))
    ensures Decode(pre + (EncodeWire(Delimited(14, x + (u + y))) + post)) ==
            Decode(pre + (EncodeWire(Delimited(14, x + y)) + post))
  {
    UnknownInnerFieldsIgnored(x, u, y);
    MessageMattersByMeaning(pre, x + (u + y), x + y, post);
  }
}
