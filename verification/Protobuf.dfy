/**
 Protocol Buffers wire format as the telemetry decoder reads it (app/analytics.py).
 */
module Protobuf {
  import opened Wrappers
  import opened Positional

  datatype DecodeError = InvalidVarint | UnsupportedWireType(wire: nat)

  // ----- varints -----

  /** The sender's varint: seven bits a byte, least significant first. */
  function EncodeVarint(v: nat): (e: seq<Byte>)
    ensures |e| > 0
  {
    if v < 128 then [v] else [v % 128 + 128] + EncodeVarint(v / 128)
  }

  /** The varint starting at pos, and the position after it; at most `budget` bytes are read. */
  function VarintAt(data: seq<Byte>, pos: nat, budget: nat): (r: Option<(nat, nat)>)
    ensures r.Some? ==> pos < r.value.1 <= |data| && r.value.1 <= pos + budget
    decreases |data| - pos
  {
    if budget == 0 || pos >= |data| then None
    else if data[pos] < 128 then Some((data[pos], pos + 1))
    else
      match VarintAt(data, pos + 1, budget - 1)
      case None => None
      case Some((high, end)) => Some((data[pos] - 128 + 128 * high, end))
  }

  /** Ten bytes: the shift runs over 0, 7, ..., 63. */
  const MAX_VARINT := 10

  function Varint(data: seq<Byte>, pos: nat): (r: Result<(nat, nat), DecodeError>)
    ensures r.Ok? ==> pos < r.value.1 <= |data|
  {
    match VarintAt(data, pos, MAX_VARINT)
    case None => Err(InvalidVarint)
    case Some(p) => Ok(p)
  }

  /** Reading fails exactly when none of the next ten bytes ends the varint. */
  lemma {:induction false} VarintFailsIff(data: seq<Byte>, pos: nat, budget: nat)
    ensures VarintAt(data, pos, budget).None?
            <==> forall j: nat :: pos <= j < pos + budget && j < |data| ==> data[j] >= 128
    decreases budget
  {
    if budget > 0 && pos < |data| {
      VarintFailsIff(data, pos + 1, budget - 1);
    }
  }

  /** The bytes e stand in data at pos. */
  predicate HasAt(data: seq<Byte>, pos: nat, e: seq<Byte>) {
    pos + |e| <= |data| && data[pos..pos + |e|] == e
  }

  lemma HasParts(data: seq<Byte>, pos: nat, a: seq<Byte>, b: seq<Byte>)
    requires HasAt(data, pos, a + b)
    ensures HasAt(data, pos, a) && HasAt(data, pos + |a|, b)
  {
    assert data[pos..pos + |a|] == (a + b)[..|a|];
    assert data[pos + |a|..pos + |a| + |b|] == (a + b)[|a|..];
  }

  lemma {:induction false} VarintInverse(data: seq<Byte>, pos: nat, v: nat, budget: nat)
    requires budget > 0 && v < Pow(128, budget) && HasAt(data, pos, EncodeVarint(v))
    ensures VarintAt(data, pos, budget) == Some((v, pos + |EncodeVarint(v)|))
    decreases budget
  {
    assert data[pos] == data[pos..pos + |EncodeVarint(v)|][0];
    if v >= 128 {
      HasParts(data, pos, [v % 128 + 128], EncodeVarint(v / 128));
      DivBound(v, 128, Pow(128, budget - 1));
      VarintInverse(data, pos + 1, v / 128, budget - 1);
    }
  }

  /** read_varint inverts the encoder for every value below 2^64, whatever surrounds it. */
  lemma VarintRoundTrip(data: seq<Byte>, pos: nat, v: nat)
    requires v < 0x1_0000_0000_0000_0000 && HasAt(data, pos, EncodeVarint(v))
    ensures Varint(data, pos) == Ok((v, pos + |EncodeVarint(v)|))
  {
    assert Pow(128, 10) == 0x40_0000_0000_0000_0000;
    VarintInverse(data, pos, v, 10);
  }

  lemma ShiftedSum(value: nat, p: nat, low: nat, high: nat)
    ensures (value + low * p) + (128 * p) * high == value + p * (low + 128 * high)
  {
    assert p * (low + 128 * high) == p * low + p * (128 * high);
    assert p * (128 * high) == (128 * p) * high by { MulAssoc(high, p, 128); }
  }

  /** The rest of a varint, read after n bytes that contributed `value`. */
  function Resumed(data: seq<Byte>, pos: nat, n: nat, value: nat): Option<(nat, nat)>
    requires n <= MAX_VARINT
  {
    match VarintAt(data, pos, MAX_VARINT - n)
    case None => None
    case Some((high, end)) => Some((value + Pow(128, n) * high, end))
  }

  lemma ResumedStep(data: seq<Byte>, pos: nat, n: nat, value: nat)
    requires n < MAX_VARINT && pos < |data| && value < Pow(128, n)
    ensures value + data[pos] % 128 * Pow(128, n) < Pow(128, n + 1)
    ensures Resumed(data, pos, n, value)
            == if data[pos] < 128 then Some((value + data[pos] % 128 * Pow(128, n), pos + 1))
               else Resumed(data, pos + 1, n + 1, value + data[pos] % 128 * Pow(128, n))
  {
    var byte, p := data[pos], Pow(128, n);
    NextBelow(byte % 128, 128, p, value);
    assert Pow(128, n + 1) == 128 * p;
    var rest := VarintAt(data, pos + 1, MAX_VARINT - n - 1);
    if byte < 128 {
      assert byte % 128 == byte && p * byte == byte * p;
    } else if rest.Some? {
      assert byte % 128 == byte - 128;
      ShiftedSum(value, p, byte - 128, rest.value.0);
    }
  }

  /**
   The reading loop. Bits already read never overlap the next seven, so adding the
   shifted byte is what the program's bitwise-or does.
   */
  method ReadVarint(data: seq<Byte>, start: nat) returns (r: Result<(nat, nat), DecodeError>)
    ensures r == Varint(data, start)
  {
    var pos: nat, n: nat, value: nat := start, 0, 0;
    while pos < |data|
      invariant n < MAX_VARINT && value < Pow(128, n)
      invariant Resumed(data, start, 0, 0) == Resumed(data, pos, n, value)
    {
      var byte := data[pos];
      ResumedStep(data, pos, n, value);
      pos := pos + 1;
      value := value + byte % 128 * Pow(128, n);
      if byte < 128 {
        return Ok((value, pos));
      }
      n := n + 1;
      if 7 * n > 63 { break; }
    }
    r := Err(InvalidVarint);
  }

  // ----- fields -----

  datatype Value = Int(v: nat) | Bytes(b: seq<Byte>)

  datatype Field = Field(number: nat, wire: nat, value: Value)

  function Slice(data: seq<Byte>, lo: nat, hi: nat): seq<Byte>
    requires lo <= hi
  {
    if lo >= |data| then [] else if hi >= |data| then data[lo..] else data[lo..hi]
  }

  /** The value of a field whose key has been read. */
  function PayloadAt(data: seq<Byte>, p: nat, number: nat, wire: nat): (r: Result<(Field, nat), DecodeError>)
    ensures r.Ok? ==> p <= r.value.1
  {
    if wire == 0 then
      (match Varint(data, p) case Err(e) => Err(e) case Ok((v, q)) => Ok((Field(number, wire, Int(v)), q)))
    else if wire == 1 then Ok((Field(number, wire, Bytes(Slice(data, p, p + 8))), p + 8))
    else if wire == 2 then
      (match Varint(data, p)
       case Err(e) => Err(e)
       case Ok((n, q)) => Ok((Field(number, wire, Bytes(Slice(data, q, q + n))), q + n)))
    else if wire == 5 then Ok((Field(number, wire, Bytes(Slice(data, p, p + 4))), p + 4))
    else Err(UnsupportedWireType(wire))
  }

  /** One field at pos and the position after it, which may lie beyond truncated data. */
  function FieldAt(data: seq<Byte>, pos: nat): (r: Result<(Field, nat), DecodeError>)
    ensures r.Ok? ==> pos < r.value.1 && pos < |data|
  {
    match Varint(data, pos)
    case Err(e) => Err(e)
    case Ok((key, p)) => PayloadAt(data, p, key / 8, key % 8)
  }

  /** Every field from pos on. */
  function FieldsFrom(data: seq<Byte>, pos: nat): Result<seq<Field>, DecodeError>
    decreases |data| - pos
  {
    if pos >= |data| then Ok([]) else
    match FieldAt(data, pos)
    case Err(e) => Err(e)
    case Ok((f, next)) =>
      match FieldsFrom(data, next)
      case Err(e) => Err(e)
      case Ok(fs) => Ok([f] + fs)
  }

  /** A field the sender can produce: its key and its integers fit in 64 bits. */
  predicate Sendable(f: Field) {
    && f.number * 8 + f.wire < 0x1_0000_0000_0000_0000
    && match f.wire
       case 0 => f.value.Int? && f.value.v < 0x1_0000_0000_0000_0000
       case 1 => f.value.Bytes? && |f.value.b| == 8
       case 2 => f.value.Bytes? && |f.value.b| < 0x1_0000_0000_0000_0000
       case 5 => f.value.Bytes? && |f.value.b| == 4
       case _ => false
  }

  predicate AllSendable(fs: seq<Field>) {
    fs != [] ==> Sendable(fs[0]) && AllSendable(fs[1..])
  }

  function EncodePayload(f: Field): seq<Byte>
    requires Sendable(f)
  {
    match f.value
    case Int(v) => EncodeVarint(v)
    case Bytes(b) => if f.wire == 2 then EncodeVarint(|b|) + b else b
  }

  function EncodeField(f: Field): seq<Byte>
    requires Sendable(f)
  {
    EncodeVarint(f.number * 8 + f.wire) + EncodePayload(f)
  }

  function EncodeFields(fs: seq<Field>): seq<Byte>
    requires AllSendable(fs)
  {
    if fs == [] then [] else EncodeField(fs[0]) + EncodeFields(fs[1..])
  }

  lemma SliceAt(data: seq<Byte>, pos: nat, b: seq<Byte>)
    requires HasAt(data, pos, b)
    ensures Slice(data, pos, pos + |b|) == b
  {
    assert pos + |b| == |data| ==> data[pos..] == data[pos..pos + |b|];
  }

  lemma PayloadRoundTrip(data: seq<Byte>, pos: nat, f: Field)
    requires Sendable(f) && HasAt(data, pos, EncodePayload(f))
    ensures PayloadAt(data, pos, f.number, f.wire) == Ok((f, pos + |EncodePayload(f)|))
  {
    match f.value
    case Int(v) => VarintRoundTrip(data, pos, v);
    case Bytes(b) =>
      if f.wire == 2 {
        HasParts(data, pos, EncodeVarint(|b|), b);
        VarintRoundTrip(data, pos, |b|);
        SliceAt(data, pos + |EncodeVarint(|b|)|, b);
      } else {
        SliceAt(data, pos, b);
      }
  }

  lemma FieldFromParts(data: seq<Byte>, pos: nat, number: nat, wire: nat, p: nat, f: Field, end: nat)
    requires wire < 8 && Varint(data, pos) == Ok((number * 8 + wire, p))
    requires PayloadAt(data, p, number, wire) == Ok((f, end))
    ensures FieldAt(data, pos) == Ok((f, end))
  {
    KeySplits(number, wire);
  }

  lemma KeySplits(number: nat, wire: nat)
    requires wire < 8
    ensures (number * 8 + wire) / 8 == number && (number * 8 + wire) % 8 == wire
  {
  }

  lemma FieldRoundTrip(data: seq<Byte>, pos: nat, f: Field)
    requires Sendable(f) && HasAt(data, pos, EncodeField(f))
    ensures FieldAt(data, pos) == Ok((f, pos + |EncodeField(f)|))
  {
    var k, payload := EncodeVarint(f.number * 8 + f.wire), EncodePayload(f);
    var p, end := pos + |k|, pos + |k| + |payload|;
    HasParts(data, pos, k, payload);
    assert Varint(data, pos) == Ok((f.number * 8 + f.wire, p)) by { VarintRoundTrip(data, pos, f.number * 8 + f.wire); }
    assert PayloadAt(data, p, f.number, f.wire) == Ok((f, end)) by { PayloadRoundTrip(data, p, f); }
    FieldFromParts(data, pos, f.number, f.wire, p, f, end);
  }

  /** The position after f, if the encoding of f stands at pos. */
  function EncodedField(data: seq<Byte>, pos: nat, f: Field): Option<nat> {
    if Sendable(f) && HasAt(data, pos, EncodeField(f)) then Some(pos + |EncodeField(f)|) else None
  }

  /** The position after fs, if their encodings stand one after another from pos on. */
  function EncodedTo(data: seq<Byte>, pos: nat, fs: seq<Field>): Option<nat>
    decreases |fs|
  {
    if fs == [] then Some(pos)
    else
      match EncodedField(data, pos, fs[0])
      case None => None
      case Some(next) => EncodedTo(data, next, fs[1..])
  }

  lemma FirstFieldParts(data: seq<Byte>, pos: nat, fs: seq<Field>)
    requires fs != [] && AllSendable(fs) && HasAt(data, pos, EncodeFields(fs))
    ensures var next, more := pos + |EncodeField(fs[0])|, EncodeFields(fs[1..]);
            && EncodedField(data, pos, fs[0]) == Some(next)
            && HasAt(data, next, more) && next + |more| == pos + |EncodeFields(fs)|
  {
    HasParts(data, pos, EncodeField(fs[0]), EncodeFields(fs[1..]));
  }

  lemma {:induction false} EncodingStands(data: seq<Byte>, pos: nat, fs: seq<Field>)
    requires AllSendable(fs) && HasAt(data, pos, EncodeFields(fs))
    ensures EncodedTo(data, pos, fs) == Some(pos + |EncodeFields(fs)|)
    decreases |fs|
  {
    if fs != [] {
      FirstFieldParts(data, pos, fs);
      EncodingStands(data, pos + |EncodeField(fs[0])|, fs[1..]);
    }
  }

  /** Prepends fields already read. */
  function After(fields: seq<Field>, r: Result<seq<Field>, DecodeError>): Result<seq<Field>, DecodeError> {
    match r case Err(e) => Err(e) case Ok(more) => Ok(fields + more)
  }

  lemma AfterOne(fields: seq<Field>, f: Field, r: Result<seq<Field>, DecodeError>)
    ensures After(fields, After([f], r)) == After(fields + [f], r)
    ensures After([], r) == r
  {
    if r.Ok? {
      assert fields + ([f] + r.value) == fields + [f] + r.value;
      assert [] + r.value == r.value;
    }
  }

  lemma FirstThen(data: seq<Byte>, pos: nat, next: nat, f: Field, fs: seq<Field>, r: Result<seq<Field>, DecodeError>)
    requires FieldAt(data, pos) == Ok((f, next)) && FieldsFrom(data, next) == After(fs, r)
    ensures FieldsFrom(data, pos) == After([f] + fs, r)
  {
    if r.Ok? { assert [f] + (fs + r.value) == [f] + fs + r.value; }
  }

  lemma {:induction false} EncodedThen(data: seq<Byte>, pos: nat, fs: seq<Field>, end: nat)
    requires EncodedTo(data, pos, fs) == Some(end)
    ensures FieldsFrom(data, pos) == After(fs, FieldsFrom(data, end))
    decreases |fs|
  {
    var r := FieldsFrom(data, end);
    if fs == [] {
      AfterOne([], Field(0, 0, Int(0)), r);
    } else {
      var next := EncodedField(data, pos, fs[0]).value;
      FieldRoundTrip(data, pos, fs[0]);
      EncodedThen(data, next, fs[1..], end);
      FirstThen(data, pos, next, fs[0], fs[1..], r);
      assert [fs[0]] + fs[1..] == fs;
    }
  }

  /** Whole fields are decoded whatever stands behind them. */
  lemma FieldsThen(data: seq<Byte>, pos: nat, fs: seq<Field>, end: nat)
    requires AllSendable(fs) && HasAt(data, pos, EncodeFields(fs)) && end == pos + |EncodeFields(fs)|
    ensures FieldsFrom(data, pos) == After(fs, FieldsFrom(data, end))
  {
    EncodingStands(data, pos, fs);
    EncodedThen(data, pos, fs, end);
  }

  lemma FieldsPrefix(fs: seq<Field>, rest: seq<Byte>)
    requires AllSendable(fs)
    ensures FieldsFrom(EncodeFields(fs) + rest, 0) == After(fs, FieldsFrom(EncodeFields(fs) + rest, |EncodeFields(fs)|))
  {
    var e := EncodeFields(fs);
    assert (e + rest)[0..|e|] == e;
    FieldsThen(e + rest, 0, fs, |e|);
  }

  /** protobuf_fields inverts the encoder on every list of fields. */
  lemma MessageRoundTrip(fs: seq<Field>)
    requires AllSendable(fs)
    ensures FieldsFrom(EncodeFields(fs), 0) == Ok(fs)
  {
    var e := EncodeFields(fs);
    FieldsPrefix(fs, []);
    assert e + [] == e && FieldsFrom(e, |e|) == Ok([]) && fs + [] == fs;
  }

  lemma WireRefusedAt(data: seq<Byte>, pos: nat, number: nat, wire: nat)
    requires wire in {3, 4, 6, 7} && number * 8 + wire < 0x1_0000_0000_0000_0000 && pos < |data|
    requires HasAt(data, pos, EncodeVarint(number * 8 + wire))
    ensures FieldsFrom(data, pos) == Err(UnsupportedWireType(wire))
  {
    VarintRoundTrip(data, pos, number * 8 + wire);
    KeySplits(number, wire);
  }

  /** A key of any other wire type is refused, whatever comes before or after it. */
  lemma OtherWireRefused(fs: seq<Field>, number: nat, wire: nat, rest: seq<Byte>)
    requires AllSendable(fs) && wire in {3, 4, 6, 7} && number * 8 + wire < 0x1_0000_0000_0000_0000
    ensures FieldsFrom(EncodeFields(fs) + (EncodeVarint(number * 8 + wire) + rest), 0) == Err(UnsupportedWireType(wire))
  {
    var key := EncodeVarint(number * 8 + wire);
    var data, pos := EncodeFields(fs) + (key + rest), |EncodeFields(fs)|;
    assert data[pos..pos + |key|] == key;
    FieldsPrefix(fs, key + rest);
    WireRefusedAt(data, pos, number, wire);
  }

  /** The bytes of a field whose payload stops after k bytes. */
  function CutField(f: Field, k: nat): seq<Byte>
    requires Sendable(f) && f.value.Bytes? && k < |f.value.b|
  {
    EncodeVarint(f.number * 8 + f.wire) + CutPayload(f, k)
  }

  function CutPayload(f: Field, k: nat): seq<Byte>
    requires Sendable(f) && f.value.Bytes? && k < |f.value.b|
  {
    (if f.wire == 2 then EncodeVarint(|f.value.b|) else []) + f.value.b[..k]
  }

  /** It is the encoding without its last bytes. */
  lemma CutFieldIsPrefix(f: Field, k: nat)
    requires Sendable(f) && f.value.Bytes? && k < |f.value.b|
    ensures EncodeField(f) == CutField(f, k) + f.value.b[k..]
  {
    assert f.value.b == f.value.b[..k] + f.value.b[k..];
    assert EncodePayload(f) == CutPayload(f, k) + f.value.b[k..];
  }

  lemma CutPayloadAt(data: seq<Byte>, p: nat, f: Field, k: nat)
    requires Sendable(f) && f.value.Bytes? && k < |f.value.b| && p <= |data| && data[p..] == CutPayload(f, k)
    ensures PayloadAt(data, p, f.number, f.wire)
            == Ok((Field(f.number, f.wire, Bytes(f.value.b[..k])), p + |EncodePayload(f)|))
    ensures p + |EncodePayload(f)| > |data|
  {
    var b := f.value.b;
    if f.wire == 2 {
      var size := EncodeVarint(|b|);
      HasParts(data, p, size, b[..k]);
      VarintRoundTrip(data, p, |b|);
      assert data[p + |size|..] == b[..k];
    } else {
      assert data[p..] == b[..k];
    }
  }

  lemma LastField(data: seq<Byte>, pos: nat, f: Field, end: nat)
    requires FieldAt(data, pos) == Ok((f, end)) && end >= |data|
    ensures FieldsFrom(data, pos) == Ok([f])
  {
    assert FieldsFrom(data, end) == Ok([]) && [f] + [] == [f];
  }

  lemma CutFieldAt(data: seq<Byte>, pos: nat, f: Field, k: nat)
    requires Sendable(f) && f.value.Bytes? && k < |f.value.b| && pos <= |data| && data[pos..] == CutField(f, k)
    ensures var end := pos + |EncodeField(f)|;
            FieldAt(data, pos) == Ok((Field(f.number, f.wire, Bytes(f.value.b[..k])), end)) && end > |data|
  {
    var key := f.number * 8 + f.wire;
    var e := EncodeVarint(key);
    HasParts(data, pos, e, CutPayload(f, k));
    assert Varint(data, pos) == Ok((key, pos + |e|)) by { VarintRoundTrip(data, pos, key); }
    assert data[pos + |e|..] == CutPayload(f, k);
    CutPayloadAt(data, pos + |e|, f, k);
    FieldFromParts(data, pos, f.number, f.wire, pos + |e|, Field(f.number, f.wire, Bytes(f.value.b[..k])),
                   pos + |EncodeField(f)|);
  }

  lemma CutFieldLast(data: seq<Byte>, pos: nat, f: Field, k: nat)
    requires Sendable(f) && f.value.Bytes? && k < |f.value.b| && pos <= |data| && data[pos..] == CutField(f, k)
    ensures FieldsFrom(data, pos) == Ok([Field(f.number, f.wire, Bytes(f.value.b[..k]))])
  {
    CutFieldAt(data, pos, f, k);
    LastField(data, pos, Field(f.number, f.wire, Bytes(f.value.b[..k])), pos + |EncodeField(f)|);
  }

  /** A message that stops inside its last bytes is not refused: that field comes out shorter. */
  lemma CutPayloadAccepted(fs: seq<Field>, f: Field, k: nat)
    requires AllSendable(fs) && Sendable(f) && f.value.Bytes? && k < |f.value.b|
    ensures EncodeField(f) == CutField(f, k) + f.value.b[k..]
    ensures FieldsFrom(EncodeFields(fs) + CutField(f, k), 0)
            == Ok(fs + [Field(f.number, f.wire, Bytes(f.value.b[..k]))])
  {
    CutFieldIsPrefix(f, k);
    FieldsPrefix(fs, CutField(f, k));
    CutFieldLast(EncodeFields(fs) + CutField(f, k), |EncodeFields(fs)|, f, k);
  }

  method ReadPayload(data: seq<Byte>, start: nat, number: nat, wire: nat) returns (r: Result<(Field, nat), DecodeError>)
    ensures r == PayloadAt(data, start, number, wire)
  {
    var pos := start;
    var value: Value;
    if wire == 0 {
      var v := ReadVarint(data, pos);
      if v.Err? { return Err(v.error); }
      value, pos := Int(v.value.0), v.value.1;
    } else if wire == 1 {
      value, pos := Bytes(Slice(data, pos, pos + 8)), pos + 8;
    } else if wire == 2 {
      var length := ReadVarint(data, pos);
      if length.Err? { return Err(length.error); }
      pos := length.value.1;
      value, pos := Bytes(Slice(data, pos, pos + length.value.0)), pos + length.value.0;
    } else if wire == 5 {
      value, pos := Bytes(Slice(data, pos, pos + 4)), pos + 4;
    } else {
      return Err(UnsupportedWireType(wire));
    }
    r := Ok((Field(number, wire, value), pos));
  }

  /** The decoding loop; the position grows strictly, so it ends on every input. */
  method ProtobufFields(data: seq<Byte>) returns (r: Result<seq<Field>, DecodeError>)
    ensures r == FieldsFrom(data, 0)
  {
    var fields: seq<Field>, pos: nat := [], 0;
    AfterOne([], Field(0, 0, Int(0)), FieldsFrom(data, 0));
    while pos < |data|
      invariant FieldsFrom(data, 0) == After(fields, FieldsFrom(data, pos))
      decreases |data| - pos
    {
      var key := ReadVarint(data, pos);
      if key.Err? { return Err(key.error); }
      var field := ReadPayload(data, key.value.1, key.value.0 / 8, key.value.0 % 8);
      if field.Err? { return Err(field.error); }
      assert FieldAt(data, pos) == field;
      var (f, next) := field.value;
      AfterOne(fields, f, FieldsFrom(data, next));
      fields, pos := fields + [f], next;
    }
    assert fields + [] == fields;
    r := Ok(fields);
  }
}
