/** The derived field codecs: a struct is encoded as its fields one after the other, and decoded
by slicing off as many elements as each field takes. */
module Codec {
  import opened Basics
  import opened Bytes
  import opened FieldBytes
  import opened Values

  datatype Type =
    | Bool
    | Unsigned(bits: nat)
    | Signed(bits: nat)
    | Field
    | Bytes32
    | Struct(fields: seq<Type>)

  /** 2^bits for the integer widths there are. */
  function Range(bits: nat): (r: nat)
    ensures 2 <= r && r * 0x1_0000 < P
  {
    if bits <= 8 then 0x100
    else if bits <= 16 then 0x1_0000
    else if bits <= 32 then 0x1_0000_0000
    else if bits <= 64 then 0x1_0000_0000_0000_0000
    else 0x1_0000_0000_0000_0000_0000_0000_0000_0000
  }

  predicate HasType(v: Value, t: Type)
    decreases t
  {
    match t
    case Bool => v.Int? && 0 <= v.v <= 1
    case Unsigned(bits) => v.Int? && 0 <= v.v < Range(bits)
    case Signed(bits) => v.Int? && -(Range(bits) / 2) <= v.v < Range(bits) / 2
    case Field => v.Int? && 0 <= v.v < P
    case Bytes32 => v.Raw? && |v.bytes| == 32
    case Struct(ts) => v.Record? && |v.fields| == |ts| && forall i :: 0 <= i < |ts| ==> HasType(v.fields[i], ts[i])
  }

  // ----- sizes -----

  /** FIELD_SIZE of a type. */
  function FieldSize(t: Type): nat
    decreases t, 1
  {
    match t
    case Bytes32 => 2
    case Struct(ts) => FieldSizes(ts)
    case _ => 1
  }

  function FieldSizes(ts: seq<Type>): nat
    decreases ts, 0
  {
    if ts == [] then 0 else FieldSize(ts[0]) + FieldSizes(ts[1..])
  }

  /** field_size of a value. */
  function ValueSize(v: Value): nat
    decreases v, 1
  {
    match v
    case Int(_) => 1
    case Raw(b) => Size(|b|)
    case Record(vs) => ValueSizes(vs)
  }

  function ValueSizes(vs: seq<Value>): nat
    decreases vs, 0
  {
    if vs == [] then 0 else ValueSize(vs[0]) + ValueSizes(vs[1..])
  }

  // ----- encoding -----

  /** An integer as a field element; negatives count down from the order. */
  function FromInt(v: int): Fr
    requires -P < v < P
  {
    if v < 0 then P + v else v
  }

  function EncodeValue(v: Value, t: Type): seq<Fr>
    requires HasType(v, t)
    decreases t, 1
  {
    match t
    case Bytes32 => Encode(v.bytes)
    case Struct(ts) => EncodeFields(v.fields, ts)
    case _ => [FromInt(v.v)]
  }

  ghost predicate HaveTypes(vs: seq<Value>, ts: seq<Type>) {
    |vs| == |ts| && forall i :: 0 <= i < |ts| ==> HasType(vs[i], ts[i])
  }

  function EncodeFields(vs: seq<Value>, ts: seq<Type>): seq<Fr>
    requires HaveTypes(vs, ts)
    decreases ts, 0
  {
    if ts == [] then [] else EncodeValue(vs[0], ts[0]) + EncodeFields(vs[1..], ts[1..])
  }

  // ----- decoding -----

  /** The integer of a type that an element stands for. Signed types try the element, then its negation. */
  function ToInt(f: Fr, t: Type): Option<Value> {
    match t
    case Bool => if f <= 1 then Some(Int(f)) else None
    case Unsigned(bits) => if f < Range(bits) then Some(Int(f)) else None
    case Signed(bits) =>
      var half := Range(bits) / 2;
      if f < Range(128) / 2 then (if f < half then Some(Int(f)) else None)
      else if P - f <= Range(128) / 2 then (if P - f <= half then Some(Int(f - P)) else None)
      else None
    case _ => Some(Int(f))
  }

  function ToBytes32(repr: seq<Fr>): Option<seq<Byte>> {
    if |repr| != 2 then None else
    var repr0, repr1 := ToLe(repr[0], FR_BYTES), ToLe(repr[1], FR_BYTES);
    if !Zeros(repr0[1..]) || !Zeros(repr1[31..]) then None else
    Some(repr1[..31] + repr0[..1])
  }

  function Decode(t: Type, repr: seq<Fr>): Option<Value>
    decreases t, 1
  {
    match t
    case Bytes32 => (match ToBytes32(repr) case None => None case Some(b) => Some(Raw(b)))
    case Struct(ts) => (match DecodeFields(ts, repr) case None => None case Some(vs) => Some(Record(vs)))
    case _ => if |repr| == 1 then ToInt(repr[0], t) else None
  }

  function DecodeFields(ts: seq<Type>, repr: seq<Fr>): Option<seq<Value>>
    decreases ts, 0
  {
    if ts == [] then (if repr == [] then Some([]) else None)
    else if FieldSize(ts[0]) > |repr| then None
    else
      match Decode(ts[0], repr[..FieldSize(ts[0])])
      case None => None
      case Some(v) =>
        match DecodeFields(ts[1..], repr[FieldSize(ts[0])..])
        case None => None
        case Some(vs) => Some([v] + vs)
  }

  // ----- the generated code, field by field -----

  /** Appends a value to the writer. */
  method FieldRepr(v: Value, t: Type, writer: seq<Fr>) returns (w: seq<Fr>)
    requires HasType(v, t)
    ensures w == writer + EncodeValue(v, t)
    decreases t
  {
    match t
    case Bytes32 =>
      w := Write(v.bytes, writer);
    case Struct(ts) =>
      w := writer;
      for i := 0 to |ts|
        invariant w + EncodeFields(v.fields[i..], ts[i..]) == writer + EncodeFields(v.fields, ts)
      {
        assert ts[i..][1..] == ts[i + 1..] && v.fields[i..][1..] == v.fields[i + 1..];
        w := FieldRepr(v.fields[i], ts[i], w);
      }
    case _ =>
      w := writer + [FromInt(v.v)];
  }

  /** Reassigns a shrinking input; any field that fails, and any input left over, is a failure. */
  method FromFieldRepr(t: Type, repr: seq<Fr>) returns (r: Option<Value>)
    ensures r == Decode(t, repr)
    decreases t
  {
    match t
    case Bytes32 =>
      var b := ToBytes32(repr);
      r := if b.Some? then Some(Raw(b.value)) else None;
    case Struct(ts) =>
      var input, vs: seq<Value> := repr, [];
      assert ts[0..] == ts;
      PrependEmpty(DecodeFields(ts, repr));
      for i := 0 to |ts|
        invariant DecodeFields(ts, repr) == Prepend(vs, DecodeFields(ts[i..], input))
      {
        assert ts[i..][1..] == ts[i + 1..];
        var size := FieldSize(ts[i]);
        if size > |input| {
          return None;
        }
        var v := FromFieldRepr(ts[i], input[..size]);
        if v.None? {
          return None;
        }
        PrependOne(vs, v.value, DecodeFields(ts[i + 1..], input[size..]));
        vs := vs + [v.value];
        input := input[size..];
      }
      assert ts[|ts|..] == [] && vs + [] == vs;
      r := if input == [] then Some(Record(vs)) else None;
    case _ =>
      r := if |repr| == 1 then ToInt(repr[0], t) else None;
  }

  function Prepend(vs: seq<Value>, r: Option<seq<Value>>): Option<seq<Value>> {
    match r case None => None case Some(ws) => Some(vs + ws)
  }

  lemma PrependEmpty(r: Option<seq<Value>>)
    ensures Prepend([], r) == r
  {
    if r.Some? { assert [] + r.value == r.value; }
  }

  lemma PrependOne(vs: seq<Value>, v: Value, r: Option<seq<Value>>)
    ensures Prepend(vs, Prepend([v], r)) == Prepend(vs + [v], r)
  {
    if r.Some? { assert vs + ([v] + r.value) == vs + [v] + r.value; }
  }

  // ----- lengths -----

  lemma {:induction false} LengthsAgree(v: Value, t: Type)
    requires HasType(v, t)
    ensures |EncodeValue(v, t)| == FieldSize(t) == ValueSize(v)
    decreases t, 1
  {
    match t
    case Bytes32 => EncodeSize(v.bytes);
    case Struct(ts) => FieldLengthsAgree(v.fields, ts);
    case _ =>
  }

  lemma {:induction false} FieldLengthsAgree(vs: seq<Value>, ts: seq<Type>)
    requires HaveTypes(vs, ts)
    ensures |EncodeFields(vs, ts)| == FieldSizes(ts) == ValueSizes(vs)
    decreases ts, 0
  {
    if ts != [] {
      LengthsAgree(vs[0], ts[0]);
      FieldLengthsAgree(vs[1..], ts[1..]);
    }
  }

  lemma {:induction false} WrongLengthRejected(t: Type, repr: seq<Fr>)
    requires |repr| != FieldSize(t)
    ensures Decode(t, repr) == None
    decreases t, 1
  {
    match t
    case Struct(ts) => WrongLengthsRejected(ts, repr);
    case _ =>
  }

  lemma {:induction false} WrongLengthsRejected(ts: seq<Type>, repr: seq<Fr>)
    requires |repr| != FieldSizes(ts)
    ensures DecodeFields(ts, repr) == None
    decreases ts, 0
  {
    if ts != [] && FieldSize(ts[0]) <= |repr| {
      WrongLengthsRejected(ts[1..], repr[FieldSize(ts[0])..]);
    }
  }

  // ----- leaves -----

  lemma Bytes32Canonical(repr: seq<Fr>)
    requires ToBytes32(repr).Some?
    ensures |ToBytes32(repr).value| == 32 && Encode(ToBytes32(repr).value) == repr
  {
    var b := ToBytes32(repr).value;
    var hi, lo := ToLe(repr[0], 1), ToLe(repr[1], 31);
    LowBytes(repr[0], 1);
    LowBytes(repr[1], 31);
    EncodeTwo(lo, hi);
    assert b == lo + hi;
  }

  lemma LowBytes(f: Fr, k: nat)
    requires k <= FR_BYTES && Zeros(ToLe(f, FR_BYTES)[k..])
    ensures ToLe(f, FR_BYTES)[..k] == ToLe(f, k) && FromLe(ToLe(f, k)) == f
  {
    FieldWidth();
    HighBytesZero(f, k, FR_BYTES);
    FromLeToLe(f, k);
  }

  lemma EncodeTwo(lo: seq<Byte>, hi: seq<Byte>)
    requires |lo| == 31 && |hi| == 1
    ensures Encode(lo + hi) == [FromLe(hi), FromLe(lo)]
  {
    var b := lo + hi;
    assert b[31..32] == hi && b[0..31] == lo;
    EncodeAt(b, 0);
    EncodeAt(b, 1);
  }

  lemma Bytes32Fits(b: seq<Byte>)
    requires |b| == 32
    ensures ToBytes32(Encode(b)).Some?
  {
    EncodeFits(b, 0);
    EncodeFits(b, 1);
    LowIsExact(Encode(b)[0], 1);
    LowIsExact(Encode(b)[1], 31);
  }

  lemma Bytes32RoundTrip(b: seq<Byte>)
    requires |b| == 32
    ensures ToBytes32(Encode(b)) == Some(b)
  {
    Bytes32Fits(b);
    Bytes32Canonical(Encode(b));
    EncodeInjective(ToBytes32(Encode(b)).value, b);
  }

  predicate IsInt(t: Type) { !t.Bytes32? && !t.Struct? }

  lemma IntRoundTrip(v: Value, t: Type)
    requires IsInt(t) && HasType(v, t)
    ensures ToInt(FromInt(v.v), t) == Some(v)
  {}

  lemma IntCanonical(f: Fr, t: Type)
    requires IsInt(t) && ToInt(f, t).Some?
    ensures HasType(ToInt(f, t).value, t) && FromInt(ToInt(f, t).value.v) == f
  {}

  // ----- round trips for every type -----

  lemma {:induction false} RoundTrip(v: Value, t: Type)
    requires HasType(v, t)
    ensures Decode(t, EncodeValue(v, t)) == Some(v)
    decreases t, 1
  {
    match t
    case Bytes32 => Bytes32RoundTrip(v.bytes);
    case Struct(ts) => FieldsRoundTrip(v.fields, ts);
    case _ => IntRoundTrip(v, t);
  }

  lemma {:induction false} FieldsRoundTrip(vs: seq<Value>, ts: seq<Type>)
    requires HaveTypes(vs, ts)
    ensures DecodeFields(ts, EncodeFields(vs, ts)) == Some(vs)
    decreases ts, 0
  {
    if ts != [] {
      RoundTrip(vs[0], ts[0]);
      LengthsAgree(vs[0], ts[0]);
      FieldsRoundTrip(vs[1..], ts[1..]);
      var head, tail := EncodeValue(vs[0], ts[0]), EncodeFields(vs[1..], ts[1..]);
      assert (head + tail)[..FieldSize(ts[0])] == head && (head + tail)[FieldSize(ts[0])..] == tail;
      assert vs == [vs[0]] + vs[1..];
    }
  }

  /** Nothing decodes that is not an encoding, so no two inputs decode to the same value. */
  lemma {:induction false} Canonical(t: Type, repr: seq<Fr>)
    requires Decode(t, repr).Some?
    ensures HasType(Decode(t, repr).value, t) && EncodeValue(Decode(t, repr).value, t) == repr
    decreases t, 1
  {
    match t
    case Bytes32 => Bytes32Canonical(repr);
    case Struct(ts) => FieldsCanonical(ts, repr);
    case _ => IntCanonical(repr[0], t);
  }

  lemma {:induction false} FieldsCanonical(ts: seq<Type>, repr: seq<Fr>)
    requires DecodeFields(ts, repr).Some?
    ensures HaveTypes(DecodeFields(ts, repr).value, ts) && EncodeFields(DecodeFields(ts, repr).value, ts) == repr
    decreases ts, 0
  {
    if ts != [] {
      var n := FieldSize(ts[0]);
      var head, tail := repr[..n], repr[n..];
      Canonical(ts[0], head);
      FieldsCanonical(ts[1..], tail);
      var v, vs := Decode(ts[0], head).value, DecodeFields(ts[1..], tail).value;
      FieldsJoin(v, vs, ts);
      assert repr == head + tail;
    }
  }

  lemma FieldsJoin(v: Value, vs: seq<Value>, ts: seq<Type>)
    requires ts != [] && HasType(v, ts[0]) && HaveTypes(vs, ts[1..])
    ensures HaveTypes([v] + vs, ts) && EncodeFields([v] + vs, ts) == EncodeValue(v, ts[0]) + EncodeFields(vs, ts[1..])
  {
    assert ([v] + vs)[1..] == vs;
    assert forall i :: 1 <= i < |ts| ==> ts[i] == ts[1..][i - 1];
  }

  // ----- where everything lies -----

  /** The integer widths are whole bytes. */
  lemma RangeIsPower(k: nat)
    requires k == 1 || k == 2 || k == 4 || k == 8 || k == 16
    ensures Range(8 * k) == Pow256(k)
  {
    if k == 16 {
      FieldWidth();
    } else {
      assert Pow256(2) == 0x1_0000 && Pow256(4) == 0x1_0000_0000;
      Pow256Add(4, 4);
    }
  }

  /** An integer is the one element that is equal to it modulo the order of the field. */
  lemma IntElement(v: Value, t: Type, f: Fr)
    requires IsInt(t) && HasType(v, t)
    ensures EncodeValue(v, t) == [f] <==> (f - v.v) % P == 0
  {
    assert -P < v.v < P;
    var g := FromInt(v.v);
    assert EncodeValue(v, t) == [g];
    Congruent(v.v, f);
    assert [g] == [f] <==> g == f;
  }

  lemma Congruent(v: int, f: Fr)
    requires -P < v < P
    ensures FromInt(v) == f <==> (f - v) % P == 0
  {
    var q := (f - v) / P;
    assert f - v == P * q + (f - v) % P;
  }

  /** 32 bytes are two elements: the last byte, then the other 31 as a little-endian number. */
  lemma Bytes32Elements(b: seq<Byte>)
    requires |b| == 32
    ensures Encode(b) == [b[31], FromLe(b[..31])]
  {
    EncodeTwo(b[..31], b[31..]);
    assert b == b[..31] + b[31..] && b[31..] == [b[31]];
    assert FromLe([b[31]]) == b[31] by { assert [b[31]][1..] == []; }
  }

  /** The fields of a struct lie one after the other, each in as many elements as its type takes. */
  lemma {:induction false} FieldAt(vs: seq<Value>, ts: seq<Type>, i: nat)
    requires HaveTypes(vs, ts) && i < |ts|
    ensures var from := FieldSizes(ts[..i]);
            && from + FieldSize(ts[i]) <= |EncodeFields(vs, ts)|
            && EncodeFields(vs, ts)[from..from + FieldSize(ts[i])] == EncodeValue(vs[i], ts[i])
  {
    LengthsAgree(vs[0], ts[0]);
    FieldLengthsAgree(vs, ts);
    if i == 0 {
      assert ts[..0] == [];
    } else {
      var k := FieldSizes(ts[1..][..i - 1]);
      assert FieldSizes(ts[..i]) == FieldSize(ts[0]) + k by {
        assert ts[..i][0] == ts[0] && ts[..i][1..] == ts[1..][..i - 1];
      }
      FieldAt(vs[1..], ts[1..], i - 1);
      assert ts[1..][i - 1] == ts[i] && vs[1..][i - 1] == vs[i];
      Behind(EncodeValue(vs[0], ts[0]), EncodeFields(vs[1..], ts[1..]), k, FieldSize(ts[i]));
    }
  }
}
