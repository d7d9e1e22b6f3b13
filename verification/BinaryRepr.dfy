/** The derived binary representation: a struct is written as its fields one after the other. */
module BinaryRepr {
  import opened Basics
  import opened Bytes
  import opened Values

  datatype Type =
    | Bool
    | Integer(width: nat, signed: bool)
    | Array(length: nat)
    | Struct(fields: seq<Type>)

  predicate HasType(v: Value, t: Type)
    decreases t
  {
    match t
    case Bool => v.Int? && 0 <= v.v <= 1
    case Integer(width, signed) =>
      var half := Pow256(width) / 2;
      v.Int? && if signed then -half <= v.v < half else 0 <= v.v < Pow256(width)
    case Array(length) => v.Raw? && |v.bytes| == length
    case Struct(ts) => v.Record? && |v.fields| == |ts| && forall i :: 0 <= i < |ts| ==> HasType(v.fields[i], ts[i])
  }

  ghost predicate HaveTypes(vs: seq<Value>, ts: seq<Type>) {
    |vs| == |ts| && forall i :: 0 <= i < |ts| ==> HasType(vs[i], ts[i])
  }

  /** Two's complement, the low byte first. */
  function IntegerBytes(v: int, width: nat): seq<Byte>
    requires 0 <= v + Pow256(width)
  {
    ToLe(if v < 0 then v + Pow256(width) else v, width)
  }

  function Repr(v: Value, t: Type): seq<Byte>
    requires HasType(v, t)
    decreases t, 1
  {
    match t
    case Bool => [v.v]
    case Integer(width, _) => IntegerBytes(v.v, width)
    case Array(_) => v.bytes
    case Struct(ts) => ReprFields(v.fields, ts)
  }

  function ReprFields(vs: seq<Value>, ts: seq<Type>): seq<Byte>
    requires HaveTypes(vs, ts)
    decreases ts, 0
  {
    if ts == [] then [] else Repr(vs[0], ts[0]) + ReprFields(vs[1..], ts[1..])
  }

  function Length(t: Type): nat
    decreases t, 1
  {
    match t
    case Bool => 1
    case Integer(width, _) => width
    case Array(length) => length
    case Struct(ts) => Lengths(ts)
  }

  function Lengths(ts: seq<Type>): nat
    decreases ts, 0
  {
    if ts == [] then 0 else Length(ts[0]) + Lengths(ts[1..])
  }

  /** The generated code: every field in turn is appended to the writer. */
  method Write(v: Value, t: Type, writer: seq<Byte>) returns (w: seq<Byte>)
    requires HasType(v, t)
    ensures w == writer + Repr(v, t)
    decreases t
  {
    if t.Struct? {
      w := writer;
      for i := 0 to |t.fields|
        invariant w + ReprFields(v.fields[i..], t.fields[i..]) == writer + Repr(v, t)
      {
        ghost var before := w;
        w := Write(v.fields[i], t.fields[i], w);
        assert v.fields[i..][1..] == v.fields[i + 1..] && t.fields[i..][1..] == t.fields[i + 1..];
        Associate(before, Repr(v.fields[i], t.fields[i]), ReprFields(v.fields[i + 1..], t.fields[i + 1..]));
      }
    } else {
      w := writer + Repr(v, t);
    }
  }

  // ----- lengths -----

  lemma {:induction false} LengthsAgree(v: Value, t: Type)
    requires HasType(v, t)
    ensures |Repr(v, t)| == Length(t)
    decreases t, 1
  {
    if t.Struct? { FieldLengthsAgree(v.fields, t.fields); }
  }

  lemma {:induction false} FieldLengthsAgree(vs: seq<Value>, ts: seq<Type>)
    requires HaveTypes(vs, ts)
    ensures |ReprFields(vs, ts)| == Lengths(ts)
    decreases ts, 0
  {
    if ts != [] {
      LengthsAgree(vs[0], ts[0]);
      FieldLengthsAgree(vs[1..], ts[1..]);
    }
  }

  // ----- unique readability -----

  lemma IntegerInjective(v: int, w: int, width: nat, signed: bool)
    requires HasType(Int(v), Integer(width, signed)) && HasType(Int(w), Integer(width, signed))
    requires IntegerBytes(v, width) == IntegerBytes(w, width)
    ensures v == w
  {
    var p := Pow256(width);
    FromLeToLe(if v < 0 then v + p else v, width);
    FromLeToLe(if w < 0 then w + p else w, width);
  }

  lemma SplitEqual(a: seq<Byte>, b: seq<Byte>, x: seq<Byte>, y: seq<Byte>)
    requires |a| == |b| && a + x == b + y
    ensures a == b && x == y
  {
    assert a == (a + x)[..|a|] && b == (b + y)[..|b|];
    assert x == (a + x)[|a|..] && y == (b + y)[|b|..];
  }

  /** Values of one type are told apart by their bytes, whatever follows them. */
  lemma {:induction false} Injective(v: Value, w: Value, t: Type, x: seq<Byte>, y: seq<Byte>)
    requires HasType(v, t) && HasType(w, t) && Repr(v, t) + x == Repr(w, t) + y
    ensures v == w && x == y
    decreases t, 1
  {
    LengthsAgree(v, t);
    LengthsAgree(w, t);
    SplitEqual(Repr(v, t), Repr(w, t), x, y);
    match t
    case Bool => assert Repr(v, t)[0] == Repr(w, t)[0];
    case Integer(width, signed) => IntegerInjective(v.v, w.v, width, signed);
    case Array(_) =>
    case Struct(ts) => FieldsInjective(v.fields, w.fields, ts);
  }

  lemma {:induction false} FieldsInjective(vs: seq<Value>, ws: seq<Value>, ts: seq<Type>)
    requires HaveTypes(vs, ts) && HaveTypes(ws, ts) && ReprFields(vs, ts) == ReprFields(ws, ts)
    ensures vs == ws
    decreases ts, 0
  {
    if ts != [] {
      Injective(vs[0], ws[0], ts[0], ReprFields(vs[1..], ts[1..]), ReprFields(ws[1..], ts[1..]));
      FieldsInjective(vs[1..], ws[1..], ts[1..]);
      assert vs == [vs[0]] + vs[1..] && ws == [ws[0]] + ws[1..];
    }
  }

  // ----- where everything lies -----

  /** An integer is its bytes read as a little-endian number, up to a multiple of 256^width. */
  lemma IntegerReads(v: Value, width: nat, signed: bool)
    requires HasType(v, Integer(width, signed))
    ensures FromLe(Repr(v, Integer(width, signed))) == if v.v < 0 then v.v + Pow256(width) else v.v
  {
    FromLeToLe(if v.v < 0 then v.v + Pow256(width) else v.v, width);
  }

  /** The fields of a struct lie one after the other. */
  lemma {:induction false} FieldAt(vs: seq<Value>, ts: seq<Type>, i: nat)
    requires HaveTypes(vs, ts) && i < |ts|
    ensures var from := Lengths(ts[..i]);
            && from + Length(ts[i]) <= |ReprFields(vs, ts)|
            && ReprFields(vs, ts)[from..from + Length(ts[i])] == Repr(vs[i], ts[i])
  {
    LengthsAgree(vs[0], ts[0]);
    FieldLengthsAgree(vs, ts);
    if i == 0 {
      assert ts[..0] == [];
    } else {
      var k := Lengths(ts[1..][..i - 1]);
      assert Lengths(ts[..i]) == Length(ts[0]) + k by {
        assert ts[..i][0] == ts[0] && ts[..i][1..] == ts[1..][..i - 1];
      }
      FieldAt(vs[1..], ts[1..], i - 1);
      assert ts[1..][i - 1] == ts[i] && vs[1..][i - 1] == vs[i];
      Behind(Repr(vs[0], ts[0]), ReprFields(vs[1..], ts[1..]), k, Length(ts[i]));
    }
  }
}
