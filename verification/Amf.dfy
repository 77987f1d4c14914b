/** AMF0 values, their encoding, and what the decoder makes of bytes (AMF0 specification, section 2). */
module Amf {
  import opened Bytes

  const NUMBER := 0
  const BOOLEAN := 1
  const STRING := 2
  const OBJECT := 3
  const NULL_VALUE := 5
  const UNDEFINED := 6
  const OBJECT_END := 9
  const DATE := 11
  const LONG_STRING := 12
  const UNSUPPORTED := 13

  /** A double, as its eight bytes, most significant first. */
  type Double = d: seq<byte> | |d| == 8 witness [0, 0, 0, 0, 0, 0, 0, 0]

  datatype Value =
    | Number(d: Double)
    | Boolean(b: bool)
    | Str(s: seq<byte>)
    | Obj(props: seq<Prop>)
    | Null
    | Date(time: Double, zone: nat)

  datatype Prop = Prop(name: seq<byte>, value: Value)

  //
  // Encoding
  //

  const END_MARK: seq<byte> := [0, 0, OBJECT_END]

  function EncodedValue(v: Value): seq<byte>
    decreases v, 0
  {
    match v
    case Number(d) => [NUMBER] + d
    case Boolean(b) => [BOOLEAN, if b then 1 else 0]
    case Str(s) => if |s| < 0x1_0000 then [STRING] + Be16(|s|) + s else [LONG_STRING] + Be32(|s|) + s
    case Obj(props) => [OBJECT] + EncodedProps(props) + END_MARK
    case _ => []
  }

  /** A null is written without its name, and an empty name is not written at all. */
  function EncodedProp(p: Prop): seq<byte>
    decreases p, 1
  {
    if p.value.Null? then [NULL_VALUE] else EncodedName(p.name) + EncodedValue(p.value)
  }

  function EncodedName(name: seq<byte>): (s: seq<byte>)
    ensures |s| == if name == [] then 0 else 2 + |name|
  {
    if name == [] then [] else Be16(|name|) + name
  }

  function EncodedProps(ps: seq<Prop>): seq<byte>
    decreases ps, 2
  {
    if ps == [] then [] else EncodedProp(ps[0]) + EncodedProps(ps[1..])
  }

  /** What there is an encoder for: named properties that are numbers, booleans, strings or objects of such. */
  predicate Encodable(v: Value)
    decreases v, 0
  {
    match v
    case Str(s) => |s| < TWO_32
    case Obj(props) => forall i | 0 <= i < |props| :: EncodableProp(props[i])
    case Null => false
    case Date(_, _) => false
    case _ => true
  }

  predicate EncodableProp(p: Prop)
    decreases p, 1
  {
    0 < |p.name| < 0x1_0000 && Encodable(p.value)
  }

  predicate EncodableProps(ps: seq<Prop>) { forall i | 0 <= i < |ps| :: EncodableProp(ps[i]) }

  //
  // Decoding
  //

  datatype Decoded<T> = Failed | Done(value: T, used: nat)

  /** A property, with its name in front or without. */
  function DecodeProp(s: seq<byte>, named: bool): (r: Decoded<Prop>)
    ensures r.Done? ==> 0 < r.used <= |s|
    decreases |s|, 0
  {
    if s == [] || (named && |s| < 4) then Failed
    else
      var name := if named then Int16(s) else 0;
      var at := if named then 2 + name else 0;
      if at >= |s| then Failed
      else
        var v := DecodeValue(s[at], s[at + 1..]);
        if v.Failed? then Failed
        else Done(Prop(if named then s[2..at] else [], v.value), at + 1 + v.used)
  }

  /** What follows the type byte. */
  function DecodeValue(tag: byte, s: seq<byte>): (r: Decoded<Value>)
    ensures r.Done? ==> r.used <= |s|
    decreases |s|, 3
  {
    if tag == NUMBER then (if |s| < 8 then Failed else Done(Number(s[..8]), 8))
    else if tag == BOOLEAN then (if |s| < 1 then Failed else Done(Boolean(s[0] != 0), 1))
    else if tag == STRING then
      if |s| < 2 || |s| < Int16(s) + 2 then Failed else Done(Str(s[2..2 + Int16(s)]), 2 + Int16(s))
    else if tag == OBJECT then
      var ps := DecodeProps(s, false);
      if ps.Failed? then Failed else Done(Obj(ps.value), ps.used)
    else if tag == NULL_VALUE || tag == UNDEFINED || tag == UNSUPPORTED then Done(Null, 0)
    else if tag == DATE then (if |s| < 10 then Failed else Done(Date(s[..8], Int16(s[8..])), 10))
    else if tag == LONG_STRING then
      if |s| < 4 || |s| < Int32(s) + 4 then Failed else Done(Str(s[4..4 + Int32(s)]), 4 + Int32(s))
    else Failed
  }

  /** Properties up to the end mark or the end of the bytes; behind a faulty one, bytes are skipped until the mark. */
  function DecodeProps(s: seq<byte>, faulty: bool): (r: Decoded<seq<Prop>>)
    ensures r.Done? ==> r.used <= |s|
    decreases |s|, if faulty then 1 else 2
  {
    if s == [] then (if faulty then Failed else Done([], 0))
    else if |s| >= 3 && Int24(s) == OBJECT_END then Done([], 3)
    else if faulty then
      var later := DecodeProps(s[1..], true);
      if later.Failed? then Failed else Done(later.value, 1 + later.used)
    else
      var p := DecodeProp(s, true);
      if p.Failed? then DecodeProps(s, true)
      else
        var later := DecodeProps(s[p.used..], false);
        if later.Failed? then Failed else Done([p.value] + later.value, p.used + later.used)
  }

  //
  // Round trip
  //

  lemma {:induction false} ValueRoundTrip(v: Value, rest: seq<byte>)
    requires Encodable(v)
    ensures EncodedValue(v) != []
    ensures DecodeValue(EncodedValue(v)[0], EncodedValue(v)[1..] + rest) == Done(v, |EncodedValue(v)| - 1)
    decreases v, 0
  {
    hide DecodeProps, EncodedProps, Be16, Be32, Int16, Int32, DecodeProp;
    var e := EncodedValue(v);
    var s := e[1..] + rest;
    match v
    case Number(d) =>
      assert s == d + rest && s[..8] == d;
    case Boolean(b) =>
      assert s[0] == if b then 1 else 0;
    case Str(t) =>
      StringRoundTrip(t, rest);
    case Obj(props) =>
      PropsRoundTrip(props, rest);
      assert s == EncodedProps(props) + END_MARK + rest;
    case _ =>
  }

  lemma StringRoundTrip(t: seq<byte>, rest: seq<byte>)
    requires |t| < TWO_32
    ensures var e := EncodedValue(Str(t));
      e != [] && DecodeValue(e[0], e[1..] + rest) == Done(Str(t), |e| - 1)
  {
    hide Be16, Be32, Int16, Int32;
    var s := EncodedValue(Str(t))[1..] + rest;
    if |t| < 0x1_0000 {
      Be16Int16(|t|);
      assert |Be16(|t|)| == 2 by { Be16Length(|t|); }
      assert s == Be16(|t|) + t + rest;
      SameStart16(s, Be16(|t|));
      assert s[2..2 + |t|] == t;
    } else {
      Be32Int32(|t|);
      assert s == Be32(|t|) + t + rest;
      SameStart32(s, Be32(|t|));
      assert s[4..4 + |t|] == t;
    }
  }

  lemma Be16Length(n: nat)
    ensures |Be16(n)| == 2
  {}

  lemma SameStart16(s: seq<byte>, b: seq<byte>)
    requires |b| == 2 && |s| >= 2 && s[..2] == b
    ensures Int16(s) == Int16(b)
  {
    assert s[0] == b[0] && s[1] == b[1];
  }

  lemma SameStart32(s: seq<byte>, b: seq<byte>)
    requires |b| == 4 && |s| >= 4 && s[..4] == b
    ensures Int32(s) == Int32(b)
  {
    assert s[0] == b[0] && s[1] == b[1] && s[2] == b[2] && s[3] == b[3];
  }

  lemma {:induction false} PropRoundTrip(p: Prop, rest: seq<byte>)
    requires EncodableProp(p)
    ensures DecodeProp(EncodedProp(p) + rest, true) == Done(p, |EncodedProp(p)|)
    decreases p, 1
  {
    hide EncodedValue, DecodeValue, Be16, Int16;
    var v, n := EncodedValue(p.value), |p.name|;
    var s := EncodedProp(p) + rest;
    ValueRoundTrip(p.value, rest);
    Be16Length(n);
    assert s == Be16(n) + (p.name + v + rest);
    Be16Int16(n);
    SameStart16(s, Be16(n));
    assert s[2..2 + n] == p.name && s[2 + n] == v[0] && s[3 + n..] == v[1..] + rest;
  }

  lemma {:induction false} PropsRoundTrip(ps: seq<Prop>, rest: seq<byte>)
    requires EncodableProps(ps)
    ensures var r := DecodeProps(EncodedProps(ps) + END_MARK + rest, false);
      r.Done? && r.value == ps && r.used == |EncodedProps(ps)| + 3
    decreases ps, 2
  {
    var s := EncodedProps(ps) + END_MARK + rest;
    if ps == [] {
      EndMarkDecoded(rest);
      assert EncodedProps(ps) + END_MARK == END_MARK;
    } else {
      var e, more := EncodedProp(ps[0]), EncodedProps(ps[1..]) + END_MARK + rest;
      assert s == e + more;
      PropRoundTrip(ps[0], more);
      NoEndMark(ps[0], more);
      PropsRoundTrip(ps[1..], rest);
      assert s[|e|..] == more;
    }
  }

  lemma EndMarkDecoded(rest: seq<byte>)
    ensures DecodeProps(END_MARK + rest, false) == Done([], 3)
  {
    var s := END_MARK + rest;
    assert s[0] == 0 && s[1] == 0 && s[2] == OBJECT_END;
  }

  /** A name is not empty, so a property never looks like the end mark. */
  lemma NoEndMark(p: Prop, rest: seq<byte>)
    requires EncodableProp(p)
    ensures var s := EncodedProp(p) + rest;
      |s| >= 3 ==> Int24(s) != OBJECT_END
  {
    var s, n := EncodedProp(p) + rest, |p.name|;
    assert s[0] == n / 0x100 % 256 && s[1] == n % 256;
  }

  /** Decoding what was encoded gives the object back, and uses exactly the bytes it was encoded in. */
  lemma ObjectRoundTrip(props: seq<Prop>, rest: seq<byte>)
    requires EncodableProps(props)
    ensures var e := EncodedValue(Obj(props));
      DecodeProp(e + rest, false) == Done(Prop([], Obj(props)), |e|)
  {
    var v := Obj(props);
    assert Encodable(v);
    ValueRoundTrip(v, rest);
    var e := EncodedValue(v);
    assert (e + rest)[0] == e[0] && (e + rest)[1..] == e[1..] + rest;
  }
}
