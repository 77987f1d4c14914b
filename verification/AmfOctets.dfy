/** The octets of AMF0 values, by the numbers of the AMF0 specification (sections 2.2 to 2.14). */
module AmfOctets {
  import opened Bytes
  import opened Amf

  /** What stands for a value: its type, and what the type has behind it; `inner` is what an object's properties are. */
  predicate Stands(s: seq<byte>, v: Value, inner: seq<byte>) {
    match v
    case Number(d) => s == [0] + d
    case Boolean(b) => s == [1, if b then 1 else 0]
    case Str(t) =>
      if |t| < 65536 then |s| == 3 + |t| && s[0] == 2 && Number2(s[1], s[2]) == |t| && s[3..] == t
      else |s| == 5 + |t| && s[0] == 12 && Number4(s[1], s[2], s[3], s[4]) == |t| && s[5..] == t
    case Obj(_) => s == [3] + inner + [0, 0, 9]
    case _ => s == []
  }

  lemma ValueOctets(v: Value)
    requires v.Str? ==> |v.s| < TWO_32
    ensures Stands(EncodedValue(v), v, if v.Obj? then EncodedProps(v.props) else [])
  {
    hide EncodedProps, Be16, Be32;
    match v
    case Str(t) =>
      if |t| < 65536 { TwoOctets(|t|); } else { FourOctets(|t|); }
    case _ =>
  }

  lemma TwoOctets(n: nat)
    requires n < 65536
    ensures var b := Be16(n); |b| == 2 && Number2(b[0], b[1]) == n
  {}

  lemma FourOctets(n: nat)
    requires n < TWO_32
    ensures var b := Be32(n); |b| == 4 && Number4(b[0], b[1], b[2], b[3]) == n
  {
    Be32Int32(n);
  }

  /** A property: the length of its name in two octets, the name, the value; and a null alone, without its name. */
  lemma PropOctets(p: Prop)
    requires 0 < |p.name| < 65536
    ensures var s, n := EncodedProp(p), |p.name|;
      if p.value.Null? then s == [5]
      else |s| == 2 + n + |EncodedValue(p.value)| && Number2(s[0], s[1]) == n && s[2..2 + n] == p.name
           && s[2 + n..] == EncodedValue(p.value)
  {
    hide EncodedValue, Be16;
    TwoOctets(|p.name|);
    assert !p.value.Null? ==> EncodedProp(p) == Be16(|p.name|) + p.name + EncodedValue(p.value);
  }

  /** The properties of an object stand one behind the other. */
  lemma PropsOctets(a: seq<Prop>, p: Prop, b: seq<Prop>)
    ensures EncodedProps(a + [p] + b) == EncodedProps(a) + EncodedProp(p) + EncodedProps(b)
    decreases a
  {
    hide EncodedProp;
    var s := a + [p] + b;
    if a == [] {
      assert s[0] == p && s[1..] == b;
    } else {
      assert s[0] == a[0] && s[1..] == a[1..] + [p] + b;
      PropsOctets(a[1..], p, b);
    }
  }

  //
  // What the decoder makes of the types, whoever wrote them
  //

  lemma NumberRead(d: Double, rest: seq<byte>)
    ensures DecodeValue(0, d + rest) == Done(Number(d), 8)
  {}

  lemma StringRead(hi: byte, lo: byte, t: seq<byte>, rest: seq<byte>)
    requires |t| == Number2(hi, lo)
    ensures DecodeValue(2, [hi, lo] + t + rest) == Done(Str(t), 2 + |t|)
  {
    var s := [hi, lo] + t + rest;
    assert Int16(s) == |t| && s[2..2 + |t|] == t;
  }

  lemma LongStringRead(a: byte, b: byte, c: byte, d: byte, t: seq<byte>, rest: seq<byte>)
    requires |t| == Number4(a, b, c, d)
    ensures DecodeValue(12, [a, b, c, d] + t + rest) == Done(Str(t), 4 + |t|)
  {
    var s := [a, b, c, d] + t + rest;
    assert Int32(s) == |t| && s[4..4 + |t|] == t;
  }

  lemma DateRead(d: Double, hi: byte, lo: byte, rest: seq<byte>)
    ensures DecodeValue(11, d + [hi, lo] + rest) == Done(Date(d, Number2(hi, lo)), 10)
  {
    var s := d + [hi, lo] + rest;
    assert s[..8] == d && s[8..][0] == hi && s[8..][1] == lo;
  }

  /** Every nonzero octet is true; null, undefined and unsupported are null; there are no other types but objects. */
  lemma OthersRead(tag: byte, s: seq<byte>)
    ensures s != [] ==> DecodeValue(1, s) == Done(Boolean(s[0] != 0), 1)
    ensures tag in {5, 6, 13} ==> DecodeValue(tag, s) == Done(Null, 0)
    ensures tag !in {0, 1, 2, 3, 5, 6, 11, 12, 13} ==> DecodeValue(tag, s) == Failed
  {}

  /** What is too short for its type is an error. */
  lemma ShortRead(s: seq<byte>)
    ensures |s| < 8 ==> DecodeValue(0, s) == Failed
    ensures s == [] ==> DecodeValue(1, s) == Failed
    ensures |s| < 2 || |s| < 2 + Number2(s[0], s[1]) ==> DecodeValue(2, s) == Failed
    ensures |s| < 10 ==> DecodeValue(11, s) == Failed
    ensures |s| < 4 || |s| < 4 + Number4(s[0], s[1], s[2], s[3]) ==> DecodeValue(12, s) == Failed
  {}

  /** A property: two octets of length, the name, the type and what it has behind it. */
  lemma NamedRead(hi: byte, lo: byte, name: seq<byte>, tag: byte, s: seq<byte>)
    requires |name| == Number2(hi, lo) > 0
    ensures var v := DecodeValue(tag, s);
      DecodeProp([hi, lo] + name + [tag] + s, true)
      == if v.Failed? then Failed else Done(Prop(name, v.value), 3 + |name| + v.used)
  {
    hide DecodeValue;
    var t, n := [hi, lo] + name + [tag] + s, |name|;
    assert t[0] == hi && t[1] == lo;
    assert t[2..2 + n] == name && t[2 + n] == tag && t[3 + n..] == s;
  }

  /** An object: a property and what an object has behind it, or the end in 0 0 9. */
  lemma ObjectRead(hi: byte, lo: byte, name: seq<byte>, tag: byte, s: seq<byte>)
    requires |name| == Number2(hi, lo) > 0 && DecodeValue(tag, s).Done?
    ensures var v := DecodeValue(tag, s);
      var later := DecodeProps(s[v.used..], false);
      DecodeProps([hi, lo] + name + [tag] + s, false)
      == if later.Failed? then Failed
         else Done([Prop(name, v.value)] + later.value, 3 + |name| + v.used + later.used)
  {
    NamedRead(hi, lo, name, tag, s);
    hide DecodeValue, DecodeProp;
    var t, v := [hi, lo] + name + [tag] + s, DecodeValue(tag, s);
    assert t[0] == hi && t[1] == lo;
    assert t[3 + |name| + v.used..] == s[v.used..];
  }

  lemma ObjectIs(s: seq<byte>)
    ensures DecodeValue(3, s)
         == if DecodeProps(s, false).Failed? then Failed
            else Done(Obj(DecodeProps(s, false).value), DecodeProps(s, false).used)
    ensures DecodeProps([0, 0, 9] + s, false) == Done([], 3)
  {
    EndMarkDecoded(s);
    hide DecodeProps;
  }
}
