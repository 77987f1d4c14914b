/** Which objects come back from their encoding, with something behind it and with nothing. */
module AmfExact {
  import opened Bytes
  import opened Amf

  /** There is an encoder for all kinds of values but dates. */
  predicate Accepted(v: Value)
    decreases v, 0
  {
    match v
    case Obj(props) => forall i | 0 <= i < |props| :: Accepted(props[i].value)
    case Date(_, _) => false
    case _ => true
  }

  /** The fewest bytes behind the type byte that the decoder can have made the value of. */
  function Weight(v: Value): nat
    decreases v, 0
  {
    match v
    case Number(_) => 8
    case Boolean(_) => 1
    case Str(s) => (if |s| < 0x1_0000 then 2 else 4) + |s|
    case Obj(props) => WeightOfAll(props) + 3
    case Null => 0
    case Date(_, _) => 10
  }

  function WeightOf(p: Prop): nat
    decreases p, 1
  {
    3 + |p.name| + Weight(p.value)
  }

  function WeightOfAll(ps: seq<Prop>): nat
    decreases ps, 2
  {
    if ps == [] then 0 else WeightOf(ps[0]) + WeightOfAll(ps[1..])
  }

  /** The decoder gives no longer strings than lengths can be read. */
  predicate Bounded(v: Value)
    decreases v, 0
  {
    match v
    case Str(s) => |s| < TWO_32
    case Obj(props) => forall i | 0 <= i < |props| :: BoundedProp(props[i])
    case _ => true
  }

  predicate BoundedProp(p: Prop)
    decreases p, 1
  {
    |p.name| < 0x1_0000 && Bounded(p.value)
  }

  //
  // What the decoder has taken, while there are bytes left
  //

  lemma {:induction false} ValueTaken(tag: byte, s: seq<byte>)
    ensures var r := DecodeValue(tag, s);
      r.Done? ==> Bounded(r.value) && (r.used < |s| ==> r.used >= Weight(r.value))
    decreases |s|, 3
  {
    hide DecodeProps;
    if tag == OBJECT { PropsTaken(s, false); }
  }

  lemma {:induction false} PropTaken(s: seq<byte>)
    ensures var r := DecodeProp(s, true);
      r.Done? ==> BoundedProp(r.value) && (r.used < |s| ==> r.used >= WeightOf(r.value))
    decreases |s|, 0
  {
    hide DecodeValue;
    if |s| >= 4 && 2 + Int16(s) < |s| {
      var at := 2 + Int16(s);
      ValueTaken(s[at], s[at + 1..]);
    }
  }

  lemma {:induction false} PropsTaken(s: seq<byte>, faulty: bool)
    ensures var r := DecodeProps(s, faulty);
      r.Done? ==> (forall i | 0 <= i < |r.value| :: BoundedProp(r.value[i]))
                  && (r.used < |s| ==> r.used >= WeightOfAll(r.value) + 3)
    decreases |s|, if faulty then 1 else 2
  {
    hide DecodeProp, Int24, BoundedProp, WeightOf;
    if s != [] && !(|s| >= 3 && Int24(s) == OBJECT_END) {
      if faulty {
        PropsTaken(s[1..], true);
      } else {
        var p := DecodeProp(s, true);
        if p.Failed? {
          PropsTaken(s, true);
        } else {
          PropTaken(s);
          PropsTaken(s[p.used..], false);
        }
      }
    }
  }

  //
  // What the encoder has written
  //

  /** A null or an empty name anywhere makes the encoding two bytes or more shorter than the value weighs. */
  lemma {:induction false} EncodedTooShort(v: Value)
    requires Accepted(v) && Bounded(v) && !v.Null?
    ensures |EncodedValue(v)| == 1 + Weight(v) || |EncodedValue(v)| + 1 <= Weight(v)
    ensures |EncodedValue(v)| == 1 + Weight(v) <==> Encodable(v)
    decreases v, 0
  {
    hide EncodedProps, WeightOfAll;
    match v
    case Obj(props) => EncodedPropsTooShort(props);
    case _ =>
  }

  lemma {:induction false} EncodedPropTooShort(p: Prop)
    requires Accepted(p.value) && BoundedProp(p)
    ensures |EncodedProp(p)| == WeightOf(p) || |EncodedProp(p)| + 2 <= WeightOf(p)
    ensures |EncodedProp(p)| == WeightOf(p) <==> EncodableProp(p)
    decreases p, 1
  {
    hide EncodedValue, Weight;
    if !p.value.Null? { EncodedTooShort(p.value); }
  }

  lemma {:induction false} EncodedPropsTooShort(ps: seq<Prop>)
    requires forall i | 0 <= i < |ps| :: Accepted(ps[i].value) && BoundedProp(ps[i])
    ensures |EncodedProps(ps)| == WeightOfAll(ps) || |EncodedProps(ps)| + 2 <= WeightOfAll(ps)
    ensures |EncodedProps(ps)| == WeightOfAll(ps) <==> EncodableProps(ps)
    decreases ps, 2
  {
    hide EncodedProp, WeightOf, EncodableProp, BoundedProp, Accepted;
    if ps != [] {
      EncodedPropTooShort(ps[0]);
      EncodedPropsTooShort(ps[1..]);
      assert forall i | 0 < i < |ps| :: ps[i] == ps[1..][i - 1];
      assert forall i | 0 <= i < |ps| - 1 :: ps[1..][i] == ps[i + 1];
    }
  }

  //
  // With nothing behind the encoding, when the decoder may do without end marks
  //

  predicate EndsPlain(ps: seq<Prop>) { ps == [] || !ps[|ps| - 1].value.Obj? }

  lemma {:induction false} FaultyTaken(s: seq<byte>)
    ensures var r := DecodeProps(s, true);
      r.Done? ==> r.value == [] && r.used >= 3
    decreases |s|
  {
    if s != [] && !(|s| >= 3 && Int24(s) == OBJECT_END) { FaultyTaken(s[1..]); }
  }

  /** The first property and the rest. */
  lemma Unrolled(s: seq<byte>, ps: seq<Prop>, used: nat) returns (w: nat)
    requires DecodeProps(s, false) == Done(ps, used) && ps != []
    ensures 0 < w <= used && w <= |s| && (|ps| > 1 ==> w < |s|)
    ensures DecodeProp(s, true) == Done(ps[0], w) && DecodeProps(s[w..], false) == Done(ps[1..], used - w)
  {
    hide DecodeProp;
    var p := DecodeProp(s, true);
    if p.Failed? {
      FaultyTaken(s);
      assert false;
    }
    w := p.used;
    var later := DecodeProps(s[w..], false);
    assert ps == [p.value] + later.value;
  }

  /** When the last property is no object, no end mark but the last can be missing. */
  lemma {:induction false} PlainEndTaken(s: seq<byte>, ps: seq<Prop>, used: nat)
    requires DecodeProps(s, false) == Done(ps, used) && EndsPlain(ps)
    ensures used >= WeightOfAll(ps)
    decreases |ps|
  {
    hide DecodeProps, DecodeProp, WeightOf;
    if ps != [] {
      var w := Unrolled(s, ps, used);
      if |ps| > 1 { PropTaken(s); } else { PlainTaken(s); }
      PlainEndTaken(s[w..], ps[1..], used - w);
    }
  }

  lemma PlainTaken(s: seq<byte>)
    ensures var r := DecodeProp(s, true);
      r.Done? && !r.value.value.Obj? ==> r.used >= WeightOf(r.value)
  {
    hide DecodeProps;
  }

  /** Encoded in at most three bytes too few, there is only one fault, the first property's or a later one's. */
  lemma OneFault(ps: seq<Prop>)
    requires ps != [] && !EncodableProps(ps)
    requires forall i | 0 <= i < |ps| :: Accepted(ps[i].value) && BoundedProp(ps[i])
    requires |EncodedProps(ps)| + 3 >= WeightOfAll(ps)
    ensures if EncodableProp(ps[0]) then |EncodedProp(ps[0])| == WeightOf(ps[0]) && !EncodableProps(ps[1..])
            else EncodableProps(ps[1..]) && |EncodedProp(ps[0])| + 3 >= WeightOf(ps[0])
    ensures EncodableProps(ps[1..]) ==> |EncodedProps(ps[1..])| == WeightOfAll(ps[1..])
  {
    hide EncodedProp, WeightOf, EncodableProp, Accepted, BoundedProp;
    assert forall i | 0 <= i < |ps| - 1 :: ps[1..][i] == ps[i + 1];
    assert forall i | 0 < i < |ps| :: ps[i] == ps[1..][i - 1];
    EncodedPropTooShort(ps[0]);
    EncodedPropsTooShort(ps[1..]);
  }

  /** A null's type byte, read as the start of a name's length, makes a long name. */
  lemma NullMisread(p: Prop, more: seq<byte>)
    requires p.value.Null? && |p.name| < 0x500
    ensures var r := DecodeProp(EncodedProp(p) + more, true);
      r.Done? ==> r.value != p
  {
    var s := EncodedProp(p) + more;
    assert s[0] == NULL_VALUE;
  }

  const ZERO: Double := [0, 0, 0, 0, 0, 0, 0, 0]

  /** Without its name, only a zero is decoded to what it was, and only in front of two zero bytes, which it takes. */
  lemma UnnamedMisread(p: Prop, more: seq<byte>)
    requires p.name == [] && !p.value.Null? && Accepted(p.value)
    ensures var r := DecodeProp(EncodedProp(p) + more, true);
      r.Done? && r.value == p ==> p.value == Number(ZERO) && r.used == 11 && |more| >= 2 && more[0] == 0 == more[1]
  {
    hide DecodeProps, EncodedProps, Be16, Be32, DecodeProp, EncodedProp;
    var s, e := EncodedProp(p) + more, EncodedValue(p.value);
    UnnamedEncoded(p);
    assert s == e + more && s[0] == e[0];
    var r := DecodeProp(s, true);
    if r.Done? && r.value == p {
      UnnamedDecoded(s, p, r.used);
      ZeroRegained(p.value.d, more);
    }
  }

  lemma UnnamedEncoded(p: Prop)
    requires p.name == [] && !p.value.Null? && Accepted(p.value)
    ensures var e := EncodedProp(p);
      e == EncodedValue(p.value) && |e| > 0 && (e[0] == 0 ==> p.value.Number?)
  {}

  lemma UnnamedDecoded(s: seq<byte>, p: Prop, used: nat)
    requires p.name == [] && DecodeProp(s, true) == Done(p, used)
    ensures |s| >= 4 && s[0] == 0 == s[1]
    ensures p.value.Number? ==> used == 11 && |s| >= 11 && s[2] == NUMBER && s[3..11] == p.value.d
  {
    hide DecodeProps;
    assert s[2..2 + Int16(s)] == p.name;
    if p.value.Number? { assert s[3..][..8] == s[3..11]; }
  }

  lemma ZeroRegained(d: Double, more: seq<byte>)
    requires var s := [NUMBER] + d + more;
      |s| >= 11 && s[1] == 0 && s[2] == 0 && s[3..11] == d
    ensures d == ZERO && |more| >= 2 && more[0] == 0 == more[1]
  {
    var s := [NUMBER] + d + more;
    assert d[0] == s[1] && d[1] == s[2] && d[2] == s[3] && d[3] == s[4] && d[4] == s[5] && d[5] == s[6] && d[6] == s[7]
        && d[7] == s[8] && more[0] == s[9] && more[1] == s[10];
    assert d[0] == s[3] && d[1] == s[4] && d[2] == s[5] && d[3] == s[6] && d[4] == s[7] && d[5] == s[8] && d[6] == s[9]
        && d[7] == s[10] by { assert forall i | 0 <= i < 8 :: s[3..11][i] == s[3 + i]; }
  }

  lemma NameFirst(p: Prop, more: seq<byte>)
    requires 0 < |p.name| < 0x1_0000 && !p.value.Null?
    ensures var s := EncodedProp(p) + more;
      |s| >= 2 && Int16(s) == |p.name| > 0
  {
    hide EncodedValue, Be16, Int16;
    var n, s := |p.name|, EncodedProp(p) + more;
    Be16Length(n);
    Be16Int16(n);
    assert s == Be16(n) + (p.name + EncodedValue(p.value) + more);
    SameStart16(s, Be16(n));
  }

  lemma NamedFirst(ps: seq<Prop>, more: seq<byte>)
    requires ps != [] && EncodableProps(ps)
    ensures var s := EncodedProps(ps) + END_MARK + more;
      |s| >= 2 && Int16(s) != 0
  {
    hide EncodedProp, Int16;
    assert EncodableProp(ps[0]) && Encodable(ps[0].value);
    var behind := EncodedProps(ps[1..]) + END_MARK + more;
    NameFirst(ps[0], behind);
    assert EncodedProps(ps) + END_MARK + more == EncodedProp(ps[0]) + behind;
  }

  /** An object property is decoded to what its object is decoded to from behind the type byte. */
  lemma ObjectInside(p: Prop, more: seq<byte>)
    requires 0 < |p.name| < 0x1_0000 && p.value.Obj?
    ensures var r := DecodeProps(EncodedProps(p.value.props) + END_MARK + more, false);
      DecodeProp(EncodedProp(p) + more, true)
      == if r.Failed? then Failed else Done(Prop(p.name, Obj(r.value)), 3 + |p.name| + r.used)
  {
    hide DecodeProps, EncodedProps, Be16, Int16;
    var inner, name := EncodedProps(p.value.props), |p.name|;
    var s, behind := EncodedProp(p) + more, inner + END_MARK + more;
    Be16Length(name);
    Be16Int16(name);
    assert EncodedProp(p) == Be16(name) + p.name + ([OBJECT] + inner + END_MARK);
    assert s == Be16(name) + p.name + [OBJECT] + behind;
    SameStart16(s, Be16(name));
    assert s[2..2 + name] == p.name && s[2 + name] == OBJECT && s[3 + name..] == behind;
  }

  lemma EndAtOnce(s: seq<byte>, used: nat)
    requires DecodeProps(s, false) == Done([], used) && used <= 3 && used < |s|
    ensures used == 3 && Int24(s) == OBJECT_END
  {
    hide DecodeProp;
    if !(|s| >= 3 && Int24(s) == OBJECT_END) {
      if DecodeProp(s, true).Failed? { FaultyTaken(s[1..]); }
      assert false;
    }
  }

  lemma EndAfterOne(s: seq<byte>, used: nat)
    requires |s| > 0 && s[0] == OBJECT_END && DecodeProps(s, false) == Done([], used) && used <= 4
    ensures used == 4 && |s| >= 4 && Int24(s[1..]) == OBJECT_END
  {
    hide DecodeProp;
    if DecodeProp(s, true).Done? { assert false; }
    var more := s[1..];
    assert DecodeProps(more, true).Done?;
    if !(|more| >= 3 && Int24(more) == OBJECT_END) {
      FaultyTaken(more[1..]);
      assert false;
    }
  }

  lemma Behind(a: seq<byte>, b: seq<byte>, w: nat)
    requires |a| <= w <= |a| + |b|
    ensures (a + b)[w..] == b[w - |a|..]
  {}

  lemma MarkCut(more: seq<byte>)
    ensures (EncodedProps([]) + END_MARK + more)[2..] == [OBJECT_END] + more
    ensures ([OBJECT_END] + more)[1..] == more && ([OBJECT_END] + more)[0] == OBJECT_END
    ensures (EncodedProps([]) + END_MARK + more)[3..] == more
  {}

  lemma NoName(s: seq<byte>)
    requires |s| >= 3 && Int24(s) == OBJECT_END
    ensures Int16(s) == 0
  {}

  /** A faulty property that comes back is an unnamed zero or holds one. */
  lemma FaultIs(p: Prop, behind: seq<byte>, w: nat)
    requires Accepted(p.value) && BoundedProp(p) && !EncodableProp(p) && |EncodedProp(p)| + 3 >= WeightOf(p)
    requires DecodeProp(EncodedProp(p) + behind, true) == Done(p, w)
    ensures if p.name == [] then |EncodedProp(p)| == 9 && w == 11 && |behind| >= 2 && Int16(behind) == 0
            else p.value.Obj? && !EncodableProps(p.value.props) && |p.name| < 0x1_0000
                 && (forall i | 0 <= i < |p.value.props| :: Accepted(p.value.props[i].value))
                 && |EncodedProp(p)| + 2 <= WeightOf(p)
                 && |EncodedProp(p)| == 6 + |p.name| + |EncodedProps(p.value.props)|
  {
    hide DecodeProp, EncodedProps, WeightOfAll;
    EncodedPropTooShort(p);
    if p.value.Null? {
      NullMisread(p, behind);
    } else if p.name == [] {
      UnnamedMisread(p, behind);
    }
  }

  /**
   * Properties that come back from a faulty encoding with at most three bytes too many have taken the end mark of the
   * object around theirs.
   */
  lemma {:induction false} MarkTaken(ps: seq<Prop>, more: seq<byte>, extra: nat)
    requires !EncodableProps(ps) && forall i | 0 <= i < |ps| :: Accepted(ps[i].value)
    requires extra <= 3 && extra < |more|
    requires DecodeProps(EncodedProps(ps) + END_MARK + more, false) == Done(ps, |EncodedProps(ps)| + 3 + extra)
    ensures extra == 3 && Int24(more) == OBJECT_END
    decreases ps
  {
    hide DecodeProps, DecodeProp, EncodedProp, WeightOf, EncodableProp, Accepted, BoundedProp, Int24, Int16;
    var s, used := EncodedProps(ps) + END_MARK + more, |EncodedProps(ps)| + 3 + extra;
    var p, rest := ps[0], ps[1..];
    var behind := EncodedProps(rest) + END_MARK + more;
    PropsTaken(s, false);
    OneFault(ps);
    var w := Unrolled(s, ps, used);
    assert s == EncodedProp(p) + behind;
    if EncodableProp(p) {
      PropRoundTrip(p, behind);
      assert s[w..] == behind;
      MarkTaken(rest, more, extra);
    } else {
      FaultIs(p, behind, w);
      PropTaken(s);
      Behind(EncodedProp(p), behind, w);
      if rest != [] { NamedFirst(rest, more); }
      if p.name == [] {
        assert rest == [];
        MarkCut(more);
        EndAfterOne([OBJECT_END] + more, used - w);
      } else {
        PropsTaken(s[w..], false);
        ObjectInside(p, behind);
        MarkTaken(p.value.props, behind, w - |EncodedProp(p)|);
        NoName(behind);
        assert rest == [];
        MarkCut(more);
        EndAtOnce(more, used - w);
      }
    }
  }

  /** With nothing behind, and no object at the end whose end mark could be missing, too. */
  lemma {:induction false} PlainEndComesBack(ps: seq<Prop>)
    requires EndsPlain(ps) && forall i | 0 <= i < |ps| :: Accepted(ps[i].value)
    requires DecodeProps(EncodedProps(ps) + END_MARK, false) == Done(ps, |EncodedProps(ps)| + 3)
    ensures EncodableProps(ps)
    decreases |ps|
  {
    hide DecodeProps, DecodeProp, EncodedProp, WeightOf, EncodableProp, Accepted, BoundedProp, Int24, Int16;
    if !EncodableProps(ps) {
      var s, used := EncodedProps(ps) + END_MARK, |EncodedProps(ps)| + 3;
      var p, rest := ps[0], ps[1..];
      var behind := EncodedProps(rest) + END_MARK;
      PropsTaken(s, false);
      PlainEndTaken(s, ps, used);
      OneFault(ps);
      var w := Unrolled(s, ps, used);
      assert s == EncodedProp(p) + behind;
      if EncodableProp(p) {
        PropRoundTrip(p, behind);
        assert s[w..] == behind;
        PlainEndComesBack(rest);
      } else {
        FaultIs(p, behind, w);
        PropTaken(s);
        Behind(EncodedProp(p), behind, w);
        if rest != [] { NamedFirst(rest, []); }
        assert behind + [] == behind;
        if p.name == [] {
          assert s[w..] == [OBJECT_END];
          EndAfterOne([OBJECT_END], used - w);
        } else {
          PlainEndTaken(s[w..], rest, used - w);
          ObjectInside(p, behind);
          MarkTaken(p.value.props, behind, w - |EncodedProp(p)|);
          NoName(behind);
        }
      }
    }
  }

  /**
   * With something behind it, or without an object as its last property, an object that has an encoding comes back
   * from it, using exactly its bytes, if and only if all its properties at every depth have a name, of less than 65536
   * bytes, and a value that is not null.
   */
  lemma ObjectRoundTripExactly(props: seq<Prop>, rest: seq<byte>)
    requires Accepted(Obj(props)) && (rest != [] || EndsPlain(props))
    ensures var e := EncodedValue(Obj(props));
      DecodeProp(e + rest, false) == Done(Prop([], Obj(props)), |e|) <==> EncodableProps(props)
  {
    hide EncodedProps, DecodeProps, Weight;
    var v, e := Obj(props), EncodedValue(Obj(props));
    if EncodableProps(props) {
      ObjectRoundTrip(props, rest);
    } else {
      var s := e + rest;
      assert s[0] == OBJECT && s[1..] == e[1..] + rest;
      ValueTaken(OBJECT, s[1..]);
      if DecodeProp(s, false) == Done(Prop([], v), |e|) {
        if rest == [] {
          assert s[1..] == EncodedProps(props) + END_MARK;
          PlainEndComesBack(props);
        } else {
          EncodedTooShort(v);
        }
      }
    }
  }

  //
  // An object in an object, with nothing behind
  //

  /** All properties have encodings that are decoded, but for a zero without a name, the last one so many objects in. */
  predicate EndsInZero(ps: seq<Prop>, depth: nat) {
    ps != [] &&
    var p := ps[|ps| - 1];
    && EncodableProps(ps[..|ps| - 1])
    && if depth == 0 then p == Prop([], Number(ZERO))
       else 0 < |p.name| < 0x1_0000 && p.value.Obj? && EndsInZero(p.value.props, depth - 1)
  }

  function EndMarks(n: nat): (s: seq<byte>)
    ensures |s| == 3 * n
  {
    if n == 0 then [] else END_MARK + EndMarks(n - 1)
  }

  lemma EndMarksEnd(n: nat)
    ensures DecodeProps(EndMarks(n), false) == Done([], if n == 0 then 0 else 3)
    ensures n > 0 ==> DecodeProps(EndMarks(n), true) == Done([], 3)
  {
    if n > 0 {
      var s := EndMarks(n);
      assert s[0] == 0 && s[1] == 0 && s[2] == OBJECT_END;
    }
  }

  /** The zero takes two bytes of the end mark behind it, whose third is skipped and makes the next mark this one's. */
  lemma ZeroTaken(n: nat)
    requires 0 < n < 768
    ensures var zero := Prop([], Number(ZERO));
      DecodeProps(EncodedProp(zero) + END_MARK + EndMarks(n), false) == Done([zero], 15)
  {
    var zero := Prop([], Number(ZERO));
    var s := EncodedProp(zero) + END_MARK + EndMarks(n);
    var later := [OBJECT_END] + EndMarks(n);
    assert s[..9] == EncodedProp(zero) && s[11..] == later;
    assert s[3..][..8] == s[3..11] == ZERO;
    assert s[0] == 0 && s[1] == 0 && s[2] == NUMBER && s[2..2] == [];
    assert DecodeValue(s[2], s[3..]) == Done(Number(ZERO), 8);
    assert DecodeProp(s, true) == Done(zero, 11);
    assert later[0] == 9 && later[1] == 0 && later[2] == 0 && later[1..] == EndMarks(n);
    assert DecodeProp(later, true).Failed?;
    EndMarksEnd(n);
    assert DecodeProps(later, true) == Done([], 4);
    assert DecodeProps(later, false) == Done([], 4);
    assert Int24(s) == 0;
    assert [zero] + [] == [zero];
  }

  /** An object that takes the end mark behind it leaves the one behind that to the object it is in. */
  lemma ObjectEndsIt(p: Prop, n: nat)
    requires 0 < |p.name| < 0x1_0000 && p.value.Obj?
    requires DecodeProps(EncodedProps(p.value.props) + END_MARK + EndMarks(n + 1), false)
          == Done(p.value.props, |EncodedProps(p.value.props)| + 6)
    ensures DecodeProps(EncodedProp(p) + END_MARK + EndMarks(n), false)
         == Done([p], |EncodedProp(p)| + if n > 0 then 6 else 3)
  {
    hide DecodeProp, EncodedProp, EncodedProps, Int16, Int24;
    var more := END_MARK + EndMarks(n);
    var s := EncodedProp(p) + more;
    assert s == EncodedProp(p) + END_MARK + EndMarks(n);
    ObjectLength(p);
    ObjectInside(p, more);
    assert EncodedProps(p.value.props) + END_MARK + more == EncodedProps(p.value.props) + END_MARK + EndMarks(n + 1);
    NameFirst(p, more);
    if Int24(s) == OBJECT_END { NoName(s); }
    Behind(EncodedProp(p), more, |EncodedProp(p)| + 3);
    assert more[3..] == EndMarks(n);
    EndMarksEnd(n);
    assert [p] + [] == [p];
  }

  lemma ObjectLength(p: Prop)
    requires p.name != [] && p.value.Obj?
    ensures |EncodedProp(p)| == 6 + |p.name| + |EncodedProps(p.value.props)|
  {
    hide EncodedProps;
  }

  lemma LedBy(p: Prop, more: seq<byte>, rest: seq<Prop>, used: nat)
    requires EncodableProp(p) && DecodeProps(more, false) == Done(rest, used)
    ensures DecodeProps(EncodedProp(p) + more, false) == Done([p] + rest, |EncodedProp(p)| + used)
  {
    hide DecodeProp, EncodedProp, EncodableProp, Int24;
    PropRoundTrip(p, more);
    NoEndMark(p, more);
    assert (EncodedProp(p) + more)[|EncodedProp(p)|..] == more;
  }

  /** Each object takes the end mark of the one around it, and the outermost does without. */
  lemma {:induction false} ZeroComesBack(ps: seq<Prop>, depth: nat, n: nat)
    requires EndsInZero(ps, depth) && (depth > 0 || n > 0) && depth + n < 768
    ensures DecodeProps(EncodedProps(ps) + END_MARK + EndMarks(n), false)
         == Done(ps, |EncodedProps(ps)| + if n > 0 then 6 else 3)
    decreases depth, |ps|
  {
    hide DecodeProp, EncodedProp, EncodableProp, Int24;
    var p, rest := ps[0], ps[1..];
    var more := EncodedProps(rest) + END_MARK + EndMarks(n);
    var s := EncodedProps(ps) + END_MARK + EndMarks(n);
    assert s == EncodedProp(p) + more;
    if rest != [] {
      assert EncodableProp(p) by { assert ps[..|ps| - 1][0] == p; }
      LaterEndsInZero(ps, depth);
      ZeroComesBack(rest, depth, n);
      LedBy(p, more, rest, |EncodedProps(rest)| + if n > 0 then 6 else 3);
      assert [p] + rest == ps;
    } else {
      assert ps == [p] && more == END_MARK + EndMarks(n) && s == EncodedProp(p) + END_MARK + EndMarks(n);
      if depth == 0 {
        ZeroTaken(n);
        ZeroLength();
      } else {
        ZeroComesBack(p.value.props, depth - 1, n + 1);
        ObjectEndsIt(p, n);
      }
    }
  }

  lemma ZeroLength()
    ensures |EncodedProp(Prop([], Number(ZERO)))| == 9
  {}

  lemma LaterEndsInZero(ps: seq<Prop>, depth: nat)
    requires EndsInZero(ps, depth) && |ps| > 1
    ensures EndsInZero(ps[1..], depth)
  {
    var good, rest := ps[..|ps| - 1], ps[1..];
    assert rest[|rest| - 1] == ps[|ps| - 1];
    assert rest[..|rest| - 1] == good[1..];
  }

  lemma {:induction false} EncodableAccepted(v: Value)
    requires Encodable(v)
    ensures Accepted(v)
    decreases v
  {
    if v.Obj? {
      forall i | 0 <= i < |v.props| ensures Accepted(v.props[i].value) {
        assert EncodableProp(v.props[i]);
        EncodableAccepted(v.props[i].value);
      }
    }
  }

  lemma {:induction false} ZeroAccepted(ps: seq<Prop>, depth: nat)
    requires EndsInZero(ps, depth)
    ensures Accepted(Obj(ps)) && !EncodableProps(ps)
    decreases depth
  {
    var last := |ps| - 1;
    if depth > 0 { ZeroAccepted(ps[last].value.props, depth - 1); }
    assert !EncodableProp(ps[last]);
    forall i | 0 <= i < |ps| ensures Accepted(ps[i].value) {
      if i < last {
        assert EncodableProp(ps[..last][i]);
        EncodableAccepted(ps[i].value);
      }
    }
  }

  /**
   * An object with an unnamed zero at the end of an object in it comes back although the zero has no name, if and
   * only if there is nothing behind it. (Some hundred objects deeper, the end marks would make up a name.)
   */
  lemma UnnamedZeroComesBack(props: seq<Prop>, depth: nat, rest: seq<byte>)
    requires EndsInZero(props, depth) && 0 < depth < 768
    ensures !EncodableProps(props)
    ensures var e := EncodedValue(Obj(props));
      DecodeProp(e + rest, false) == Done(Prop([], Obj(props)), |e|) <==> rest == []
  {
    hide EncodedProps, DecodeProps, EndsInZero, EncodableProp, Accepted;
    ZeroAccepted(props, depth);
    if rest == [] {
      ZeroComesBack(props, depth, 0);
      var s := EncodedValue(Obj(props)) + rest;
      assert s[0] == OBJECT && s[1..] == EncodedProps(props) + END_MARK + EndMarks(0);
    } else {
      ObjectRoundTripExactly(props, rest);
    }
  }

  /** The least such object: an A that holds an unnamed zero. */
  lemma UnnamedZeroExample(rest: seq<byte>)
    ensures var props := [Prop([65], Obj([Prop([], Number(ZERO))]))];
      var e := [3, 0, 1, 65, 3, 0, 0, 0, 0, 0, 0, 0, 0, 0, 0, 0, 9, 0, 0, 9];
      && EncodedValue(Obj(props)) == e
      && (DecodeProp(e + rest, false) == Done(Prop([], Obj(props)), 20) <==> rest == [])
  {
    var inner := [Prop([], Number(ZERO))];
    var props := [Prop([65], Obj(inner))];
    UnnamedZeroExampleEncoded();
    hide EncodedValue, DecodeProp;
    assert inner[..0] == [] && props[..0] == [];
    assert EndsInZero(inner, 0) && EndsInZero(props, 1);
    UnnamedZeroComesBack(props, 1, rest);
  }

  lemma UnnamedZeroExampleEncoded()
    ensures EncodedValue(Obj([Prop([65], Obj([Prop([], Number(ZERO))]))]))
         == [3, 0, 1, 65, 3, 0, 0, 0, 0, 0, 0, 0, 0, 0, 0, 0, 9, 0, 0, 9]
  {
    var zero := Prop([], Number(ZERO));
    var named := Prop([65], Obj([zero]));
    assert EncodedProp(zero) == [0, 0, 0, 0, 0, 0, 0, 0, 0];
    hide EncodedProp;
    OneEncoded(zero);
    OneEncoded(named);
    assert EncodedProp(named) == EncodedName([65]) + EncodedValue(Obj([zero])) by { NamedEncoded(named); }
    assert EncodedName([65]) == [0, 1, 65];
  }

  lemma OneEncoded(p: Prop)
    ensures EncodedValue(Obj([p])) == [OBJECT] + EncodedProp(p) + END_MARK
  {
    hide EncodedProp;
    assert EncodedProps([p]) == EncodedProp(p) + EncodedProps([]);
  }

  lemma NamedEncoded(p: Prop)
    requires !p.value.Null?
    ensures EncodedProp(p) == EncodedName(p.name) + EncodedValue(p.value)
  {}
}
