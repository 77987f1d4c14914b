/** Encoding into a buffer that may be too small. */
module AmfFit {
  import opened Bytes
  import opened Amf

  //
  // What fits
  //

  /** The value as it is encoded into `room` bytes, its properties cut short if need be; or not at all. */
  function FitValue(v: Value, room: int): (r: Option<Value>)
    ensures r.Some? ==> !r.value.Null?
    decreases v, 0
  {
    match v
    case Number(_) => if room < 9 then None else Some(v)
    case Boolean(_) => if room < 2 then None else Some(v)
    case Str(s) => if room < |s| + 5 then None else Some(v)
    case Obj(props) =>
      if room <= 4 then None
      else
        var kept := FitProps(props, room - 1);
        if room - 1 - |EncodedProps(kept)| <= 3 then None else Some(Obj(kept))
    case _ => None
  }

  function FitProp(p: Prop, room: int): (r: Option<Prop>)
    decreases p, 1
  {
    if p.value.Null? then (if room <= 1 then None else Some(p))
    else if room <= |p.name| + 3 then None
    else
      var v := FitValue(p.value, room - |EncodedName(p.name)|);
      if v.None? then None else Some(Prop(p.name, v.value))
  }

  /** Properties one after the other, up to the first that does not fit. */
  function FitProps(ps: seq<Prop>, room: int): (kept: seq<Prop>)
    ensures |kept| <= |ps|
    decreases ps, 2
  {
    if ps == [] then []
    else
      var p := FitProp(ps[0], room);
      if p.None? then [] else [p.value] + FitProps(ps[1..], room - |EncodedProp(p.value)|)
  }

  lemma FitStep(ps: seq<Prop>, i: nat, room: int)
    requires i < |ps|
    ensures FitProps(ps[i..], room)
         == match FitProp(ps[i], room)
            case None => []
            case Some(q) => [q] + FitProps(ps[i + 1..], room - |EncodedProp(q)|)
  {
    assert ps[i..][1..] == ps[i + 1..];
  }

  lemma {:induction false} EncodedOneMore(ps: seq<Prop>, q: Prop)
    ensures EncodedProps(ps + [q]) == EncodedProps(ps) + EncodedProp(q)
    decreases |ps|
  {
    hide EncodedProp;
    if ps == [] {
      assert [q][1..] == [];
    } else {
      assert (ps + [q])[0] == ps[0] && (ps + [q])[1..] == ps[1..] + [q];
      EncodedOneMore(ps[1..], q);
    }
  }

  //
  // What is left of a value
  //

  /** Every property list is cut to a prefix, at every depth; nothing else is changed. */
  predicate CutFrom(q: Value, v: Value)
    decreases v, 0
  {
    if v.Obj? then q.Obj? && PropsCutFrom(q.props, v.props) else q == v
  }

  predicate PropCutFrom(q: Prop, p: Prop)
    decreases p, 1
  {
    q.name == p.name && CutFrom(q.value, p.value)
  }

  predicate PropsCutFrom(qs: seq<Prop>, ps: seq<Prop>)
    decreases ps, 2
  {
    |qs| <= |ps| && forall i | 0 <= i < |qs| :: PropCutFrom(qs[i], ps[i])
  }

  lemma {:induction false} FitValueIsCut(v: Value, room: int)
    requires Encodable(v) && FitValue(v, room).Some?
    ensures var q := FitValue(v, room).value;
      CutFrom(q, v) && Encodable(q) && |EncodedValue(q)| <= room && (v.Obj? ==> |EncodedValue(q)| < room)
    decreases v, 0
  {
    match v
    case Obj(props) => FitPropsAreCut(props, room - 1);
    case _ =>
  }

  lemma {:induction false} FitPropIsCut(p: Prop, room: int)
    requires EncodableProp(p) && FitProp(p, room).Some?
    ensures var q := FitProp(p, room).value;
      PropCutFrom(q, p) && EncodableProp(q) && |EncodedProp(q)| <= room
    decreases p, 1
  {
    FitValueIsCut(p.value, room - 2 - |p.name|);
  }

  lemma {:induction false} FitPropsAreCut(ps: seq<Prop>, room: int)
    requires EncodableProps(ps) && room >= 0
    ensures var qs := FitProps(ps, room);
      PropsCutFrom(qs, ps) && EncodableProps(qs) && |EncodedProps(qs)| <= room
    decreases ps, 2
  {
    if ps != [] && FitProp(ps[0], room).Some? {
      FitPropIsCut(ps[0], room);
      var q := FitProp(ps[0], room).value;
      var more := room - |EncodedProp(q)|;
      FitPropsAreCut(ps[1..], more);
      var qs := FitProps(ps[1..], more);
      assert ([q] + qs)[1..] == qs;
    }
  }

  //
  // When everything fits
  //

  lemma {:induction false} WholeValueFits(v: Value, room: int)
    requires Encodable(v) && room > |EncodedValue(v)| + 2
    ensures FitValue(v, room) == Some(v)
    decreases v, 0
  {
    match v
    case Obj(props) => WholePropsFit(props, room - 1);
    case _ =>
  }

  lemma {:induction false} WholePropFits(p: Prop, room: int)
    requires EncodableProp(p) && room > |EncodedProp(p)| + 2
    ensures FitProp(p, room) == Some(p)
    decreases p, 1
  {
    WholeValueFits(p.value, room - 2 - |p.name|);
  }

  lemma {:induction false} WholePropsFit(ps: seq<Prop>, room: int)
    requires EncodableProps(ps) && room > |EncodedProps(ps)| + 3
    ensures FitProps(ps, room) == ps
    decreases ps, 2
  {
    if ps != [] {
      WholePropFits(ps[0], room);
      WholePropsFit(ps[1..], room - |EncodedProp(ps[0])|);
    }
  }

  /** An object is encoded whole exactly when there is a byte to spare behind it. */
  lemma FitsExactly(props: seq<Prop>, room: int)
    requires EncodableProps(props)
    ensures FitValue(Obj(props), room) == Some(Obj(props)) <==> room > |EncodedValue(Obj(props))|
  {
    if room > |EncodedValue(Obj(props))| { WholePropsFit(props, room - 1); }
  }

  /**
   Whatever the room: when the encoder returns a position, it lies inside the buffer, and the bytes up to it
   decode to the object with its property lists cut short.
   */
  lemma SafeTruncation(props: seq<Prop>, room: int, rest: seq<byte>)
    requires EncodableProps(props) && FitValue(Obj(props), room).Some?
    ensures var q := FitValue(Obj(props), room).value;
      && CutFrom(q, Obj(props))
      && |EncodedValue(q)| < room
      && DecodeProp(EncodedValue(q) + rest, false) == Done(Prop([], q), |EncodedValue(q)|)
  {
    var v := Obj(props);
    assert Encodable(v);
    FitValueIsCut(v, room);
    var q := FitValue(v, room).value;
    assert EncodableProps(q.props);
    ObjectRoundTrip(q.props, rest);
  }
}
