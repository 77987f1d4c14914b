/** The encoder, writing into memory up to a given end. */
module AmfEncoder {
  import opened Bytes
  import opened Memory
  import opened Amf
  import opened AmfFit

  method EncodeInt16(out: array<byte>, at: nat, end: nat, n: nat) returns (r: Option<nat>)
    requires at <= end <= out.Length
    modifies out
    ensures r == if at + 2 > end then None else Some(at + 2)
    ensures r.Some? ==> out[at..at + 2] == Be16(n)
    ensures OnlyWithin(out, at, end)
  {
    if at + 2 > end { return None; }
    out[at + 1] := n % 256;
    out[at] := n / 0x100 % 256;
    r := Some(at + 2);
  }

  method EncodeInt32(out: array<byte>, at: nat, end: nat, n: nat) returns (r: Option<nat>)
    requires at <= end <= out.Length
    modifies out
    ensures r == if at + 4 > end then None else Some(at + 4)
    ensures r.Some? ==> out[at..at + 4] == Be32(n)
    ensures OnlyWithin(out, at, end)
  {
    if at + 4 > end { return None; }
    out[at + 3] := n % 256;
    out[at + 2] := n / 0x100 % 256;
    out[at + 1] := n / 0x1_0000 % 256;
    out[at] := n / 0x100_0000 % 256;
    r := Some(at + 4);
  }

  /** What a call may answer: nothing, or the position behind the encoded value. */
  ghost predicate Answers(r: Option<nat>, out: array<byte>, at: nat, end: nat, encoded: Option<seq<byte>>)
    reads out
  {
    if encoded.None? then r.None?
    else at + |encoded.value| <= end <= out.Length && r == Some(at + |encoded.value|)
         && out[at..at + |encoded.value|] == encoded.value
  }

  function EncodedFit(v: Value, room: int): Option<seq<byte>> {
    var q := FitValue(v, room);
    if q.None? then None else Some(EncodedValue(q.value))
  }

  function StringHead(n: nat): seq<byte> {
    if n < 0x1_0000 then [STRING] + Be16(n) else [LONG_STRING] + Be32(n)
  }

  method EncodeStringHead(n: nat, out: array<byte>, at: nat, end: nat) returns (p: nat)
    requires at + 5 <= end <= out.Length
    modifies out
    ensures p == at + |StringHead(n)| <= at + 5 && out[at..p] == StringHead(n) && OnlyWithin(out, at, end)
  {
    hide Be16, Be32;
    var q;
    if n < 65536 {
      out[at] := STRING;
      q := EncodeInt16(out, at + 1, end, n);
    } else {
      out[at] := LONG_STRING;
      q := EncodeInt32(out, at + 1, end, n);
    }
    p := q.value;
    Joins(out, at, at + 1, p);
  }

  method EncodeString(s: seq<byte>, out: array<byte>, at: nat, end: nat) returns (r: Option<nat>)
    requires at <= end <= out.Length
    modifies out
    ensures Answers(r, out, at, end, EncodedFit(Str(s), end - at))
    ensures OnlyWithin(out, at, end)
  {
    hide EncodedFit, StringHead;
    StringFit(s, end - at);
    if (|s| < 65536 && at + 1 + 2 + |s| > end) || at + 1 + 4 + |s| > end { return None; }
    var p := EncodeStringHead(|s|, out, at, end);
    ghost var head := out[at..p];
    CopyBytes(out, p, s);
    assert out[at..p] == head;
    Joins(out, at, p, p + |s|);
    r := Some(p + |s|);
  }

  lemma StringFit(s: seq<byte>, room: int)
    ensures EncodedFit(Str(s), room)
         == if room < |s| + 5 then None
            else Some(StringHead(|s|) + s)
  {
    hide Be16, Be32;
  }

  method EncodeNumber(d: Double, out: array<byte>, at: nat, end: nat) returns (r: Option<nat>)
    requires at <= end <= out.Length
    modifies out
    ensures Answers(r, out, at, end, EncodedFit(Number(d), end - at))
    ensures OnlyWithin(out, at, end)
  {
    if at + 1 + 8 > end { return None; }
    out[at] := NUMBER;
    CopyBytes(out, at + 1, d);
    assert out[at..at + 9] == [NUMBER] + d;
    r := Some(at + 9);
  }

  method EncodeBoolean(b: bool, out: array<byte>, at: nat, end: nat) returns (r: Option<nat>)
    requires at <= end <= out.Length
    modifies out
    ensures Answers(r, out, at, end, EncodedFit(Boolean(b), end - at))
    ensures OnlyWithin(out, at, end)
  {
    if at + 2 > end { return None; }
    out[at] := BOOLEAN;
    out[at + 1] := if b then 1 else 0;
    r := Some(at + 2);
  }

  function EncodedFitProp(p: Prop, room: int): Option<seq<byte>> {
    var q := FitProp(p, room);
    if q.None? then None else Some(EncodedProp(q.value))
  }

  /** The value of a property, by its type. */
  method EncodeValue(v: Value, out: array<byte>, at: nat, end: nat) returns (r: Option<nat>)
    requires at <= end <= out.Length
    modifies out
    ensures Answers(r, out, at, end, EncodedFit(v, end - at))
    ensures OnlyWithin(out, at, end)
    decreases v, 2
  {
    match v
    case Number(d) => r := EncodeNumber(d, out, at, end);
    case Boolean(b) => r := EncodeBoolean(b, out, at, end);
    case Str(s) => r := EncodeString(s, out, at, end);
    case Obj(props) => r := EncodeObject(props, v, out, at, end);
    case _ => r := None;
  }

  method EncodeProp(p: Prop, out: array<byte>, at: nat, end: nat) returns (r: Option<nat>)
    requires at <= end <= out.Length
    modifies out
    ensures Answers(r, out, at, end, EncodedFitProp(p, end - at))
    ensures OnlyWithin(out, at, end)
    decreases p, 3
  {
    hide FitValue, EncodedValue;
    if !p.value.Null? && at + |p.name| + 2 + 1 >= end { return None; }
    if p.value.Null? {
      if at + 1 >= end { return None; }
      out[at] := NULL_VALUE;
      return Some(at + 1);
    }
    var q := at;
    if p.name != [] {
      WriteName(p.name, out, at);
      q := at + 2 + |p.name|;
    }
    ghost var name := out[at..q];
    r := EncodeValue(p.value, out, q, end);
    if r.Some? {
      assert out[at..q] == name;
      Joins(out, at, q, r.value);
    }
  }

  method WriteName(name: seq<byte>, out: array<byte>, at: nat)
    requires at + 2 + |name| <= out.Length && name != []
    modifies out
    ensures out[at..at + 2 + |name|] == EncodedName(name) && OnlyWithin(out, at, at + 2 + |name|)
  {
    out[at] := |name| / 0x100 % 256;
    out[at + 1] := |name| % 256;
    assert out[at..at + 2] == Be16(|name|);
    ghost var head := out[at..at + 2];
    hide Be16;
    CopyBytes(out, at + 2, name);
    assert out[at..at + 2] == head;
    Joins(out, at, at + 2, at + 2 + |name|);
  }

  /** An object: as many properties as fit, then the end mark if that fits. */
  method EncodeObject(props: seq<Prop>, ghost whole: Value, out: array<byte>, at: nat, end: nat)
    returns (r: Option<nat>)
    requires at <= end <= out.Length && whole == Obj(props)
    modifies out
    ensures Answers(r, out, at, end, EncodedFit(whole, end - at))
    ensures OnlyWithin(out, at, end)
    decreases whole, 1
  {
    hide FitValue, EncodedValue, EncodedProps, FitProps, EncodedFit;
    ObjectFit(props, end - at);
    if at + 4 >= end { return None; }
    out[at] := OBJECT;
    ghost var kept := FitProps(props, end - at - 1);
    var p := EncodeProps(props, whole, out, at + 1, end, kept);
    if p + 3 >= end { return None; }
    ghost var body := out[at + 1..p];
    EncodeEndMark(out, p);
    assert out[at + 1..p] == body;
    Joins(out, at, at + 1, p);
    Joins(out, at, p, p + 3);
    r := Some(p + 3);
  }

  lemma ObjectFit(props: seq<Prop>, room: int)
    ensures EncodedFit(Obj(props), room)
         == if room <= 4 || room - 1 - |EncodedProps(FitProps(props, room - 1))| <= 3 then None
            else Some([OBJECT] + EncodedProps(FitProps(props, room - 1)) + END_MARK)
  {
    hide FitProps, EncodedProps;
  }

  method EncodeEndMark(out: array<byte>, at: nat)
    requires at + 3 <= out.Length
    modifies out
    ensures out[at..at + 3] == END_MARK && OnlyWithin(out, at, at + 3)
  {
    out[at + 2] := OBJECT_END;
    out[at + 1] := 0;
    out[at] := 0;
  }

  /** The loop over the properties. */
  method EncodeProps(props: seq<Prop>, ghost whole: Value, out: array<byte>, at: nat, end: nat, ghost kept: seq<Prop>)
    returns (p: nat)
    requires at <= end <= out.Length && whole == Obj(props) && kept == FitProps(props, end - at)
    modifies out
    ensures p == at + |EncodedProps(kept)| <= end && out[at..p] == EncodedProps(kept)
    ensures OnlyWithin(out, at, end)
    decreases whole, 0
  {
    hide FitProp, FitProps, EncodedProp, EncodedProps;
    var i, full := 0, false;
    p := at;
    ghost var done: seq<Prop> := [];
    Nothing(props, end - at);
    while i < |props| && !full
      invariant i <= |props| && at <= p <= end && p == at + |EncodedProps(done)|
      invariant done + (if full then [] else FitProps(props[i..], end - p)) == kept
      invariant out[at..p] == EncodedProps(done)
      invariant OnlyWithin(out, at, end)
      decreases |props| - i, !full
    {
      FitStep(props, i, end - p);
      ghost var fit := FitProp(props[i], end - p);
      ghost var front := out[at..p];
      var q := EncodeNext(props[i], fit, out, p, end);
      assert out[at..p] == front;
      if q.None? {
        full := true;
      } else {
        EncodedOneMore(done, fit.value);
        Joins(out, at, p, q.value);
        Regrouped(done, [fit.value], FitProps(props[i + 1..], end - q.value));
        done := done + [fit.value];
        p := q.value;
        i := i + 1;
      }
    }
    if !full {
      assert props[i..] == [];
      Nothing([], end - p);
    }
    assert done + [] == done;
  }

  /** One round of the loop: nothing, or the position behind the property. */
  method EncodeNext(p: Prop, ghost fit: Option<Prop>, out: array<byte>, at: nat, end: nat) returns (r: Option<nat>)
    requires at <= end <= out.Length && fit == FitProp(p, end - at)
    modifies out
    ensures r.None? <==> fit.None?
    ensures r.Some? ==> at <= r.value <= end && out[at..r.value] == EncodedProp(fit.value)
    ensures r.Some? ==> r.value == at + |EncodedProp(fit.value)|
    ensures OnlyWithin(out, at, end)
    decreases p, 4
  {
    hide FitProp, EncodedProp;
    r := EncodeProp(p, out, at, end);
  }

  lemma Nothing(props: seq<Prop>, room: int)
    ensures props[0..] == props && [] + FitProps(props, room) == FitProps(props, room)
    ensures EncodedProps([]) == [] && FitProps([], room) == []
  {}
}
