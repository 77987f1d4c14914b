/** The decoder's loops, and the property list they fill. */
module AmfDecoder {
  import opened Bytes
  import opened Memory
  import opened Amf

  /** A property list that grows by sixteen whenever it holds a multiple of sixteen. */
  class PropList {
    var props: array<Prop>
    var num: nat

    constructor ()
      ensures Valid() && fresh(props) && Contents() == []
    {
      props := new Prop[0];
      num := 0;
    }

    ghost predicate Valid()
      reads this
    {
      Roomy(num, props.Length)
    }

    ghost function Contents(): seq<Prop>
      requires Valid()
      reads this, props
    {
      props[..num]
    }

    method Add(p: Prop)
      requires Valid()
      modifies this, props
      ensures Valid() && (props == old(props) || fresh(props))
      ensures Contents() == old(Contents()) + [p]
    {
      props := Grown(props, num, p);
      props[num] := p;
      num := num + 1;
    }
  }

  method ParseProp(s: seq<byte>, named: bool) returns (r: Decoded<Prop>)
    ensures r == DecodeProp(s, named)
    decreases |s|, 0
  {
    if s == [] || (named && |s| < 4) { return Failed; }
    var name, at := [], 0;
    if named {
      var n := Int16(s);
      if n > |s| - 2 { return Failed; }
      name := s[2..2 + n];
      at := 2 + n;
    }
    if at == |s| { return Failed; }
    var v := ParseValue(s[at], s[at + 1..]);
    r := if v.Failed? then Failed else Done(Prop(name, v.value), at + 1 + v.used);
  }

  method ParseValue(tag: byte, s: seq<byte>) returns (r: Decoded<Value>)
    ensures r == DecodeValue(tag, s)
    decreases |s|, 2
  {
    if tag == OBJECT {
      var ps := ParseProps(s);
      r := if ps.Failed? then Failed else Done(Obj(ps.value), ps.used);
    } else {
      r := DecodeValue(tag, s);
    }
  }

  function Behind(before: seq<Prop>, at: nat, r: Decoded<seq<Prop>>): Decoded<seq<Prop>> {
    if r.Failed? then Failed else Done(before + r.value, at + r.used)
  }

  /** Properties up to the end mark; after an error the mark alone is looked for. */
  method ParseProps(s: seq<byte>) returns (r: Decoded<seq<Prop>>)
    ensures r == DecodeProps(s, false)
    decreases |s|, 1
  {
    hide DecodeProps, DecodeProp, Int24, Behind;
    var list := new PropList();
    var at, faulty, ended := 0, false, false;
    assert s[0..] == s;
    BehindNothing(DecodeProps(s, false));
    while at < |s| && !ended
      invariant at <= |s| && list.Valid() && fresh(list) && fresh(list.props)
      invariant ended ==> !faulty && DecodeProps(s, false) == Done(list.Contents(), at)
      invariant !ended ==> DecodeProps(s, false) == Behind(list.Contents(), at, DecodeProps(s[at..], faulty))
      decreases |s| - at, !faulty, !ended
    {
      PropsStep(s, at, faulty, list.Contents());
      if |s| - at >= 3 && Int24(s[at..]) == OBJECT_END {
        at, faulty, ended := at + 3, false, true;
      } else if faulty {
        at := at + 1;
      } else {
        var p := ParseProp(s[at..], true);
        if p.Failed? {
          faulty := true;
        } else {
          list.Add(p.value);
          at := at + p.used;
        }
      }
    }
    if !ended { PropsEnd(s, at, faulty, list.Contents()); }
    r := if faulty then Failed else Done(list.props[..list.num], at);
  }

  lemma PropsStep(s: seq<byte>, at: nat, faulty: bool, before: seq<Prop>)
    requires at < |s|
    ensures Behind(before, at, DecodeProps(s[at..], faulty))
         == if |s| - at >= 3 && Int24(s[at..]) == OBJECT_END then Done(before, at + 3)
            else if faulty then Behind(before, at + 1, DecodeProps(s[at + 1..], true))
            else match DecodeProp(s[at..], true)
              case Failed => Behind(before, at, DecodeProps(s[at..], true))
              case Done(p, used) => Behind(before + [p], at + used, DecodeProps(s[at + used..], false))
  {
    hide DecodeProp;
    var rest := s[at..];
    assert before + [] == before;
    assert rest[1..] == s[at + 1..];
    var p := DecodeProp(rest, true);
    if p.Done? {
      assert rest[p.used..] == s[at + p.used..];
      BehindOne(before, p.value, at, p.used, DecodeProps(s[at + p.used..], false));
    }
  }

  lemma PropsEnd(s: seq<byte>, at: nat, faulty: bool, before: seq<Prop>)
    requires at == |s|
    ensures Behind(before, at, DecodeProps(s[at..], faulty)) == if faulty then Failed else Done(before, at)
  {
    assert s[at..] == [] && before + [] == before;
  }

  lemma BehindNothing(r: Decoded<seq<Prop>>)
    ensures Behind([], 0, r) == r
  {
    if r.Done? { assert [] + r.value == r.value; }
  }

  lemma BehindOne(before: seq<Prop>, p: Prop, at: nat, used: nat, r: Decoded<seq<Prop>>)
    ensures Behind(before, at, if r.Failed? then Failed else Done([p] + r.value, used + r.used))
         == Behind(before + [p], at + used, r)
  {
    if r.Done? { assert before + ([p] + r.value) == before + [p] + r.value; }
  }
}
