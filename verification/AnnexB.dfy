/** Finding the units of a byte stream by the start codes between them. */
module AnnexB {
  import opened Bytes

  /** A start code of three or four octets, with at least four octets left to look at. */
  predicate StartsCode(s: seq<byte>) {
    |s| > 3 && s[0] == 0 && s[1] == 0 && (s[2] == 1 || (s[2] == 0 && s[3] == 1))
  }

  /** Where the next start code is, or the end. */
  function NextCode(s: seq<byte>): (n: nat)
    ensures n <= |s| && (n < |s| ==> StartsCode(s[n..]))
  {
    if |s| <= 3 then |s| else if StartsCode(s) then 0 else 1 + NextCode(s[1..])
  }

  function CodeLength(s: seq<byte>): nat
    requires StartsCode(s)
  {
    if s[2] == 1 then 3 else 4
  }

  /** The units the loop visits, from one start code on. */
  function Visits(s: seq<byte>): seq<seq<byte>>
    requires s == [] || StartsCode(s)
    decreases |s|
  {
    if s == [] then []
    else
      var t := s[CodeLength(s)..];
      var n := NextCode(t);
      [t[..n]] + Visits(t[n..])
  }

  function Split(s: seq<byte>): seq<seq<byte>> { Visits(s[NextCode(s)..]) }

  //
  // Which streams come apart as they were put together
  //

  /** A unit, and which kind of start code stands before it. */
  datatype Piece = Piece(long: bool, unit: seq<byte>)

  function Code(long: bool): seq<byte> { if long then [0, 0, 0, 1] else [0, 0, 1] }

  function Joined(ps: seq<Piece>): seq<byte> {
    if ps == [] then [] else Code(ps[0].long) + ps[0].unit + Joined(ps[1..])
  }

  function Units(ps: seq<Piece>): seq<seq<byte>> {
    if ps == [] then [] else [ps[0].unit] + Units(ps[1..])
  }

  /**
   * A unit is not cut short: the last one holds no start code short of its end, any other none at all; nor does one
   * before a three-octet code end in a zero, which would make a four-octet one of it.
   */
  predicate Whole(u: seq<byte>, others: seq<Piece>) {
    if others == [] then forall p | 0 <= p < |u| :: !StartsCode(u[p..])
    else
      && (forall p | 0 <= p <= |u| - 3 :: !(u[p] == 0 && u[p + 1] == 0 && u[p + 2] == 1))
      && (!others[0].long ==> u == [] || u[|u| - 1] != 0)
  }

  predicate AllWhole(ps: seq<Piece>) {
    ps == [] || (Whole(ps[0].unit, ps[1..]) && AllWhole(ps[1..]))
  }

  lemma {:induction false} NoneBefore(s: seq<byte>, k: nat)
    requires k < NextCode(s)
    ensures !StartsCode(s[k..])
  {
    if k > 0 && |s| > 3 {
      NoneBefore(s[1..], k - 1);
      assert s[1..][k - 1..] == s[k..];
    }
  }

  lemma JoinedStarts(ps: seq<Piece>)
    requires ps != [] && ps[0].unit != []
    ensures StartsCode(Joined(ps)) && CodeLength(Joined(ps)) == |Code(ps[0].long)|
    ensures Joined(ps)[|Code(ps[0].long)|..] == ps[0].unit + Joined(ps[1..])
  {
    assert Joined(ps) == Code(ps[0].long) + (ps[0].unit + Joined(ps[1..]));
  }

  /** The search stops at the end of a unit exactly when the unit is whole. */
  lemma StopsAtEnd(u: seq<byte>, others: seq<Piece>)
    requires u != [] && forall p <- others :: p.unit != []
    ensures var n := NextCode(u + Joined(others));
      n <= |u| && (n == |u| <==> Whole(u, others))
  {
    var rest := Joined(others);
    var s := u + rest;
    var n := NextCode(s);
    if others != [] {
      assert others[0] in others;
      JoinedStarts(others);
      assert s[|u|..] == rest;
      if n > |u| { NoneBefore(s, |u|); }
      WholeBefore(u, others);
    } else {
      assert s == u;
    }
    if !Whole(u, others) {
      var p: nat :| p < |u| && StartsCode(s[p..]);
      if n == |u| { NoneBefore(s, p); }
    }
  }

  /** Before a start code, a unit is whole when no start code is seen earlier. */
  lemma WholeBefore(u: seq<byte>, others: seq<Piece>)
    requires u != [] && others != []
    requires StartsCode(Joined(others)) && CodeLength(Joined(others)) == |Code(others[0].long)|
    ensures var s := u + Joined(others);
      Whole(u, others) <==> forall p | 0 <= p < |u| :: !StartsCode(s[p..])
  {
    var rest := Joined(others);
    var s := u + rest;
    assert forall p | 0 <= p <= |u| :: |s[p..]| > 3;
    if Whole(u, others) {
      forall p | 0 <= p < |u| ensures !StartsCode(s[p..]) {
        NotCut(u, others, p);
      }
    } else {
      if p: nat :| p <= |u| - 3 && u[p] == 0 && u[p + 1] == 0 && u[p + 2] == 1 {
        assert StartsCode(s[p..]);
      } else {
        assert StartsCode(s[|u| - 1..]);
      }
    }
  }

  lemma NotCut(u: seq<byte>, others: seq<Piece>, p: nat)
    requires others != [] && StartsCode(Joined(others)) && CodeLength(Joined(others)) == |Code(others[0].long)|
    requires Whole(u, others) && p < |u|
    ensures !StartsCode((u + Joined(others))[p..])
  {
    var rest := Joined(others);
    var s := u + rest;
    var t := s[p..];
    assert t[0] == s[p] && t[1] == s[p + 1] && t[2] == s[p + 2] && t[3] == s[p + 3];
    assert rest[2] == 1 <==> !others[0].long;
  }

  /** Exactly when every unit is whole, the loop visits the units as they were joined. */
  lemma {:induction false} SplitsExactly(ps: seq<Piece>)
    requires forall p <- ps :: p.unit != []
    ensures Joined(ps) == [] || StartsCode(Joined(ps))
    ensures Split(Joined(ps)) == Units(ps) <==> AllWhole(ps)
  {
    if ps == [] {
    } else {
      assert ps[0] in ps && forall p <- ps[1..] :: p in ps;
      JoinedStarts(ps);
      StopsAtEnd(ps[0].unit, ps[1..]);
      SplitsExactly(ps[1..]);
      var t := ps[0].unit + Joined(ps[1..]);
      var n := NextCode(t);
      assert Joined(ps)[0..] == Joined(ps);
      assert Split(Joined(ps)) == [t[..n]] + Visits(t[n..]);
      assert Units(ps) == [ps[0].unit] + Units(ps[1..]);
      if n == |ps[0].unit| {
        assert t[..n] == ps[0].unit && t[n..] == Joined(ps[1..]);
        var rest := Joined(ps[1..]);
        assert rest[NextCode(rest)..] == rest;
        if Split(Joined(ps)) == Units(ps) {
          assert Split(Joined(ps))[1..] == Split(rest) && Units(ps)[1..] == Units(ps[1..]);
        }
      } else {
        assert |Split(Joined(ps))[0]| != |Units(ps)[0]|;
      }
    }
  }

  /** What the standard asks of a unit: none of the three octets 0 0 0 or 0 0 1 in it, and no zero at its end. */
  predicate Conforms(u: seq<byte>) {
    && (forall p | 0 <= p <= |u| - 3 :: !(u[p] == 0 && u[p + 1] == 0 && u[p + 2] <= 1))
    && u != [] && u[|u| - 1] != 0
  }

  lemma ConformingUnitsSplit(ps: seq<Piece>)
    requires forall p <- ps :: Conforms(p.unit)
    ensures Split(Joined(ps)) == Units(ps)
  {
    ConformingUnitsWhole(ps);
    SplitsExactly(ps);
  }

  lemma TwoJoined(a: Piece, b: Piece)
    ensures Joined([a, b]) == Code(a.long) + a.unit + Code(b.long) + b.unit && Units([a, b]) == [a.unit, b.unit]
  {
    hide Code;
    assert [a, b][1..] == [b] && [b][1..] == [];
    assert Joined([b]) == Code(b.long) + b.unit + [];
    assert Units([b]) == [b.unit] + [] && Units([a, b]) == [a.unit] + Units([b]);
    assert Code(a.long) + a.unit + (Code(b.long) + b.unit) == Code(a.long) + a.unit + Code(b.long) + b.unit;
  }

  /** By octets: two units behind a start code of four octets and one of three. */
  lemma TwoUnits(u: seq<byte>, v: seq<byte>)
    requires Conforms(u) && Conforms(v)
    ensures Split([0, 0, 0, 1] + u + [0, 0, 1] + v) == [u, v]
  {
    hide Split, Joined, Conforms, Units;
    var a, b := Piece(true, u), Piece(false, v);
    assert forall p <- [a, b] :: Conforms(p.unit);
    ConformingUnitsSplit([a, b]);
    TwoJoined(a, b);
  }

  lemma {:induction false} ConformingUnitsWhole(ps: seq<Piece>)
    requires forall p <- ps :: Conforms(p.unit)
    ensures AllWhole(ps)
  {
    if ps != [] {
      assert ps[0] in ps && forall p <- ps[1..] :: p in ps;
      ConformingUnitsWhole(ps[1..]);
      var u := ps[0].unit;
      forall p | 0 <= p < |u| ensures !StartsCode(u[p..]) {
        if p <= |u| - 3 { assert u[p..][0] == u[p] && u[p..][1] == u[p + 1] && u[p..][2] == u[p + 2]; }
      }
    }
  }

  //
  // The loops
  //

  lemma NextCodeIs(s: seq<byte>)
    ensures |s| <= 3 ==> NextCode(s) == |s|
    ensures StartsCode(s) ==> NextCode(s) == 0
    ensures |s| > 3 && !StartsCode(s) ==> NextCode(s) == 1 + NextCode(s[1..])
  {}

  lemma Onward(s: seq<byte>, k: nat)
    requires k < |s|
    ensures s[k..][1..] == s[k + 1..]
  {}

  /** Looks for a start code from `p` on; the last three octets are not looked at. */
  method FindStartCode(data: array<byte>, p: nat, end: nat) returns (q: nat)
    requires p <= end <= data.Length
    ensures q == p + NextCode(data[p..end])
  {
    hide NextCode;
    ghost var s := data[p..end];
    q := p;
    while q < end - 3
      invariant p <= q <= end && NextCode(s) == q - p + NextCode(s[q - p..])
    {
      ghost var t := s[q - p..];
      assert t[0] == data[q] && t[1] == data[q + 1] && t[2] == data[q + 2] && t[3] == data[q + 3];
      NextCodeIs(t);
      if data[q] == 0 && data[q + 1] == 0 && (data[q + 2] == 1 || (data[q + 2] == 0 && data[q + 3] == 1)) {
        return q;
      }
      Onward(s, q - p);
      q := q + 1;
    }
    NextCodeIs(s[q - p..]);
    q := end;
  }

  /** Steps over the zeros of a start code, and the one octet behind them. */
  method SkipStartCode(data: array<byte>, p: nat, end: nat) returns (q: nat)
    requires p <= end <= data.Length && StartsCode(data[p..end])
    ensures q == p + CodeLength(data[p..end]) && q <= end
  {
    ghost var s := data[p..end];
    assert forall i | 0 <= i < |s| :: s[i] == data[p + i];
    q := p;
    while data[q] == 0
      invariant p <= q < end && (forall i | p <= i < q :: data[i] == 0) && q - p < CodeLength(s)
      decreases end - q
    {
      assert data[q] == s[q - p];
      q := q + 1;
    }
    q := q + 1;
  }

  lemma VisitsNext(s: seq<byte>)
    requires StartsCode(s)
    ensures var t := s[CodeLength(s)..];
      Visits(s) == [t[..NextCode(t)]] + Visits(t[NextCode(t)..])
  {}

  /** The loop over the units of an access unit; what is done with each is only to note it. */
  method VisitUnits(data: array<byte>, size: nat) returns (visited: seq<seq<byte>>)
    requires size <= data.Length
    ensures visited == Split(data[..size])
  {
    hide NextCode, Visits, StartsCode;
    visited := [];
    assert data[0..size] == data[..size];
    var start := FindStartCode(data, 0, size);
    Suffix(data, 0, start, size);
    while start < size
      invariant start <= size && (start < size ==> StartsCode(data[start..size]))
      invariant Split(data[..size]) == visited + Visits(data[start..size])
      decreases size - start
    {
      var unit, end := VisitUnit(data, start, size);
      ghost var others := Visits(data[end..size]);
      assert visited + ([unit] + others) == visited + [unit] + others;
      visited := visited + [unit];
      start := end;
    }
    NothingLeft(data, start, size);
  }

  method VisitUnit(data: array<byte>, start: nat, size: nat) returns (unit: seq<byte>, end: nat)
    requires start < size <= data.Length && StartsCode(data[start..size])
    ensures start < end <= size && (end < size ==> StartsCode(data[end..size]))
    ensures Visits(data[start..size]) == [unit] + Visits(data[end..size])
  {
    hide NextCode, Visits;
    VisitsNext(data[start..size]);
    var from := SkipStartCode(data, start, size);
    Suffix(data, start, from, size);
    end := FindStartCode(data, from, size);
    Suffix(data, from, end, size);
    unit := data[from..end];
  }

  lemma Suffix(data: array<byte>, from: nat, mid: nat, to: nat)
    requires from <= mid <= to <= data.Length
    ensures data[from..to][mid - from..] == data[mid..to] && data[from..to][..mid - from] == data[from..mid]
  {}

  lemma NothingLeft(data: array<byte>, start: nat, size: nat)
    requires start == size <= data.Length
    ensures Visits(data[start..size]) == []
  {}
}
