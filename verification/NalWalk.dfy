/** The walk over the NAL units of a byte stream (Annex B of ITU-T H.264) in encoder, relay and MP4 writer. */
module NalWalk {
  import opened Bytes
  import opened Sequences
  import opened StartCode

  /** A unit and the length of the start code before it: four bytes (00 00 00 01) or three (00 00 01). */
  datatype Nal = Nal(four: bool, data: seq<byte>)

  function Code(four: bool): seq<byte> {
    if four then [0, 0, 0, 1] else [0, 0, 1]
  }

  function CodeLength(four: bool): nat {
    if four then 4 else 3
  }

  /** The Annex B byte stream of a list of units. */
  function Serialise(nals: seq<Nal>): seq<byte> {
    if nals == [] then []
    else Code(nals[0].four) + nals[0].data + Serialise(nals[1..])
  }

  /** A start code of the given length stands at p, with at least one byte after it. */
  predicate CodeHere(s: seq<byte>, p: nat, four: bool) {
    && p + CodeLength(four) < |s|
    && if four then s[p] == 0 && CodeAt(s, p + 1) else CodeAt(s, p)
  }

  lemma CodeHereSlice(s: seq<byte>, p: nat, four: bool)
    requires p + CodeLength(four) < |s|
    ensures CodeHere(s, p, four) <==> s[p..p + CodeLength(four)] == Code(four)
  {
    var c := s[p..p + CodeLength(four)];
    assert forall i :: 0 <= i < |c| ==> c[i] == s[p + i];
    if c == Code(four) {
      assert s[p] == c[0] && s[p + 1] == c[1] && s[p + 2] == c[2];
      if four {
        assert s[p + 3] == c[3];
      }
    }
  }

  predicate CodeBefore(s: seq<byte>, p: nat) {
    CodeHere(s, p, false) || CodeHere(s, p, true)
  }

  predicate Four(s: seq<byte>, p: nat) {
    !CodeHere(s, p, false)
  }

  function AfterCode(s: seq<byte>, p: nat): nat {
    p + CodeLength(Four(s, p))
  }

  lemma NextCodeIsCode(s: seq<byte>, p: nat)
    requires p <= |s|
    ensures NextCode(s, p) == |s| || CodeBefore(s, NextCode(s, p))
  {
  }

  /** The units from the start code at p to the end of the buffer. */
  function Walk(s: seq<byte>, p: nat): (nals: seq<Nal>)
    requires p == |s| || CodeBefore(s, p)
    decreases |s| - p
  {
    if p == |s| then []
    else
      var b := AfterCode(s, p);
      var n := NextCode(s, b);
      NextCodeIsCode(s, b);
      [Nal(Four(s, p), s[b..n])] + Walk(s, n)
  }

  lemma WalkStep(s: seq<byte>, p: nat, four: bool, n: nat)
    requires CodeHere(s, p, four)
    requires n == NextCode(s, p + CodeLength(four))
    ensures n == |s| || CodeBefore(s, n)
    ensures Walk(s, p) == [Nal(four, s[p + CodeLength(four)..n])] + Walk(s, n)
  {
    NextCodeIsCode(s, p + CodeLength(four));
    assert Four(s, p) == four;
  }

  function Units(s: seq<byte>): seq<Nal> {
    NextCodeIsCode(s, 0);
    Walk(s, NextCode(s, 0))
  }

  lemma SplitAt(s: seq<byte>, p: nat, b: nat, n: nat)
    requires p <= b <= n <= |s|
    ensures s[p..] == s[p..b] + s[b..n] + s[n..]
  {
  }

  /** On any bytes, the (code, unit) pairs are exactly the buffer from the first start code on. */
  lemma {:induction false} WalkTiles(s: seq<byte>, p: nat)
    requires p == |s| || CodeBefore(s, p)
    ensures Serialise(Walk(s, p)) == s[p..]
    decreases |s| - p
  {
    if p < |s| {
      var b := AfterCode(s, p);
      var n := NextCode(s, b);
      NextCodeIsCode(s, b);
      WalkTiles(s, n);
      CodeHereSlice(s, p, Four(s, p));
      SplitAt(s, p, b, n);
      assert Walk(s, p)[1..] == Walk(s, n);
    }
  }

  lemma UnitsTile(s: seq<byte>)
    ensures Serialise(Units(s)) == s[NextCode(s, 0)..]
  {
    NextCodeIsCode(s, 0);
    WalkTiles(s, NextCode(s, 0));
  }

  /**
   * What a list of units must satisfy to be read back. Inside a unit no start code may stand; a unit
   * before a three-byte code must not end in zero; the last unit must not be empty, but may end in 00 00 01.
   */
  predicate ReadsBack(nals: seq<Nal>) {
    if nals == [] then true
    else
      var u := nals[0].data;
      if |nals| == 1 then
        u != [] && forall i :: 0 <= i && i + 3 < |u| ==> !CodeAt(u, i)
      else
        && (forall i :: 0 <= i < |u| ==> !CodeAt(u, i))
        && (nals[1].four || u == [] || u[|u| - 1] != 0)
        && ReadsBack(nals[1..])
  }

  lemma SerialiseSplits(s: seq<byte>, p: nat, nals: seq<Nal>, b: nat, n: nat)
    requires p <= |s| && s[p..] == Serialise(nals) && nals != []
    requires b == p + CodeLength(nals[0].four) && n == b + |nals[0].data|
    ensures n <= |s| && s[p..b] == Code(nals[0].four) && s[b..n] == nals[0].data
    ensures s[n..] == Serialise(nals[1..])
  {
    var t := s[p..];
    assert t == Code(nals[0].four) + nals[0].data + Serialise(nals[1..]);
    assert s[p..b] == t[..b - p];
    assert s[b..n] == t[b - p..n - p];
    assert s[n..] == t[n - p..];
  }

  /** A code right after b, none before it, and no zero to back over: the search stops at n. */
  lemma FindsCode(s: seq<byte>, b: nat, n: nat, four: bool)
    requires b <= n && CodeHere(s, n, four)
    requires forall i :: b <= i && i + 2 < n ==> !CodeAt(s, i)
    requires four || b == n || s[n - 1] != 0
    ensures NextCode(s, b) == n
  {
    FirstCodeIs(s, b, if four then n + 1 else n);
  }

  lemma {:induction false} WalkReadsBack(s: seq<byte>, p: nat, nals: seq<Nal>)
    requires p <= |s| && s[p..] == Serialise(nals) && ReadsBack(nals)
    ensures if nals == [] then p == |s| else CodeHere(s, p, nals[0].four)
    ensures Walk(s, p) == nals
    decreases |nals|
  {
    if nals != [] {
      var four, u := nals[0].four, nals[0].data;
      var b := p + CodeLength(four);
      var n := b + |u|;
      SerialiseSplits(s, p, nals, b, n);
      WalkReadsBack(s, n, nals[1..]);
      assert CodeHere(s, p, four) by {
        CodeHereSlice(s, p, four);
      }
      FindsFirstUnitEnd(s, b, n, nals);
      WalkStep(s, p, four, n);
      HeadAndTail(nals);
    }
  }

  /** In a readable list the next code after a unit is found exactly where that unit ends. */
  lemma FindsUnitEnd(s: seq<byte>, b: nat, n: nat, u: seq<byte>, four: bool)
    requires b <= n <= |s| && s[b..n] == u && CodeHere(s, n, four)
    requires (forall i :: 0 <= i < |u| ==> !CodeAt(u, i)) && (four || u == [] || u[|u| - 1] != 0)
    ensures NextCode(s, b) == n
  {
    forall i | b <= i && i + 2 < n ensures !CodeAt(s, i) {
      CodeInUnit(s, b, n, u, i);
    }
    FindsCode(s, b, n, four);
  }

  lemma FindsLastUnitEnd(s: seq<byte>, b: nat, n: nat, u: seq<byte>)
    requires b <= n == |s| && s[b..n] == u
    requires forall i :: 0 <= i && i + 3 < |u| ==> !CodeAt(u, i)
    ensures NextCode(s, b) == n
  {
    forall i | b <= i < n && i + 3 < |s| ensures !CodeAt(s, i) {
      CodeInUnit(s, b, n, u, i);
    }
    FirstCodeIs(s, b, n);
  }

  lemma CodeInUnit(s: seq<byte>, b: nat, n: nat, u: seq<byte>, i: nat)
    requires b <= n <= |s| && s[b..n] == u && b <= i && i + 2 < n
    ensures CodeAt(s, i) == CodeAt(u, i - b)
  {
    assert u[i - b] == s[i] && u[i - b + 1] == s[i + 1] && u[i - b + 2] == s[i + 2];
  }

  lemma FindsFirstUnitEnd(s: seq<byte>, b: nat, n: nat, nals: seq<Nal>)
    requires nals != [] && ReadsBack(nals)
    requires b <= n <= |s| && s[b..n] == nals[0].data
    requires if |nals| == 1 then n == |s| else CodeHere(s, n, nals[1].four)
    ensures NextCode(s, b) == n
  {
    if |nals| == 1 {
      FindsLastUnitEnd(s, b, n, nals[0].data);
    } else {
      FindsUnitEnd(s, b, n, nals[0].data, nals[1].four);
    }
  }

  lemma {:induction false} ReadBackOnlyIf(s: seq<byte>, p: nat, nals: seq<Nal>)
    requires p == |s| || CodeBefore(s, p)
    requires Walk(s, p) == nals
    ensures ReadsBack(nals)
    decreases |s| - p
  {
    if p < |s| {
      var b := AfterCode(s, p);
      var n := NextCode(s, b);
      NextCodeIsCode(s, b);
      var u := s[b..n];
      assert nals[0].data == u && nals[1..] == Walk(s, n);
      ReadBackOnlyIf(s, n, nals[1..]);
      forall i | CodeAt(u, i) ensures CodeAt(s, b + i) {
        assert u[i] == s[b + i] && u[i + 1] == s[b + i + 1] && u[i + 2] == s[b + i + 2];
      }
      if n < |s| {
        assert nals[1].four == Four(s, n);
      }
    }
  }

  /** Round trip, with its exact condition. */
  lemma RoundTrip(nals: seq<Nal>)
    ensures Units(Serialise(nals)) == nals <==> ReadsBack(nals)
  {
    var s := Serialise(nals);
    NextCodeIsCode(s, 0);
    if ReadsBack(nals) {
      WalkReadsBack(s, 0, nals);
      if nals != [] {
        FindsCode(s, 0, 0, nals[0].four);
      }
    }
    if Units(s) == nals {
      UnitsTile(s);
      assert |s[NextCode(s, 0)..]| == |s|;
      ReadBackOnlyIf(s, 0, nals);
    }
  }

  /** Section 7.4.1 of ITU-T H.264: a NAL unit is not empty, holds no start code and does not end in zero. */
  predicate Conforming(u: seq<byte>) {
    u != [] && u[|u| - 1] != 0 && forall i :: 0 <= i < |u| ==> !CodeAt(u, i)
  }

  /** Every stream of conforming units is read back unit by unit, whatever the length of each start code. */
  lemma {:induction false} ConformingReadsBack(nals: seq<Nal>)
    requires forall i :: 0 <= i < |nals| ==> Conforming(nals[i].data)
    ensures ReadsBack(nals)
    ensures Units(Serialise(nals)) == nals
  {
    if nals != [] {
      assert Conforming(nals[0].data);
      ConformingReadsBack(nals[1..]);
    }
    RoundTrip(nals);
  }
}
