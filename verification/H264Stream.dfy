/** Capturing stream parameters from the NAL units, as the H.264 encoder and relay do before they hand frames on. */
module H264Stream {
  import opened Bytes
  import opened StartCode
  import opened NalWalk

  const NAL_IDR_SLICE: byte := 5
  const NAL_SEI: byte := 6
  const NAL_SPS: byte := 7
  const NAL_PPS: byte := 8

  function NalType(u: seq<byte>): byte {
    if u == [] then 0 else u[0] & 0x1F
  }

  /** The type is the low five bits of a unit's first byte. */
  lemma NalTypeIs(u: seq<byte>)
    requires u != []
    ensures NalType(u) as int == u[0] as int % 32
  {
  }

  datatype Info = Info(sei: seq<byte>, sps: seq<byte>, pps: seq<byte>, level: byte, profile: byte)

  /** The program panics on a sequence parameter set shorter than four bytes. */
  datatype Capture = Captured(info: Info) | Panicked

  function Note(info: Info, u: seq<byte>): Capture {
    if NalType(u) == NAL_SEI then Captured(info.(sei := u))
    else if NalType(u) == NAL_SPS then
      if |u| < 4 then Panicked else Captured(info.(sps := u, level := u[3], profile := u[1]))
    else if NalType(u) == NAL_PPS then Captured(info.(pps := u))
    else Captured(info)
  }

  function CaptureAll(info: Info, nals: seq<Nal>): Capture
    decreases |nals|
  {
    if nals == [] then Captured(info)
    else match Note(info, nals[0].data)
      case Captured(next) => CaptureAll(next, nals[1..])
      case Panicked => Panicked
  }

  predicate OfType(nals: seq<Nal>, t: byte, k: int) {
    0 <= k < |nals| && NalType(nals[k].data) == t
  }

  /** field holds the last unit of type t, or what it held before when there is none. */
  ghost predicate HoldsLast(nals: seq<Nal>, t: byte, field: seq<byte>, before: seq<byte>) {
    || (field == before && forall k :: !OfType(nals, t, k))
    || exists k :: OfType(nals, t, k) && field == nals[k].data && forall j :: k < j ==> !OfType(nals, t, j)
  }

  ghost predicate ShortSps(nals: seq<Nal>) {
    exists k :: OfType(nals, NAL_SPS, k) && |nals[k].data| < 4
  }

  lemma {:induction false} HoldsLastCons(nals: seq<Nal>, t: byte, field: seq<byte>, before: seq<byte>)
    requires nals != []
    requires HoldsLast(nals[1..], t, field, if NalType(nals[0].data) == t then nals[0].data else before)
    ensures HoldsLast(nals, t, field, before)
  {
    var rest := nals[1..];
    assert forall k :: k >= 1 ==> OfType(nals, t, k) == OfType(rest, t, k - 1);
    if k :| OfType(rest, t, k) && field == rest[k].data && forall j :: k < j ==> !OfType(rest, t, j) {
      assert OfType(nals, t, k + 1) && nals[k + 1] == rest[k];
      forall j | k + 1 < j ensures !OfType(nals, t, j) {
        assert OfType(nals, t, j) == OfType(rest, t, j - 1);
      }
    } else {
      assert forall k :: !OfType(rest, t, k);
      if NalType(nals[0].data) == t {
        assert OfType(nals, t, 0);
      }
    }
  }

  lemma {:induction false} CapturePanics(info: Info, nals: seq<Nal>)
    ensures CaptureAll(info, nals).Panicked? <==> ShortSps(nals)
    decreases |nals|
  {
    if nals != [] {
      ShortSpsCons(nals);
      var next := Note(info, nals[0].data);
      if next.Captured? {
        CapturePanics(next.info, nals[1..]);
      }
    }
  }

  /** The SEI, SPS and PPS fields end up holding the last unit of their type. */
  lemma {:induction false} CapturesLast(info: Info, nals: seq<Nal>)
    requires CaptureAll(info, nals).Captured?
    ensures var r := CaptureAll(info, nals).info;
      && HoldsLast(nals, NAL_SEI, r.sei, info.sei)
      && HoldsLast(nals, NAL_SPS, r.sps, info.sps)
      && HoldsLast(nals, NAL_PPS, r.pps, info.pps)
    decreases |nals|
  {
    if nals != [] {
      var next := Note(info, nals[0].data).info;
      CapturesLast(next, nals[1..]);
      var r := CaptureAll(info, nals).info;
      HoldsLastCons(nals, NAL_SEI, r.sei, info.sei);
      HoldsLastCons(nals, NAL_SPS, r.sps, info.sps);
      HoldsLastCons(nals, NAL_PPS, r.pps, info.pps);
    }
  }

  /** Level and profile are bytes 3 and 1 of the last SPS. */
  lemma {:induction false} ProfileFromSps(info: Info, nals: seq<Nal>)
    requires CaptureAll(info, nals).Captured?
    ensures var r := CaptureAll(info, nals).info;
      if exists k :: OfType(nals, NAL_SPS, k)
      then |r.sps| >= 4 && r.level == r.sps[3] && r.profile == r.sps[1]
      else r.sps == info.sps && r.level == info.level && r.profile == info.profile
    decreases |nals|
  {
    if nals != [] {
      var next := Note(info, nals[0].data).info;
      ProfileFromSps(next, nals[1..]);
      if k :| OfType(nals[1..], NAL_SPS, k) {
        assert OfType(nals, NAL_SPS, k + 1);
      } else if NalType(nals[0].data) == NAL_SPS {
        assert OfType(nals, NAL_SPS, 0);
      } else {
        forall k ensures !OfType(nals, NAL_SPS, k) {
          assert !OfType(nals[1..], NAL_SPS, k - 1);
        }
      }
    }
  }

  lemma ShortSpsCons(nals: seq<Nal>)
    requires nals != []
    ensures ShortSps(nals) <==> (NalType(nals[0].data) == NAL_SPS && |nals[0].data| < 4) || ShortSps(nals[1..])
  {
    var rest := nals[1..];
    if k :| OfType(nals, NAL_SPS, k) && |nals[k].data| < 4 {
      assert k == 0 || OfType(rest, NAL_SPS, k - 1);
    }
    if k :| OfType(rest, NAL_SPS, k) && |rest[k].data| < 4 {
      assert OfType(nals, NAL_SPS, k + 1);
    }
    if NalType(nals[0].data) == NAL_SPS {
      assert OfType(nals, NAL_SPS, 0);
    }
  }

  /** The zero-skip loop: it has no bound of its own, yet stops right after the code's final 01. */
  method SkipCode(s: seq<byte>, p: nat) returns (b: nat)
    requires CodeBefore(s, p)
    ensures b == AfterCode(s, p)
  {
    b := p;
    var skipped := s[b];
    b := b + 1;
    while skipped == 0
      invariant p < b <= AfterCode(s, p) && skipped == s[b - 1]
      invariant skipped != 0 ==> b == AfterCode(s, p)
      decreases |s| - b
    {
      skipped := s[b];
      b := b + 1;
    }
  }

  /** One turn of the walk, seen from the capture. */
  lemma CaptureStep(info: Info, s: seq<byte>, p: nat, b: nat, n: nat)
    requires CodeBefore(s, p) && b == AfterCode(s, p) && n == NextCode(s, b)
    ensures n == |s| || CodeBefore(s, n)
    ensures NalType(s[b..n]) == s[b] & 0x1F
    ensures CaptureAll(info, Walk(s, p)) ==
      match Note(info, s[b..n])
      case Captured(next) => CaptureAll(next, Walk(s, n))
      case Panicked => Panicked
  {
    NextCodeIsCode(s, b);
    assert Walk(s, p)[0].data == s[b..n] && Walk(s, p)[1..] == Walk(s, n);
  }

  class NalCapture {
    var mSei: seq<byte>
    var mSps: seq<byte>
    var mPps: seq<byte>
    var mAvcLevel: byte
    var mAvcProfile: byte

    ghost function Fields(): Info
      reads this
    {
      Info(mSei, mSps, mPps, mAvcLevel, mAvcProfile)
    }

    constructor ()
      ensures Fields() == Info([], [], [], 0, 0)
    {
      mSei, mSps, mPps, mAvcLevel, mAvcProfile := [], [], [], 0, 0;
    }

    /** The type switch over one unit; head is the unit's first byte, or the byte after an empty unit. */
    method Keep(unit: seq<byte>, head: byte) returns (ok: bool)
      requires NalType(unit) == head & 0x1F
      modifies this
      ensures ok == Note(old(Fields()), unit).Captured?
      ensures ok ==> Captured(Fields()) == Note(old(Fields()), unit)
    {
      var kind := head & 0x1F;
      if kind == NAL_SEI {
        mSei := unit;
      } else if kind == NAL_SPS {
        mSps := unit;
        if |unit| < 4 {
          return false;
        }
        mAvcLevel := unit[3];
        mAvcProfile := unit[1];
      } else if kind == NAL_PPS {
        mPps := unit;
      }
      return true;
    }

    /** Walks the buffer; false stands for the panic, after which nothing runs. */
    method Scan(s: seq<byte>, align: nat, bigEndian: bool) returns (ok: bool)
      requires align < 4
      modifies this
      ensures ok == CaptureAll(old(Fields()), Units(s)).Captured?
      ensures ok ==> Captured(Fields()) == CaptureAll(old(Fields()), Units(s))
    {
      NextCodeIsCode(s, 0);
      var startPos := H264StartCode(s, 0, align, bigEndian);
      while startPos < |s|
        invariant startPos == |s| || CodeBefore(s, startPos)
        invariant CaptureAll(old(Fields()), Units(s)) == CaptureAll(Fields(), Walk(s, startPos))
        decreases |s| - startPos
      {
        ghost var codePos, before := startPos, Fields();
        startPos := SkipCode(s, startPos);
        var nextStartPos := H264StartCode(s, startPos, align, bigEndian);
        CaptureStep(before, s, codePos, startPos, nextStartPos);
        var kept := Keep(s[startPos..nextStartPos], s[startPos]);
        if !kept {
          return false;
        }
        startPos := nextStartPos;
      }
      return true;
    }
  }

  /** End to end: writing conforming units out and scanning the stream captures the last unit of each type. */
  lemma ConformingCapture(info: Info, nals: seq<Nal>)
    requires forall i :: 0 <= i < |nals| ==> Conforming(nals[i].data)
    requires !ShortSps(nals)
    ensures var c := CaptureAll(info, Units(Serialise(nals)));
      && c.Captured?
      && HoldsLast(nals, NAL_SEI, c.info.sei, info.sei)
      && HoldsLast(nals, NAL_SPS, c.info.sps, info.sps)
      && HoldsLast(nals, NAL_PPS, c.info.pps, info.pps)
      && ((exists k :: OfType(nals, NAL_SPS, k)) ==>
          |c.info.sps| >= 4 && c.info.level == c.info.sps[3] && c.info.profile == c.info.sps[1])
  {
    ConformingReadsBack(nals);
    CapturePanics(info, nals);
    CapturesLast(info, nals);
    ProfileFromSps(info, nals);
  }

  // ---------- the relay ----------

  const TIME_RANGE: nat := 0x1_0000_0000_0000_0000

  datatype Frame = Frame(id: nat, timestamp: nat, data: seq<byte>)

  datatype Relay = Relay(info: Info, initial: seq<byte>, startTime: nat) | Aborted

  /** The relayed frame: same id and bytes, its 64-bit timestamp taken relative to the start. */
  function Rebase(f: Frame, startTime: nat): Frame {
    Frame(f.id, (f.timestamp - startTime) % TIME_RANGE, f.data)
  }

  function RelayStep(r: Relay, f: Frame): (Relay, seq<Frame>) {
    match r
    case Aborted => (Aborted, [])
    case Relay(info, initial, startTime) =>
      if initial != [] then (r, [Rebase(f, startTime)])
      else match CaptureAll(info, Units(f.data))
        case Panicked => (Aborted, [])
        case Captured(next) =>
          if next.sps == [] then (Relay(next, initial, startTime), [])
          else (Relay(next, f.data, f.timestamp), [Rebase(f, f.timestamp)])
  }

  function RelayRun(r: Relay, frames: seq<Frame>): seq<Frame>
    decreases |frames|
  {
    if frames == [] then []
    else
      var (next, out) := RelayStep(r, frames[0]);
      out + RelayRun(next, frames[1..])
  }

  ghost predicate HasSps(f: Frame) {
    exists k :: OfType(Units(f.data), NAL_SPS, k)
  }

  function RebaseAll(frames: seq<Frame>, startTime: nat): (out: seq<Frame>)
    ensures |out| == |frames|
    ensures forall i :: 0 <= i < |out| ==> out[i] == Rebase(frames[i], startTime)
    decreases |frames|
  {
    if frames == [] then [] else [Rebase(frames[0], startTime)] + RebaseAll(frames[1..], startTime)
  }

  lemma {:induction false} RelayAfterStart(r: Relay, frames: seq<Frame>)
    requires r.Relay? && r.initial != []
    ensures RelayRun(r, frames) == RebaseAll(frames, r.startTime)
    decreases |frames|
  {
    if frames != [] {
      RelayAfterStart(r, frames[1..]);
    }
  }

  lemma SpsCaptured(info: Info, f: Frame)
    requires info.sps == [] && !ShortSps(Units(f.data))
    ensures var c := CaptureAll(info, Units(f.data));
      c.Captured? && (c.info.sps == [] <==> !HasSps(f)) && (HasSps(f) ==> f.data != [])
  {
    var nals := Units(f.data);
    CapturePanics(info, nals);
    ProfileFromSps(info, nals);
    if f.data == [] {
      assert nals == [];
    }
  }

  /**
   * Over a whole run the relay forwards nothing before the first frame holding an SPS, and from that
   * frame on every frame, in order, timed from it. Only the frames up to it can abort the run.
   */
  lemma {:induction false} RelayForwardsFromSps(r: Relay, frames: seq<Frame>, k: nat)
    requires r.Relay? && r.initial == [] && r.info.sps == []
    requires k <= |frames|
    requires forall i :: 0 <= i < k ==> !HasSps(frames[i])
    requires k < |frames| ==> HasSps(frames[k]) && !ShortSps(Units(frames[k].data))
    ensures RelayRun(r, frames) ==
      if k == |frames| then [] else RebaseAll(frames[k..], frames[k].timestamp)
    decreases k
  {
    if frames != [] {
      SpsCaptured(r.info, frames[0]);
      var (next, out) := RelayStep(r, frames[0]);
      if k == 0 {
        RelayAfterStart(next, frames[1..]);
      } else {
        RelayForwardsFromSps(next, frames[1..], k - 1);
        assert k < |frames| ==> frames[1..][k - 1..] == frames[k..];
      }
    }
  }

  /** Forwarded times are those since the frame the relay started with, wrapped to 64 bits only if a frame is older. */
  lemma ForwardedTimes(frames: seq<Frame>, k: nat, i: nat)
    requires k <= i < |frames| && frames[i].timestamp < TIME_RANGE && frames[k].timestamp < TIME_RANGE
    ensures var out := RebaseAll(frames[k..], frames[k].timestamp)[i - k];
      && out.id == frames[i].id && out.data == frames[i].data
      && out.timestamp == if frames[i].timestamp >= frames[k].timestamp then frames[i].timestamp - frames[k].timestamp
           else TIME_RANGE - (frames[k].timestamp - frames[i].timestamp)
  {
    assert frames[k..][i - k] == frames[i];
    WrappedDifference(frames[i].timestamp, frames[k].timestamp);
  }

  lemma WrappedDifference(a: nat, b: nat)
    requires a < TIME_RANGE && b < TIME_RANGE
    ensures (a - b) % TIME_RANGE == if a >= b then a - b else TIME_RANGE - (b - a)
  {
  }

  // ---------- what the relay keeps ----------

  function RelayState(r: Relay, frames: seq<Frame>): Relay
    decreases |frames|
  {
    if frames == [] then r else RelayState(RelayStep(r, frames[0]).0, frames[1..])
  }

  /** The units of all the frames, one after the other. */
  function AllUnits(frames: seq<Frame>): seq<Nal>
    decreases |frames|
  {
    if frames == [] then [] else Units(frames[0].data) + AllUnits(frames[1..])
  }

  lemma {:induction false} CaptureOn(info: Info, a: seq<Nal>, b: seq<Nal>)
    requires CaptureAll(info, a).Captured?
    ensures CaptureAll(info, a + b) == CaptureAll(CaptureAll(info, a).info, b)
    decreases |a|
  {
    if a == [] {
      assert a + b == b;
    } else {
      assert (a + b)[1..] == a[1..] + b;
      CaptureOn(Note(info, a[0].data).info, a[1..], b);
    }
  }

  lemma {:induction false} RelayStays(r: Relay, frames: seq<Frame>)
    requires r.Relay? && r.initial != []
    ensures RelayState(r, frames) == r
    decreases |frames|
  {
    if frames != [] {
      RelayStays(r, frames[1..]);
    }
  }

  /**
   * What the relay has kept after a run whose first frame with an SPS is frame k: that frame as the initial one, its
   * time as the start, and the parameters that the units of all frames up to it leave. Later frames change nothing.
   */
  lemma {:induction false} RelayKeepsSpsFrame(r: Relay, frames: seq<Frame>, k: nat)
    requires r.Relay? && r.initial == [] && r.info.sps == []
    requires k < |frames| && forall i :: 0 <= i < k ==> !HasSps(frames[i])
    requires HasSps(frames[k]) && !ShortSps(Units(frames[k].data))
    ensures CaptureAll(r.info, AllUnits(frames[..k + 1])).Captured?
    ensures RelayState(r, frames)
      == Relay(CaptureAll(r.info, AllUnits(frames[..k + 1])).info, frames[k].data, frames[k].timestamp)
    decreases k
  {
    SpsCaptured(r.info, frames[0]);
    var units, next := Units(frames[0].data), RelayStep(r, frames[0]).0;
    UnitsFirst(frames, k + 1);
    CaptureOn(r.info, units, AllUnits(frames[1..][..k]));
    if k == 0 {
      RelayStays(next, frames[1..]);
    } else {
      assert frames[1..][k - 1] == frames[k];
      RelayKeepsSpsFrame(next, frames[1..], k - 1);
    }
  }

  lemma UnitsFirst(frames: seq<Frame>, n: nat)
    requires 1 <= n <= |frames|
    ensures AllUnits(frames[..n]) == Units(frames[0].data) + AllUnits(frames[1..][..n - 1])
  {
    assert frames[..n][1..] == frames[1..][..n - 1];
  }

  /** While no frame has an SPS nothing is kept but the other parameters. */
  lemma {:induction false} RelayWaits(r: Relay, frames: seq<Frame>)
    requires r.Relay? && r.initial == [] && r.info.sps == []
    requires forall i :: 0 <= i < |frames| ==> !HasSps(frames[i])
    ensures CaptureAll(r.info, AllUnits(frames)).Captured?
    ensures RelayState(r, frames) == Relay(CaptureAll(r.info, AllUnits(frames)).info, [], r.startTime)
    decreases |frames|
  {
    if frames != [] {
      SpsCaptured(r.info, frames[0]);
      RelayWaits(RelayStep(r, frames[0]).0, frames[1..]);
      CaptureOn(r.info, Units(frames[0].data), AllUnits(frames[1..]));
    }
  }

  class H264Relay {
    const capture: NalCapture
    var mInitialFrame: seq<byte>
    var startTime: nat
    ghost var aborted: bool

    ghost function State(): Relay
      reads this, capture
    {
      if aborted then Aborted else Relay(capture.Fields(), mInitialFrame, startTime)
    }

    constructor ()
      ensures fresh(capture) && State() == Relay(Info([], [], [], 0, 0), [], 0)
    {
      capture := new NalCapture();
      mInitialFrame, startTime, aborted := [], 0, false;
    }

    /** One frame taken off the queue; what it distributes. */
    method ProcessFrame(f: Frame, align: nat, bigEndian: bool) returns (out: seq<Frame>)
      requires align < 4 && !aborted
      modifies this, capture
      ensures (State(), out) == RelayStep(old(State()), f)
    {
      if mInitialFrame == [] {
        var ok := capture.Scan(f.data, align, bigEndian);
        if !ok {
          aborted := true;
          return [];
        }
        if capture.mSps == [] {
          return [];
        }
        mInitialFrame := f.data;
        startTime := f.timestamp;
      }
      return [Frame(f.id, (f.timestamp - startTime) % TIME_RANGE, f.data)];
    }
  }
}
