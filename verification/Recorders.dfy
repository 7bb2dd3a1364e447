/** The alarm-driven consumers: each method follows its processFrame, and is proved to run the machine of AlarmTrack. */
module Recorders {
  import opened Alarms
  import opened AlarmTrack
  import opened AlarmLog

  /** A frame off the queue: an alarm frame with its clock readings, or a frame of another type, which is ignored. */
  datatype Arrival = AlarmFrame(x: Input) | OtherFrame

  const MAX_EVENT_TAIL_AGE: nat := 3
  const VIDEO_HEAD_AGE: nat := 3
  const STILLS_HEAD_AGE: nat := 2

  /** A frame's age in seconds, relative to the given time or, when that is 0, to the present. */
  method Age(x: Input, checkTimestamp: nat) returns (age: real)
    ensures age * 1000000.0 == ((if checkTimestamp == 0 then x.now else checkTimestamp) - x.frame.timestamp) as real
  {
    var check := checkTimestamp;
    if check == 0 {
      check := x.now;
    }
    age := (check - x.frame.timestamp) as real / 1000000.0;
  }

  lemma QuietByAge(p: Profile, lastAlarm: nat, x: Input, age: real)
    requires age * 1000000.0 == ((if lastAlarm == 0 then x.now else lastAlarm) - x.frame.timestamp) as real
    ensures Quiet(p, lastAlarm, x) <==> age < -(p.tail as real)
  {
  }

  class VideoRecorder {
    const profile: Profile
    var mFrameStore: seq<Frame>
    var mState: AlarmState
    var mEventCount: nat
    var mAlarmTime: nat
    var mLastAlarmTime: nat
    var log: seq<Effect>
    ghost var stream: seq<Input>

    ghost function Fields(): Track
      reads this
    {
      Track(mState, mEventCount, mAlarmTime, mLastAlarmTime, mFrameStore)
    }

    ghost predicate Valid()
      reads this
    {
      Fields() == Run(profile, stream) && log == Log(Film, profile, stream)
    }

    constructor (minTime: real)
      ensures Valid() && stream == []
      ensures profile == Profile(3, 3, minTime)
    {
      profile := Profile(VIDEO_HEAD_AGE, MAX_EVENT_TAIL_AGE, minTime);
      mFrameStore, mState, mEventCount, mAlarmTime, mLastAlarmTime := [], IDLE, 0, 0, 0;
      log, stream := [], [];
    }

    method EncodeFrame(frame: Frame)
      modifies this`log
      ensures log == old(log) + [Save(mEventCount, frame, false)]
    {
      log := log + [Save(mEventCount, frame, false)];
    }

    method EncodeStore()
      modifies this`log
      ensures log == old(log) + Saves(Film, mEventCount, mFrameStore, false)
    {
      var i := 0;
      while i < |mFrameStore|
        invariant 0 <= i <= |mFrameStore|
        invariant log == old(log) + Saves(Film, mEventCount, mFrameStore[..i], false)
      {
        EncodeFrame(mFrameStore[i]);
        assert mFrameStore[..i + 1][..i] == mFrameStore[..i];
        i := i + 1;
      }
      assert mFrameStore[..i] == mFrameStore;
    }

    /** The oldest stored frames go while they are over age. */
    method ClearOldFrames(later: nat -> nat)
      modifies this`mFrameStore
      ensures mFrameStore == Prune(profile, old(mFrameStore), later, 0)
    {
      var k := 0;
      while mFrameStore != []
        invariant Prune(profile, mFrameStore, later, k) == Prune(profile, old(mFrameStore), later, 0)
        decreases |mFrameStore|
      {
        if later(k) - mFrameStore[0].timestamp <= profile.head * SECOND {
          break;
        }
        mFrameStore := mFrameStore[1..];
        k := k + 1;
      }
    }

    method OpenEvent(x: Input)
      modifies this`log
      ensures log == old(log) + Opening(Film, mEventCount, x.frame.id) + Saves(Film, mEventCount, mFrameStore, false)
    {
      log := log + [Begin(mEventCount, x.frame.id)];
      log := log + [InitEncoder];
      log := log + [OpenFile(mEventCount)];
      assert log == old(log) + Opening(Film, mEventCount, x.frame.id);
      EncodeStore();
    }

    method CloseEvent(x: Input)
      modifies this`log, this`mState
      ensures mState == IDLE
      ensures log == old(log) + Closing(Film, mEventCount, x.frame.id, Seconds(mAlarmTime, mLastAlarmTime))
    {
      log := log + [CloseFile];
      log := log + [DeinitEncoder];
      mState := IDLE;
      log := log + [Complete(mEventCount, x.frame.id, (mLastAlarmTime - mAlarmTime) as real / 1000000.0)];
    }

    method Advance(x: Input)
      requires mState != PREALARM
      modifies this`mState, this`mLastAlarmTime, this`mAlarmTime, this`mEventCount, this`log
      ensures Fields() == StepAlarm(profile, old(Fields()), x)
      ensures log == old(log) + Emit(Film, profile, old(Fields()), x)
    {
      var lastState := mState;
      if x.frame.alarmed {
        mState := ALARM;
        mLastAlarmTime := x.now;
        if lastState == IDLE {
          mAlarmTime := mLastAlarmTime;
          mEventCount := mEventCount + 1;
          OpenEvent(x);
        }
      } else if lastState == ALARM {
        mState := ALERT;
      }
      if mState == ALERT {
        var age := Age(x, mLastAlarmTime);
        QuietByAge(profile, mLastAlarmTime, x, age);
        if age < -(profile.tail as real) {
          if (mLastAlarmTime - mAlarmTime) as real / 1000000.0 >= profile.minTime {
            CloseEvent(x);
          }
        }
      }
      if mState != IDLE {
        EncodeFrame(x.frame);
      }
      SavesOne(Film, mEventCount, x.frame, true);
    }

    method ProcessFrame(arrival: Arrival) returns (handled: bool)
      requires Valid()
      modifies this
      ensures Valid()
      ensures handled <==> arrival.AlarmFrame?
      ensures stream == if handled then old(stream) + [arrival.x] else old(stream)
    {
      if arrival.OtherFrame? {
        return false;
      }
      var x := arrival.x;
      NeverPrealarm(profile, stream);
      Advance(x);
      ClearOldFrames(x.later);
      mFrameStore := mFrameStore + [x.frame];
      LogStep(Film, profile, stream, x);
      RunStep(profile, stream, x);
      stream := stream + [x];
      return true;
    }
  }

  class EventRecorder {
    const profile: Profile
    var mFrameStore: seq<Frame>
    var mState: AlarmState
    var mFrameCount: nat
    var mEventCount: nat
    var mAlarmTime: nat
    var mLastAlarmTime: nat
    var log: seq<Effect>
    ghost var stream: seq<Input>

    ghost function Fields(): Track
      reads this
    {
      Track(mState, mEventCount, mAlarmTime, mLastAlarmTime, mFrameStore)
    }

    ghost predicate Valid()
      reads this
    {
      Fields() == Run(profile, stream) && log == Log(Stills, profile, stream) && mFrameCount == |stream|
    }

    constructor (minTime: real)
      ensures Valid() && stream == []
      ensures profile == Profile(2, 3, minTime)
    {
      profile := Profile(STILLS_HEAD_AGE, MAX_EVENT_TAIL_AGE, minTime);
      mFrameStore, mState, mFrameCount, mEventCount, mAlarmTime, mLastAlarmTime := [], IDLE, 0, 0, 0, 0;
      log, stream := [], [];
    }

    method WriteStore()
      modifies this`log
      ensures log == old(log) + Saves(Stills, mEventCount, mFrameStore, false)
    {
      var i := 0;
      while i < |mFrameStore|
        invariant 0 <= i <= |mFrameStore|
        invariant log == old(log) + Saves(Stills, mEventCount, mFrameStore[..i], false)
      {
        log := log + [Save(mEventCount, mFrameStore[i], false)];
        assert mFrameStore[..i + 1][..i] == mFrameStore[..i];
        i := i + 1;
      }
      assert mFrameStore[..i] == mFrameStore;
    }

    method ClearOldFrames(later: nat -> nat)
      modifies this`mFrameStore
      ensures mFrameStore == Prune(profile, old(mFrameStore), later, 0)
    {
      var k := 0;
      while mFrameStore != []
        invariant Prune(profile, mFrameStore, later, k) == Prune(profile, old(mFrameStore), later, 0)
        decreases |mFrameStore|
      {
        if later(k) - mFrameStore[0].timestamp <= profile.head * SECOND {
          break;
        }
        mFrameStore := mFrameStore[1..];
        k := k + 1;
      }
    }

    method Advance(x: Input)
      requires mState != PREALARM
      modifies this`mState, this`mLastAlarmTime, this`mAlarmTime, this`mEventCount, this`log
      ensures Fields() == StepAlarm(profile, old(Fields()), x)
      ensures log == old(log) + Emit(Stills, profile, old(Fields()), x)
    {
      var lastState := mState;
      if x.frame.alarmed {
        mState := ALARM;
        mLastAlarmTime := x.now;
        if lastState == IDLE {
          mAlarmTime := mLastAlarmTime;
          mEventCount := mEventCount + 1;
          log := log + [Begin(mEventCount, x.frame.id)];
          WriteStore();
        }
      } else if lastState == ALARM {
        mState := ALERT;
      }
      if mState == ALERT {
        var age := Age(x, mLastAlarmTime);
        QuietByAge(profile, mLastAlarmTime, x, age);
        if age < -(profile.tail as real) {
          if (mLastAlarmTime - mAlarmTime) as real / 1000000.0 >= profile.minTime {
            mState := IDLE;
            log := log + [Complete(mEventCount, x.frame.id, (mLastAlarmTime - mAlarmTime) as real / 1000000.0)];
          }
        }
      }
      if mState != IDLE {
        var marked := false;
        if mState == ALARM {
          marked := true;
        }
        log := log + [Save(mEventCount, x.frame, marked)];
      }
      SavesOne(Stills, mEventCount, x.frame, true);
    }

    method ProcessFrame(arrival: Arrival) returns (handled: bool)
      requires Valid()
      modifies this
      ensures Valid()
      ensures handled <==> arrival.AlarmFrame?
      ensures stream == if handled then old(stream) + [arrival.x] else old(stream)
    {
      if arrival.OtherFrame? {
        return false;
      }
      var x := arrival.x;
      NeverPrealarm(profile, stream);
      Advance(x);
      ClearOldFrames(x.later);
      mFrameStore := mFrameStore + [x.frame];
      mFrameCount := mFrameCount + 1;
      LogStep(Stills, profile, stream, x);
      RunStep(profile, stream, x);
      stream := stream + [x];
      return true;
    }
  }

  datatype Trigger = TRIGGER_CANCEL | TRIGGER_ON

  /** An alarm frame, and whether the shared segment is valid when the trigger is about to write to it. */
  datatype Reading = Reading(x: Input, valid: bool)

  function Inputs(rs: seq<Reading>): (xs: seq<Input>)
    ensures |xs| == |rs| && forall i :: 0 <= i < |rs| ==> xs[i] == rs[i].x
  {
    seq(|rs|, i requires 0 <= i < |rs| => rs[i].x)
  }

  /** The frame takes the machine into an event or out of one. */
  predicate Switches(p: Profile, t: Track, x: Input) {
    (t.state == IDLE) != (StepAlarm(p, t, x).state == IDLE)
  }

  /** How many of the latest switches in a row found the segment invalid and were not written. */
  function Missed(p: Profile, rs: seq<Reading>): nat {
    if rs == [] then 0
    else
      var before, last := rs[..|rs| - 1], rs[|rs| - 1];
      if !Switches(p, Run(p, Inputs(before)), last.x) then Missed(p, before)
      else if last.valid then 0
      else Missed(p, before) + 1
  }

  lemma MissedStep(p: Profile, rs: seq<Reading>, r: Reading)
    ensures Inputs(rs + [r]) == Inputs(rs) + [r.x]
    ensures Missed(p, rs + [r]) ==
      if !Switches(p, Run(p, Inputs(rs)), r.x) then Missed(p, rs) else if r.valid then 0 else Missed(p, rs) + 1
  {
    assert (rs + [r])[..|rs|] == rs;
  }

  /** The trigger is on outside IDLE and off in it, exactly if an even number of the latest switches was missed. */
  ghost predicate Agrees(p: Profile, rs: seq<Reading>, state: AlarmState, trigger: Trigger) {
    (trigger == TRIGGER_ON <==> state != IDLE) <==> Missed(p, rs) % 2 == 0
  }

  lemma AgreesStep(p: Profile, rs: seq<Reading>, r: Reading, t: Track, before: Trigger, after: Trigger)
    requires t == Run(p, Inputs(rs)) && Agrees(p, rs, t.state, before)
    requires after ==
      if !Switches(p, t, r.x) || !r.valid then before
      else if StepAlarm(p, t, r.x).state == IDLE then TRIGGER_CANCEL else TRIGGER_ON
    ensures Agrees(p, rs + [r], StepAlarm(p, t, r.x).state, after)
  {
    MissedStep(p, rs, r);
    var m, u := Missed(p, rs), StepAlarm(p, t, r.x);
    if Switches(p, t, r.x) {
      assert (t.state == IDLE) != (u.state == IDLE);
      if r.valid {
        assert after == TRIGGER_ON <==> u.state != IDLE;
      } else {
        OneMore(m);
      }
    } else {
      assert (t.state == IDLE) == (u.state == IDLE);
    }
  }

  lemma OneMore(m: nat)
    ensures (m + 1) % 2 == 0 <==> m % 2 != 0
  {
  }

  /** While every switch finds the segment valid none is missed. */
  lemma {:induction false} NoneMissed(p: Profile, rs: seq<Reading>)
    requires forall i :: 0 <= i < |rs| && Switches(p, Run(p, Inputs(rs[..i])), rs[i].x) ==> rs[i].valid
    ensures Missed(p, rs) == 0
    decreases |rs|
  {
    if rs != [] {
      var before := rs[..|rs| - 1];
      forall i | 0 <= i < |before| ensures before[..i] == rs[..i] && before[i] == rs[i] {
      }
      NoneMissed(p, before);
    }
  }

  class MemoryTriggerV1 {
    const profile: Profile
    var mState: AlarmState
    var mEventCount: nat
    var mAlarmTime: nat
    var mLastAlarmTime: nat
    var trigger: Trigger
    ghost var stream: seq<Reading>

    /** The trigger keeps no store of its own; the machine's is passed in. */
    ghost function Fields(store: seq<Frame>): Track
      reads this
    {
      Track(mState, mEventCount, mAlarmTime, mLastAlarmTime, store)
    }

    /** The same alarm machine, with the shared trigger following its state up to the missed switches. */
    ghost predicate Valid()
      reads this
    {
      && Fields(Run(profile, Inputs(stream)).store) == Run(profile, Inputs(stream))
      && Agrees(profile, stream, mState, trigger)
    }

    constructor (minTime: real)
      ensures Valid() && stream == []
      ensures profile == Profile(3, 3, minTime)
    {
      profile := Profile(VIDEO_HEAD_AGE, MAX_EVENT_TAIL_AGE, minTime);
      mState, mEventCount, mAlarmTime, mLastAlarmTime := IDLE, 0, 0, 0;
      trigger, stream := TRIGGER_CANCEL, [];
    }

    method SetTrigger(valid: bool) returns (done: bool)
      modifies this`trigger
      ensures done == valid
      ensures trigger == if done then TRIGGER_ON else old(trigger)
    {
      if !valid {
        return false;
      }
      trigger := TRIGGER_ON;
      return true;
    }

    method ClearTrigger(valid: bool) returns (done: bool)
      modifies this`trigger
      ensures done == valid
      ensures trigger == if done then TRIGGER_CANCEL else old(trigger)
    {
      if !valid {
        return false;
      }
      trigger := TRIGGER_CANCEL;
      return true;
    }

    method Advance(r: Reading, ghost store: seq<Frame>)
      requires mState != PREALARM
      modifies this`mState, this`mLastAlarmTime, this`mAlarmTime, this`mEventCount, this`trigger
      ensures Fields(store) == StepAlarm(profile, old(Fields(store)), r.x)
      ensures trigger ==
        if (old(mState) == IDLE) == (mState == IDLE) || !r.valid then old(trigger)
        else if mState == IDLE then TRIGGER_CANCEL else TRIGGER_ON
    {
      var x := r.x;
      var lastState := mState;
      if x.frame.alarmed {
        mState := ALARM;
        mLastAlarmTime := x.now;
        if lastState == IDLE {
          mAlarmTime := mLastAlarmTime;
          mEventCount := mEventCount + 1;
          var _ := SetTrigger(r.valid);
        }
      } else if lastState == ALARM {
        mState := ALERT;
      }
      if mState == ALERT {
        var age := Age(x, mLastAlarmTime);
        QuietByAge(profile, mLastAlarmTime, x, age);
        if age < -(profile.tail as real) {
          if (mLastAlarmTime - mAlarmTime) as real / 1000000.0 >= profile.minTime {
            mState := IDLE;
            var _ := ClearTrigger(r.valid);
          }
        }
      }
    }

    method ProcessFrame(arrival: Arrival, valid: bool) returns (handled: bool)
      requires Valid()
      modifies this
      ensures Valid()
      ensures handled <==> arrival.AlarmFrame?
      ensures stream == if handled then old(stream) + [Reading(arrival.x, valid)] else old(stream)
    {
      handled := arrival.AlarmFrame?;
      if handled {
        ghost var r, before, was := Reading(arrival.x, valid), Run(profile, Inputs(stream)), trigger;
        NeverPrealarm(profile, Inputs(stream));
        RunStep(profile, Inputs(stream), arrival.x);
        MissedStep(profile, stream, r);
        Advance(Reading(arrival.x, valid), before.store);
        AgreesStep(profile, stream, r, before, was, trigger);
        stream := stream + [r];
      }
    }
  }
}
