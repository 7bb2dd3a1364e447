/**
 * The alarm state machine that the recorders and the memory trigger share, and what its events are in
 * terms of the frame stream alone. Times are microseconds; ages and lengths in seconds are exact reals.
 */
module AlarmTrack {
  import opened Alarms

  datatype Frame = Frame(id: nat, timestamp: nat, alarmed: bool)

  /**
   * An alarm frame and the clock readings made while it is processed: the first one (the alarm time, or
   * the present when an age is asked without a reference time), then one per frame checked in the store.
   */
  datatype Input = Input(frame: Frame, now: nat, later: nat -> nat)

  /** Seconds of video kept before an event, seconds of quiet that end it, and the minimum time. */
  datatype Profile = Profile(head: nat, tail: nat, minTime: real)

  datatype Track = Track(state: AlarmState, eventCount: nat, alarmTime: nat, lastAlarmTime: nat, store: seq<Frame>)

  const SECOND: nat := 1000000

  function Seconds(from: nat, to: nat): real {
    (to - from) as real / 1000000.0
  }

  /** frame->age( lastAlarm ) < -tail; an alarm time of 0 reads as the present. */
  predicate Quiet(p: Profile, lastAlarm: nat, x: Input) {
    var check := if lastAlarm == 0 then x.now else lastAlarm;
    check - x.frame.timestamp < -(p.tail * SECOND)
  }

  /** Drops frames from the front while they are older than the head age; each check reads the clock again. */
  function Prune(p: Profile, store: seq<Frame>, later: nat -> nat, k: nat): seq<Frame>
    decreases |store|
  {
    if store == [] || later(k) - store[0].timestamp <= p.head * SECOND then store
    else Prune(p, store[1..], later, k + 1)
  }

  /** The alarm logic at the top of processFrame, without the effects. */
  function StepAlarm(p: Profile, t: Track, x: Input): Track {
    if x.frame.alarmed then
      if t.state == IDLE then
        t.(state := ALARM, lastAlarmTime := x.now, alarmTime := x.now, eventCount := t.eventCount + 1)
      else t.(state := ALARM, lastAlarmTime := x.now)
    else
      var entered := if t.state == ALARM then ALERT else t.state;
      if entered == ALERT && Quiet(p, t.lastAlarmTime, x) && Seconds(t.alarmTime, t.lastAlarmTime) >= p.minTime
      then t.(state := IDLE)
      else t.(state := entered)
  }

  function Step(p: Profile, t: Track, x: Input): Track {
    StepAlarm(p, t, x).(store := Prune(p, t.store, x.later, 0) + [x.frame])
  }

  const INITIAL: Track := Track(IDLE, 0, 0, 0, [])

  function Run(p: Profile, xs: seq<Input>): Track {
    if xs == [] then INITIAL else Step(p, Run(p, xs[..|xs| - 1]), xs[|xs| - 1])
  }

  // ---------- events, read off the stream ----------

  /** Where the store starts after n frames: the store after them is the stream from there on. */
  function StoreStart(p: Profile, xs: seq<Input>, n: nat): (i: nat)
    requires n <= |xs|
    ensures i <= n
  {
    if n == 0 then 0 else PruneStart(p, xs, n - 1, StoreStart(p, xs, n - 1), 0)
  }

  function PruneStart(p: Profile, xs: seq<Input>, n: nat, i: nat, k: nat): (j: nat)
    requires i <= n < |xs|
    ensures i <= j <= n
    decreases n - i
  {
    if i == n || xs[n].later(k) - xs[i].frame.timestamp <= p.head * SECOND then i
    else PruneStart(p, xs, n, i + 1, k + 1)
  }

  /** The time of the last alarmed frame before index j of an event begun at index begin. */
  function LastAlarm(xs: seq<Input>, begin: nat, j: nat): nat
    requires begin < j <= |xs|
    decreases j - begin
  {
    if j - 1 == begin || xs[j - 1].frame.alarmed then xs[j - 1].now else LastAlarm(xs, begin, j - 1)
  }

  /** It is the time of the event's last alarm before j; the frame that began the event counts as one. */
  lemma {:induction false} LastAlarmIs(xs: seq<Input>, begin: nat, j: nat) returns (i: nat)
    requires begin < j <= |xs|
    ensures begin <= i < j && LastAlarm(xs, begin, j) == xs[i].now
    ensures i == begin || xs[i].frame.alarmed
    ensures forall m :: i < m < j ==> !xs[m].frame.alarmed
    decreases j - begin
  {
    if j - 1 == begin || xs[j - 1].frame.alarmed {
      i := j - 1;
    } else {
      i := LastAlarmIs(xs, begin, j - 1);
    }
  }

  /** The first-to-last alarm span of the event, as it stands before frame j. */
  function Length(xs: seq<Input>, begin: nat, j: nat): real
    requires begin < j <= |xs|
  {
    Seconds(xs[begin].now, LastAlarm(xs, begin, j))
  }

  /** Frame j ends the event begun at begin: it is quiet, late enough, and the event is long enough. */
  predicate Closes(p: Profile, xs: seq<Input>, begin: nat, j: nat)
    requires begin < j < |xs|
  {
    && !xs[j].frame.alarmed
    && Quiet(p, LastAlarm(xs, begin, j), xs[j])
    && Length(xs, begin, j) >= p.minTime
  }

  /** Frames lo..hi of the stream; begun by frame begin; closed by frame hi unless still open. */
  datatype Event = Event(lo: nat, begin: nat, hi: nat, open: bool)

  ghost predicate IsEvent(p: Profile, xs: seq<Input>, e: Event) {
    && e.lo <= e.begin < e.hi <= |xs|
    && e.lo == StoreStart(p, xs, e.begin)
    && xs[e.begin].frame.alarmed
    && (forall j :: e.begin < j < e.hi ==> !Closes(p, xs, e.begin, j))
    && (if e.open then e.hi == |xs| else e.hi < |xs| && Closes(p, xs, e.begin, e.hi))
  }

  ghost predicate Covered(es: seq<Event>, j: int) {
    exists k :: 0 <= k < |es| && es[k].begin <= j < es[k].hi
  }

  /**
   * The events of a stream: each begins at an alarmed frame outside the earlier ones, takes in the store
   * as it then stands, and ends just before the first frame that closes it. No alarm falls outside them.
   */
  ghost predicate AreEvents(p: Profile, xs: seq<Input>, es: seq<Event>) {
    && (forall k :: 0 <= k < |es| ==> IsEvent(p, xs, es[k]))
    && (forall k, l :: 0 <= k < l < |es| ==> !es[k].open && es[k].hi < es[l].begin)
    && (forall j :: 0 <= j < |xs| && xs[j].frame.alarmed ==> Covered(es, j))
  }

  /** The events of a stream, computed frame by frame from the stream alone. */
  function Events(p: Profile, xs: seq<Input>): (es: seq<Event>)
    ensures forall k :: 0 <= k < |es| ==> es[k].lo <= es[k].begin < es[k].hi <= |xs|
  {
    if xs == [] then []
    else
      var n := |xs| - 1;
      var es := Events(p, xs[..n]);
      if es != [] && es[|es| - 1].open then
        var last := es[|es| - 1];
        es[|es| - 1 := if Closes(p, xs, last.begin, n) then last.(open := false) else last.(hi := n + 1)]
      else if xs[n].frame.alarmed then es + [Event(StoreStart(p, xs, n), n, n + 1, true)]
      else es
  }

  predicate InEvent(es: seq<Event>) {
    es != [] && es[|es| - 1].open
  }

  // ---------- a longer stream changes nothing about the frames already seen ----------

  lemma {:induction false} PruneStartExtends(p: Profile, xs: seq<Input>, x: Input, n: nat, i: nat, k: nat)
    requires i <= n < |xs|
    ensures PruneStart(p, xs + [x], n, i, k) == PruneStart(p, xs, n, i, k)
    decreases n - i
  {
    if i < n {
      PruneStartExtends(p, xs, x, n, i + 1, k + 1);
    }
  }

  lemma {:induction false} StoreStartExtends(p: Profile, xs: seq<Input>, x: Input, n: nat)
    requires n <= |xs|
    ensures StoreStart(p, xs + [x], n) == StoreStart(p, xs, n)
    decreases n
  {
    if n > 0 {
      StoreStartExtends(p, xs, x, n - 1);
      PruneStartExtends(p, xs, x, n - 1, StoreStart(p, xs, n - 1), 0);
    }
  }

  lemma {:induction false} LastAlarmExtends(xs: seq<Input>, x: Input, begin: nat, j: nat)
    requires begin < j <= |xs|
    ensures LastAlarm(xs + [x], begin, j) == LastAlarm(xs, begin, j)
    decreases j - begin
  {
    if j - 1 > begin {
      LastAlarmExtends(xs, x, begin, j - 1);
    }
  }

  lemma ClosesExtends(p: Profile, xs: seq<Input>, x: Input, begin: nat, j: nat)
    requires begin < j < |xs|
    ensures Closes(p, xs + [x], begin, j) == Closes(p, xs, begin, j)
  {
    LastAlarmExtends(xs, x, begin, j);
  }

  /** What the next frame does to an event that was open or closed before it. */
  lemma EventExtends(p: Profile, xs: seq<Input>, x: Input, e: Event)
    requires IsEvent(p, xs, e)
    ensures !e.open ==> IsEvent(p, xs + [x], e)
    ensures e.open ==> IsEvent(p, xs + [x],
      if Closes(p, xs + [x], e.begin, |xs|) then e.(open := false) else e.(hi := |xs| + 1))
  {
    StoreStartExtends(p, xs, x, e.begin);
    forall j | e.begin < j < |xs| ensures Closes(p, xs + [x], e.begin, j) == Closes(p, xs, e.begin, j) {
      ClosesExtends(p, xs, x, e.begin, j);
    }
  }

  lemma {:induction false} EachIsEvent(p: Profile, xs: seq<Input>)
    ensures forall k :: 0 <= k < |Events(p, xs)| ==> IsEvent(p, xs, Events(p, xs)[k])
    ensures forall k :: 0 <= k < |Events(p, xs)| - 1 ==> !Events(p, xs)[k].open
    decreases |xs|
  {
    if xs != [] {
      var n := |xs| - 1;
      var ys, x := xs[..n], xs[n];
      assert xs == ys + [x];
      EachIsEvent(p, ys);
      var es, es' := Events(p, ys), Events(p, xs);
      forall k | 0 <= k < |es| ensures IsEvent(p, xs, es'[k]) {
        EventExtends(p, ys, x, es[k]);
      }
    }
  }

  lemma {:induction false} EventsOrdered(p: Profile, xs: seq<Input>)
    ensures forall k, l :: 0 <= k < l < |Events(p, xs)| ==> Events(p, xs)[k].hi < Events(p, xs)[l].begin
    decreases |xs|
  {
    if xs != [] {
      var n := |xs| - 1;
      EventsOrdered(p, xs[..n]);
      EachIsEvent(p, xs[..n]);
    }
  }

  lemma {:induction false} AlarmsCovered(p: Profile, xs: seq<Input>)
    ensures forall j :: 0 <= j < |xs| && xs[j].frame.alarmed ==> Covered(Events(p, xs), j)
    decreases |xs|
  {
    if xs != [] {
      var n := |xs| - 1;
      AlarmsCovered(p, xs[..n]);
      var es, es' := Events(p, xs[..n]), Events(p, xs);
      forall j | 0 <= j < |xs| && xs[j].frame.alarmed ensures Covered(es', j) {
        if j < n {
          assert Covered(es, j);
          var k :| 0 <= k < |es| && es[k].begin <= j < es[k].hi;
          assert es'[k].begin <= j < es'[k].hi;
        } else {
          assert es'[|es'| - 1].begin <= j < es'[|es'| - 1].hi;
        }
      }
    }
  }

  lemma EventsAreEvents(p: Profile, xs: seq<Input>)
    ensures AreEvents(p, xs, Events(p, xs))
  {
    EachIsEvent(p, xs);
    EventsOrdered(p, xs);
    AlarmsCovered(p, xs);
  }

  /** The arrangement of the events, leaving aside where each ends. */
  ghost predicate Arranged(xs: seq<Input>, es: seq<Event>) {
    && (forall k :: 0 <= k < |es| ==> es[k].begin < es[k].hi <= |xs| && xs[es[k].begin].frame.alarmed)
    && (forall k, l :: 0 <= k < l < |es| ==> es[k].hi < es[l].begin)
    && (forall j :: 0 <= j < |xs| && xs[j].frame.alarmed ==> Covered(es, j))
  }

  lemma EventsArranged(p: Profile, xs: seq<Input>, es: seq<Event>)
    requires AreEvents(p, xs, es)
    ensures Arranged(xs, es)
  {
    forall k | 0 <= k < |es| ensures es[k].begin < es[k].hi <= |xs| && xs[es[k].begin].frame.alarmed {
      assert IsEvent(p, xs, es[k]);
    }
  }

  lemma SameBegin(xs: seq<Input>, es: seq<Event>, fs: seq<Event>, k: nat)
    requires Arranged(xs, es) && Arranged(xs, fs)
    requires k < |es| && k <= |fs| && forall i :: 0 <= i < k ==> es[i] == fs[i]
    ensures k < |fs| && fs[k].begin <= es[k].begin
  {
    var b := es[k].begin;
    assert Covered(fs, b);
    var m :| 0 <= m < |fs| && fs[m].begin <= b < fs[m].hi;
  }

  lemma SameEvent(p: Profile, xs: seq<Input>, e: Event, f: Event)
    requires IsEvent(p, xs, e) && IsEvent(p, xs, f) && e.begin == f.begin
    ensures e == f
  {
  }

  lemma SameNext(p: Profile, xs: seq<Input>, es: seq<Event>, fs: seq<Event>, k: nat)
    requires AreEvents(p, xs, es) && AreEvents(p, xs, fs)
    requires k < |es| && k <= |fs| && forall i :: 0 <= i < k ==> es[i] == fs[i]
    ensures k < |fs| && es[k] == fs[k]
  {
    EventsArranged(p, xs, es);
    EventsArranged(p, xs, fs);
    SameBegin(xs, es, fs, k);
    SameBegin(xs, fs, es, k);
    SameEvent(p, xs, es[k], fs[k]);
  }

  lemma {:induction false} SamePrefix(p: Profile, xs: seq<Input>, es: seq<Event>, fs: seq<Event>, k: nat)
    requires AreEvents(p, xs, es) && AreEvents(p, xs, fs) && k <= |es|
    ensures k <= |fs| && forall i :: 0 <= i < k ==> es[i] == fs[i]
    decreases k
  {
    if k > 0 {
      SamePrefix(p, xs, es, fs, k - 1);
      SameNext(p, xs, es, fs, k - 1);
    }
  }

  /** The description leaves no choice: a stream has exactly one list of events. */
  lemma EventsUnique(p: Profile, xs: seq<Input>, es: seq<Event>, fs: seq<Event>)
    requires AreEvents(p, xs, es) && AreEvents(p, xs, fs)
    ensures es == fs
  {
    SamePrefix(p, xs, es, fs, |es|);
    SamePrefix(p, xs, fs, es, |fs|);
  }

  // ---------- the machine follows the events ----------

  function Frames(xs: seq<Input>): (fs: seq<Frame>)
    ensures |fs| == |xs| && forall i :: 0 <= i < |xs| ==> fs[i] == xs[i].frame
  {
    seq(|xs|, i requires 0 <= i < |xs| => xs[i].frame)
  }

  lemma {:induction false} PruneIsSuffix(p: Profile, xs: seq<Input>, n: nat, i: nat, k: nat)
    requires i <= n < |xs|
    ensures Prune(p, Frames(xs)[i..n], xs[n].later, k) == Frames(xs)[PruneStart(p, xs, n, i, k)..n]
    decreases n - i
  {
    if i < n {
      assert Frames(xs)[i..n][1..] == Frames(xs)[i + 1..n];
      PruneIsSuffix(p, xs, n, i + 1, k + 1);
    }
  }

  lemma RunStep(p: Profile, ys: seq<Input>, x: Input)
    ensures Run(p, ys + [x]) == Step(p, Run(p, ys), x)
  {
    assert (ys + [x])[..|ys|] == ys;
  }

  predicate OverAge(p: Profile, f: Frame, now: nat) {
    now - f.timestamp > p.head * SECOND
  }

  /** Pruning drops exactly the frames before the first one that is not over age when it is looked at. */
  lemma {:induction false} PruneDropsOverAge(p: Profile, store: seq<Frame>, later: nat -> nat, k: nat) returns (d: nat)
    ensures d <= |store| && Prune(p, store, later, k) == store[d..]
    ensures forall i :: 0 <= i < d ==> OverAge(p, store[i], later(k + i))
    ensures d < |store| ==> !OverAge(p, store[d], later(k + d))
    decreases |store|
  {
    if store == [] || later(k) - store[0].timestamp <= p.head * SECOND {
      d := 0;
    } else {
      var rest := PruneDropsOverAge(p, store[1..], later, k + 1);
      d := rest + 1;
      forall i | 0 <= i < d ensures OverAge(p, store[i], later(k + i)) {
        assert i > 0 ==> store[i] == store[1..][i - 1];
      }
    }
  }

  /** The pre-event store is always a suffix of the processed stream. */
  lemma {:induction false} StoreIsSuffix(p: Profile, xs: seq<Input>)
    ensures Run(p, xs).store == Frames(xs)[StoreStart(p, xs, |xs|)..]
    decreases |xs|
  {
    if xs != [] {
      var n := |xs| - 1;
      var ys, x := xs[..n], xs[n];
      assert xs == ys + [x];
      StoreIsSuffix(p, ys);
      RunStep(p, ys, x);
      StoreStartExtends(p, ys, x, n);
      var i := StoreStart(p, xs, n);
      assert Frames(ys)[i..] == Frames(xs)[i..n];
      PruneIsSuffix(p, xs, n, i, 0);
      LastInSuffix(Frames(xs), PruneStart(p, xs, n, i, 0), n);
    }
  }

  lemma LastInSuffix<T>(s: seq<T>, i: nat, n: nat)
    requires i <= n && |s| == n + 1
    ensures s[i..n] + [s[n]] == s[i..]
  {
  }

  /** What the machine's fields say about the events of the stream it has processed. */
  ghost predicate Follows(p: Profile, xs: seq<Input>, t: Track) {
    var es := Events(p, xs);
    && t.eventCount == |es|
    && (t.state != IDLE <==> InEvent(es))
    && t.state != PREALARM
    && (InEvent(es) ==>
      var e := es[|es| - 1];
      && e.hi == |xs|
      && t.alarmTime == xs[e.begin].now
      && t.lastAlarmTime == LastAlarm(xs, e.begin, |xs|)
      && (t.state == ALARM <==> xs[|xs| - 1].frame.alarmed))
  }

  lemma EventsStep(p: Profile, ys: seq<Input>, x: Input)
    ensures var es, n, es' := Events(p, ys), |ys|, Events(p, ys + [x]);
      if InEvent(es) then
        var last := es[|es| - 1];
        es' == es[|es| - 1 := if Closes(p, ys + [x], last.begin, n) then last.(open := false) else last.(hi := n + 1)]
      else if x.frame.alarmed then es' == es + [Event(StoreStart(p, ys + [x], n), n, n + 1, true)]
      else es' == es
  {
    assert (ys + [x])[..|ys|] == ys;
  }

  lemma FollowsStep(p: Profile, ys: seq<Input>, x: Input, t: Track)
    requires Follows(p, ys, t)
    ensures Follows(p, ys + [x], Step(p, t, x))
  {
    EventsStep(p, ys, x);
    var es := Events(p, ys);
    if InEvent(es) {
      LastAlarmExtends(ys, x, es[|es| - 1].begin, |ys|);
    }
  }

  lemma {:induction false} MachineFollows(p: Profile, xs: seq<Input>)
    ensures Follows(p, xs, Run(p, xs))
    decreases |xs|
  {
    if xs != [] {
      var n := |xs| - 1;
      MachineFollows(p, xs[..n]);
      FollowsStep(p, xs[..n], xs[n], Run(p, xs[..n]));
      assert xs == xs[..n] + [xs[n]];
    }
  }

  // ---------- when an event ends ----------

  lemma {:induction false} NeverPrealarm(p: Profile, xs: seq<Input>)
    ensures Run(p, xs).state != PREALARM
    decreases |xs|
  {
    if xs != [] {
      NeverPrealarm(p, xs[..|xs| - 1]);
    }
  }

  /**
   * The minimum time is compared with the span from first to last alarm, not with the time recorded. So once
   * the alarms have stopped, an event ends exactly if that span already reached the minimum and a quiet frame
   * comes; a shorter event is recorded for as long as no further alarm comes.
   */
  lemma {:induction false} EndsExactlyWhen(p: Profile, xs: seq<Input>, ys: seq<Input>)
    requires Run(p, xs).state != IDLE
    requires forall j :: 0 <= j < |ys| ==> !ys[j].frame.alarmed
    ensures var t := Run(p, xs);
      Run(p, xs + ys).state == IDLE <==>
        && Seconds(t.alarmTime, t.lastAlarmTime) >= p.minTime
        && exists j :: 0 <= j < |ys| && Quiet(p, t.lastAlarmTime, ys[j])
    ensures var t, u := Run(p, xs), Run(p, xs + ys);
      && u.alarmTime == t.alarmTime && u.lastAlarmTime == t.lastAlarmTime
      && (ys != [] && u.state != IDLE ==> u.state == ALERT)
    decreases |ys|
  {
    if ys == [] {
      assert xs + ys == xs;
    } else {
      var m := |ys| - 1;
      EndsExactlyWhen(p, xs, ys[..m]);
      assert (xs + ys)[..|xs + ys| - 1] == xs + ys[..m];
      assert (xs + ys)[|xs + ys| - 1] == ys[m];
      assert Run(p, xs + ys) == Step(p, Run(p, xs + ys[..m]), ys[m]);
      NeverPrealarm(p, xs + ys[..m]);
      var t := Run(p, xs);
      if j :| 0 <= j < |ys| && Quiet(p, t.lastAlarmTime, ys[j]) {
        if j < m {
          assert ys[..m][j] == ys[j];
        }
      }
    }
  }

  /** With a positive minimum time an event of a single alarmed frame never ends by itself, however long it is quiet. */
  lemma SingleAlarmNeverEnds(p: Profile, x: Input, ys: seq<Input>)
    requires x.frame.alarmed && p.minTime > 0.0
    requires forall j :: 0 <= j < |ys| ==> !ys[j].frame.alarmed
    ensures Run(p, [x] + ys).state != IDLE
  {
    RunStep(p, [], x);
    assert [] + [x] == [x];
    EndsExactlyWhen(p, [x], ys);
  }

  /** The length reported at the end of an event: first to last alarm, never below the minimum time. */
  lemma ReportedLength(p: Profile, xs: seq<Input>, k: nat)
    requires k < |Events(p, xs)| && !Events(p, xs)[k].open
    ensures var e := Events(p, xs)[k];
      && Length(xs, e.begin, e.hi) >= p.minTime
      && Length(xs, e.begin, e.hi) * 1000000.0 == (LastAlarm(xs, e.begin, e.hi) - xs[e.begin].now) as real
  {
    EachIsEvent(p, xs);
  }
}
