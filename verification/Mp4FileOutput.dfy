/** The MP4 writer: motion frames drive its alarm state, key frames in the data stream open and close its file. */
module Mp4FileOutput {
  import opened Alarms
  import opened Arithmetic
  import opened Bytes
  import opened Sequences
  import opened StartCode
  import opened NalWalk
  import opened H264Stream

  /**
   * A motion frame with the clock readings made for it (the second only when no alarm time is set), or a
   * frame of H.264 data, of which only matters whether it is a key frame.
   */
  datatype Input = Motion(id: nat, alarmed: bool, timestamp: nat, now: nat, again: nat) | Data(key: bool)

  const MAX_EVENT_TAIL_AGE: nat := 3
  const SECOND: nat := 1000000

  predicate KeyAt(xs: seq<Input>, i: int) {
    0 <= i < |xs| && xs[i].Data? && xs[i].key
  }

  datatype Alarm = Alarm(state: AlarmState, time: nat)

  function AlarmStep(a: Alarm, x: Input): Alarm {
    if x.Data? then a
    else if x.alarmed then Alarm(ALARM, x.now)
    else if a.state == ALARM then a.(state := ALERT)
    else if a.state == ALERT then
      var check := if a.time == 0 then x.again else a.time;
      if x.timestamp - check > MAX_EVENT_TAIL_AGE * SECOND then a.(state := IDLE) else a
    else a.(state := IDLE)
  }

  /** The alarm when frame i arrives. */
  function AlarmAt(xs: seq<Input>, i: nat): Alarm
    requires i <= |xs|
  {
    if i == 0 then Alarm(IDLE, 0) else AlarmStep(AlarmAt(xs, i - 1), xs[i - 1])
  }

  /** Frame i is a key frame that arrives with the alarm state idle, or not idle. */
  predicate IdleKey(xs: seq<Input>, i: int) {
    KeyAt(xs, i) && AlarmAt(xs, i).state == IDLE
  }

  predicate ArmedKey(xs: seq<Input>, i: int) {
    KeyAt(xs, i) && AlarmAt(xs, i).state != IDLE
  }

  // ---------- what the alarm state means ----------

  predicate AlarmedAt(xs: seq<Input>, j: int) {
    0 <= j < |xs| && xs[j].Motion? && xs[j].alarmed
  }

  predicate MotionAt(xs: seq<Input>, j: int) {
    0 <= j < |xs| && xs[j].Motion?
  }

  /** Motion frame m comes more than the tail age after the alarm of frame j. */
  predicate QuietAt(xs: seq<Input>, j: int, m: int) {
    && AlarmedAt(xs, j) && MotionAt(xs, m)
    && xs[m].timestamp - (if xs[j].now == 0 then xs[m].again else xs[j].now) > MAX_EVENT_TAIL_AGE * SECOND
  }

  ghost predicate MotionBetween(xs: seq<Input>, j: int, n: int) {
    exists k :: j < k < n && MotionAt(xs, k)
  }

  ghost predicate LastAlarmed(xs: seq<Input>, j: int, n: int) {
    j < n && AlarmedAt(xs, j) && forall k :: j < k < n ==> !AlarmedAt(xs, k)
  }

  /** A quiet motion frame has come since alarm j; the first motion frame after the alarm is not looked at. */
  ghost predicate Expired(xs: seq<Input>, j: int, n: int) {
    exists m :: j < m < n && QuietAt(xs, j, m) && MotionBetween(xs, j, m)
  }

  lemma {:induction false} AlarmAfter(xs: seq<Input>, j: nat, n: nat)
    requires n <= |xs| && LastAlarmed(xs, j, n)
    ensures AlarmAt(xs, n) ==
      Alarm(if !MotionBetween(xs, j, n) then ALARM else if Expired(xs, j, n) then IDLE else ALERT, xs[j].now)
  {
    var m := n - 1;
    if j < m {
      AlarmAfter(xs, j, m);
      assert MotionBetween(xs, j, n) <==> MotionBetween(xs, j, m) || MotionAt(xs, m);
      assert Expired(xs, j, n) <==> Expired(xs, j, m) || (QuietAt(xs, j, m) && MotionBetween(xs, j, m));
      assert !AlarmedAt(xs, m);
      assert Expired(xs, j, m) ==> MotionBetween(xs, j, m);
    }
  }

  lemma {:induction false} AlarmBefore(xs: seq<Input>, n: nat) returns (j: int)
    requires n <= |xs|
    ensures LastAlarmed(xs, j, n) || (AlarmAt(xs, n) == Alarm(IDLE, 0) && forall k :: k < n ==> !AlarmedAt(xs, k))
  {
    if n == 0 {
      j := -1;
    } else if AlarmedAt(xs, n - 1) {
      j := n - 1;
    } else {
      j := AlarmBefore(xs, n - 1);
    }
  }

  /** The state is not IDLE exactly when there has been an alarm and the last one has not expired. */
  lemma AlarmMeans(xs: seq<Input>, n: nat)
    requires n <= |xs|
    ensures AlarmAt(xs, n).state != IDLE <==> exists j :: LastAlarmed(xs, j, n) && !Expired(xs, j, n)
  {
    var j := AlarmBefore(xs, n);
    if LastAlarmed(xs, j, n) {
      AlarmAfter(xs, j, n);
      assert forall k :: LastAlarmed(xs, k, n) ==> k == j;
      assert Expired(xs, j, n) ==> MotionBetween(xs, j, n);
    }
  }

  // ---------- the machine ----------

  datatype Effect = OpenFile | Packet(index: nat, key: bool, count: nat) | CloseFile

  /** alarm, whether a file is open, frames since it was opened, alarm events seen. */
  datatype Writer = Writer(alarm: Alarm, open: bool, videoFrameCount: nat, eventCount: nat)

  const INITIAL: Writer := Writer(Alarm(IDLE, 0), false, 0, 0)

  function Gate(w: Writer, x: Input): Writer {
    if !(x.Data? && x.key) then w
    else if w.alarm.state != IDLE && !w.open then w.(open := true, videoFrameCount := 0)
    else if w.alarm.state == IDLE && w.open then w.(open := false)
    else w
  }

  function Step(w: Writer, x: Input): Writer {
    if x.Motion? then
      w.(alarm := AlarmStep(w.alarm, x),
         eventCount := if x.alarmed && w.alarm.state == IDLE then w.eventCount + 1 else w.eventCount)
    else
      var g := Gate(w, x);
      g.(videoFrameCount := g.videoFrameCount + 1)
  }

  function Emit(w: Writer, x: Input, index: nat): seq<Effect> {
    var g := Gate(w, x);
    (if !w.open && g.open then [OpenFile] else if w.open && !g.open then [CloseFile] else [])
    + if x.Data? && g.open then [Packet(index, x.key, g.videoFrameCount)] else []
  }

  /** The still image written when an event begins. */
  datatype Image = Image(event: nat, id: nat)

  function Snapshot(w: Writer, x: Input): seq<Image> {
    if x.Motion? && x.alarmed && w.alarm.state == IDLE then [Image(w.eventCount + 1, x.id)] else []
  }

  function Images(xs: seq<Input>): seq<Image> {
    if xs == [] then [] else Images(xs[..|xs| - 1]) + Snapshot(Run(xs[..|xs| - 1]), xs[|xs| - 1])
  }

  function Run(xs: seq<Input>): Writer {
    if xs == [] then INITIAL else Step(Run(xs[..|xs| - 1]), xs[|xs| - 1])
  }

  function Log(xs: seq<Input>): seq<Effect> {
    if xs == [] then [] else
      Log(xs[..|xs| - 1]) + Emit(Run(xs[..|xs| - 1]), xs[|xs| - 1], |xs| - 1)
  }

  // ---------- the files, read off the stream ----------

  /** A file takes the data frames from index from to index to. */
  datatype File = File(from: nat, to: nat, open: bool)

  /**
   * It starts at a key frame that finds an alarm, goes on past every key frame that still finds one, and
   * stops just before the first key frame that finds none.
   */
  ghost predicate IsFile(xs: seq<Input>, f: File) {
    && f.from < f.to <= |xs|
    && ArmedKey(xs, f.from)
    && (forall j :: f.from < j < f.to ==> !IdleKey(xs, j))
    && (if f.open then f.to == |xs| else IdleKey(xs, f.to))
  }

  ghost predicate Covered(fs: seq<File>, j: int) {
    exists k :: 0 <= k < |fs| && fs[k].from <= j < fs[k].to
  }

  /** The files are apart, in order, and no key frame that finds an alarm lies outside them. */
  ghost predicate AreFiles(xs: seq<Input>, fs: seq<File>) {
    && (forall k :: 0 <= k < |fs| ==> IsFile(xs, fs[k]))
    && (forall k, l :: 0 <= k < l < |fs| ==> !fs[k].open && fs[k].to < fs[l].from)
    && (forall j :: ArmedKey(xs, j) ==> Covered(fs, j))
  }

  function Files(xs: seq<Input>): (fs: seq<File>)
    ensures forall k :: 0 <= k < |fs| ==> fs[k].from < fs[k].to <= |xs|
  {
    if xs == [] then []
    else
      var n := |xs| - 1;
      var fs := Files(xs[..n]);
      if InFile(fs) then
        var last := fs[|fs| - 1];
        fs[|fs| - 1 := if IdleKey(xs, n) then last.(open := false) else last.(to := n + 1)]
      else if ArmedKey(xs, n) then fs + [File(n, n + 1, true)]
      else fs
  }

  predicate InFile(fs: seq<File>) {
    fs != [] && fs[|fs| - 1].open
  }

  /** The packets of the data frames from index i to index j, counted from 0. */
  function Packets(xs: seq<Input>, i: nat, j: nat): seq<Effect>
    requires i <= j <= |xs|
    decreases j - i
  {
    if i == j then []
    else
      var ps := Packets(xs, i, j - 1);
      if xs[j - 1].Data? then ps + [Packet(j - 1, xs[j - 1].key, |ps|)] else ps
  }

  /** In order and once each, every data frame of the range, with its key mark and its place in the file. */
  lemma {:induction false} PacketsAre(xs: seq<Input>, i: nat, j: nat)
    requires i <= j <= |xs|
    ensures var ps := Packets(xs, i, j);
      && (forall m :: 0 <= m < |ps| ==>
        ps[m].Packet? && ps[m].count == m && i <= ps[m].index < j && xs[ps[m].index] == Data(ps[m].key))
      && (forall m, n :: 0 <= m < n < |ps| ==> ps[m].index < ps[n].index)
      && (forall d :: i <= d < j && xs[d].Data? ==> Sends(ps, d))
    decreases j - i
  {
    if i < j {
      PacketsAre(xs, i, j - 1);
      var before, ps := Packets(xs, i, j - 1), Packets(xs, i, j);
      forall d | i <= d < j && xs[d].Data? ensures Sends(ps, d) {
        if d == j - 1 {
          assert ps[|before|].index == d;
        } else {
          assert Sends(before, d);
          var m :| 0 <= m < |before| && before[m].Packet? && before[m].index == d;
          assert ps[m] == before[m];
        }
      }
    }
  }

  ghost predicate Sends(ps: seq<Effect>, d: int) {
    exists m :: 0 <= m < |ps| && ps[m].Packet? && ps[m].index == d
  }

  function Block(xs: seq<Input>, f: File): seq<Effect>
    requires f.from < f.to <= |xs|
  {
    [OpenFile] + Packets(xs, f.from, f.to) + if f.open then [] else [CloseFile]
  }

  /** A file's effects, one by one. */
  lemma BlockIs(xs: seq<Input>, f: File)
    requires f.from < f.to <= |xs|
    ensures var b, ps := Block(xs, f), Packets(xs, f.from, f.to);
      && |b| == 1 + |ps| + (if f.open then 0 else 1)
      && b[0] == OpenFile
      && (forall m :: 0 <= m < |ps| ==> b[1 + m] == ps[m])
      && (!f.open ==> b[|b| - 1] == CloseFile)
  {
  }

  ghost predicate AllFit(xs: seq<Input>, fs: seq<File>) {
    forall k :: 0 <= k < |fs| ==> fs[k].from < fs[k].to <= |xs|
  }

  ghost function Blocks(xs: seq<Input>, fs: seq<File>): seq<Effect>
    requires AllFit(xs, fs)
  {
    if fs == [] then []
    else Blocks(xs, fs[..|fs| - 1]) + Block(xs, fs[|fs| - 1])
  }

  // ---------- a longer stream changes nothing about the frames already seen ----------

  lemma {:induction false} AlarmExtends(xs: seq<Input>, x: Input, i: nat)
    requires i <= |xs|
    ensures AlarmAt(xs + [x], i) == AlarmAt(xs, i)
    decreases i
  {
    if i > 0 {
      AlarmExtends(xs, x, i - 1);
    }
  }

  lemma KeysExtend(xs: seq<Input>, x: Input, i: int)
    requires i < |xs|
    ensures IdleKey(xs + [x], i) == IdleKey(xs, i)
    ensures ArmedKey(xs + [x], i) == ArmedKey(xs, i)
  {
    if 0 <= i {
      AlarmExtends(xs, x, i);
    }
  }

  lemma {:induction false} PacketsExtend(xs: seq<Input>, x: Input, i: nat, j: nat)
    requires i <= j <= |xs|
    ensures Packets(xs + [x], i, j) == Packets(xs, i, j)
    decreases j - i
  {
    if i < j {
      PacketsExtend(xs, x, i, j - 1);
    }
  }

  lemma {:induction false} BlocksExtend(xs: seq<Input>, x: Input, fs: seq<File>)
    requires AllFit(xs, fs)
    ensures AllFit(xs + [x], fs)
    ensures Blocks(xs + [x], fs) == Blocks(xs, fs)
    decreases |fs|
  {
    if fs != [] {
      BlocksExtend(xs, x, fs[..|fs| - 1]);
      PacketsExtend(xs, x, fs[|fs| - 1].from, fs[|fs| - 1].to);
    }
  }

  lemma FileExtends(xs: seq<Input>, x: Input, f: File)
    requires IsFile(xs, f)
    ensures !f.open ==> IsFile(xs + [x], f)
    ensures f.open ==> IsFile(xs + [x], if IdleKey(xs + [x], |xs|) then f.(open := false) else f.(to := |xs| + 1))
  {
    KeysExtend(xs, x, f.from);
    if !f.open {
      KeysExtend(xs, x, f.to);
    }
    forall j | f.from < j < |xs| ensures IdleKey(xs + [x], j) == IdleKey(xs, j) {
      KeysExtend(xs, x, j);
    }
  }

  lemma FilesStep(ys: seq<Input>, x: Input)
    ensures var fs, n, fs' := Files(ys), |ys|, Files(ys + [x]);
      if InFile(fs) then
        var last := fs[|fs| - 1];
        fs' == fs[|fs| - 1 := if IdleKey(ys + [x], n) then last.(open := false) else last.(to := n + 1)]
      else if ArmedKey(ys + [x], n) then fs' == fs + [File(n, n + 1, true)]
      else fs' == fs
  {
    assert (ys + [x])[..|ys|] == ys;
  }

  lemma {:induction false} EachIsFile(xs: seq<Input>)
    ensures forall k :: 0 <= k < |Files(xs)| ==> IsFile(xs, Files(xs)[k])
    ensures forall k :: 0 <= k < |Files(xs)| - 1 ==> !Files(xs)[k].open
    decreases |xs|
  {
    if xs != [] {
      SplitLast(xs);
      var ys, x := xs[..|xs| - 1], xs[|xs| - 1];
      EachIsFile(ys);
      FilesStep(ys, x);
      EachExtends(ys, x, Files(ys), Files(xs));
    }
  }

  lemma EachExtends(ys: seq<Input>, x: Input, fs: seq<File>, fs': seq<File>)
    requires forall k :: 0 <= k < |fs| ==> IsFile(ys, fs[k])
    requires forall k :: 0 <= k < |fs| - 1 ==> !fs[k].open
    requires InFile(fs) ==>
      var last := fs[|fs| - 1];
      fs' == fs[|fs| - 1 := if IdleKey(ys + [x], |ys|) then last.(open := false) else last.(to := |ys| + 1)]
    requires !InFile(fs) ==> fs' == if ArmedKey(ys + [x], |ys|) then fs + [File(|ys|, |ys| + 1, true)] else fs
    ensures forall k :: 0 <= k < |fs'| ==> IsFile(ys + [x], fs'[k])
    ensures forall k :: 0 <= k < |fs'| - 1 ==> !fs'[k].open
  {
    forall k | 0 <= k < |fs| ensures IsFile(ys + [x], fs'[k]) {
      FileExtends(ys, x, fs[k]);
    }
    if !InFile(fs) && ArmedKey(ys + [x], |ys|) {
      assert IsFile(ys + [x], fs'[|fs|]);
    }
  }

  lemma {:induction false} FilesOrdered(xs: seq<Input>)
    ensures forall k, l :: 0 <= k < l < |Files(xs)| ==> Files(xs)[k].to < Files(xs)[l].from
    decreases |xs|
  {
    if xs != [] {
      var ys := xs[..|xs| - 1];
      FilesOrdered(ys);
      EachIsFile(ys);
      forall k | 0 <= k < |Files(ys)| - 1 || (0 <= k < |Files(ys)| && !InFile(Files(ys)))
        ensures Files(ys)[k].to < |ys|
      {
        assert IsFile(ys, Files(ys)[k]);
      }
    }
  }

  lemma {:induction false} ArmedKeysCovered(xs: seq<Input>)
    ensures forall j :: ArmedKey(xs, j) ==> Covered(Files(xs), j)
    decreases |xs|
  {
    if xs != [] {
      var ys, x := xs[..|xs| - 1], xs[|xs| - 1];
      SplitLast(xs);
      ArmedKeysCovered(ys);
      FilesStep(ys, x);
      var fs, fs' := Files(ys), Files(xs);
      forall j | ArmedKey(xs, j) ensures Covered(fs', j) {
        if j < |ys| {
          KeysExtend(ys, x, j);
          assert Covered(fs, j);
          var k :| 0 <= k < |fs| && fs[k].from <= j < fs[k].to;
          assert fs'[k].from <= j < fs'[k].to;
        } else {
          assert fs'[|fs'| - 1].from <= j < fs'[|fs'| - 1].to;
        }
      }
    }
  }

  lemma FilesAreFiles(xs: seq<Input>)
    ensures AreFiles(xs, Files(xs))
  {
    EachIsFile(xs);
    FilesOrdered(xs);
    ArmedKeysCovered(xs);
  }

  /** The arrangement of the files, leaving aside where each ends. */
  ghost predicate Arranged(xs: seq<Input>, fs: seq<File>) {
    && (forall k :: 0 <= k < |fs| ==> fs[k].from < fs[k].to && ArmedKey(xs, fs[k].from))
    && (forall k, l :: 0 <= k < l < |fs| ==> fs[k].to < fs[l].from)
    && (forall j :: ArmedKey(xs, j) ==> Covered(fs, j))
  }

  lemma FilesArranged(xs: seq<Input>, fs: seq<File>)
    requires AreFiles(xs, fs)
    ensures Arranged(xs, fs)
  {
    forall k | 0 <= k < |fs| ensures fs[k].from < fs[k].to && ArmedKey(xs, fs[k].from) {
      assert IsFile(xs, fs[k]);
    }
  }

  lemma SameStart(xs: seq<Input>, es: seq<File>, fs: seq<File>, k: nat)
    requires Arranged(xs, es) && Arranged(xs, fs)
    requires k < |es| && k <= |fs| && forall i :: 0 <= i < k ==> es[i] == fs[i]
    ensures k < |fs| && fs[k].from <= es[k].from
  {
    var b := es[k].from;
    assert ArmedKey(xs, b) && Covered(fs, b);
    var m :| 0 <= m < |fs| && fs[m].from <= b < fs[m].to;
    FirstThatCovers(es, fs, k, m);
  }

  lemma FirstThatCovers(es: seq<File>, fs: seq<File>, k: nat, m: nat)
    requires k < |es| && k <= |fs| && m < |fs| && fs[m].from <= es[k].from < fs[m].to
    requires forall i :: 0 <= i < k ==> es[i] == fs[i] && es[i].to < es[k].from
    requires forall i :: 0 <= i < m ==> fs[i].from < fs[i].to < fs[m].from
    ensures k < |fs| && fs[k].from <= es[k].from
  {
  }

  lemma SameFile(xs: seq<Input>, e: File, f: File)
    requires IsFile(xs, e) && IsFile(xs, f) && e.from == f.from
    ensures e == f
  {
  }

  /** Both are lists of files of the stream, stated so that it is only looked into where one of them is named. */
  ghost predicate BothFiles(xs: seq<Input>, es: seq<File>, fs: seq<File>) {
    forall gs :: gs == es || gs == fs ==> AreFiles(xs, gs)
  }

  lemma SameNext(xs: seq<Input>, es: seq<File>, fs: seq<File>, k: nat)
    requires BothFiles(xs, es, fs)
    requires k < |es| && k <= |fs| && forall i :: 0 <= i < k ==> es[i] == fs[i]
    ensures k < |fs| && es[k] == fs[k]
  {
    assert AreFiles(xs, es) && AreFiles(xs, fs);
    FilesArranged(xs, es);
    FilesArranged(xs, fs);
    SameStart(xs, es, fs, k);
    SameStart(xs, fs, es, k);
    SameFile(xs, es[k], fs[k]);
  }

  lemma {:induction false} SamePrefix(xs: seq<Input>, es: seq<File>, fs: seq<File>, k: nat)
    requires BothFiles(xs, es, fs) && k <= |es|
    ensures k <= |fs| && forall i :: 0 <= i < k ==> es[i] == fs[i]
    decreases k
  {
    if k > 0 {
      SamePrefix(xs, es, fs, k - 1);
      SameNext(xs, es, fs, k - 1);
    }
  }

  lemma EachHasOther(xs: seq<Input>, es: seq<File>, fs: seq<File>)
    requires BothFiles(xs, es, fs)
    ensures es == fs
  {
    assert BothFiles(xs, fs, es);
    SamePrefix(xs, es, fs, |es|);
    SamePrefix(xs, fs, es, |fs|);
  }

  /** The description leaves no choice: a stream has exactly one list of files. */
  lemma FilesUnique(xs: seq<Input>, es: seq<File>, fs: seq<File>)
    requires AreFiles(xs, es) && AreFiles(xs, fs)
    ensures es == fs
  {
    EachHasOther(xs, es, fs);
  }

  // ---------- the machine follows the files ----------

  ghost predicate Follows(xs: seq<Input>, w: Writer) {
    && w.alarm == AlarmAt(xs, |xs|)
    && (w.open <==> InFile(Files(xs)))
    && (w.open ==>
      var f := Files(xs)[|Files(xs)| - 1];
      f.to == |xs| && w.videoFrameCount == |Packets(xs, f.from, |xs|)|)
  }

  lemma FollowsStep(ys: seq<Input>, x: Input, w: Writer)
    requires Follows(ys, w)
    ensures Follows(ys + [x], Step(w, x))
  {
    FilesStep(ys, x);
    AlarmExtends(ys, x, |ys|);
    var fs := Files(ys);
    if InFile(fs) {
      PacketsExtend(ys, x, fs[|fs| - 1].from, |ys|);
    } else {
      assert Packets(ys + [x], |ys|, |ys|) == [];
    }
  }

  lemma {:induction false} MachineFollows(xs: seq<Input>)
    ensures Follows(xs, Run(xs))
    decreases |xs|
  {
    if xs != [] {
      SplitLast(xs);
      MachineFollows(xs[..|xs| - 1]);
      FollowsStep(xs[..|xs| - 1], xs[|xs| - 1], Run(xs[..|xs| - 1]));
    }
  }

  lemma BlocksLast(xs: seq<Input>, fs: seq<File>, f: File)
    requires AllFit(xs, fs) && f.from < f.to <= |xs|
    ensures AllFit(xs, fs + [f])
    ensures Blocks(xs, fs + [f]) == Blocks(xs, fs) + Block(xs, f)
  {
    assert (fs + [f])[..|fs|] == fs;
  }

  /** What one frame makes the machine do, told by the files. */
  lemma EmitCases(ys: seq<Input>, x: Input)
    ensures var fs, n, emit := Files(ys), |ys|, Emit(Run(ys), x, |ys|);
      if InFile(fs) then
        var from := fs[|fs| - 1].from;
        from <= n &&
        if IdleKey(ys + [x], n) then emit == [CloseFile]
        else Packets(ys, from, n) + emit == Packets(ys + [x], from, n + 1)
      else if ArmedKey(ys + [x], n) then emit == [OpenFile] + Packets(ys + [x], n, n + 1)
      else emit == []
  {
    MachineFollows(ys);
    AlarmExtends(ys, x, |ys|);
    var fs := Files(ys);
    if InFile(fs) {
      PacketsExtend(ys, x, fs[|fs| - 1].from, |ys|);
    } else {
      assert Packets(ys + [x], |ys|, |ys|) == [];
    }
  }

  /** Replacing the open file by what it becomes adds whatever its block gains. */
  lemma BlocksOfLast(ys: seq<Input>, x: Input, init: seq<File>, last: File, f: File, gain: seq<Effect>)
    requires AllFit(ys, init) && last.from < last.to <= |ys| && f.from < f.to <= |ys| + 1
    requires Block(ys + [x], f) == Block(ys, last) + gain
    ensures AllFit(ys, init + [last]) && AllFit(ys + [x], init + [f])
    ensures Blocks(ys + [x], init + [f]) == Blocks(ys, init + [last]) + gain
  {
    BlocksExtend(ys, x, init);
    BlocksLast(ys, init, last);
    BlocksLast(ys + [x], init, f);
    Associative(Blocks(ys, init), Block(ys, last), gain);
  }

  /** What the open file's block gains from one more frame is what the machine emits. */
  lemma BlockGains(ys: seq<Input>, x: Input)
    requires InFile(Files(ys))
    ensures var last, n, emit := Files(ys)[|Files(ys)| - 1], |ys|, Emit(Run(ys), x, |ys|);
      && last.from < last.to == n
      && Block(ys + [x], if IdleKey(ys + [x], n) then last.(open := false) else last.(to := n + 1))
         == Block(ys, last) + emit
  {
    EmitCases(ys, x);
    MachineFollows(ys);
    PacketsExtend(ys, x, Files(ys)[|Files(ys)| - 1].from, |ys|);
  }

  lemma BlocksInFile(ys: seq<Input>, x: Input, fs: seq<File>, f: File, gain: seq<Effect>)
    requires fs != [] && AllFit(ys, fs) && f.from < f.to <= |ys| + 1
    requires Block(ys + [x], f) == Block(ys, fs[|fs| - 1]) + gain
    ensures AllFit(ys + [x], fs[|fs| - 1 := f])
    ensures Blocks(ys + [x], fs[|fs| - 1 := f]) == Blocks(ys, fs) + gain
  {
    SplitLast(fs);
    ReplaceLast(fs, f);
    BlocksOfLast(ys, x, fs[..|fs| - 1], fs[|fs| - 1], f, gain);
  }

  lemma BlocksOutside(ys: seq<Input>, x: Input, fs: seq<File>, f: File, gain: seq<Effect>)
    requires AllFit(ys, fs) && f.from < f.to <= |ys| + 1
    requires Block(ys + [x], f) == gain
    ensures AllFit(ys + [x], fs + [f])
    ensures Blocks(ys + [x], fs + [f]) == Blocks(ys, fs) + gain
  {
    BlocksExtend(ys, x, fs);
    BlocksLast(ys + [x], fs, f);
  }

  lemma GainInFile(ys: seq<Input>, x: Input, gain: seq<Effect>)
    requires InFile(Files(ys))
    requires var last := Files(ys)[|Files(ys)| - 1];
      Block(ys + [x], if IdleKey(ys + [x], |ys|) then last.(open := false) else last.(to := |ys| + 1))
      == Block(ys, last) + gain
    ensures AllFit(ys, Files(ys)) && AllFit(ys + [x], Files(ys + [x]))
    ensures Blocks(ys + [x], Files(ys + [x])) == Blocks(ys, Files(ys)) + gain
  {
    var last := Files(ys)[|Files(ys)| - 1];
    FilesStep(ys, x);
    var next := if IdleKey(ys + [x], |ys|) then last.(open := false) else last.(to := |ys| + 1);
    BlocksInFile(ys, x, Files(ys), next, gain);
  }

  lemma GainOpening(ys: seq<Input>, x: Input, gain: seq<Effect>)
    requires !InFile(Files(ys)) && ArmedKey(ys + [x], |ys|)
    requires gain == Block(ys + [x], File(|ys|, |ys| + 1, true))
    ensures AllFit(ys, Files(ys)) && AllFit(ys + [x], Files(ys + [x]))
    ensures Blocks(ys + [x], Files(ys + [x])) == Blocks(ys, Files(ys)) + gain
  {
    FilesStep(ys, x);
    BlocksOutside(ys, x, Files(ys), File(|ys|, |ys| + 1, true), gain);
  }

  lemma SameBlocks(ys: seq<Input>, x: Input, fs: seq<File>, gain: seq<Effect>)
    requires AllFit(ys, fs) && gain == []
    ensures AllFit(ys + [x], fs)
    ensures Blocks(ys + [x], fs) == Blocks(ys, fs) + gain
  {
    BlocksExtend(ys, x, fs);
    var b := Blocks(ys, fs);
    assert b + gain == b;
  }

  lemma NoGain(ys: seq<Input>, x: Input, gain: seq<Effect>)
    requires !InFile(Files(ys)) && !ArmedKey(ys + [x], |ys|) && gain == []
    ensures AllFit(ys, Files(ys)) && AllFit(ys + [x], Files(ys + [x]))
    ensures Blocks(ys + [x], Files(ys + [x])) == Blocks(ys, Files(ys)) + gain
  {
    FilesStep(ys, x);
    SameBlocks(ys, x, Files(ys), gain);
  }

  lemma OpeningEmits(ys: seq<Input>, x: Input)
    requires !InFile(Files(ys)) && ArmedKey(ys + [x], |ys|)
    ensures Emit(Run(ys), x, |ys|) == Block(ys + [x], File(|ys|, |ys| + 1, true))
  {
    EmitCases(ys, x);
  }

  lemma EmitAddsToBlocks(ys: seq<Input>, x: Input)
    ensures AllFit(ys, Files(ys)) && AllFit(ys + [x], Files(ys + [x]))
    ensures Blocks(ys + [x], Files(ys + [x])) == Blocks(ys, Files(ys)) + Emit(Run(ys), x, |ys|)
  {
    if InFile(Files(ys)) {
      BlockGains(ys, x);
      GainInFile(ys, x, Emit(Run(ys), x, |ys|));
    } else if ArmedKey(ys + [x], |ys|) {
      OpeningEmits(ys, x);
      GainOpening(ys, x, Emit(Run(ys), x, |ys|));
    } else {
      EmitCases(ys, x);
      NoGain(ys, x, Emit(Run(ys), x, |ys|));
    }
  }

  /**
   * In every run the file effects are one block per file: opened, then the packets of a contiguous run of the
   * data frames starting with a key frame, numbered from 0, then closed. Nothing opens or closes in between.
   */
  lemma {:induction false} LogIsBlocks(xs: seq<Input>)
    ensures AllFit(xs, Files(xs)) && Log(xs) == Blocks(xs, Files(xs))
    decreases |xs|
  {
    if xs != [] {
      SplitLast(xs);
      LogIsBlocks(xs[..|xs| - 1]);
      EmitAddsToBlocks(xs[..|xs| - 1], xs[|xs| - 1]);
    }
  }

  /** Key frame j is the last of the first n frames. */
  ghost predicate LatestKey(xs: seq<Input>, j: int, n: nat) {
    j < n && KeyAt(xs, j) && forall m :: j < m < n ==> !KeyAt(xs, m)
  }

  lemma {:induction false} AlarmFollows(xs: seq<Input>)
    ensures Run(xs).alarm == AlarmAt(xs, |xs|)
    decreases |xs|
  {
    if xs != [] {
      SplitLast(xs);
      AlarmFollows(xs[..|xs| - 1]);
      AlarmExtends(xs[..|xs| - 1], xs[|xs| - 1], |xs| - 1);
    }
  }

  /** The file is open exactly if the latest key frame found an alarm; so it changes at key frames only. */
  lemma {:induction false} OpenIffLatestKeyArmed(xs: seq<Input>)
    ensures Run(xs).open <==> exists j :: LatestKey(xs, j, |xs|) && ArmedKey(xs, j)
    decreases |xs|
  {
    if xs != [] {
      var n := |xs| - 1;
      var ys, x := xs[..n], xs[n];
      SplitLast(xs);
      OpenIffLatestKeyArmed(ys);
      AlarmFollows(ys);
      AlarmExtends(ys, x, n);
      if KeyAt(xs, n) {
        assert LatestKey(xs, n, |xs|);
        assert forall j :: LatestKey(xs, j, |xs|) ==> j == n;
      } else {
        forall j | j < n ensures KeyAt(xs, j) == KeyAt(ys, j) && ArmedKey(xs, j) == ArmedKey(ys, j) {
          KeysExtend(ys, x, j);
        }
        assert forall j :: LatestKey(xs, j, |xs|) <==> LatestKey(ys, j, n);
      }
    }
  }

  /** Frame j begins an event: it is alarmed and finds the state idle. */
  predicate BeginsEvent(xs: seq<Input>, j: int) {
    AlarmedAt(xs, j) && AlarmAt(xs, j).state == IDLE
  }

  lemma ImagesStep(ys: seq<Input>, x: Input)
    ensures Images(ys + [x])
      == Images(ys) + if BeginsEvent(ys + [x], |ys|) then [Image(Run(ys).eventCount + 1, x.id)] else []
    ensures forall j :: j < |ys| ==> BeginsEvent(ys + [x], j) == BeginsEvent(ys, j)
  {
    RunStep(ys, x);
    AlarmFollows(ys);
    forall j: nat | j <= |ys| ensures AlarmAt(ys + [x], j) == AlarmAt(ys, j) {
      AlarmExtends(ys, x, j);
    }
  }

  /** In every run there is one image per event, numbered from 1. */
  lemma {:induction false} ImagePerEvent(xs: seq<Input>)
    ensures |Images(xs)| == Run(xs).eventCount
    ensures forall k :: 0 <= k < |Images(xs)| ==> Images(xs)[k].event == k + 1
    decreases |xs|
  {
    if xs != [] {
      ImagePerEvent(xs[..|xs| - 1]);
    }
  }

  ghost predicate ImageOf(images: seq<Image>, id: nat) {
    exists k :: 0 <= k < |images| && images[k].id == id
  }

  ghost predicate Beginner(xs: seq<Input>, id: nat) {
    exists j :: BeginsEvent(xs, j) && xs[j].id == id
  }

  /** And the images are those of the frames that began the events. */
  lemma {:induction false} ImagesAreOfBeginners(xs: seq<Input>, id: nat)
    ensures ImageOf(Images(xs), id) <==> Beginner(xs, id)
    decreases |xs|
  {
    if xs != [] {
      var n := |xs| - 1;
      SplitLast(xs);
      ImagesAreOfBeginners(xs[..n], id);
      ImagesStep(xs[..n], xs[n]);
      BeginnerStep(xs, n, id);
      ImageOfMore(Images(xs[..n]), Images(xs), id);
    }
  }

  lemma BeginnerStep(xs: seq<Input>, n: nat, id: nat)
    requires n + 1 == |xs| && forall j :: j < n ==> BeginsEvent(xs, j) == BeginsEvent(xs[..n], j)
    ensures Beginner(xs, id) <==> Beginner(xs[..n], id) || (BeginsEvent(xs, n) && xs[n].id == id)
  {
    if Beginner(xs, id) {
      var j :| BeginsEvent(xs, j) && xs[j].id == id;
      assert j < n ==> BeginsEvent(xs[..n], j);
    }
    if Beginner(xs[..n], id) {
      var j :| BeginsEvent(xs[..n], j) && xs[..n][j].id == id;
      assert BeginsEvent(xs, j);
    }
  }

  lemma ImageOfMore(images: seq<Image>, more: seq<Image>, id: nat)
    requires |images| <= |more| <= |images| + 1 && images == more[..|images|]
    ensures ImageOf(more, id) <==> ImageOf(images, id) || (|more| > |images| && more[|images|].id == id)
  {
    if ImageOf(more, id) {
      var k :| 0 <= k < |more| && more[k].id == id;
      assert k < |images| ==> images[k].id == id;
    }
    if ImageOf(images, id) {
      var k :| 0 <= k < |images| && images[k].id == id;
      assert more[k].id == id;
    }
  }

  // ---------- the timestamps of the packets ----------

  const ULONG_RANGE: int := 0x1_0000_0000_0000_0000

  /** The frame rate of the video and the time base of the stream, both positive. */
  datatype Rate = Rate(num: nat, den: nat, timeNum: nat, timeDen: nat) {
    predicate Valid() {
      num >= 1 && den >= 1 && timeNum >= 1 && timeDen >= 1 && Divisor() < 0x8000_0000
    }

    function Unit(): int {
      num * timeDen
    }

    /** This product is taken in ints. */
    function Divisor(): int {
      den * timeNum
    }
  }

  /** Storing an unsigned long in a signed one. */
  function ToInt64(n: int): int {
    if n < ULONG_RANGE / 2 then n else n - ULONG_RANGE
  }

  function Pts(rate: Rate, count: nat): int
    requires rate.Divisor() >= 1
  {
    ToInt64(count * rate.Unit() % ULONG_RANGE / rate.Divisor())
  }

  /** Until the product wraps, a stamp is the time of frame n in whole units of the time base, rounded down. */
  lemma PtsMeans(rate: Rate, n: nat)
    requires rate.Valid() && n * rate.num * rate.timeDen < 0x8000_0000_0000_0000
    ensures Pts(rate, n) * (rate.den * rate.timeNum) <= n * rate.num * rate.timeDen
    ensures n * rate.num * rate.timeDen < (Pts(rate, n) + 1) * (rate.den * rate.timeNum)
  {
    UnitsPositive(rate);
    var x, d := n * rate.Unit(), rate.Divisor();
    assert x == n * rate.num * rate.timeDen;
    TimesMonotone(0, n, rate.Unit());
    SmallStamp(x, d);
    assert x == x / d * d + x % d;
    assert (x / d + 1) * d == x / d * d + d;
  }

  /** So when the time base is the frame rate, the frames are stamped 0, 1, 2, ... */
  lemma PtsOfSameRate(rate: Rate, n: nat)
    requires rate.Valid() && rate.timeNum == rate.num && rate.timeDen == rate.den
    requires n * rate.num * rate.den < 0x8000_0000_0000_0000
    ensures Pts(rate, n) == n
  {
    PtsMeans(rate, n);
    UnitsPositive(rate);
    assert n * rate.num * rate.timeDen == n * (rate.den * rate.timeNum);
    OnlyMultiple(Pts(rate, n), n, rate.den * rate.timeNum);
  }

  lemma OnlyMultiple(q: int, n: int, d: int)
    requires d >= 1 && q * d <= n * d < (q + 1) * d
    ensures q == n
  {
    assert (n + 1) * d == n * d + d;
    if q > n {
      TimesMonotone(n + 1, q, d);
    } else if q < n {
      TimesMonotone(q + 1, n, d);
    }
  }

  /** The timestamps of the packets in a log. */
  function Stamps(rate: Rate, log: seq<Effect>): seq<int>
    requires rate.Divisor() >= 1
  {
    if log == [] then []
    else
      var last := log[|log| - 1];
      Stamps(rate, log[..|log| - 1]) + if last.Packet? then [Pts(rate, last.count)] else []
  }

  lemma {:induction false} StampsConcat(rate: Rate, a: seq<Effect>, b: seq<Effect>)
    requires rate.Divisor() >= 1
    ensures Stamps(rate, a + b) == Stamps(rate, a) + Stamps(rate, b)
    decreases |b|
  {
    if b == [] {
      assert a + b == a;
    } else {
      assert (a + b)[..|a + b| - 1] == a + b[..|b| - 1];
      StampsConcat(rate, a, b[..|b| - 1]);
    }
  }

  lemma StampOne(rate: Rate, e: Effect)
    requires rate.Divisor() >= 1
    ensures Stamps(rate, [e]) == if e.Packet? then [Pts(rate, e.count)] else []
  {
    assert [e][..0] == [];
  }

  lemma {:induction false} PacketStamps(rate: Rate, xs: seq<Input>, i: nat, j: nat)
    requires rate.Divisor() >= 1 && i <= j <= |xs|
    ensures var stamps := Stamps(rate, Packets(xs, i, j));
      |stamps| == |Packets(xs, i, j)| && forall m :: 0 <= m < |stamps| ==> stamps[m] == Pts(rate, m)
    decreases j - i
  {
    if i < j {
      var before := Packets(xs, i, j - 1);
      PacketStamps(rate, xs, i, j - 1);
      if xs[j - 1].Data? {
        var last := Packet(j - 1, xs[j - 1].key, |before|);
        StampsConcat(rate, before, [last]);
        StampOne(rate, last);
      }
    }
  }

  /** In every file the packets are stamped for their place in it, counted from 0. */
  lemma FileStamps(rate: Rate, xs: seq<Input>, f: File)
    requires rate.Divisor() >= 1 && f.from < f.to <= |xs|
    ensures var stamps := Stamps(rate, Block(xs, f));
      |stamps| == |Packets(xs, f.from, f.to)| && forall m :: 0 <= m < |stamps| ==> stamps[m] == Pts(rate, m)
  {
    var packets := Packets(xs, f.from, f.to);
    var body := [OpenFile] + packets;
    PacketStamps(rate, xs, f.from, f.to);
    StampsConcat(rate, [OpenFile], packets);
    StampOne(rate, OpenFile);
    assert Stamps(rate, body) == Stamps(rate, packets);
    if f.open {
      NothingAdded(body);
    } else {
      StampsConcat(rate, body, [CloseFile]);
      StampOne(rate, CloseFile);
    }
  }

  /**
   * Until the product wraps, the stamps start at 0 and never go back; and no two are the same exactly if the unit
   * is not smaller than the divisor.
   */
  lemma StampsGrow(rate: Rate, a: nat, b: nat)
    requires rate.Valid() && a < b && b * rate.Unit() < ULONG_RANGE / 2
    ensures Pts(rate, 0) == 0 <= Pts(rate, a) <= Pts(rate, b)
    ensures rate.Unit() >= rate.Divisor() ==> Pts(rate, a) < Pts(rate, b)
    ensures rate.Unit() < rate.Divisor() ==> Pts(rate, 0) == Pts(rate, 1)
  {
    UnitsPositive(rate);
    StampIs(rate, 0, b);
    StampIs(rate, 1, b);
    StampIs(rate, a, b);
    StampIs(rate, b, b);
    InOrder(0, a, rate.Unit(), rate.Divisor());
    InOrder(a, b, rate.Unit(), rate.Divisor());
    FirstTwo(rate.Unit(), rate.Divisor());
  }

  lemma UnitsPositive(rate: Rate)
    requires rate.Valid()
    ensures rate.Unit() >= 1 && rate.Divisor() >= 1
  {
    TimesMonotone(1, rate.den, rate.timeNum);
    TimesMonotone(1, rate.num, rate.timeDen);
  }

  lemma FirstTwo(u: int, d: int)
    requires u >= 1 && d >= 1
    ensures 0 * u / d == 0
    ensures u < d ==> 1 * u / d == 0
  {
  }

  lemma InOrder(a: int, b: int, u: int, d: int)
    requires 0 <= a <= b && u >= 1 && d >= 1
    ensures a * u / d <= b * u / d
    ensures a < b && u >= d ==> a * u / d < b * u / d
  {
    if a < b {
      OneMoreUnit(a, b, u);
      QuotientsGrow(a * u, b * u, d);
    }
  }

  lemma OneMoreUnit(a: int, b: int, u: int)
    requires 0 <= a < b && u >= 1
    ensures 0 <= a * u && a * u + u <= b * u
  {
    TimesMonotone(0, a, u);
    TimesMonotone(a + 1, b, u);
    assert (a + 1) * u == a * u + u;
  }

  lemma StampIs(rate: Rate, n: nat, b: nat)
    requires rate.Unit() >= 1 && rate.Divisor() >= 1 && n <= b && b * rate.Unit() < ULONG_RANGE / 2
    ensures Pts(rate, n) == n * rate.Unit() / rate.Divisor()
  {
    TimesMonotone(0, n, rate.Unit());
    TimesMonotone(n, b, rate.Unit());
    SmallStamp(n * rate.Unit(), rate.Divisor());
  }

  lemma SmallStamp(x: int, d: int)
    requires 0 <= x < ULONG_RANGE / 2 && d >= 1
    ensures ToInt64(x % ULONG_RANGE / d) == x / d
  {
    QuotientAtMost(x, d);
  }

  lemma QuotientAtMost(x: int, d: int)
    requires x >= 0 && d >= 1
    ensures 0 <= x / d <= x
  {
    var q := x / d;
    assert x == q * d + x % d;
    if q >= 1 {
      TimesMonotone(1, d, q);
    } else if q <= -1 {
      TimesMonotone(q, -1, d);
    }
  }

  lemma QuotientsGrow(x: int, y: int, d: int)
    requires 0 <= x <= y && d >= 1
    ensures x / d <= y / d
    ensures y >= x + d ==> x / d < y / d
  {
    var p, q := x / d, y / d;
    assert x == p * d + x % d && y == q * d + y % d;
    Below(p, q, d, x, y);
    if y >= x + d {
      assert (p + 1) * d == p * d + d;
      Below(p + 1, q, d, x + d, y);
    }
  }

  lemma Below(p: int, q: int, d: int, x: int, y: int)
    requires d >= 1 && p * d <= x <= y < q * d + d
    ensures p <= q
  {
    if p > q {
      TimesMonotone(q + 1, p, d);
      assert false;
    }
  }

  // ---------- the run method ----------

  /** A frame off the queue: an alarm detection frame, or any other frame, read as H.264 data. */
  datatype Frame =
    | MotionFrame(id: nat, alarmed: bool, timestamp: nat, now: nat, again: nat)
    | OtherFrame(bytes: seq<byte>)

  ghost predicate HasIdr(nals: seq<Nal>) {
    exists k :: OfType(nals, NAL_IDR_SLICE, k)
  }

  /** A frame is a key frame if some NAL unit in it is an IDR slice. */
  ghost predicate KeyFrame(s: seq<byte>) {
    HasIdr(Units(s))
  }

  ghost function Classify(f: Frame): Input {
    match f
    case MotionFrame(id, alarmed, timestamp, now, again) => Motion(id, alarmed, timestamp, now, again)
    case OtherFrame(bytes) => Data(KeyFrame(bytes))
  }

  ghost function Inputs(frames: seq<Frame>): (xs: seq<Input>)
    ensures |xs| == |frames|
  {
    if frames == [] then [] else Inputs(frames[..|frames| - 1]) + [Classify(frames[|frames| - 1])]
  }

  lemma InputsStep(frames: seq<Frame>, i: nat)
    requires i < |frames|
    ensures Inputs(frames[..i + 1]) == Inputs(frames[..i]) + [Classify(frames[i])]
  {
    assert frames[..i + 1][..i] == frames[..i];
  }

  lemma HasIdrCons(nals: seq<Nal>)
    requires nals != []
    ensures HasIdr(nals) <==> NalType(nals[0].data) == NAL_IDR_SLICE || HasIdr(nals[1..])
  {
    if k :| OfType(nals, NAL_IDR_SLICE, k) {
      assert k == 0 || OfType(nals[1..], NAL_IDR_SLICE, k - 1);
    }
    if k :| OfType(nals[1..], NAL_IDR_SLICE, k) {
      assert OfType(nals, NAL_IDR_SLICE, k + 1);
    }
    if NalType(nals[0].data) == NAL_IDR_SLICE {
      assert OfType(nals, NAL_IDR_SLICE, 0);
    }
  }

  lemma KeyStep(s: seq<byte>, p: nat, b: nat, n: nat)
    requires CodeBefore(s, p) && b == AfterCode(s, p) && n == NextCode(s, b)
    ensures n == |s| || CodeBefore(s, n)
    ensures HasIdr(Walk(s, p)) <==> s[b] & 0x1F == NAL_IDR_SLICE || HasIdr(Walk(s, n))
  {
    NextCodeIsCode(s, b);
    assert Walk(s, p)[0].data == s[b..n] && Walk(s, p)[1..] == Walk(s, n);
    assert NalType(s[b..n]) == s[b] & 0x1F;
    HasIdrCons(Walk(s, p));
  }

  method HasKeyFrame(s: seq<byte>, align: nat, bigEndian: bool) returns (keyFrame: bool)
    requires align < 4
    ensures keyFrame == KeyFrame(s)
  {
    keyFrame := false;
    NextCodeIsCode(s, 0);
    var startPos := H264StartCode(s, 0, align, bigEndian);
    while startPos < |s|
      invariant startPos == |s| || CodeBefore(s, startPos)
      invariant KeyFrame(s) <==> keyFrame || HasIdr(Walk(s, startPos))
      decreases |s| - startPos
    {
      ghost var codePos := startPos;
      startPos := SkipCode(s, startPos);
      var nextStartPos := H264StartCode(s, startPos, align, bigEndian);
      KeyStep(s, codePos, startPos, nextStartPos);
      var kind := s[startPos] & 0x1F;
      if kind == NAL_IDR_SLICE {
        keyFrame := true;
      }
      startPos := nextStartPos;
    }
  }

  /** The alarm branch of the loop. */
  method HandleMotion(f: Frame, state: AlarmState, time: nat, events: nat)
    returns (alarmState: AlarmState, alarmTime: nat, eventCount: nat, images: seq<Image>)
    requires f.MotionFrame?
    ensures Alarm(alarmState, alarmTime) == AlarmStep(Alarm(state, time), Classify(f))
    ensures eventCount == if f.alarmed && state == IDLE then events + 1 else events
    ensures images == if eventCount > events then [Image(eventCount, f.id)] else []
  {
    alarmState, alarmTime, eventCount, images := state, time, events, [];
    var lastAlarmState := state;
    if f.alarmed {
      alarmState := ALARM;
      alarmTime := f.now;
      if lastAlarmState == IDLE {
        eventCount := eventCount + 1;
        images := images + [Image(eventCount, f.id)];
      }
    } else if lastAlarmState == ALARM {
      alarmState := ALERT;
    } else if lastAlarmState == ALERT {
      var check := if alarmTime == 0 then f.again else alarmTime;
      if 0 - (check - f.timestamp) > MAX_EVENT_TAIL_AGE * SECOND {
        alarmState := IDLE;
      }
    } else {
      alarmState := IDLE;
    }
  }

  /** The data branch of the loop, once the frame has been scanned. */
  method HandleData(keyFrame: bool, state: AlarmState, open: bool, count: nat, index: nat, rate: Rate)
    returns (effects: seq<Effect>, outputContext: bool, videoFrameCount: nat, stamps: seq<int>)
    requires rate.Divisor() >= 1
    ensures forall time, events :: var w := Writer(Alarm(state, time), open, count, events);
      && effects == Emit(w, Data(keyFrame), index)
      && Step(w, Data(keyFrame)) == Writer(Alarm(state, time), outputContext, videoFrameCount, events)
    ensures stamps == Stamps(rate, effects)
  {
    effects, outputContext, videoFrameCount, stamps := [], open, count, [];
    if keyFrame {
      if state != IDLE && !outputContext {
        effects := effects + [OpenFile];
        outputContext := true;
        videoFrameCount := 0;
      } else if state == IDLE && outputContext {
        effects := effects + [CloseFile];
        outputContext := false;
      }
    }
    assert Stamps(rate, effects) == [] by {
      StampOne(rate, OpenFile);
      StampOne(rate, CloseFile);
    }
    if outputContext {
      var pts := videoFrameCount * (rate.num * rate.timeDen) % ULONG_RANGE / (rate.den * rate.timeNum);
      var packet := Packet(index, keyFrame, videoFrameCount);
      StampsConcat(rate, effects, [packet]);
      StampOne(rate, packet);
      effects := effects + [packet];
      stamps := [ToInt64(pts)];
    }
    videoFrameCount := videoFrameCount + 1;
  }

  /** One turn of the loop; the writer's value holds the locals of the run. */
  method HandleFrame(w: Writer, f: Frame, index: nat, rate: Rate, align: nat, bigEndian: bool)
    returns (next: Writer, effects: seq<Effect>, stamps: seq<int>, images: seq<Image>)
    requires align < 4 && rate.Divisor() >= 1
    ensures next == Step(w, Classify(f))
    ensures effects == Emit(w, Classify(f), index) && stamps == Stamps(rate, effects)
    ensures images == Snapshot(w, Classify(f))
  {
    next, effects, stamps, images := w, [], [], [];
    if f.MotionFrame? {
      var alarmState, alarmTime, eventCount, snapshot := HandleMotion(f, w.alarm.state, w.alarm.time, w.eventCount);
      next := w.(alarm := Alarm(alarmState, alarmTime), eventCount := eventCount);
      images := snapshot;
    } else {
      var keyFrame := HasKeyFrame(f.bytes, align, bigEndian);
      var written, outputContext, videoFrameCount, stamped :=
        HandleData(keyFrame, w.alarm.state, w.open, w.videoFrameCount, index, rate);
      next := w.(open := outputContext, videoFrameCount := videoFrameCount);
      effects, stamps := written, stamped;
      assert w == Writer(Alarm(w.alarm.state, w.alarm.time), w.open, w.videoFrameCount, w.eventCount);
    }
  }

  /** The whole run over the frames that arrive until it is stopped; the open file is closed at the end. */
  method RunOver(frames: seq<Frame>, rate: Rate, align: nat, bigEndian: bool)
    returns (log: seq<Effect>, stamps: seq<int>, images: seq<Image>)
    requires align < 4 && rate.Divisor() >= 1
    ensures var xs := Inputs(frames);
      log == (Log(xs) + if Run(xs).open then [CloseFile] else []) && images == Images(xs)
    ensures stamps == Stamps(rate, log)
  {
    log, stamps, images := [], [], [];
    var w := INITIAL;
    var i := 0;
    while i < |frames|
      invariant 0 <= i <= |frames|
      invariant w == Run(Inputs(frames[..i]))
      invariant log == Log(Inputs(frames[..i])) && images == Images(Inputs(frames[..i]))
      invariant stamps == Stamps(rate, log)
    {
      InputsStep(frames, i);
      RunStep(Inputs(frames[..i]), Classify(frames[i]));
      var next, effects, stamped, snapshot := HandleFrame(w, frames[i], i, rate, align, bigEndian);
      StampsConcat(rate, log, effects);
      w, log, stamps, images := next, log + effects, stamps + stamped, images + snapshot;
      i := i + 1;
    }
    assert frames[..i] == frames;
    if w.open {
      StampsConcat(rate, log, [CloseFile]);
      StampOne(rate, CloseFile);
      log := log + [CloseFile];
    }
  }

  lemma RunStep(ys: seq<Input>, x: Input)
    ensures Run(ys + [x]) == Step(Run(ys), x)
    ensures Log(ys + [x]) == Log(ys) + Emit(Run(ys), x, |ys|)
    ensures Images(ys + [x]) == Images(ys) + Snapshot(Run(ys), x)
  {
    assert (ys + [x])[..|ys|] == ys;
  }
}
