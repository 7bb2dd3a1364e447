/** What the recorders do to the outside world, in order, and why that is one tidy block of effects per event. */
module AlarmLog {
  import opened Alarms
  import opened Sequences
  import opened AlarmTrack

  /** The effects of a recorder. Save encodes a frame into the video file, or writes an image, marked if alarmed. */
  datatype Effect =
    | Begin(event: nat, id: nat)
    | InitEncoder
    | OpenFile(event: nat)
    | Save(event: nat, frame: Frame, marked: bool)
    | CloseFile
    | DeinitEncoder
    | Complete(event: nat, id: nat, length: real)

  /** The video recorder writes one file per event, the event recorder one still image per frame. */
  datatype Style = Film | Stills

  function Opening(style: Style, event: nat, id: nat): seq<Effect> {
    [Begin(event, id)] + (if style == Film then [InitEncoder, OpenFile(event)] else [])
  }

  function Closing(style: Style, event: nat, id: nat, length: real): seq<Effect> {
    (if style == Film then [CloseFile, DeinitEncoder] else []) + [Complete(event, id, length)]
  }

  function Saves(style: Style, event: nat, frames: seq<Frame>, live: bool): seq<Effect> {
    if frames == [] then []
    else
      var m := |frames| - 1;
      Saves(style, event, frames[..m], live) + [Save(event, frames[m], style == Stills && live && frames[m].alarmed)]
  }

  lemma SavesOne(style: Style, event: nat, frame: Frame, live: bool)
    ensures Saves(style, event, [frame], live) == [Save(event, frame, style == Stills && live && frame.alarmed)]
  {
  }

  /** One save per frame, in order; a still is marked when it shows an alarm while the event is on. */
  lemma {:induction false} SavesAre(style: Style, event: nat, frames: seq<Frame>, live: bool)
    ensures |Saves(style, event, frames, live)| == |frames|
    ensures forall i :: 0 <= i < |frames| ==>
      Saves(style, event, frames, live)[i] == Save(event, frames[i], style == Stills && live && frames[i].alarmed)
    decreases |frames|
  {
    if frames != [] {
      SavesAre(style, event, frames[..|frames| - 1], live);
    }
  }

  // ---------- the log of the machine ----------

  function Emit(style: Style, p: Profile, t: Track, x: Input): seq<Effect> {
    var u := StepAlarm(p, t, x);
    if t.state == IDLE && u.state != IDLE then
      Opening(style, u.eventCount, x.frame.id) + Saves(style, u.eventCount, t.store, false)
      + Saves(style, u.eventCount, [x.frame], true)
    else if t.state != IDLE && u.state == IDLE then
      Closing(style, u.eventCount, x.frame.id, Seconds(u.alarmTime, u.lastAlarmTime))
    else if u.state != IDLE then Saves(style, u.eventCount, [x.frame], true)
    else []
  }

  function Log(style: Style, p: Profile, xs: seq<Input>): seq<Effect> {
    if xs == [] then []
    else Log(style, p, xs[..|xs| - 1]) + Emit(style, p, Run(p, xs[..|xs| - 1]), xs[|xs| - 1])
  }

  // ---------- the log of the events ----------

  predicate Fits(xs: seq<Input>, e: Event) {
    e.lo <= e.begin < e.hi <= |xs| && (!e.open ==> e.hi < |xs|)
  }

  ghost predicate AllFit(xs: seq<Input>, es: seq<Event>) {
    forall k :: 0 <= k < |es| ==> Fits(xs, es[k])
  }

  /** All that happens for one event: it is opened, its slice of the stream is saved, and it is closed. */
  function Block(style: Style, xs: seq<Input>, event: nat, e: Event): seq<Effect>
    requires Fits(xs, e)
  {
    Opening(style, event, xs[e.begin].frame.id)
    + Saves(style, event, Frames(xs)[e.lo..e.begin], false)
    + Saves(style, event, Frames(xs)[e.begin..e.hi], true)
    + if e.open then [] else Closing(style, event, xs[e.hi].frame.id, Length(xs, e.begin, e.hi))
  }

  /** Block after block, events numbered from 1. */
  ghost function Blocks(style: Style, xs: seq<Input>, es: seq<Event>): seq<Effect>
    requires AllFit(xs, es)
  {
    if es == [] then []
    else
      var m := |es| - 1;
      Blocks(style, xs, es[..m]) + Block(style, xs, m + 1, es[m])
  }

  lemma EventsFit(p: Profile, xs: seq<Input>)
    ensures AllFit(xs, Events(p, xs))
  {
    EachIsEvent(p, xs);
  }

  lemma FramesExtend(xs: seq<Input>, x: Input, i: nat, j: nat)
    requires i <= j <= |xs|
    ensures Frames(xs + [x])[i..j] == Frames(xs)[i..j]
  {
  }

  lemma BlockExtends(style: Style, xs: seq<Input>, x: Input, event: nat, e: Event)
    requires Fits(xs, e)
    ensures Block(style, xs + [x], event, e) == Block(style, xs, event, e)
  {
    FramesExtend(xs, x, e.lo, e.begin);
    FramesExtend(xs, x, e.begin, e.hi);
    LastAlarmExtends(xs, x, e.begin, e.hi);
  }

  lemma {:induction false} BlocksExtend(style: Style, xs: seq<Input>, x: Input, es: seq<Event>)
    requires AllFit(xs, es)
    ensures AllFit(xs + [x], es)
    ensures Blocks(style, xs + [x], es) == Blocks(style, xs, es)
    decreases |es|
  {
    if es != [] {
      var m := |es| - 1;
      BlocksExtend(style, xs, x, es[..m]);
      BlockExtends(style, xs, x, m + 1, es[m]);
    }
  }

  lemma BlocksLast(style: Style, xs: seq<Input>, es: seq<Event>, e: Event)
    requires AllFit(xs, es)
    requires Fits(xs, e)
    ensures Blocks(style, xs, es + [e]) == Blocks(style, xs, es) + Block(style, xs, |es| + 1, e)
  {
    assert (es + [e])[..|es|] == es;
  }

  /** One more frame in the open event is one more save. */
  lemma BlockGrows(style: Style, xs: seq<Input>, x: Input, event: nat, e: Event)
    requires Fits(xs, e) && e.open && e.hi == |xs|
    ensures Block(style, xs + [x], event, e.(hi := |xs| + 1))
      == Block(style, xs, event, e) + Saves(style, event, [x.frame], true)
  {
    FramesExtend(xs, x, e.lo, e.begin);
    var fs := Frames(xs + [x])[e.begin..|xs| + 1];
    FramesExtend(xs, x, e.begin, |xs|);
    assert fs[..|fs| - 1] == Frames(xs)[e.begin..e.hi];
    assert fs[|fs| - 1] == x.frame;
    SavesOne(style, event, x.frame, true);
  }

  lemma BlockCloses(style: Style, xs: seq<Input>, x: Input, event: nat, e: Event)
    requires Fits(xs, e) && e.open && e.hi == |xs|
    ensures Block(style, xs + [x], event, e.(open := false))
      == Block(style, xs, event, e) + Closing(style, event, x.frame.id, Length(xs, e.begin, |xs|))
  {
    FramesExtend(xs, x, e.lo, e.begin);
    FramesExtend(xs, x, e.begin, e.hi);
    LastAlarmExtends(xs, x, e.begin, |xs|);
  }

  lemma StoreIsSlice(p: Profile, ys: seq<Input>, x: Input)
    ensures Run(p, ys).store == Frames(ys + [x])[StoreStart(p, ys + [x], |ys|)..|ys|]
  {
    StoreIsSuffix(p, ys);
    StoreStartExtends(p, ys, x, |ys|);
    var i := StoreStart(p, ys, |ys|);
    FramesExtend(ys, x, i, |ys|);
    assert Frames(ys)[i..|ys|] == Frames(ys)[i..];
  }

  lemma BlockOpens(style: Style, xs: seq<Input>, event: nat, lo: nat)
    requires xs != [] && lo < |xs|
    ensures var n := |xs| - 1;
      Block(style, xs, event, Event(lo, n, n + 1, true))
      == Opening(style, event, xs[n].frame.id) + Saves(style, event, Frames(xs)[lo..n], false)
         + Saves(style, event, [xs[n].frame], true)
  {
    var n := |xs| - 1;
    assert Frames(xs)[n..n + 1] == [xs[n].frame];
  }

  /** Replacing the open event by what it becomes adds whatever its block gains. */
  lemma BlocksOfLast(style: Style, ys: seq<Input>, x: Input, init: seq<Event>, last: Event, e: Event, gain: seq<Effect>)
    requires AllFit(ys, init) && Fits(ys, last) && Fits(ys + [x], e)
    requires Block(style, ys + [x], |init| + 1, e) == Block(style, ys, |init| + 1, last) + gain
    ensures AllFit(ys, init + [last]) && AllFit(ys + [x], init + [e])
    ensures Blocks(style, ys + [x], init + [e]) == Blocks(style, ys, init + [last]) + gain
  {
    BlocksExtend(style, ys, x, init);
    BlocksLast(style, ys + [x], init, e);
    BlocksLast(style, ys, init, last);
    Associative(Blocks(style, ys, init), Block(style, ys, |init| + 1, last), gain);
  }

  /** One step: whatever the machine emits is what the step adds to the blocks. */
  lemma EmitAddsToBlocks(style: Style, p: Profile, ys: seq<Input>, x: Input)
    ensures AllFit(ys, Events(p, ys))
    ensures AllFit(ys + [x], Events(p, ys + [x]))
    ensures Blocks(style, ys + [x], Events(p, ys + [x]))
      == Blocks(style, ys, Events(p, ys)) + Emit(style, p, Run(p, ys), x)
  {
    EventsFit(p, ys);
    EventsFit(p, ys + [x]);
    if InEvent(Events(p, ys)) {
      EmitInEvent(style, p, ys, x);
    } else {
      EmitOutside(style, p, ys, x);
    }
  }

  /** What one frame makes the machine emit, told by the events. */
  lemma EmitCases(style: Style, p: Profile, ys: seq<Input>, x: Input)
    ensures var es, emit := Events(p, ys), Emit(style, p, Run(p, ys), x);
      if InEvent(es) then
        var begin := es[|es| - 1].begin;
        if Closes(p, ys + [x], begin, |ys|) then emit == Closing(style, |es|, x.frame.id, Length(ys, begin, |ys|))
        else emit == Saves(style, |es|, [x.frame], true)
      else if x.frame.alarmed then
        emit == Opening(style, |es| + 1, x.frame.id) + Saves(style, |es| + 1, Run(p, ys).store, false)
                + Saves(style, |es| + 1, [x.frame], true)
      else emit == []
  {
    var es := Events(p, ys);
    MachineFollows(p, ys);
    if InEvent(es) {
      LastAlarmExtends(ys, x, es[|es| - 1].begin, |ys|);
    }
  }

  lemma EmitInEvent(style: Style, p: Profile, ys: seq<Input>, x: Input)
    requires AllFit(ys, Events(p, ys)) && InEvent(Events(p, ys))
    ensures AllFit(ys + [x], Events(p, ys + [x]))
    ensures Blocks(style, ys + [x], Events(p, ys + [x]))
      == Blocks(style, ys, Events(p, ys)) + Emit(style, p, Run(p, ys), x)
  {
    var es, emit := Events(p, ys), Emit(style, p, Run(p, ys), x);
    var last := es[|es| - 1];
    EmitCases(style, p, ys, x);
    EventsStep(p, ys, x);
    EachIsEvent(p, ys);
    assert IsEvent(p, ys, last);
    var init := es[..|es| - 1];
    assert es == init + [last];
    assert AllFit(ys, init) && Fits(ys, last);
    if Closes(p, ys + [x], last.begin, |ys|) {
      BlockCloses(style, ys, x, |es|, last);
      ReplaceLast(es, last.(open := false));
      BlocksOfLast(style, ys, x, init, last, last.(open := false), emit);
    } else {
      BlockGrows(style, ys, x, |es|, last);
      ReplaceLast(es, last.(hi := |ys| + 1));
      BlocksOfLast(style, ys, x, init, last, last.(hi := |ys| + 1), emit);
    }
  }

  lemma EmitOutside(style: Style, p: Profile, ys: seq<Input>, x: Input)
    requires AllFit(ys, Events(p, ys)) && !InEvent(Events(p, ys))
    ensures AllFit(ys + [x], Events(p, ys + [x]))
    ensures Blocks(style, ys + [x], Events(p, ys + [x]))
      == Blocks(style, ys, Events(p, ys)) + Emit(style, p, Run(p, ys), x)
  {
    var es := Events(p, ys);
    EmitCases(style, p, ys, x);
    EventsStep(p, ys, x);
    EventsFit(p, ys + [x]);
    BlocksExtend(style, ys, x, es);
    if x.frame.alarmed {
      OpensBlock(style, p, ys, x, es);
    }
  }

  lemma OpensBlock(style: Style, p: Profile, ys: seq<Input>, x: Input, es: seq<Event>)
    requires AllFit(ys + [x], es)
    ensures var e, k := Event(StoreStart(p, ys + [x], |ys|), |ys|, |ys| + 1, true), |es| + 1;
      && AllFit(ys + [x], es + [e])
      && Blocks(style, ys + [x], es + [e]) == Blocks(style, ys + [x], es)
         + (Opening(style, k, x.frame.id) + Saves(style, k, Run(p, ys).store, false) + Saves(style, k, [x.frame], true))
  {
    var lo := StoreStart(p, ys + [x], |ys|);
    StoreIsSlice(p, ys, x);
    BlockOpens(style, ys + [x], |es| + 1, lo);
    BlocksLast(style, ys + [x], es, Event(lo, |ys|, |ys| + 1, true));
  }

  lemma LogStep(style: Style, p: Profile, ys: seq<Input>, x: Input)
    ensures Log(style, p, ys + [x]) == Log(style, p, ys) + Emit(style, p, Run(p, ys), x)
  {
    assert (ys + [x])[..|ys|] == ys;
  }

  lemma LogIsBlocksStep(style: Style, p: Profile, ys: seq<Input>, x: Input)
    requires AllFit(ys, Events(p, ys)) && Log(style, p, ys) == Blocks(style, ys, Events(p, ys))
    ensures AllFit(ys + [x], Events(p, ys + [x]))
    ensures Log(style, p, ys + [x]) == Blocks(style, ys + [x], Events(p, ys + [x]))
  {
    LogStep(style, p, ys, x);
    EmitAddsToBlocks(style, p, ys, x);
  }

  /**
   * In every run the log is one block per event of the stream, in order: notifications alternate BEGIN k,
   * COMPLETE k, files open and close in pairs, and what event k saves is one contiguous slice of the stream,
   * from the oldest frame stored at its beginning to the frame just before the one that closes it.
   */
  lemma {:induction false} LogIsBlocks(style: Style, p: Profile, xs: seq<Input>)
    ensures AllFit(xs, Events(p, xs))
    ensures Log(style, p, xs) == Blocks(style, xs, Events(p, xs))
    decreases |xs|
  {
    EventsFit(p, xs);
    if xs != [] {
      var ys, x := xs[..|xs| - 1], xs[|xs| - 1];
      SplitLast(xs);
      LogIsBlocks(style, p, ys);
      LogIsBlocksStep(style, p, ys, x);
    }
  }

  // ---------- the log, effect by effect ----------

  /** The effects that open an event, and those that close it. */
  function Around(style: Style): nat {
    if style == Film then 3 else 1
  }

  /** What comes before the saves of an event. */
  lemma BlockBegins(style: Style, xs: seq<Input>, event: nat, e: Event)
    requires Fits(xs, e)
    ensures var b := Block(style, xs, event, e);
      && |b| == Around(style) + (e.hi - e.lo) + (if e.open then 0 else Around(style))
      && b[0] == Begin(event, xs[e.begin].frame.id)
      && (style == Film ==> b[1] == InitEncoder && b[2] == OpenFile(event))
  {
    var a, b, c := BlockParts(style, xs, event, e);
    AtFirst(a, b, c, Ending(style, xs, event, e), 0);
    if style == Film {
      AtFirst(a, b, c, Ending(style, xs, event, e), 1);
      AtFirst(a, b, c, Ending(style, xs, event, e), 2);
    }
  }

  /** What comes after them. */
  lemma BlockCompletes(style: Style, xs: seq<Input>, event: nat, e: Event)
    requires Fits(xs, e) && !e.open
    ensures var b, n := Block(style, xs, event, e), Around(style) + (e.hi - e.lo);
      && |b| == n + Around(style)
      && b[|b| - 1] == Complete(event, xs[e.hi].frame.id, Length(xs, e.begin, e.hi))
      && (style == Film ==> b[n] == CloseFile && b[n + 1] == DeinitEncoder)
  {
    var a, b, c := BlockParts(style, xs, event, e);
    var d := Ending(style, xs, event, e);
    AtFourth(a, b, c, d, |d| - 1);
    if style == Film {
      AtFourth(a, b, c, d, 0);
      AtFourth(a, b, c, d, 1);
    }
  }

  lemma BlockParts(style: Style, xs: seq<Input>, event: nat, e: Event)
      returns (a: seq<Effect>, b: seq<Effect>, c: seq<Effect>)
    requires Fits(xs, e)
    ensures Block(style, xs, event, e) == a + b + c + Ending(style, xs, event, e)
    ensures a == Opening(style, event, xs[e.begin].frame.id) && |a| == Around(style)
    ensures |b| == e.begin - e.lo && |c| == e.hi - e.begin
  {
    a := Opening(style, event, xs[e.begin].frame.id);
    b := Saves(style, event, Frames(xs)[e.lo..e.begin], false);
    c := Saves(style, event, Frames(xs)[e.begin..e.hi], true);
    SavesAre(style, event, Frames(xs)[e.lo..e.begin], false);
    SavesAre(style, event, Frames(xs)[e.begin..e.hi], true);
  }

  function Ending(style: Style, xs: seq<Input>, event: nat, e: Event): seq<Effect>
    requires Fits(xs, e)
  {
    if e.open then [] else Closing(style, event, xs[e.hi].frame.id, Length(xs, e.begin, e.hi))
  }

  lemma AtFirst<T>(a: seq<T>, b: seq<T>, c: seq<T>, d: seq<T>, i: nat)
    requires i < |a|
    ensures |a + b + c + d| == |a| + |b| + |c| + |d| && (a + b + c + d)[i] == a[i]
  {
  }

  lemma AtFourth<T>(a: seq<T>, b: seq<T>, c: seq<T>, d: seq<T>, i: nat)
    requires i < |d|
    ensures |a + b + c + d| == |a| + |b| + |c| + |d| && (a + b + c + d)[|a| + |b| + |c| + i] == d[i]
  {
  }

  /** The saves of an event are its slice of the stream, frame by frame. */
  lemma BlockSaves(style: Style, xs: seq<Input>, event: nat, e: Event, j: nat)
    requires Fits(xs, e) && e.lo <= j < e.hi
    ensures Around(style) + (j - e.lo) < |Block(style, xs, event, e)|
    ensures Block(style, xs, event, e)[Around(style) + (j - e.lo)]
      == Save(event, xs[j].frame, style == Stills && j >= e.begin && xs[j].frame.alarmed)
  {
    if j < e.begin {
      StoredSaves(style, xs, event, e, j);
    } else {
      LiveSaves(style, xs, event, e, j);
    }
  }

  lemma SaveAt(style: Style, event: nat, frames: seq<Frame>, live: bool, i: nat)
    requires i < |frames|
    ensures |Saves(style, event, frames, live)| == |frames|
    ensures Saves(style, event, frames, live)[i] == Save(event, frames[i], style == Stills && live && frames[i].alarmed)
  {
    SavesAre(style, event, frames, live);
  }

  lemma StoredSaves(style: Style, xs: seq<Input>, event: nat, e: Event, j: nat)
    requires Fits(xs, e) && e.lo <= j < e.begin
    ensures Around(style) + (j - e.lo) < |Block(style, xs, event, e)|
    ensures Block(style, xs, event, e)[Around(style) + (j - e.lo)] == Save(event, xs[j].frame, false)
  {
    var stored := Frames(xs)[e.lo..e.begin];
    SaveAt(style, event, stored, false, j - e.lo);
    AtSecond(Opening(style, event, xs[e.begin].frame.id), Saves(style, event, stored, false),
             Saves(style, event, Frames(xs)[e.begin..e.hi], true), Ending(style, xs, event, e), j - e.lo);
  }

  lemma LiveSaves(style: Style, xs: seq<Input>, event: nat, e: Event, j: nat)
    requires Fits(xs, e) && e.begin <= j < e.hi
    ensures Around(style) + (j - e.lo) < |Block(style, xs, event, e)|
    ensures Block(style, xs, event, e)[Around(style) + (j - e.lo)]
      == Save(event, xs[j].frame, style == Stills && xs[j].frame.alarmed)
  {
    var stored, live := Frames(xs)[e.lo..e.begin], Frames(xs)[e.begin..e.hi];
    SavesAre(style, event, stored, false);
    SaveAt(style, event, live, true, j - e.begin);
    AtThird(Opening(style, event, xs[e.begin].frame.id), Saves(style, event, stored, false),
            Saves(style, event, live, true), Ending(style, xs, event, e), j - e.begin);
  }

  lemma AtSecond<T>(a: seq<T>, b: seq<T>, c: seq<T>, d: seq<T>, i: nat)
    requires i < |b|
    ensures |a| + i < |a + b + c + d| && (a + b + c + d)[|a| + i] == b[i]
  {
  }

  lemma AtThird<T>(a: seq<T>, b: seq<T>, c: seq<T>, d: seq<T>, i: nat)
    requires i < |c|
    ensures |a| + |b| + i < |a + b + c + d| && (a + b + c + d)[|a| + |b| + i] == c[i]
  {
  }

  /** The frames that a log saves for event k, in order. */
  function Saved(log: seq<Effect>, k: nat): seq<Frame> {
    if log == [] then []
    else
      var last := log[|log| - 1];
      Saved(log[..|log| - 1], k) + if last.Save? && last.event == k then [last.frame] else []
  }

  lemma {:induction false} SavedConcat(a: seq<Effect>, b: seq<Effect>, k: nat)
    ensures Saved(a + b, k) == Saved(a, k) + Saved(b, k)
    decreases |b|
  {
    if b == [] {
      assert a + b == a;
    } else {
      assert (a + b)[..|a + b| - 1] == a + b[..|b| - 1];
      SavedConcat(a, b[..|b| - 1], k);
    }
  }

  lemma {:induction false} NoneSaved(log: seq<Effect>, k: nat)
    requires forall i :: 0 <= i < |log| ==> !log[i].Save?
    ensures Saved(log, k) == []
    decreases |log|
  {
    if log != [] {
      NoneSaved(log[..|log| - 1], k);
    }
  }

  lemma {:induction false} SavedOfSaves(style: Style, event: nat, frames: seq<Frame>, live: bool, k: nat)
    ensures Saved(Saves(style, event, frames, live), k) == if event == k then frames else []
    decreases |frames|
  {
    if frames != [] {
      var m := |frames| - 1;
      var last := Save(event, frames[m], style == Stills && live && frames[m].alarmed);
      SavedOfSaves(style, event, frames[..m], live, k);
      SavedConcat(Saves(style, event, frames[..m], live), [last], k);
      SavedOne(last, k);
      SplitLast(frames);
    }
  }

  lemma SavedOne(e: Effect, k: nat)
    ensures Saved([e], k) == if e.Save? && e.event == k then [e.frame] else []
  {
    assert [e][..0] == [];
  }

  lemma SavedFour(a: seq<Effect>, b: seq<Effect>, c: seq<Effect>, d: seq<Effect>, k: nat)
    ensures Saved(a + b + c + d, k) == Saved(a, k) + Saved(b, k) + Saved(c, k) + Saved(d, k)
  {
    SavedConcat(a, b, k);
    SavedConcat(a + b, c, k);
    SavedConcat(a + b + c, d, k);
  }

  lemma OpeningSavesNone(style: Style, event: nat, id: nat, k: nat)
    ensures Saved(Opening(style, event, id), k) == []
  {
    NoneSaved(Opening(style, event, id), k);
  }

  lemma ClosingSavesNone(style: Style, event: nat, id: nat, length: real, k: nat)
    ensures Saved(Closing(style, event, id, length), k) == []
  {
    NoneSaved(Closing(style, event, id, length), k);
  }

  lemma JoinSlices<T>(s: seq<T>, a: nat, b: nat, c: nat)
    requires a <= b <= c <= |s|
    ensures [] + s[a..b] + s[b..c] + [] == s[a..c]
  {
  }

  lemma SavedOfBlock(style: Style, xs: seq<Input>, event: nat, e: Event, k: nat)
    requires Fits(xs, e)
    ensures Saved(Block(style, xs, event, e), k) == if event == k then Frames(xs)[e.lo..e.hi] else []
  {
    var a := Opening(style, event, xs[e.begin].frame.id);
    var stored, live := Frames(xs)[e.lo..e.begin], Frames(xs)[e.begin..e.hi];
    var b, c := Saves(style, event, stored, false), Saves(style, event, live, true);
    var d := if e.open then [] else Closing(style, event, xs[e.hi].frame.id, Length(xs, e.begin, e.hi));
    OpeningSavesNone(style, event, xs[e.begin].frame.id, k);
    if !e.open {
      ClosingSavesNone(style, event, xs[e.hi].frame.id, Length(xs, e.begin, e.hi), k);
    }
    SavedOfSaves(style, event, stored, false, k);
    SavedOfSaves(style, event, live, true, k);
    SavedFour(a, b, c, d, k);
    JoinSlices(Frames(xs), e.lo, e.begin, e.hi);
  }

  /** The slice of the stream that event k takes in. */
  ghost function Slice(xs: seq<Input>, es: seq<Event>, k: nat): seq<Frame>
    requires AllFit(xs, es)
  {
    if 1 <= k <= |es| then Frames(xs)[es[k - 1].lo..es[k - 1].hi] else []
  }

  lemma {:induction false} SavedOfBlocks(style: Style, xs: seq<Input>, es: seq<Event>, k: nat)
    requires AllFit(xs, es)
    ensures Saved(Blocks(style, xs, es), k) == Slice(xs, es, k)
    decreases |es|
  {
    if es != [] {
      var m := |es| - 1;
      SavedOfBlocks(style, xs, es[..m], k);
      SavedOfBlocksStep(style, xs, es[..m], es[m], k);
      SplitLast(es);
    }
  }

  lemma SavedOfBlocksStep(style: Style, xs: seq<Input>, es: seq<Event>, e: Event, k: nat)
    requires AllFit(xs, es) && Fits(xs, e) && Saved(Blocks(style, xs, es), k) == Slice(xs, es, k)
    ensures AllFit(xs, es + [e]) && Saved(Blocks(style, xs, es + [e]), k) == Slice(xs, es + [e], k)
  {
    BlocksLast(style, xs, es, e);
    SavedOfBlock(style, xs, |es| + 1, e, k);
    SavedConcat(Blocks(style, xs, es), Block(style, xs, |es| + 1, e), k);
    SliceOfMore(xs, es, e, k);
  }

  lemma SliceOfMore(xs: seq<Input>, es: seq<Event>, e: Event, k: nat)
    requires AllFit(xs, es) && Fits(xs, e)
    ensures AllFit(xs, es + [e])
    ensures Slice(xs, es + [e], k) == Slice(xs, es, k) + if k == |es| + 1 then Frames(xs)[e.lo..e.hi] else []
  {
    assert 1 <= k <= |es| ==> (es + [e])[k - 1] == es[k - 1];
    NothingAdded(Slice(xs, es, k));
  }

  /** In every run the frames saved for event k are exactly its slice of the stream, in order. */
  lemma EventIsSaved(style: Style, p: Profile, xs: seq<Input>, k: nat)
    requires 1 <= k <= |Events(p, xs)|
    ensures var e := Events(p, xs)[k - 1];
      Saved(Log(style, p, xs), k) == Frames(xs)[e.lo..e.hi]
  {
    LogIsBlocks(style, p, xs);
    SavedOfBlocks(style, xs, Events(p, xs), k);
  }

  // ---------- the file of the video recorder ----------

  /** The encoder and file as the effects leave them; Fault when an effect comes out of turn. */
  datatype Device = Shut | Initialised | Writing(event: nat) | Closed | Fault

  function Operate(d: Device, e: Effect): Device {
    match e
    case InitEncoder => if d == Shut then Initialised else Fault
    case OpenFile(k) => if d == Initialised then Writing(k) else Fault
    case Save(k, _, _) => if d == Writing(k) then d else Fault
    case CloseFile => if d.Writing? then Closed else Fault
    case DeinitEncoder => if d == Closed then Shut else Fault
    case Begin(_, _) => if d == Shut then d else Fault
    case Complete(_, _, _) => if d == Shut then d else Fault
  }

  function OperateAll(d: Device, log: seq<Effect>): Device {
    if log == [] then d else Operate(OperateAll(d, log[..|log| - 1]), log[|log| - 1])
  }

  lemma {:induction false} OperateConcat(d: Device, a: seq<Effect>, b: seq<Effect>)
    ensures OperateAll(d, a + b) == OperateAll(OperateAll(d, a), b)
    decreases |b|
  {
    if b == [] {
      assert a + b == a;
    } else {
      assert (a + b)[..|a + b| - 1] == a + b[..|b| - 1];
      OperateConcat(d, a, b[..|b| - 1]);
    }
  }

  lemma {:induction false} SavesOperate(event: nat, frames: seq<Frame>, live: bool)
    ensures OperateAll(Writing(event), Saves(Film, event, frames, live)) == Writing(event)
    decreases |frames|
  {
    if frames != [] {
      var m := |frames| - 1;
      SavesOperate(event, frames[..m], live);
      OperateConcat(Writing(event), Saves(Film, event, frames[..m], live), [Save(event, frames[m], false)]);
    }
  }

  lemma OpeningOperates(event: nat, id: nat)
    ensures OperateAll(Shut, Opening(Film, event, id)) == Writing(event)
  {
    var o := Opening(Film, event, id);
    assert o[..2][..1] == [Begin(event, id)] && o[..1][..0] == [];
    assert OperateAll(Shut, o[..1]) == Shut;
    assert OperateAll(Shut, o[..2]) == Initialised;
  }

  lemma ClosingOperates(event: nat, id: nat, length: real)
    ensures OperateAll(Writing(event), Closing(Film, event, id, length)) == Shut
  {
    var c := Closing(Film, event, id, length);
    assert c[..2][..1] == [CloseFile] && c[..1][..0] == [];
    assert OperateAll(Writing(event), c[..1]) == Closed;
    assert OperateAll(Writing(event), c[..2]) == Shut;
  }

  lemma EmitOperates(p: Profile, t: Track, x: Input)
    ensures var u := StepAlarm(p, t, x);
      OperateAll(if t.state == IDLE then Shut else Writing(t.eventCount), Emit(Film, p, t, x))
      == if u.state == IDLE then Shut else Writing(u.eventCount)
  {
    var u, d := StepAlarm(p, t, x), if t.state == IDLE then Shut else Writing(t.eventCount);
    var k, id := u.eventCount, x.frame.id;
    if t.state == IDLE && u.state != IDLE {
      var o, s, l := Opening(Film, k, id), Saves(Film, k, t.store, false), Saves(Film, k, [x.frame], true);
      OpeningOperates(k, id);
      OperateConcat(d, o, s);
      SavesOperate(k, t.store, false);
      OperateConcat(d, o + s, l);
      SavesOperate(k, [x.frame], true);
    } else if t.state != IDLE && u.state == IDLE {
      ClosingOperates(k, id, Seconds(u.alarmTime, u.lastAlarmTime));
    } else if u.state != IDLE {
      SavesOperate(k, [x.frame], true);
    }
  }

  /**
   * In every run no effect comes out of turn: frames are encoded only into the open file of their event, and
   * the encoder and file are open exactly while the state is not IDLE.
   */
  lemma {:induction false} DeviceFollowsState(p: Profile, xs: seq<Input>)
    ensures var t := Run(p, xs);
      OperateAll(Shut, Log(Film, p, xs)) == if t.state == IDLE then Shut else Writing(t.eventCount)
    decreases |xs|
  {
    if xs != [] {
      var ys, x := xs[..|xs| - 1], xs[|xs| - 1];
      DeviceFollowsState(p, ys);
      EmitOperates(p, Run(p, ys), x);
      OperateConcat(Shut, Log(Film, p, ys), Emit(Film, p, Run(p, ys), x));
    }
  }
}
