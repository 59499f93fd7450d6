/** The fan screen's click handler: a two-state machine over the remembered pair
    (fan on?, start time). Turning on stamps the start time; turning off computes the
    whole seconds elapsed and hands them to the log writer; every click flips the flag. */
module FanSwitch {
  import opened Wrappers
  import opened KotlinLong
  import opened FanLog

  /** The two remembered values of the fan screen. */
  datatype FanState = FanState(isFanOn: bool, startTime: Long)

  /** Off, with start time 0. */
  const Initial: FanState := FanState(false, 0)

  /** The state change of one click at clock reading `now` (milliseconds), with the
      whole seconds on that a turn-off reports. */
  function Toggle(s: FanState, now: Long): (r: (FanState, Option<Long>))
    ensures r.0.isFanOn == !s.isFanOn
    ensures !s.isFanOn ==> r.0.startTime == now && r.1 == None
    ensures s.isFanOn ==> r.0.startTime == s.startTime && r.1.Some?
    ensures s.isFanOn && 0 <= s.startTime <= now ==>
      0 <= r.1.value && r.1.value * 1000 <= now - s.startTime < r.1.value * 1000 + 1000
    ensures s.isFanOn && 0 <= now < s.startTime ==>
      r.1.value <= 0 && now - s.startTime <= r.1.value * 1000 < now - s.startTime + 1000
  {
    if s.isFanOn then
      var elapsed := Sub(now, s.startTime);
      (FanState(false, s.startTime), Some(DivTrunc1000(elapsed)))
    else
      (FanState(true, now), None)
  }

  /** What a click takes from outside the handler: the millisecond clock reading, the
      formatted local date-time the log writer stamps, and how its file append ends. */
  datatype Click = Click(now: Long, timestamp: string, outcome: WriteOutcome)

  /** The fan state together with the text of the log file. */
  datatype Screen = Screen(fan: FanState, file: string)

  /** One click: the toggle, and on a turn-off the log append. A failed append is
      swallowed by the writer, so the flag flips whatever the outcome. */
  function OnClick(sys: Screen, c: Click): (r: Screen)
    ensures r.fan.isFanOn == !sys.fan.isFanOn
    ensures sys.file <= r.file
    ensures !sys.fan.isFanOn ==> r.file == sys.file && r.fan.startTime == c.now
    ensures sys.fan.isFanOn ==> r.fan.startTime == sys.fan.startTime
    ensures sys.fan.isFanOn && c.outcome.Written? ==>
      r.file == sys.file + FormatLine(Entry(c.timestamp, Toggle(sys.fan, c.now).1.value))
    ensures c.outcome == Failed(0) ==> r.file == sys.file
  {
    var (fan', seconds) := Toggle(sys.fan, c.now);
    match seconds
    case None => Screen(fan', sys.file)
    case Some(n) => Screen(fan', WriteTimeToFile(sys.file, Entry(c.timestamp, n), c.outcome))
  }

  /** The screen after a sequence of clicks. */
  function Run(sys: Screen, clicks: seq<Click>): Screen
    decreases |clicks|
  {
    if |clicks| == 0 then sys else Run(OnClick(sys, clicks[0]), clicks[1..])
  }

  /** The fan states a click sequence passes through, the starting one included. */
  function Trace(s: FanState, clicks: seq<Click>): (t: seq<FanState>)
    ensures |t| == |clicks| + 1 && t[0] == s
    decreases |clicks|
  {
    if |clicks| == 0 then [s] else [s] + Trace(Toggle(s, clicks[0].now).0, clicks[1..])
  }

  /** Number of on-to-off steps in a sequence of states. */
  function TurnOffs(t: seq<FanState>): nat
    decreases |t|
  {
    if |t| < 2 then 0
    else (if t[0].isFanOn && !t[1].isFanOn then 1 else 0) + TurnOffs(t[1..])
  }

  /** The record a click hands to the log writer: one when it turns the fan off, none
      when it turns it on. */
  function Closed(s: FanState, c: Click): (r: seq<Entry>)
    ensures |r| == (if s.isFanOn then 1 else 0)
  {
    var seconds := Toggle(s, c.now).1;
    if seconds.Some? then [Entry(c.timestamp, seconds.value)] else []
  }

  /** The records the handler hands to the log writer, in order. */
  function Sessions(s: FanState, clicks: seq<Click>): seq<Entry>
    decreases |clicks|
  {
    if |clicks| == 0 then []
    else Closed(s, clicks[0]) + Sessions(Toggle(s, clicks[0].now).0, clicks[1..])
  }

  /** The records whose append completed. */
  function Recorded(s: FanState, clicks: seq<Click>): seq<Entry>
    decreases |clicks|
  {
    if |clicks| == 0 then []
    else
      (if clicks[0].outcome.Written? then Closed(s, clicks[0]) else [])
        + Recorded(Toggle(s, clicks[0].now).0, clicks[1..])
  }

  /** An append that either completed or wrote nothing at all. */
  predicate Clean(c: Click) {
    c.outcome.Written? || c.outcome == Failed(0)
  }

  /** Every click flips the flag: the states alternate strictly, and the flag after `i`
      clicks is the starting flag flipped `i` times. */
  lemma {:induction false} Alternation(s: FanState, clicks: seq<Click>)
    ensures var t := Trace(s, clicks);
      && |t| == |clicks| + 1
      && t[0] == s
      && (forall i :: 0 <= i < |clicks| ==> t[i + 1].isFanOn == !t[i].isFanOn)
      && (forall i :: 0 <= i <= |clicks| ==> t[i].isFanOn == (s.isFanOn != (i % 2 == 1)))
    decreases |clicks|
  {
    if |clicks| > 0 {
      var s' := Toggle(s, clicks[0].now).0;
      var rest := Trace(s', clicks[1..]);
      Alternation(s', clicks[1..]);
      var t := Trace(s, clicks);
      assert t == [s] + rest;
      forall i | 1 <= i <= |clicks|
        ensures t[i].isFanOn == (s.isFanOn != (i % 2 == 1))
      {
        assert t[i] == rest[i - 1];
        assert (i % 2 == 1) == ((i - 1) % 2 == 0);
      }
    }
  }

  /** A run ends in the last state of its trace. */
  lemma {:induction false} RunEndsInTrace(sys: Screen, clicks: seq<Click>)
    ensures Run(sys, clicks).fan == Trace(sys.fan, clicks)[|clicks|]
    decreases |clicks|
  {
    if |clicks| > 0 {
      var next := OnClick(sys, clicks[0]);
      RunEndsInTrace(next, clicks[1..]);
      assert Trace(sys.fan, clicks) == [sys.fan] + Trace(next.fan, clicks[1..]);
    }
  }

  /** A fresh screen starts off with start time 0 over whatever the log file already holds;
      from there the flag after `n` clicks is on exactly when `n` is odd. */
  lemma {:induction false} FlagAfterClicks(file: string, clicks: seq<Click>)
    ensures Run(Screen(Initial, file), clicks).fan.isFanOn <==> |clicks| % 2 == 1
    ensures |clicks| == 0 ==> Run(Screen(Initial, file), clicks) == Screen(FanState(false, 0), file)
  {
    Alternation(Initial, clicks);
    RunEndsInTrace(Screen(Initial, file), clicks);
  }

  /** One record per on-to-off transition: from a state that is off, half the clicks
      (rounded down) close a session; from one that is on, half of one more. */
  lemma {:induction false} SessionsAreTurnOffs(s: FanState, clicks: seq<Click>)
    ensures |Sessions(s, clicks)| == TurnOffs(Trace(s, clicks))
    ensures |Sessions(s, clicks)| == (|clicks| + (if s.isFanOn then 1 else 0)) / 2
    decreases |clicks|
  {
    if |clicks| > 0 {
      var s' := Toggle(s, clicks[0].now).0;
      SessionsAreTurnOffs(s', clicks[1..]);
      var t := Trace(s, clicks);
      assert t[1..] == Trace(s', clicks[1..]);
      assert t[1] == s';
    }
  }

  /** From a state that is off, session `i` opens at click `2i` and closes at click `2i+1`:
      its record carries the closing click's timestamp and the whole seconds between the
      two clock readings, truncated toward zero. */
  lemma {:induction false} SessionsPairClicks(s: FanState, clicks: seq<Click>)
    requires !s.isFanOn
    ensures |Sessions(s, clicks)| == |clicks| / 2
    ensures forall i :: 0 <= i < |clicks| / 2 ==>
      Sessions(s, clicks)[i] == Entry(clicks[2 * i + 1].timestamp, DivTrunc1000(Sub(clicks[2 * i + 1].now, clicks[2 * i].now)))
    decreases |clicks|
  {
    if |clicks| == 1 {
      assert Sessions(s, clicks) == [] + Sessions(Toggle(s, clicks[0].now).0, []);
    } else if |clicks| >= 2 {
      var on := Toggle(s, clicks[0].now).0;
      var off := Toggle(on, clicks[1].now).0;
      var first := Entry(clicks[1].timestamp, DivTrunc1000(Sub(clicks[1].now, clicks[0].now)));
      var rest := clicks[2..];
      assert clicks[1..][1..] == rest;
      assert Sessions(s, clicks) == [] + Sessions(on, clicks[1..]);
      assert Sessions(on, clicks[1..]) == [first] + Sessions(off, rest);
      SessionsPairClicks(off, rest);
      forall i | 1 <= i < |clicks| / 2
        ensures Sessions(s, clicks)[i] == Entry(clicks[2 * i + 1].timestamp, DivTrunc1000(Sub(clicks[2 * i + 1].now, clicks[2 * i].now)))
      {
        assert Sessions(s, clicks)[i] == Sessions(off, rest)[i - 1];
        assert rest[2 * (i - 1)] == clicks[2 * i];
        assert rest[2 * (i - 1) + 1] == clicks[2 * i + 1];
      }
    }
  }

  /** The log only ever grows: whatever the clicks and however their appends end, the
      earlier text stays a prefix of the later one. */
  lemma {:induction false} FileAppendOnly(sys: Screen, clicks: seq<Click>)
    ensures sys.file <= Run(sys, clicks).file
    decreases |clicks|
  {
    if |clicks| > 0 {
      var next := OnClick(sys, clicks[0]);
      FileAppendOnly(next, clicks[1..]);
    }
  }

  /** The fan states depend on the clock readings alone: timestamps, append failures and
      the log's contents never change them. */
  lemma {:induction false} FanIgnoresLog(sys1: Screen, clicks1: seq<Click>, sys2: Screen, clicks2: seq<Click>)
    requires sys1.fan == sys2.fan
    requires |clicks1| == |clicks2|
    requires forall i :: 0 <= i < |clicks1| ==> clicks1[i].now == clicks2[i].now
    ensures Run(sys1, clicks1).fan == Run(sys2, clicks2).fan
    decreases |clicks1|
  {
    if |clicks1| > 0 {
      FanIgnoresLog(OnClick(sys1, clicks1[0]), clicks1[1..], OnClick(sys2, clicks2[0]), clicks2[1..]);
    }
  }

  /** A clean click appends the text of its record when its append completes, and nothing otherwise. */
  lemma CleanClickAppends(sys: Screen, c: Click)
    requires Clean(c)
    ensures OnClick(sys, c).file == sys.file + Encode(if c.outcome.Written? then Closed(sys.fan, c) else [])
  {
  }

  /** When every append either completes or writes nothing, the file grows by exactly
      the lines of the completed records, in order. */
  lemma {:induction false} FileHoldsRecorded(sys: Screen, clicks: seq<Click>)
    requires forall i :: 0 <= i < |clicks| ==> Clean(clicks[i])
    ensures Run(sys, clicks).file == sys.file + Encode(Recorded(sys.fan, clicks))
    decreases |clicks|
  {
    if |clicks| > 0 {
      var c := clicks[0];
      var next := OnClick(sys, c);
      var head := if c.outcome.Written? then Closed(sys.fan, c) else [];
      var rest := Recorded(next.fan, clicks[1..]);
      assert next.fan == Toggle(sys.fan, c.now).0;
      assert Recorded(sys.fan, clicks) == head + rest;
      assert Run(sys, clicks) == Run(next, clicks[1..]);
      CleanClickAppends(sys, c);
      assert forall i :: 0 <= i < |clicks[1..]| ==> Clean(clicks[1..][i]) by {
        forall i | 0 <= i < |clicks[1..]| ensures Clean(clicks[1..][i]) {
          assert clicks[1..][i] == clicks[i + 1];
        }
      }
      FileHoldsRecorded(next, clicks[1..]);
      EncodeConcat(head, rest);
      AppendAssociates(sys.file, Encode(head), Encode(rest));
    }
  }

  /** With every append completing, each record handed to the writer is recorded. */
  lemma {:induction false} AllWrittenRecordsAll(s: FanState, clicks: seq<Click>)
    requires forall i :: 0 <= i < |clicks| ==> clicks[i].outcome.Written?
    ensures Recorded(s, clicks) == Sessions(s, clicks)
    decreases |clicks|
  {
    if |clicks| > 0 {
      AllWrittenRecordsAll(Toggle(s, clicks[0].now).0, clicks[1..]);
    }
  }

  /** With no append ever writing anything, the log text is untouched by any clicks,
      no record is completed, and the fan still passes through every state of its trace. */
  lemma {:induction false} NoStorageNoRecords(sys: Screen, clicks: seq<Click>)
    requires forall i :: 0 <= i < |clicks| ==> clicks[i].outcome == Failed(0)
    ensures Run(sys, clicks).file == sys.file
    ensures Run(sys, clicks).fan == Trace(sys.fan, clicks)[|clicks|]
    ensures Recorded(sys.fan, clicks) == []
    decreases |clicks|
  {
    RunEndsInTrace(sys, clicks);
    if |clicks| > 0 {
      var next := OnClick(sys, clicks[0]);
      assert next.file == sys.file;
      assert forall i :: 0 <= i < |clicks[1..]| ==> clicks[1..][i] == clicks[i + 1];
      NoStorageNoRecords(next, clicks[1..]);
    }
  }

  /** A readable log stays readable: after clean appends of single-line timestamps it
      reads back as the old records followed by the newly recorded ones. */
  lemma {:induction false} LogReadsBack(sys: Screen, clicks: seq<Click>)
    requires Decode(sys.file).Some?
    requires forall i :: 0 <= i < |clicks| ==> Clean(clicks[i]) && OneLine(clicks[i].timestamp)
    ensures Decode(Run(sys, clicks).file) == Some(Decode(sys.file).value + Recorded(sys.fan, clicks))
  {
    var earlier := Decode(sys.file).value;
    var added := Recorded(sys.fan, clicks);
    DecodeExact(sys.file);
    FileHoldsRecorded(sys, clicks);
    RecordedSingleLine(sys.fan, clicks);
    EncodeConcat(earlier, added);
    DecodeEncode(earlier + added);
  }

  lemma {:induction false} RecordedSingleLine(s: FanState, clicks: seq<Click>)
    requires forall i :: 0 <= i < |clicks| ==> OneLine(clicks[i].timestamp)
    ensures AllSingleLine(Recorded(s, clicks))
    decreases |clicks|
  {
    if |clicks| > 0 {
      RecordedSingleLine(Toggle(s, clicks[0].now).0, clicks[1..]);
    }
  }

  /** On at 0 ms and off at 125000 ms from a fresh start: the fan is off again with the
      start time of the session kept, and the log holds one line reporting 125 seconds. */
  lemma OnThenOffAfter125Seconds(ts0: string, ts1: string)
    ensures Run(Screen(Initial, ""), [Click(0, ts0, Written), Click(125000, ts1, Written)])
      == Screen(FanState(false, 0), ts1 + " - Time On: 125 seconds\n")
  {
    var clicks := [Click(0, ts0, Written), Click(125000, ts1, Written)];
    var on := OnClick(Screen(Initial, ""), clicks[0]);
    assert on == Screen(FanState(true, 0), "");
    assert Sub(125000, 0) == 125000;
    assert DivTrunc1000(125000) == 125;
    assert NatDigits(125) == NatDigits(12) + "5";
    assert NatDigits(12) == NatDigits(1) + "2";
    assert ToDecimal(125) == "125";
    var off := OnClick(on, clicks[1]);
    assert off == Screen(FanState(false, 0), ts1 + " - Time On: 125 seconds\n");
    assert clicks[1..][1..] == [];
    assert Run(on, clicks[1..]) == Run(off, []);
  }
}
