/**
 * The alert client (src/bin/client/main.rs): it sets up the buzzer PWM with tone
 * A and silences it, joins the `cyw43` network (retrying for as long as joining
 * fails), waits for the link, connects once to 169.254.1.1:1234, and then rings
 * the buzzer once for every successful read until a read fails.
 *
 * The environment is given as streams: join outcomes, connect outcomes (only
 * the first is ever used), read results, and `failing`, the positions in run
 * order of the fallible duty-cycle calls that return an error. Every such call
 * is unwrapped, so its failure is a panic that ends the run.
 */
module AlertClient {
  import opened Io
  import Pwm

  const Ssid: string := "cyw43"
  const ServerAddr: Ipv4 := Ipv4(169, 254, 1, 1)
  const Port: nat := 1234
  const TimeoutSecs: nat := 20
  const KeepAliveSecs: nat := 10
  const BufSize: nat := 4096
  /** `into_cfg(4698, 0.5)`, written out; `TonesAreIntoCfg` proves it. */
  const ToneA: Pwm.Config := Pwm.Config(true, 64, 498, 249)
  /** `into_cfg(4186, 0.5)`, written out. */
  const ToneB: Pwm.Config := Pwm.Config(true, 64, 559, 279)

  datatype JoinResult = Joined | JoinFailed(status: int)

  // ---------------------------------------------------------------------------
  // ring_buzzer

  /** One beep of `ring_buzzer`: sound for `ms`, load `next`, silence, pause for `pause`. */
  function Beep(ms: nat, next: Pwm.Config, pause: nat): seq<Action>
  {
    [SetDutyPercent(50), Wait(ms), ApplyConfig(next), SetDuty(0), Wait(pause)]
  }

  /** The ten steps of `ring_buzzer` with two tone configurations: two beeps. */
  function Script(a: Pwm.Config, b: Pwm.Config): (r: seq<Action>)
    ensures |r| == 10
  {
    Beep(500, a, 100) + Beep(750, b, 1000)
  }

  /** Where in the script the four fallible duty-cycle calls are. */
  const FallibleAt: seq<nat> := [0, 3, 5, 8]

  /** No fallible call of a ring whose first fallible call has position `c` fails. */
  predicate RingOk(c: nat, failing: set<nat>)
  {
    c !in failing && c + 1 !in failing && c + 2 !in failing && c + 3 !in failing
  }

  /** What a ring logs: the script up to the first failing call, then the panic. */
  function RingLog(a: Pwm.Config, b: Pwm.Config, c: nat, failing: set<nat>): (r: seq<Action>)
    ensures RingOk(c, failing) <==> r == Script(a, b)
    ensures !RingOk(c, failing) ==> r != [] && r[|r| - 1] == Panic && r[..|r| - 1] < Script(a, b)
  {
    if c in failing then [Panic]
    else if c + 1 in failing then Script(a, b)[..3] + [Panic]
    else if c + 2 in failing then Script(a, b)[..5] + [Panic]
    else if c + 3 in failing then Script(a, b)[..8] + [Panic]
    else Script(a, b)
  }

  /**
   * `ring_buzzer`, step by step. It returns `ok` false when an unwrapped call
   * failed, in which case the last step logged is the panic.
   */
  method RingBuzzer(a: Pwm.Config, b: Pwm.Config, c: nat, failing: set<nat>) returns (steps: seq<Action>, ok: bool)
    ensures steps == RingLog(a, b, c, failing) && ok == RingOk(c, failing)
  {
    if c in failing {
      return [Panic], false;
    }
    steps := [SetDutyPercent(50)];
    steps := steps + [Wait(500)];
    steps := steps + [ApplyConfig(a)];
    if c + 1 in failing {
      return steps + [Panic], false;
    }
    steps := steps + [SetDuty(0)];
    steps := steps + [Wait(100)];
    if c + 2 in failing {
      return steps + [Panic], false;
    }
    steps := steps + [SetDutyPercent(50)];
    steps := steps + [Wait(750)];
    steps := steps + [ApplyConfig(b)];
    if c + 3 in failing {
      return steps + [Panic], false;
    }
    steps := steps + [SetDuty(0)];
    steps := steps + [Wait(1000)];
    ok := true;
  }

  // ---------------------------------------------------------------------------
  // The run

  /** The first position from `j` whose join succeeds, or the end of the stream. */
  function Attempts(joins: seq<JoinResult>, j: nat): (n: nat)
    requires j <= |joins|
    ensures j <= n <= |joins|
    ensures forall t :: j <= t < n ==> joins[t].JoinFailed?
    ensures n < |joins| ==> joins[n].Joined?
    decreases |joins| - j
  {
    if j == |joins| || joins[j].Joined? then j else Attempts(joins, j + 1)
  }

  /** The join loop from position `j`: one attempt per pass, each failure reported. */
  function JoinAt(joins: seq<JoinResult>, j: nat): (r: seq<Action>)
    requires j <= |joins|
    ensures |r| == 2 * (Attempts(joins, j) - j) + 1 && r[0] == JoinNetwork(Ssid)
    decreases |joins| - j
  {
    [JoinNetwork(Ssid)]
    + if j == |joins| then []
      else match joins[j]
        case Joined => []
        case JoinFailed(status) => [ReportJoinFailure(status)] + JoinAt(joins, j + 1)
  }

  /** The read loop from read position `k`, with `c` the position of the next fallible call. */
  function ReadAt(a: Pwm.Config, b: Pwm.Config, results: seq<ReadResult>, failing: set<nat>, k: nat, c: nat): (r: seq<Action>)
    requires k <= |results|
    ensures r != [] && r[0] == ReadInto(BufSize)
    ensures k == |results| || results[k].ReadErr? ==> r == [ReadInto(BufSize)]
    decreases |results| - k
  {
    [ReadInto(BufSize)]
    + (if k == |results| || results[k].ReadErr? then []
       else RingLog(a, b, c, failing) + (if RingOk(c, failing) then ReadAt(a, b, results, failing, k + 1, c + 4) else []))
  }

  /** Everything from the connect on, once the join loop and the link wait are done. */
  function ConnectLog(connects: seq<bool>, results: seq<ReadResult>, failing: set<nat>): (r: seq<Action>)
    ensures |r| >= 2 && r[..2] == [NewSocket, ConnectTo(ServerAddr, Port)]
    ensures connects != [] && !connects[0] ==> r == [NewSocket, ConnectTo(ServerAddr, Port), Panic]
  {
    [NewSocket, ConnectTo(ServerAddr, Port)]
    + if connects == [] then []
    else if !connects[0] then [Panic]
    else [SetTimeout(TimeoutSecs), SetKeepAlive(KeepAliveSecs)] + ReadAt(ToneA, ToneB, results, failing, 0, 1)
  }

  /** The log of a whole run. */
  function ClientLog(joins: seq<JoinResult>, connects: seq<bool>, results: seq<ReadResult>, failing: set<nat>): (r: seq<Action>)
    ensures |r| >= 2 && r[0] == ApplyConfig(ToneA) && (0 in failing <==> r[1] == Panic)
  {
    if 0 in failing then [ApplyConfig(ToneA), Panic]
    else
      [ApplyConfig(ToneA), SetDuty(0)] + JoinAt(joins, 0)
      + (if Attempts(joins, 0) == |joins| then [] else [WaitLinkUp] + ConnectLog(connects, results, failing))
  }

  /** `while let Err(err) = control.join(..)`: retry until a join succeeds. */
  method JoinLoop(joins: seq<JoinResult>) returns (log: seq<Action>, joined: bool)
    ensures log == JoinAt(joins, 0)
    ensures joined == (Attempts(joins, 0) < |joins|)
  {
    log := [];
    var j: nat := 0;
    while true
      invariant j <= |joins|
      invariant log + JoinAt(joins, j) == JoinAt(joins, 0)
      invariant Attempts(joins, j) == Attempts(joins, 0)
      decreases |joins| - j
    {
      ghost var before := log;
      log := log + [JoinNetwork(Ssid)];
      if j == |joins| {
        return log, false;
      }
      match joins[j]
      case Joined =>
        assert JoinAt(joins, j) == [JoinNetwork(Ssid)];
        return log, true;
      case JoinFailed(status) =>
        AppendAssoc(before, [JoinNetwork(Ssid)], [ReportJoinFailure(status)] + JoinAt(joins, j + 1));
        AppendAssoc(before + [JoinNetwork(Ssid)], [ReportJoinFailure(status)], JoinAt(joins, j + 1));
        log := log + [ReportJoinFailure(status)];
        j := j + 1;
    }
  }

  /** A pass of the read loop that read successfully: its ring, then the rest of the loop if the ring did not panic. */
  lemma ReadStep(a: Pwm.Config, b: Pwm.Config, results: seq<ReadResult>, failing: set<nat>, k: nat, c: nat,
                 before: seq<Action>, whole: seq<Action>)
    requires k < |results| && results[k].ReadOk?
    requires before + ReadAt(a, b, results, failing, k, c) == whole
    ensures var tail := if RingOk(c, failing) then ReadAt(a, b, results, failing, k + 1, c + 4) else [];
      before + [ReadInto(BufSize)] + RingLog(a, b, c, failing) + tail == whole
  {
    var ring := RingLog(a, b, c, failing);
    var tail := if RingOk(c, failing) then ReadAt(a, b, results, failing, k + 1, c + 4) else [];
    assert ReadAt(a, b, results, failing, k, c) == [ReadInto(BufSize)] + (ring + tail);
    AppendAssoc(before, [ReadInto(BufSize)], ring + tail);
    AppendAssoc(before + [ReadInto(BufSize)], ring, tail);
  }

  /** The read loop: ring once per successful read, stop on a read error. */
  method ReadLoop(a: Pwm.Config, b: Pwm.Config, results: seq<ReadResult>, failing: set<nat>, c0: nat) returns (log: seq<Action>)
    ensures log == ReadAt(a, b, results, failing, 0, c0)
  {
    log := [];
    var k: nat, c: nat := 0, c0;
    while true
      invariant k <= |results|
      invariant log + ReadAt(a, b, results, failing, k, c) == ReadAt(a, b, results, failing, 0, c0)
      decreases |results| - k
    {
      ghost var before := log;
      log := log + [ReadInto(BufSize)];
      if k == |results| || results[k].ReadErr? {
        return;
      }
      var steps, ok := RingBuzzer(a, b, c, failing);
      ReadStep(a, b, results, failing, k, c, before, ReadAt(a, b, results, failing, 0, c0));
      log := log + steps;
      if !ok {
        return;
      }
      k, c := k + 1, c + 4;
    }
  }

  /**
   * Socket creation, the single connect (whose failure is an `expect` panic),
   * the socket timeouts, and the read loop.
   */
  method Connect(connects: seq<bool>, results: seq<ReadResult>, failing: set<nat>) returns (log: seq<Action>)
    ensures log == ConnectLog(connects, results, failing)
  {
    log := [NewSocket, ConnectTo(ServerAddr, Port)];
    if connects == [] {
      return;
    }
    if !connects[0] {
      return log + [Panic];
    }
    log := log + [SetTimeout(TimeoutSecs), SetKeepAlive(KeepAliveSecs)];
    var readLog := ReadLoop(ToneA, ToneB, results, failing, 1);
    log := log + readLog;
  }

  /** The whole client, from the PWM set-up to the end of the read loop. */
  method Run(joins: seq<JoinResult>, connects: seq<bool>, results: seq<ReadResult>, failing: set<nat>)
    returns (log: seq<Action>)
    ensures log == ClientLog(joins, connects, results, failing)
  {
    if 0 in failing {
      return [ApplyConfig(ToneA), Panic];
    }
    var joinLog, joined := JoinLoop(joins);
    log := [ApplyConfig(ToneA), SetDuty(0)] + joinLog;
    if !joined {
      assert log + [] == log;
      return;
    }
    var tail := Connect(connects, results, failing);
    log := log + ([WaitLinkUp] + tail);
  }

  // ---------------------------------------------------------------------------
  // Properties

  /** The two tones are what `into_cfg` computes for 4698 Hz and 4186 Hz at half duty. */
  lemma TonesAreIntoCfg()
    ensures ToneA == Pwm.ToneConfig(4698) && ToneB == Pwm.ToneConfig(4186)
  {
    Pwm.KnownTones();
  }

  /** A ring takes 500 + 100 + 750 + 1000 = 2350 ms, whatever the tones. */
  lemma RingTiming(a: Pwm.Config, b: Pwm.Config)
    ensures TotalWait(Script(a, b)) == 2350
  {
    var sc := Script(a, b);
    assert TotalWait(sc[9..]) == 1000;
    assert TotalWait(sc[8..]) == 1000;
    assert TotalWait(sc[7..]) == 1000;
    assert TotalWait(sc[6..]) == 1750;
    assert TotalWait(sc[5..]) == 1750;
    assert TotalWait(sc[4..]) == 1850;
    assert TotalWait(sc[3..]) == 1850;
    assert TotalWait(sc[2..]) == 1850;
    assert TotalWait(sc[1..]) == 2350;
  }

  /** A beep sounds the slice's current configuration for `ms` and leaves `next` loaded and silent. */
  lemma BeepSound(ms: nat, next: Pwm.Config, pause: nat, s: PwmState)
    requires ms > 0
    ensures Audible(Beep(ms, next, pause), s) == [Segment(s.config, ms)]
    ensures PwmAfter(Beep(ms, next, pause), s) == PwmState(next, false)
  {
    var on := s.(on := true);
    var loaded := PwmState(next, next.enable && next.compareA > 0);
    var off := PwmState(next, false);
    assert PwmStep(s, SetDutyPercent(50)) == on;
    assert PwmStep(on, ApplyConfig(next)) == loaded;
    assert PwmStep(loaded, SetDuty(0)) == off;
    assert PwmStep(on, Wait(ms)) == on && PwmStep(off, Wait(pause)) == off;
    var t4 := [Wait(pause)];
    var t3 := [SetDuty(0)] + t4;
    var t2 := [ApplyConfig(next)] + t3;
    var t1 := [Wait(ms)] + t2;
    assert Beep(ms, next, pause) == [SetDutyPercent(50)] + t1;
    AudibleCons(Wait(pause), [], off);
    assert t4 == [Wait(pause)] + [];
    assert Audible(t4, off) == [] && PwmAfter(t4, off) == off;
    AudibleCons(SetDuty(0), t4, loaded);
    assert Audible(t3, loaded) == [] && PwmAfter(t3, loaded) == off;
    AudibleCons(ApplyConfig(next), t3, on);
    assert Audible(t2, on) == [] && PwmAfter(t2, on) == off;
    AudibleCons(Wait(ms), t2, on);
    assert Audible(t1, on) == [Segment(s.config, ms)] && PwmAfter(t1, on) == off;
    AudibleCons(SetDutyPercent(50), t1, s);
  }

  /**
   * What a ring sounds like: 500 ms of whatever configuration the slice
   * already had (`set_config(a)` comes only after the first beep), then 750 ms
   * of `a`; it leaves the slice on `b` and silent.
   */
  lemma RingSound(a: Pwm.Config, b: Pwm.Config, s: PwmState)
    ensures Audible(Script(a, b), s) == [Segment(s.config, 500), Segment(a, 750)]
    ensures PwmAfter(Script(a, b), s) == PwmState(b, false)
  {
    AudibleConcat(Beep(500, a, 100), Beep(750, b, 1000), s);
    BeepSound(500, a, 100, s);
    BeepSound(750, b, 1000, PwmState(a, false));
  }

  /** Start-up loads tone A and silences it. */
  lemma InitSilent(s: PwmState)
    ensures Audible([ApplyConfig(ToneA), SetDuty(0)], s) == []
    ensures PwmAfter([ApplyConfig(ToneA), SetDuty(0)], s) == PwmState(ToneA, false)
  {
    var init := [ApplyConfig(ToneA), SetDuty(0)];
    var loadA := PwmState(ToneA, true);
    assert init[1..] == [SetDuty(0)] && init[1..][1..] == [];
    assert Audible(init[1..], loadA) == [] && PwmAfter(init[1..], loadA) == PwmState(ToneA, false);
  }

  /**
   * So the first two rings after start-up beep A, A, then B, A
   * (`ReadLoopSound` covers any number of rings).
   */
  lemma FirstRingDiffers(s: PwmState)
    ensures var log := [ApplyConfig(ToneA), SetDuty(0)] + Script(ToneA, ToneB) + Script(ToneA, ToneB);
      Audible(log, s) == [Segment(ToneA, 500), Segment(ToneA, 750), Segment(ToneB, 500), Segment(ToneA, 750)]
  {
    var init := [ApplyConfig(ToneA), SetDuty(0)];
    var sc := Script(ToneA, ToneB);
    var offA := PwmState(ToneA, false);
    InitSilent(s);
    AudibleConcat(init, sc, s);
    RingSound(ToneA, ToneB, offA);
    assert Audible(init + sc, s) == [Segment(ToneA, 500), Segment(ToneA, 750)];
    assert PwmAfter(init + sc, s) == PwmState(ToneB, false);
    AudibleConcat(init + sc, sc, s);
    RingSound(ToneA, ToneB, PwmState(ToneB, false));
  }

  /** What `n` complete rings sound like, from a slice loaded with `first`. */
  function Chimes(first: Pwm.Config, n: nat): (r: seq<Segment>)
    ensures |r| == 2 * n
    decreases n
  {
    if n == 0 then [] else [Segment(first, 500), Segment(ToneA, 750)] + Chimes(ToneB, n - 1)
  }

  /** The first ring of `Chimes` beeps `first`, then A; every later ring beeps B, then A. */
  lemma {:induction false} ChimesAt(first: Pwm.Config, n: nat)
    ensures forall j :: 0 <= j < n ==>
      Chimes(first, n)[2 * j] == Segment(if j == 0 then first else ToneB, 500)
      && Chimes(first, n)[2 * j + 1] == Segment(ToneA, 750)
    decreases n
  {
    if n > 0 {
      var r, rest := Chimes(first, n), Chimes(ToneB, n - 1);
      ChimesAt(ToneB, n - 1);
      forall j | 1 <= j < n
        ensures r[2 * j] == Segment(ToneB, 500) && r[2 * j + 1] == Segment(ToneA, 750)
      {
        assert r[2 * j] == rest[2 * (j - 1)] && r[2 * j + 1] == rest[2 * (j - 1) + 1];
      }
    }
  }

  /**
   * What the read loop sounds like when no duty-cycle call fails: one ring of
   * `Chimes` per successful read, from whatever the slice holds at the first
   * read; afterwards the slice is silent on B if it rang at all.
   */
  lemma {:induction false} ReadLoopSound(results: seq<ReadResult>, failing: set<nat>, k: nat, c: nat, s: PwmState)
    requires k <= |results|
    requires forall x :: x in failing ==> x < c
    ensures Audible(ReadAt(ToneA, ToneB, results, failing, k, c), s) == Chimes(s.config, OkRun(results, k))
    ensures PwmAfter(ReadAt(ToneA, ToneB, results, failing, k, c), s)
      == if OkRun(results, k) == 0 then s else PwmState(ToneB, false)
    decreases |results| - k
  {
    var log := ReadAt(ToneA, ToneB, results, failing, k, c);
    if k == |results| || results[k].ReadErr? {
      AudibleCons(ReadInto(BufSize), [], s);
      assert log == [ReadInto(BufSize)] + [];
    } else {
      var sc := Script(ToneA, ToneB);
      var offB := PwmState(ToneB, false);
      var rest := ReadAt(ToneA, ToneB, results, failing, k + 1, c + 4);
      assert RingOk(c, failing) && RingLog(ToneA, ToneB, c, failing) == sc;
      assert log == [ReadInto(BufSize)] + (sc + rest);
      AudibleCons(ReadInto(BufSize), sc + rest, s);
      AudibleConcat(sc, rest, s);
      RingSound(ToneA, ToneB, s);
      ReadLoopSound(results, failing, k + 1, c + 4, offB);
      assert OkRun(results, k) == 1 + OkRun(results, k + 1);
    }
  }

  /** The join loop does not touch the buzzer. */
  lemma {:induction false} JoinQuiet(joins: seq<JoinResult>, j: nat)
    requires j <= |joins|
    ensures Quiet(JoinAt(joins, j))
    decreases |joins| - j
  {
    if j < |joins| && joins[j].JoinFailed? {
      JoinQuiet(joins, j + 1);
      QuietConcat([JoinNetwork(Ssid), ReportJoinFailure(joins[j].status)], JoinAt(joins, j + 1));
      AppendAssoc([JoinNetwork(Ssid)], [ReportJoinFailure(joins[j].status)], JoinAt(joins, j + 1));
    }
  }

  /**
   * A whole run in which no duty-cycle call fails and the join and the
   * connect succeed: the buzzer stays silent until the first read, then the
   * first ring beeps A twice and every later ring B, then A, one ring per
   * successful read.
   */
  lemma ClientSound(joins: seq<JoinResult>, connects: seq<bool>, results: seq<ReadResult>, failing: set<nat>, s: PwmState)
    requires failing == {}
    requires Attempts(joins, 0) < |joins| && connects != [] && connects[0]
    ensures Audible(ClientLog(joins, connects, results, failing), s) == Chimes(ToneA, OkRun(results, 0))
  {
    var init := [ApplyConfig(ToneA), SetDuty(0)];
    var mid := ConnectedPrefix(joins);
    var readLog := ReadAt(ToneA, ToneB, results, failing, 0, 1);
    var offA := PwmState(ToneA, false);
    ConnectedLog(joins, connects, results, failing);
    InitSilent(s);
    AudibleConcat(init, mid + readLog, s);
    ConnectedQuiet(joins, readLog, offA);
    ReadLoopSound(results, failing, 0, 1, offA);
  }

  /** What a run logs between the buzzer's set-up and the first read, once a join and the connect succeed. */
  function ConnectedPrefix(joins: seq<JoinResult>): seq<Action>
  {
    JoinAt(joins, 0) + [WaitLinkUp, NewSocket, ConnectTo(ServerAddr, Port), SetTimeout(TimeoutSecs), SetKeepAlive(KeepAliveSecs)]
  }

  /** The shape of a run whose set-up call succeeds, a join succeeds and the connect succeeds. */
  lemma ConnectedLog(joins: seq<JoinResult>, connects: seq<bool>, results: seq<ReadResult>, failing: set<nat>)
    requires 0 !in failing
    requires Attempts(joins, 0) < |joins| && connects != [] && connects[0]
    ensures ClientLog(joins, connects, results, failing)
      == [ApplyConfig(ToneA), SetDuty(0)] + (ConnectedPrefix(joins) + ReadAt(ToneA, ToneB, results, failing, 0, 1))
  {
    var setUp := [SetTimeout(TimeoutSecs), SetKeepAlive(KeepAliveSecs)];
    var readLog := ReadAt(ToneA, ToneB, results, failing, 0, 1);
    var dial := [NewSocket, ConnectTo(ServerAddr, Port)];
    assert ConnectLog(connects, results, failing) == dial + (setUp + readLog);
    assert ConnectedPrefix(joins) == JoinAt(joins, 0) + ([WaitLinkUp] + dial + setUp);
    AppendAssoc(JoinAt(joins, 0), [WaitLinkUp] + dial + setUp, readLog);
    AppendAssoc([WaitLinkUp], dial, setUp + readLog);
    AppendAssoc([WaitLinkUp] + dial, setUp, readLog);
    AppendAssoc([ApplyConfig(ToneA), SetDuty(0)], JoinAt(joins, 0), [WaitLinkUp] + ConnectLog(connects, results, failing));
  }

  /** Nothing before the first read sounds or changes the buzzer. */
  lemma ConnectedQuiet(joins: seq<JoinResult>, t: seq<Action>, s: PwmState)
    ensures Audible(ConnectedPrefix(joins) + t, s) == Audible(t, s)
  {
    var mid := ConnectedPrefix(joins);
    JoinQuiet(joins, 0);
    QuietConcat(JoinAt(joins, 0), [WaitLinkUp, NewSocket, ConnectTo(ServerAddr, Port), SetTimeout(TimeoutSecs), SetKeepAlive(KeepAliveSecs)]);
    QuietSound(mid, s);
    AudibleConcat(mid, t, s);
  }

  /** Call `c + i` is the first of the calls from `c` on to fail. */
  predicate FirstFailure(c: nat, i: nat, failing: set<nat>)
  {
    c + i in failing && forall x :: c <= x < c + i ==> x !in failing
  }

  /**
   * A ring plays the whole script when none of its four calls fails; otherwise
   * it stops at the first call that fails, which panics.
   */
  lemma RingStopsAtFirstFailure(a: Pwm.Config, b: Pwm.Config, c: nat, failing: set<nat>)
    ensures RingOk(c, failing) ==> RingLog(a, b, c, failing) == Script(a, b)
    ensures !RingOk(c, failing) ==>
      exists i :: 0 <= i < 4 && FirstFailure(c, i, failing) && RingLog(a, b, c, failing) == Script(a, b)[..FallibleAt[i]] + [Panic]
    ensures forall i :: 0 <= i < 4 ==> Script(a, b)[FallibleAt[i]].SetDutyPercent? || Script(a, b)[FallibleAt[i]].SetDuty?
  {
    if !RingOk(c, failing) {
      var i := if c in failing then 0 else if c + 1 in failing then 1 else if c + 2 in failing then 2 else 3;
      assert FirstFailure(c, i, failing);
      assert RingLog(a, b, c, failing) == Script(a, b)[..FallibleAt[i]] + [Panic];
    }
  }

  /** `n` copies of `block`. */
  function Repeat(block: seq<Action>, n: nat): seq<Action>
  {
    if n == 0 then [] else block + Repeat(block, n - 1)
  }

  /** How many reads in a row from position `k` succeed. */
  function OkRun(results: seq<ReadResult>, k: nat): (n: nat)
    requires k <= |results|
    ensures k + n <= |results|
    ensures forall t :: k <= t < k + n ==> results[t].ReadOk?
    ensures k + n < |results| ==> results[k + n].ReadErr?
    decreases |results| - k
  {
    if k == |results| || results[k].ReadErr? then 0 else 1 + OkRun(results, k + 1)
  }

  /**
   * With no PWM failure from position `c` on, each successful read (an empty
   * one included) is followed by exactly one full ring and no read is issued
   * during it; the loop ends with the read that failed or that is still
   * pending.
   */
  lemma {:induction false} ReadsRingOnce(a: Pwm.Config, b: Pwm.Config, results: seq<ReadResult>, failing: set<nat>, k: nat, c: nat)
    requires k <= |results|
    requires forall x :: x in failing ==> x < c
    ensures ReadAt(a, b, results, failing, k, c)
      == Repeat([ReadInto(BufSize)] + Script(a, b), OkRun(results, k)) + [ReadInto(BufSize)]
    decreases |results| - k
  {
    if k < |results| && results[k].ReadOk? {
      assert RingOk(c, failing) && RingLog(a, b, c, failing) == Script(a, b);
      ReadsRingOnce(a, b, results, failing, k + 1, c + 4);
      var block := [ReadInto(BufSize)] + Script(a, b);
      var more := Repeat(block, OkRun(results, k + 1)) + [ReadInto(BufSize)];
      AppendAssoc([ReadInto(BufSize)], Script(a, b), more);
      AppendAssoc(block, Repeat(block, OkRun(results, k + 1)), [ReadInto(BufSize)]);
    }
  }

  /** A zero-length read rings the buzzer like any other successful read. */
  lemma EmptyReadRings(failing: set<nat>)
    requires forall x :: x in failing ==> x < 1
    ensures ReadAt(ToneA, ToneB, [ReadOk([]), ReadErr], failing, 0, 1)
      == [ReadInto(BufSize)] + Script(ToneA, ToneB) + [ReadInto(BufSize)]
  {
    ReadsRingOnce(ToneA, ToneB, [ReadOk([]), ReadErr], failing, 0, 1);
    assert OkRun([ReadOk([]), ReadErr], 0) == 1;
  }

  /** The attempts from `j` to `n`, all of which failed: each is logged with its status. */
  function Retries(joins: seq<JoinResult>, j: nat, n: nat): seq<Action>
    requires j <= n <= |joins|
    requires forall t :: j <= t < n ==> joins[t].JoinFailed?
    decreases n - j
  {
    if j == n then [] else [JoinNetwork(Ssid), ReportJoinFailure(joins[j].status)] + Retries(joins, j + 1, n)
  }

  /**
   * The join loop retries for as long as joins fail, with no bound and no
   * delay, reporting each failure's status once; it ends with the attempt
   * that succeeded or that is still pending.
   */
  lemma {:induction false} JoinRetries(joins: seq<JoinResult>, j: nat)
    requires j <= |joins|
    ensures JoinAt(joins, j) == Retries(joins, j, Attempts(joins, j)) + [JoinNetwork(Ssid)]
    decreases |joins| - j
  {
    if j < |joins| && joins[j].JoinFailed? {
      JoinRetries(joins, j + 1);
      var r := Retries(joins, j + 1, Attempts(joins, j + 1));
      AppendAssoc([JoinNetwork(Ssid), ReportJoinFailure(joins[j].status)], r, [JoinNetwork(Ssid)]);
    }
  }

  lemma {:induction false} NoConnectInJoin(joins: seq<JoinResult>, j: nat)
    requires j <= |joins|
    ensures Count(JoinAt(joins, j), ConnectTo(ServerAddr, Port)) == 0
    decreases |joins| - j
  {
    if j < |joins| && joins[j].JoinFailed? {
      NoConnectInJoin(joins, j + 1);
      CountConcat([JoinNetwork(Ssid)], [ReportJoinFailure(joins[j].status)] + JoinAt(joins, j + 1), ConnectTo(ServerAddr, Port));
      CountConcat([ReportJoinFailure(joins[j].status)], JoinAt(joins, j + 1), ConnectTo(ServerAddr, Port));
    }
  }

  /** A ring issues no connect, whichever of its calls fails. */
  lemma NoConnectInRing(a: Pwm.Config, b: Pwm.Config, c: nat, failing: set<nat>)
    ensures Count(RingLog(a, b, c, failing), ConnectTo(ServerAddr, Port)) == 0
  {
    var ring, script := RingLog(a, b, c, failing), Script(a, b);
    assert forall k :: 0 <= k < |script| ==> !script[k].ConnectTo?;
    forall k | 0 <= k < |ring|
      ensures !ring[k].ConnectTo?
    {
      if k < |ring| - 1 || RingOk(c, failing) {
        assert ring[k] == script[k];
      }
    }
    CountAbsent(ring, ConnectTo(ServerAddr, Port));
  }

  lemma {:induction false} NoConnectInReads(a: Pwm.Config, b: Pwm.Config, results: seq<ReadResult>, failing: set<nat>, k: nat, c: nat)
    requires k <= |results|
    ensures Count(ReadAt(a, b, results, failing, k, c), ConnectTo(ServerAddr, Port)) == 0
    decreases |results| - k
  {
    var t := ConnectTo(ServerAddr, Port);
    if k < |results| && results[k].ReadOk? {
      var ring := RingLog(a, b, c, failing);
      var rest := if RingOk(c, failing) then ReadAt(a, b, results, failing, k + 1, c + 4) else [];
      if RingOk(c, failing) {
        NoConnectInReads(a, b, results, failing, k + 1, c + 4);
      }
      NoConnectInRing(a, b, c, failing);
      CountConcat([ReadInto(BufSize)], ring + rest, t);
      CountConcat(ring, rest, t);
    }
  }

  lemma {:induction false} CountAbsent(log: seq<Action>, a: Action)
    requires a !in log
    ensures Count(log, a) == 0
  {
    if log != [] {
      assert a !in log[1..];
      CountAbsent(log[1..], a);
    }
  }

  /** From the link wait on, the connect is logged exactly once. */
  lemma ConnectLogOnce(connects: seq<bool>, results: seq<ReadResult>, failing: set<nat>)
    ensures Count([WaitLinkUp] + ConnectLog(connects, results, failing), ConnectTo(ServerAddr, Port)) == 1
  {
    var t := ConnectTo(ServerAddr, Port);
    var rest := if connects == [] then []
      else if !connects[0] then [Panic]
      else [SetTimeout(TimeoutSecs), SetKeepAlive(KeepAliveSecs)] + ReadAt(ToneA, ToneB, results, failing, 0, 1);
    if connects != [] && connects[0] {
      var opts := [SetTimeout(TimeoutSecs), SetKeepAlive(KeepAliveSecs)];
      NoConnectInReads(ToneA, ToneB, results, failing, 0, 1);
      CountAbsent(opts, t);
      CountConcat(opts, ReadAt(ToneA, ToneB, results, failing, 0, 1), t);
    } else {
      CountAbsent(rest, t);
    }
    var socket := [NewSocket, t];
    assert ConnectLog(connects, results, failing) == socket + rest;
    CountConcat([NewSocket], [t], t);
    assert [NewSocket] + [t] == socket;
    CountConcat(socket, rest, t);
    CountConcat([WaitLinkUp], socket + rest, t);
  }

  /** The client connects at most once in a whole run. */
  lemma ConnectOnce(joins: seq<JoinResult>, connects: seq<bool>, results: seq<ReadResult>, failing: set<nat>)
    ensures Count(ClientLog(joins, connects, results, failing), ConnectTo(ServerAddr, Port)) <= 1
  {
    var t := ConnectTo(ServerAddr, Port);
    var log := ClientLog(joins, connects, results, failing);
    if 0 in failing {
      CountAbsent(log, t);
    } else {
      var setup := [ApplyConfig(ToneA), SetDuty(0)];
      var head := setup + JoinAt(joins, 0);
      NoConnectInJoin(joins, 0);
      CountAbsent(setup, t);
      CountConcat(setup, JoinAt(joins, 0), t);
      if Attempts(joins, 0) < |joins| {
        ConnectLogOnce(connects, results, failing);
        CountConcat(head, [WaitLinkUp] + ConnectLog(connects, results, failing), t);
      } else {
        assert log == head + [] && head + [] == head;
      }
    }
  }

  /**
   * If the connect fails the client panics right away; otherwise it sets the
   * 20 s timeout and the 10 s keep-alive before it reads.
   */
  lemma ConnectOutcome(connects: seq<bool>, results: seq<ReadResult>, failing: set<nat>)
    ensures var log := ConnectLog(connects, results, failing);
      && (connects != [] && !connects[0] ==> log == [NewSocket, ConnectTo(ServerAddr, Port), Panic])
      && (connects != [] && connects[0] ==> log[2..4] == [SetTimeout(TimeoutSecs), SetKeepAlive(KeepAliveSecs)])
  {
  }

  /** A run in which the first join fails with status -1, the second succeeds, the connect works and one read arrives before a read error. */
  lemma ExampleRun()
    ensures ClientLog([JoinFailed(-1), Joined], [true], [ReadOk([0x68]), ReadErr], {})
      == [ApplyConfig(ToneA), SetDuty(0), JoinNetwork(Ssid), ReportJoinFailure(-1), JoinNetwork(Ssid),
          WaitLinkUp, NewSocket, ConnectTo(ServerAddr, Port), SetTimeout(TimeoutSecs), SetKeepAlive(KeepAliveSecs),
          ReadInto(BufSize)] + Script(ToneA, ToneB) + [ReadInto(BufSize)]
  {
  }
}
