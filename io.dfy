/**
 * The boundary between the firmware's application loops and the hardware and
 * network they drive. Each loop is modelled as a transducer: it consumes the
 * outcomes the environment delivers (accept, edge, read and write results) and
 * records, in order, the actions it performs. This module holds the action
 * vocabulary, the read outcome, and generic facts about action logs.
 */
module Io {
  import Pwm

  type byte = x: int | 0 <= x < 0x100

  datatype Ipv4 = Ipv4(a: byte, b: byte, c: byte, d: byte)

  /** What one `socket.read(&mut buf)` returns: `Ok(bytes)` or `Err(_)`. */
  datatype ReadResult = ReadOk(data: seq<byte>) | ReadErr

  /** One action a loop performs on its environment. */
  datatype Action =
    | NewSocket                     // `TcpSocket::new` on the reused rx/tx buffers
    | SetTimeout(secs: nat)         // `socket.set_timeout(Some(secs))`
    | SetKeepAlive(secs: nat)       // `socket.set_keep_alive(Some(secs))`
    | SetLed(on: bool)              // `control.gpio_set(0, on)`: the status LED
    | AcceptOn(port: nat)           // `socket.accept(port)` issued
    | JoinNetwork(ssid: string)     // `control.join(ssid, ...)` issued
    | ReportJoinFailure(status: int) // the log line for one failed join
    | WaitLinkUp                    // `stack.wait_link_up()`
    | ConnectTo(addr: Ipv4, port: nat) // `socket.connect(...)` issued
    | ReadInto(capacity: nat)       // `socket.read` into a buffer of that size
    | WriteAll(payload: seq<byte>)  // `socket.write_all(payload)` issued
    | SetDutyPercent(percent: nat)  // `pwm.set_duty_cycle_percent(percent)`
    | SetDuty(value: nat)           // `pwm.set_duty_cycle(value)`
    | ApplyConfig(config: Pwm.Config) // `pwm.set_config(&config)`
    | Wait(ms: nat)                 // `Timer::after(ms)`
    | Panic                         // a failed `unwrap`/`expect`: the device halts

  /** Number of occurrences of `a` in `log`. */
  function Count(log: seq<Action>, a: Action): nat
  {
    if log == [] then 0 else (if log[0] == a then 1 else 0) + Count(log[1..], a)
  }

  lemma {:induction false} CountConcat(x: seq<Action>, y: seq<Action>, a: Action)
    ensures Count(x + y, a) == Count(x, a) + Count(y, a)
  {
    if x != [] {
      assert (x + y)[1..] == x[1..] + y;
      CountConcat(x[1..], y, a);
    } else {
      assert x + y == y;
    }
  }

  /** Every occurrence of `a` in `log` has `b` right before it. */
  ghost predicate PrecededBy(log: seq<Action>, a: Action, b: Action)
  {
    forall i :: 0 <= i < |log| && log[i] == a ==> 0 < i && log[i - 1] == b
  }

  /** Every occurrence of `a` in `log` that is not the last action has a member of `next` right after it. */
  ghost predicate FollowedBy(log: seq<Action>, a: Action, next: set<Action>)
  {
    forall i :: 0 <= i < |log| - 1 && log[i] == a ==> log[i + 1] in next
  }

  /** An occurrence of `a` at the front of `y` has no predecessor in `y`, so the seam needs no check. */
  lemma PrecededByConcat(x: seq<Action>, y: seq<Action>, a: Action, b: Action)
    requires PrecededBy(x, a, b) && PrecededBy(y, a, b)
    ensures PrecededBy(x + y, a, b)
  {
    var xy := x + y;
    forall i | 0 <= i < |xy| && xy[i] == a
      ensures 0 < i && xy[i - 1] == b
    {
      if i >= |x| {
        assert xy[i] == y[i - |x|];
        if i > |x| { assert xy[i - 1] == y[i - 1 - |x|]; }
      }
    }
  }

  lemma FollowedByConcat(x: seq<Action>, y: seq<Action>, a: Action, next: set<Action>)
    requires FollowedBy(x, a, next) && FollowedBy(y, a, next)
    requires x != [] && x[|x| - 1] == a && y != [] ==> y[0] in next
    ensures FollowedBy(x + y, a, next)
  {
    var xy := x + y;
    forall i | 0 <= i < |xy| - 1 && xy[i] == a
      ensures xy[i + 1] in next
    {
      if i >= |x| {
        assert xy[i] == y[i - |x|] && xy[i + 1] == y[i + 1 - |x|];
      } else if i == |x| - 1 {
        assert xy[i + 1] == y[0];
      }
    }
  }

  lemma AppendAssoc(a: seq<Action>, b: seq<Action>, c: seq<Action>)
    ensures a + (b + c) == (a + b) + c
  {
  }

  /** The actions that come right after each occurrence of `a` in `log`, in order; an occurrence at the very end has none. */
  function AfterEach(log: seq<Action>, a: Action): (r: seq<Action>)
    ensures |r| <= |log|
  {
    if |log| < 2 then [] else (if log[0] == a then [log[1]] else []) + AfterEach(log[1..], a)
  }

  lemma {:induction false} AfterEachAbsent(log: seq<Action>, a: Action)
    requires a !in log
    ensures AfterEach(log, a) == []
  {
    if |log| >= 2 {
      assert log[0] != a;
      AfterEachAbsent(log[1..], a);
    }
  }

  /** The successor of a last action `a` at the seam of `x + y`, if there is one. */
  function Seam(x: seq<Action>, y: seq<Action>, a: Action): seq<Action>
  {
    if x != [] && y != [] && x[|x| - 1] == a then [y[0]] else []
  }

  /** One action, then the rest. */
  lemma AfterEachCons(h: Action, t: seq<Action>, a: Action)
    ensures AfterEach([h] + t, a) == (if h == a && t != [] then [t[0]] else []) + AfterEach(t, a)
  {
    assert ([h] + t)[1..] == t;
  }

  /** The successors in a concatenation: those in each part, and the seam's if the first part ends in `a`. */
  lemma {:induction false} AfterEachConcat(x: seq<Action>, y: seq<Action>, a: Action)
    ensures AfterEach(x + y, a) == AfterEach(x, a) + Seam(x, y, a) + AfterEach(y, a)
  {
    if x == [] {
      assert x + y == y;
    } else if |x| == 1 {
      AfterEachSingle(x[0], y, a);
      assert x == [x[0]];
    } else {
      var h, x' := x[0], x[1..];
      assert x == [h] + x' && x + y == [h] + (x' + y);
      AfterEachConcat(x', y, a);
      AfterEachConsStep(h, x', y, a);
    }
  }

  lemma AfterEachSingle(h: Action, y: seq<Action>, a: Action)
    ensures AfterEach([h] + y, a) == AfterEach([h], a) + Seam([h], y, a) + AfterEach(y, a)
  {
    AfterEachCons(h, y, a);
    AfterEachCons(h, [], a);
    assert [h] + [] == [h];
  }

  /** The inductive step of `AfterEachConcat`: putting one action in front of a non-empty first part. */
  lemma AfterEachConsStep(h: Action, x: seq<Action>, y: seq<Action>, a: Action)
    requires x != []
    requires AfterEach(x + y, a) == AfterEach(x, a) + Seam(x, y, a) + AfterEach(y, a)
    ensures AfterEach([h] + (x + y), a) == AfterEach([h] + x, a) + Seam([h] + x, y, a) + AfterEach(y, a)
  {
    var head := if h == a then [x[0]] else [];
    AfterEachCons(h, x + y, a);
    assert (x + y)[0] == x[0];
    AfterEachCons(h, x, a);
    assert ([h] + x)[|[h] + x| - 1] == x[|x| - 1];
    assert Seam([h] + x, y, a) == Seam(x, y, a);
    AppendAssoc(head, AfterEach(x, a) + Seam(x, y, a), AfterEach(y, a));
    AppendAssoc(head, AfterEach(x, a), Seam(x, y, a));
  }

  /** A block ending in `a`, then a block `m` free of `a`: the `a` is followed by `m`'s first action, and nothing else counts. */
  lemma AfterEachPair(x: seq<Action>, m: seq<Action>, a: Action)
    requires AfterEach(x, a) == [] && x != [] && x[|x| - 1] == a
    requires m != [] && a !in m
    ensures AfterEach(x + m, a) == [m[0]]
  {
    AfterEachConcat(x, m, a);
    AfterEachAbsent(m, a);
    assert Seam(x, m, a) == [m[0]];
  }

  /** A block whose last action is not `a` adds nothing at the seam. */
  lemma AfterEachNoSeam(x: seq<Action>, t: seq<Action>, a: Action)
    requires x != [] && x[|x| - 1] != a
    ensures AfterEach(x + t, a) == AfterEach(x, a) + AfterEach(t, a)
  {
    AfterEachConcat(x, t, a);
    assert Seam(x, t, a) == [];
  }

  /**
   * A block `m` without `a` after a prefix ending in `a`: the prefix's last
   * `a` is followed by the block's head, and the whole ends in `a` only when
   * the rest does.
   */
  lemma AfterEachBlockEnds(x: seq<Action>, m: seq<Action>, t: seq<Action>, a: Action)
    requires AfterEach(x, a) == [] && x != [] && x[|x| - 1] == a
    requires m != [] && a !in m
    ensures AfterEach(x + m + t, a) == [m[0]] + AfterEach(t, a)
    ensures EndsIn(x + m + t, a) <==> EndsIn(t, a)
  {
    AfterEachBlock(x, m, t, a);
    if t == [] {
      assert x + m + t == x + m;
      EndsInConcat(x, m, a);
    } else {
      EndsInConcat(x + m, t, a);
    }
  }

  /** After a prefix ending in `a` whose own accepts have no successor, the first successor is the suffix's head. */
  lemma AfterEachResume(x: seq<Action>, t: seq<Action>, a: Action)
    requires AfterEach(x, a) == [] && x != [] && x[|x| - 1] == a && t != []
    ensures AfterEach(x + t, a) == [t[0]] + AfterEach(t, a)
    ensures EndsIn(x + t, a) <==> EndsIn(t, a)
  {
    AfterEachConcat(x, t, a);
    EndsInConcat(x, t, a);
  }

  /** A block ending in its only `a`, a block `m` free of `a`, then the rest: the `a` is followed by `m`'s first action. */
  lemma AfterEachBlock(x: seq<Action>, m: seq<Action>, t: seq<Action>, a: Action)
    requires AfterEach(x, a) == [] && x != [] && x[|x| - 1] == a
    requires m != [] && a !in m
    ensures AfterEach(x + m + t, a) == [m[0]] + AfterEach(t, a)
  {
    var xm := x + m;
    AfterEachPair(x, m, a);
    assert xm[|xm| - 1] == m[|m| - 1];
    AfterEachNoSeam(xm, t, a);
  }

  /** `log` ends with `a`: the program is blocked in that action. */
  predicate EndsIn(log: seq<Action>, a: Action)
  {
    log != [] && log[|log| - 1] == a
  }

  /** A concatenation ends the way its non-empty second part does. */
  lemma EndsInConcat(x: seq<Action>, y: seq<Action>, a: Action)
    requires y != []
    ensures EndsIn(x + y, a) <==> EndsIn(y, a)
  {
    assert (x + y)[|x + y| - 1] == y[|y| - 1];
  }

  /**
   * How a retry loop over a stream of `total` outcomes ends, where `o` are the
   * successors of its attempts `a` from outcome `i` on: after a failure
   * (followed by `failed`), or before any outcome, the log ends blocked in a
   * new attempt; and it ends blocked in an attempt only once every outcome has
   * been consumed.
   */
  predicate Retried(log: seq<Action>, o: seq<Action>, i: nat, total: nat, a: Action, failed: Action)
  {
    && ((o == [] || o[|o| - 1] == failed) ==> EndsIn(log, a))
    && (EndsIn(log, a) ==> i + |o| == total)
  }

  /** One more attempt in front, whatever its successor `x`. */
  lemma RetriedCons(log: seq<Action>, t: seq<Action>, x: Action, o: seq<Action>, i: nat, total: nat, a: Action, failed: Action)
    requires Retried(t, o, i + 1, total, a, failed)
    requires EndsIn(log, a) <==> EndsIn(t, a)
    ensures Retried(log, [x] + o, i, total, a, failed)
  {
    if o != [] {
      assert ([x] + o)[|[x] + o| - 1] == o[|o| - 1];
    }
  }

  /**
   * `o` lists, from outcome `i` of a stream of boolean outcomes on, one action
   * per outcome: `ok` for a success and `failed` for a failure.
   */
  ghost predicate Outcomes(o: seq<Action>, outcomes: seq<bool>, i: nat, ok: Action, failed: Action)
  {
    && i + |o| <= |outcomes|
    && forall k :: 0 <= k < |o| ==> o[k] == (if outcomes[i + k] then ok else failed)
  }

  lemma OutcomesCons(x: Action, o: seq<Action>, outcomes: seq<bool>, i: nat, ok: Action, failed: Action)
    requires i < |outcomes| && x == (if outcomes[i] then ok else failed)
    requires Outcomes(o, outcomes, i + 1, ok, failed)
    ensures Outcomes([x] + o, outcomes, i, ok, failed)
  {
    var xo := [x] + o;
    forall k | 0 <= k < |xo|
      ensures xo[k] == (if outcomes[i + k] then ok else failed)
    {
      if k > 0 {
        assert xo[k] == o[k - 1];
      }
    }
  }

  /** Outcome lists side by side cover consecutive stretches of the stream. */
  lemma OutcomesConcat(p: seq<Action>, q: seq<Action>, outcomes: seq<bool>, i: nat, ok: Action, failed: Action)
    requires Outcomes(p, outcomes, i, ok, failed) && Outcomes(q, outcomes, i + |p|, ok, failed)
    ensures Outcomes(p + q, outcomes, i, ok, failed)
  {
    var pq := p + q;
    forall k | 0 <= k < |pq|
      ensures pq[k] == (if outcomes[i + k] then ok else failed)
    {
      if k >= |p| {
        assert pq[k] == q[k - |p|] && i + k == (i + |p|) + (k - |p|);
      }
    }
  }

  /** A prefix without `a` adds no successor of `a`, and the whole ends the way its non-empty rest does. */
  lemma AfterEachSkip(x: seq<Action>, y: seq<Action>, a: Action)
    requires a !in x
    ensures AfterEach(x + y, a) == AfterEach(y, a)
    ensures y != [] ==> (EndsIn(x + y, a) <==> EndsIn(y, a))
  {
    AfterEachConcat(x, y, a);
    AfterEachAbsent(x, a);
    if x != [] {
      assert x[|x| - 1] in x;
    }
    if y != [] {
      EndsInConcat(x, y, a);
    }
  }

  /** The mark `Erased` leaves in place of a write, whatever its bytes. */
  const AnyWrite: Action := WriteAll([])

  /** The log with the bytes of every write erased, so that what follows a write of any bytes is an `AfterEach` question. */
  function Erased(log: seq<Action>): (r: seq<Action>)
    ensures |r| == |log|
    ensures forall k :: 0 <= k < |log| ==> r[k] == if log[k].WriteAll? then AnyWrite else log[k]
  {
    seq(|log|, k requires 0 <= k < |log| => if log[k].WriteAll? then AnyWrite else log[k])
  }

  lemma ErasedConcat(x: seq<Action>, y: seq<Action>)
    ensures Erased(x + y) == Erased(x) + Erased(y)
  {
    var xy := x + y;
    forall k | 0 <= k < |xy|
      ensures Erased(xy)[k] == (Erased(x) + Erased(y))[k]
    {
      if k >= |x| {
        assert xy[k] == y[k - |x|];
      } else {
        assert xy[k] == x[k];
      }
    }
  }

  /** Erasing a log without writes changes nothing. */
  lemma ErasedNoWrites(x: seq<Action>)
    requires forall k :: 0 <= k < |x| ==> !x[k].WriteAll?
    ensures Erased(x) == x && AnyWrite !in x
  {
  }

  /** Sum of all the waits in `log`, in ms. */
  function TotalWait(log: seq<Action>): nat
  {
    if log == [] then 0 else (if log[0].Wait? then log[0].ms else 0) + TotalWait(log[1..])
  }

  lemma {:induction false} TotalWaitConcat(x: seq<Action>, y: seq<Action>)
    ensures TotalWait(x + y) == TotalWait(x) + TotalWait(y)
  {
    if x != [] {
      assert (x + y)[1..] == x[1..] + y;
      TotalWaitConcat(x[1..], y);
    } else {
      assert x + y == y;
    }
  }

  // What the buzzer on the PWM pin emits. This is the model's reading of the
  // PWM entries of a log, used to state what a script sounds like: the slice
  // drives its configured tone while the duty cycle is non-zero, and a wait
  // lets that tone sound for its duration.

  /** The PWM slice as the log leaves it: its configuration and whether its duty cycle is non-zero. */
  datatype PwmState = PwmState(config: Pwm.Config, on: bool)

  /** A stretch of time during which one configuration sounds. */
  datatype Segment = Segment(config: Pwm.Config, ms: nat)

  /** The effect of one action on the slice. `set_config` also loads the configuration's compare value. */
  function PwmStep(s: PwmState, a: Action): PwmState
  {
    match a
    case SetDutyPercent(p) => s.(on := p > 0)
    case SetDuty(v) => s.(on := v > 0)
    case ApplyConfig(c) => PwmState(c, c.enable && c.compareA > 0)
    case _ => s
  }

  /** The slice's state after the whole log. */
  function PwmAfter(log: seq<Action>, s: PwmState): PwmState
  {
    if log == [] then s else PwmAfter(log[1..], PwmStep(s, log[0]))
  }

  /** The tones that sound while the log runs, in order. */
  function Audible(log: seq<Action>, s: PwmState): seq<Segment>
  {
    if log == [] then []
    else
      (if log[0].Wait? && s.on && log[0].ms > 0 then [Segment(s.config, log[0].ms)] else [])
      + Audible(log[1..], PwmStep(s, log[0]))
  }

  /** One action, then the rest. */
  lemma AudibleCons(a: Action, rest: seq<Action>, s: PwmState)
    ensures Audible([a] + rest, s)
      == (if a.Wait? && s.on && a.ms > 0 then [Segment(s.config, a.ms)] else []) + Audible(rest, PwmStep(s, a))
    ensures PwmAfter([a] + rest, s) == PwmAfter(rest, PwmStep(s, a))
  {
    assert ([a] + rest)[1..] == rest;
  }

  /** What a concatenation sounds like is what its parts sound like, one after the other. */
  lemma {:induction false} AudibleConcat(x: seq<Action>, y: seq<Action>, s: PwmState)
    ensures Audible(x + y, s) == Audible(x, s) + Audible(y, PwmAfter(x, s))
    ensures PwmAfter(x + y, s) == PwmAfter(y, PwmAfter(x, s))
  {
    if x != [] {
      assert (x + y)[1..] == x[1..] + y;
      AudibleConcat(x[1..], y, PwmStep(s, x[0]));
    } else {
      assert x + y == y;
    }
  }

  /** No action of `log` acts on the PWM slice. */
  predicate Quiet(log: seq<Action>)
  {
    forall k :: 0 <= k < |log| ==>
      !log[k].Wait? && !log[k].SetDutyPercent? && !log[k].SetDuty? && !log[k].ApplyConfig?
  }

  lemma QuietConcat(x: seq<Action>, y: seq<Action>)
    requires Quiet(x) && Quiet(y)
    ensures Quiet(x + y)
  {
    var xy := x + y;
    forall k | 0 <= k < |xy|
      ensures !xy[k].Wait? && !xy[k].SetDutyPercent? && !xy[k].SetDuty? && !xy[k].ApplyConfig?
    {
      if k < |x| { assert xy[k] == x[k]; } else { assert xy[k] == y[k - |x|]; }
    }
  }

  /** A log that does not act on the slice is silent and leaves the slice as it was. */
  lemma {:induction false} QuietSound(log: seq<Action>, s: PwmState)
    requires Quiet(log)
    ensures Audible(log, s) == [] && PwmAfter(log, s) == s
  {
    if log != [] {
      assert Quiet(log[1..]) by {
        forall k | 0 <= k < |log[1..]|
          ensures !log[1..][k].Wait? && !log[1..][k].SetDutyPercent? && !log[1..][k].SetDuty? && !log[1..][k].ApplyConfig?
        {
          assert log[1..][k] == log[k + 1];
        }
      }
      QuietSound(log[1..], s);
      assert PwmStep(s, log[0]) == s;
    }
  }
}
