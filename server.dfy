/**
 * The sensor node's application loop (src/bin/server/main.rs): an outer loop that
 * builds a socket, turns the status LED off and accepts one connection, and an
 * inner loop that waits for rising edges on the trigger pin and writes `high\n`
 * for every edge that comes more than 5000 ms after the last one it sent.
 *
 * The environment is given as three streams: the outcome of each accept, the
 * timestamp (ms since boot) of each rising edge, and the outcome of each write.
 * Positions into the streams say how much of each has been consumed. A stream
 * that runs out leaves the program blocked on that operation, so a run over
 * finite streams ends there.
 */
module SensorServer {
  import opened Io

  const Port: nat := 1234
  const DebounceMs: nat := 5000
  const SocketTimeoutSecs: nat := 20
  const KeepAliveSecs: nat := 10
  /** The literal `b"high\n"`. */
  const Payload: seq<byte> := [0x68, 0x69, 0x67, 0x68, 0x0A]

  /** One pass through the head of the outer loop: new socket, its timeouts, LED off, accept issued. */
  const Listen: seq<Action> :=
    [NewSocket, SetTimeout(SocketTimeoutSecs), SetKeepAlive(KeepAliveSecs), SetLed(false), AcceptOn(Port)]

  /** The debounce gate `now.duration_since(last_sent).as_millis() > 5000`. */
  predicate Passes(lastSent: nat, now: nat)
  {
    now - lastSent > DebounceMs
  }

  /**
   * The edges that pass the gate when `last` is the time of the previous send:
   * the reference for what a connection sends, independent of write outcomes.
   */
  function Debounce(edges: seq<nat>, last: nat): (r: seq<nat>)
    ensures |r| <= |edges|
  {
    if edges == [] then []
    else if Passes(last, edges[0]) then [edges[0]] + Debounce(edges[1..], edges[0])
    else Debounce(edges[1..], last)
  }

  /** Every timestamp is more than 5000 ms after the one before it, the first more than 5000 ms after `last`. */
  ghost predicate Spaced(last: nat, ts: seq<nat>)
  {
    && (ts != [] ==> ts[0] - last > DebounceMs)
    && forall i :: 0 < i < |ts| ==> ts[i] - ts[i - 1] > DebounceMs
  }

  /**
   * What one connection's inner loop did: the edge times it issued a write for,
   * the stream positions it stopped at, and whether it left through a failed write.
   */
  datatype Session = Session(sent: seq<nat>, edgesEnd: nat, writesEnd: nat, broken: bool)

  /**
   * The inner loop from edge position `e` and write position `w` with the given
   * `lastSent`. A passing edge issues a write; the loop ends when a write fails
   * or when the stream it waits on runs out.
   */
  function SessionAt(edges: seq<nat>, writes: seq<bool>, e: nat, w: nat, lastSent: nat): (r: Session)
    requires e <= |edges| && w <= |writes|
    ensures e <= r.edgesEnd <= |edges| && w <= r.writesEnd <= |writes|
    decreases |edges| - e
  {
    if e == |edges| then Session([], e, w, false)
    else if !Passes(lastSent, edges[e]) then SessionAt(edges, writes, e + 1, w, lastSent)
    else if w == |writes| then Session([edges[e]], e + 1, w, false)
    else if !writes[w] then Session([edges[e]], e + 1, w + 1, true)
    else
      var r := SessionAt(edges, writes, e + 1, w + 1, edges[e]);
      r.(sent := [edges[e]] + r.sent)
  }

  /** `n` writes of the payload. */
  function Writes(n: nat): (r: seq<Action>)
    ensures |r| == n && forall i :: 0 <= i < n ==> r[i] == WriteAll(Payload)
  {
    if n == 0 then [] else Writes(n - 1) + [WriteAll(Payload)]
  }

  /**
   * The run from accept position `i`. An accept error goes back to a fresh
   * socket; an accepted connection turns the LED on and runs the inner loop with
   * `last_sent` at tick 0; only a failed write leads back to the outer loop.
   */
  function ServerAt(accepts: seq<bool>, edges: seq<nat>, writes: seq<bool>, i: nat, e: nat, w: nat): (r: seq<Action>)
    requires i <= |accepts| && e <= |edges| && w <= |writes|
    ensures |Listen| <= |r| && r[..|Listen|] == Listen
    decreases |accepts| - i
  {
    if i == |accepts| then Listen
    else if !accepts[i] then Listen + ServerAt(accepts, edges, writes, i + 1, e, w)
    else
      var s := SessionAt(edges, writes, e, w, 0);
      Listen + [SetLed(true)] + Writes(|s.sent|)
      + if s.broken then ServerAt(accepts, edges, writes, i + 1, s.edgesEnd, s.writesEnd) else []
  }

  /** The log of a whole run over the given streams. */
  function ServerLog(accepts: seq<bool>, edges: seq<nat>, writes: seq<bool>): (r: seq<Action>)
    ensures |Listen| <= |r| && r[..|Listen|] == Listen
  {
    ServerAt(accepts, edges, writes, 0, 0, 0)
  }

  // ---------------------------------------------------------------------------
  // The loops

  /**
   * The inner loop of one connection: wait for an edge, gate it against
   * `last_sent` (which starts at tick 0), set `last_sent` and write the payload
   * for an edge that passes, and leave the loop when a write fails. Returns the
   * writes it issued, the stream positions it reached, and whether it left
   * through a failed write (otherwise a stream ran out while it waited).
   */
  method Connection(edges: seq<nat>, writes: seq<bool>, e0: nat, w0: nat)
    returns (issued: seq<Action>, e: nat, w: nat, broken: bool)
    requires e0 <= |edges| && w0 <= |writes|
    ensures var s := SessionAt(edges, writes, e0, w0, 0);
      && issued == Writes(|s.sent|) && broken == s.broken
      && e == s.edgesEnd && w == s.writesEnd
  {
    issued, e, w := [], e0, w0;
    var lastSent: nat := 0;
    ghost var sent: seq<nat> := [];
    ghost var whole := SessionAt(edges, writes, e0, w0, 0);
    while true
      invariant e0 <= e <= |edges| && w0 <= w <= |writes|
      invariant whole == SessionAt(edges, writes, e, w, lastSent).(sent := sent + SessionAt(edges, writes, e, w, lastSent).sent)
      invariant issued == Writes(|sent|)
      decreases |edges| - e
    {
      if e == |edges| {
        assert sent + [] == sent;
        return issued, e, w, false;
      }
      var now := edges[e];
      if now - lastSent > DebounceMs {
        lastSent := now;
        issued := issued + [WriteAll(Payload)];
        if w == |writes| {
          sent := sent + [now];
          return issued, e + 1, w, false;
        }
        if !writes[w] {
          sent := sent + [now];
          return issued, e + 1, w + 1, true;
        }
        assert sent + ([now] + SessionAt(edges, writes, e + 1, w + 1, now).sent)
          == (sent + [now]) + SessionAt(edges, writes, e + 1, w + 1, now).sent;
        sent := sent + [now];
        w := w + 1;
      }
      e := e + 1;
    }
  }

  /** A pass of the outer loop whose accept fails leaves the rest of the run to the next accept. */
  lemma SkipStep(accepts: seq<bool>, edges: seq<nat>, writes: seq<bool>, i: nat, e: nat, w: nat, before: seq<Action>)
    requires i < |accepts| && !accepts[i] && e <= |edges| && w <= |writes|
    requires before + ServerAt(accepts, edges, writes, i, e, w) == ServerLog(accepts, edges, writes)
    ensures (before + Listen) + ServerAt(accepts, edges, writes, i + 1, e, w) == ServerLog(accepts, edges, writes)
  {
    AppendAssoc(before, Listen, ServerAt(accepts, edges, writes, i + 1, e, w));
  }

  /** A pass of the outer loop that serves a client: the run goes on with the next accept exactly when a write broke the connection. */
  lemma ServeStep(accepts: seq<bool>, edges: seq<nat>, writes: seq<bool>, i: nat, e: nat, w: nat,
                  before: seq<Action>, issued: seq<Action>)
    requires i < |accepts| && accepts[i] && e <= |edges| && w <= |writes|
    requires before + ServerAt(accepts, edges, writes, i, e, w) == ServerLog(accepts, edges, writes)
    requires issued == Writes(|SessionAt(edges, writes, e, w, 0).sent|)
    ensures var s := SessionAt(edges, writes, e, w, 0);
      var tail := if s.broken then ServerAt(accepts, edges, writes, i + 1, s.edgesEnd, s.writesEnd) else [];
      before + Listen + [SetLed(true)] + issued + tail == ServerLog(accepts, edges, writes)
  {
    var s := SessionAt(edges, writes, e, w, 0);
    var tail := if s.broken then ServerAt(accepts, edges, writes, i + 1, s.edgesEnd, s.writesEnd) else [];
    var pass := Listen + [SetLed(true)] + issued;
    assert ServerAt(accepts, edges, writes, i, e, w) == pass + tail;
    AppendAssoc(before, pass, tail);
    AppendAssoc(before, Listen + [SetLed(true)], issued);
    AppendAssoc(before, Listen, [SetLed(true)]);
  }

  /** `main`'s outer loop, run until the environment streams run out. */
  method Serve(accepts: seq<bool>, edges: seq<nat>, writes: seq<bool>) returns (log: seq<Action>)
    ensures log == ServerLog(accepts, edges, writes)
  {
    log := [];
    var i: nat, e: nat, w: nat := 0, 0, 0;
    while true
      invariant i <= |accepts| && e <= |edges| && w <= |writes|
      invariant log + ServerAt(accepts, edges, writes, i, e, w) == ServerLog(accepts, edges, writes)
      decreases |accepts| - i
    {
      ghost var before := log;
      log := log + [NewSocket, SetTimeout(SocketTimeoutSecs), SetKeepAlive(KeepAliveSecs)];
      log := log + [SetLed(false), AcceptOn(Port)];
      assert log == before + Listen;
      if i == |accepts| {
        return;
      }
      if !accepts[i] {
        SkipStep(accepts, edges, writes, i, e, w, before);
        i := i + 1;
        continue;
      }
      log := log + [SetLed(true)];
      var issued, e', w', broken := Connection(edges, writes, e, w);
      log := log + issued;
      ServeStep(accepts, edges, writes, i, e, w, before, issued);
      if !broken {
        assert log + [] == log;
        return;
      }
      i, e, w := i + 1, e', w';
    }
  }

  // ---------------------------------------------------------------------------
  // Properties

  /** The debounce gate is strict: an edge exactly 5000 ms after the last send is dropped. */
  lemma GateBoundary()
    ensures !Passes(0, 5000) && Passes(0, 5001)
    ensures !Passes(12000, 17000) && Passes(12000, 17001)
  {
  }

  /** The payload spells `high` followed by a newline. */
  lemma PayloadSpellsHigh()
    ensures |Payload| == 5
    ensures forall k :: 0 <= k < 5 ==> Payload[k] == "high\n"[k] as int
  {
  }

  /**
   * `last_sent` starts at tick 0, the boot instant, not at the accept: edges in
   * the first 5000 ms after boot are dropped on a connection that begins then,
   * while a connection that begins later sends its first edge at once.
   */
  lemma DebounceExamples()
    ensures Debounce([0, 100, 6000], 0) == [6000]
    ensures Debounce([10000, 10100, 16000], 0) == [10000, 16000]
    ensures Debounce([6000, 11000, 11001], 0) == [6000, 11001]
  {
  }

  /** What the gate sends is spaced: each send is more than 5000 ms after the previous one. */
  lemma {:induction false} DebounceSpaced(edges: seq<nat>, last: nat)
    ensures Spaced(last, Debounce(edges, last))
  {
    if edges != [] {
      if Passes(last, edges[0]) {
        var rest := Debounce(edges[1..], edges[0]);
        DebounceSpaced(edges[1..], edges[0]);
        var d := [edges[0]] + rest;
        forall i | 0 < i < |d|
          ensures d[i] - d[i - 1] > DebounceMs
        {
          if i > 1 {
            assert d[i] == rest[i - 1] && d[i - 1] == rest[i - 2];
          }
        }
      } else {
        DebounceSpaced(edges[1..], last);
      }
    }
  }

  /**
   * A connection sends for exactly the edges the gate passes, among the edges it
   * consumed: a dropped edge writes nothing and leaves `last_sent` unchanged, and
   * write outcomes decide only where the connection ends, never which edges pass.
   */
  lemma {:induction false} SessionFollowsDebounce(edges: seq<nat>, writes: seq<bool>, e: nat, w: nat, last: nat)
    requires e <= |edges| && w <= |writes|
    ensures var r := SessionAt(edges, writes, e, w, last);
      r.sent == Debounce(edges[e..r.edgesEnd], last)
    decreases |edges| - e
  {
    var r := SessionAt(edges, writes, e, w, last);
    if e < |edges| {
      var d := edges[e..r.edgesEnd];
      assert d[0] == edges[e] && d[1..] == edges[e + 1..r.edgesEnd];
      if !Passes(last, edges[e]) {
        SessionFollowsDebounce(edges, writes, e + 1, w, last);
      } else if w < |writes| && writes[w] {
        SessionFollowsDebounce(edges, writes, e + 1, w + 1, edges[e]);
      }
    }
  }

  /**
   * Within one connection the written edges are more than 5000 ms apart, and the
   * first is more than 5000 ms after tick 0.
   */
  lemma ConnectionSpaced(edges: seq<nat>, writes: seq<bool>, e: nat, w: nat)
    requires e <= |edges| && w <= |writes|
    ensures Spaced(0, SessionAt(edges, writes, e, w, 0).sent)
  {
    var r := SessionAt(edges, writes, e, w, 0);
    SessionFollowsDebounce(edges, writes, e, w, 0);
    DebounceSpaced(edges[e..r.edgesEnd], 0);
  }

  /**
   * The inner loop ends only on a failed write: it is broken exactly when the
   * last write outcome it consumed is an error, every earlier one succeeded, and
   * otherwise it stopped because a stream ran out. Every sent edge issued one
   * write; only the last one may still await its outcome.
   */
  lemma {:induction false} SessionEndsOnWriteFailure(edges: seq<nat>, writes: seq<bool>, e: nat, w: nat, last: nat)
    requires e <= |edges| && w <= |writes|
    ensures var r := SessionAt(edges, writes, e, w, last);
      && (r.broken <==> r.writesEnd > w && !writes[r.writesEnd - 1])
      && (forall k :: w <= k < r.writesEnd - 1 ==> writes[k])
      && (!r.broken ==> r.edgesEnd == |edges| || r.writesEnd == |writes|)
      && (|r.sent| == r.writesEnd - w || (!r.broken && r.writesEnd == |writes| && |r.sent| == r.writesEnd - w + 1))
    decreases |edges| - e
  {
    if e < |edges| {
      if !Passes(last, edges[e]) {
        SessionEndsOnWriteFailure(edges, writes, e + 1, w, last);
      } else if w < |writes| && writes[w] {
        SessionEndsOnWriteFailure(edges, writes, e + 1, w + 1, edges[e]);
      }
    }
  }

  /** How a connection treats the next edge: it is written exactly when it passes the gate. */
  lemma SessionGate(edges: seq<nat>, writes: seq<bool>, e: nat, w: nat, last: nat)
    requires e < |edges| && w <= |writes|
    ensures var r := SessionAt(edges, writes, e, w, last);
      && (Passes(last, edges[e]) <==> r.sent != [] && r.sent[0] == edges[e])
      && (!Passes(last, edges[e]) ==> r == SessionAt(edges, writes, e + 1, w, last))
      && (Passes(last, edges[e]) && w < |writes| && writes[w] ==>
            r.sent == [edges[e]] + SessionAt(edges, writes, e + 1, w + 1, edges[e]).sent)
  {
    if !Passes(last, edges[e]) {
      var r := SessionAt(edges, writes, e + 1, w, last);
      SessionFollowsDebounce(edges, writes, e + 1, w, last);
      DebounceBounded(edges[e + 1..r.edgesEnd], last);
      if r.sent != [] {
        assert r.sent[0] in edges[e + 1..r.edgesEnd];
      }
    }
  }

  /** Every edge the gate passes is one of the given edges and passes against `last`. */
  lemma {:induction false} DebounceBounded(edges: seq<nat>, last: nat)
    ensures forall t :: t in Debounce(edges, last) ==> t in edges
    ensures Debounce(edges, last) != [] ==> Debounce(edges, last)[0] - last > DebounceMs
  {
    if edges != [] {
      if Passes(last, edges[0]) {
        DebounceBounded(edges[1..], edges[0]);
      } else {
        DebounceBounded(edges[1..], last);
      }
    }
  }

  /**
   * The order the loops impose on the log: every accept comes right after the
   * LED is turned off, the LED is turned on right after an accept, an accept is
   * followed by either a connection (LED on) or, after an accept error, a fresh
   * socket; a write is followed by another write or a fresh socket (which of
   * the two, `WriteOutcomes` says); and the only payload ever written is `high\n`.
   */
  ghost predicate WellFormed(log: seq<Action>)
  {
    && PrecededBy(log, AcceptOn(Port), SetLed(false))
    && PrecededBy(log, SetLed(true), AcceptOn(Port))
    && FollowedBy(log, AcceptOn(Port), {SetLed(true), NewSocket})
    && FollowedBy(log, SetLed(true), {WriteAll(Payload), NewSocket})
    && FollowedBy(log, WriteAll(Payload), {WriteAll(Payload), NewSocket})
    && (forall k :: 0 <= k < |log| && log[k].WriteAll? ==> log[k] == WriteAll(Payload))
  }

  lemma ListenWellFormed()
    ensures WellFormed(Listen)
  {
  }

  /** One accepted connection's part of the log: the outer loop's head, LED on, then `n` writes. */
  lemma ConnectionWellFormed(n: nat)
    ensures WellFormed(Listen + [SetLed(true)] + Writes(n))
  {
    var b := Listen + [SetLed(true)] + Writes(n);
    assert Writes(n) == b[6..];
    forall k | 0 <= k < |b|
      ensures b[k] == (if k < 5 then Listen[k] else if k == 5 then SetLed(true) else WriteAll(Payload))
    {
    }
  }

  lemma WellFormedConcat(x: seq<Action>, y: seq<Action>)
    requires WellFormed(x) && WellFormed(y) && y != [] && y[0] == NewSocket
    ensures WellFormed(x + y)
  {
    PrecededByConcat(x, y, AcceptOn(Port), SetLed(false));
    PrecededByConcat(x, y, SetLed(true), AcceptOn(Port));
    FollowedByConcat(x, y, AcceptOn(Port), {SetLed(true), NewSocket});
    FollowedByConcat(x, y, SetLed(true), {WriteAll(Payload), NewSocket});
    FollowedByConcat(x, y, WriteAll(Payload), {WriteAll(Payload), NewSocket});
    var xy := x + y;
    forall k | 0 <= k < |xy| && xy[k].WriteAll?
      ensures xy[k] == WriteAll(Payload)
    {
      if k >= |x| { assert xy[k] == y[k - |x|]; }
    }
  }

  /** Every run from any stream positions starts with a fresh socket and has the loops' order. */
  lemma {:induction false} ServerAtWellFormed(accepts: seq<bool>, edges: seq<nat>, writes: seq<bool>, i: nat, e: nat, w: nat)
    requires i <= |accepts| && e <= |edges| && w <= |writes|
    ensures var log := ServerAt(accepts, edges, writes, i, e, w);
      log != [] && log[0] == NewSocket && WellFormed(log)
    decreases |accepts| - i
  {
    ListenWellFormed();
    if i < |accepts| {
      if !accepts[i] {
        ServerAtWellFormed(accepts, edges, writes, i + 1, e, w);
        WellFormedConcat(Listen, ServerAt(accepts, edges, writes, i + 1, e, w));
      } else {
        var s := SessionAt(edges, writes, e, w, 0);
        ConnectionWellFormed(|s.sent|);
        if s.broken {
          var block := Listen + [SetLed(true)] + Writes(|s.sent|);
          ServerAtWellFormed(accepts, edges, writes, i + 1, s.edgesEnd, s.writesEnd);
          WellFormedConcat(block, ServerAt(accepts, edges, writes, i + 1, s.edgesEnd, s.writesEnd));
        } else {
          assert Listen + [SetLed(true)] + Writes(|s.sent|) + [] == Listen + [SetLed(true)] + Writes(|s.sent|);
        }
      }
    }
  }

  /** The whole run has the loops' order. */
  lemma ServerLogWellFormed(accepts: seq<bool>, edges: seq<nat>, writes: seq<bool>)
    ensures var log := ServerLog(accepts, edges, writes);
      log[..|Listen|] == Listen && WellFormed(log)
  {
    ServerAtWellFormed(accepts, edges, writes, 0, 0, 0);
  }

  /** No accept of the outer loop's head has a successor inside it. */
  lemma ListenAfterAccept()
    ensures AfterEach(Listen, AcceptOn(Port)) == []
  {
    var a := AcceptOn(Port);
    assert AfterEach(Listen[4..], a) == [];
    assert AfterEach(Listen[3..], a) == AfterEach(Listen[4..], a) by { assert Listen[3..][1..] == Listen[4..]; }
    assert AfterEach(Listen[2..], a) == AfterEach(Listen[3..], a) by { assert Listen[2..][1..] == Listen[3..]; }
    assert AfterEach(Listen[1..], a) == AfterEach(Listen[2..], a) by { assert Listen[1..][1..] == Listen[2..]; }
    assert AfterEach(Listen, a) == AfterEach(Listen[1..], a);
  }

  /**
   * What each accept leads to, from any stream positions: the k-th accept of
   * the run is followed by the LED going on exactly when accept `i + k`
   * succeeds, and by a fresh socket when it fails; and a run from an accept
   * that has an outcome in the stream reaches at least one outcome.
   */
  lemma {:induction false} AcceptOutcomes(accepts: seq<bool>, edges: seq<nat>, writes: seq<bool>, i: nat, e: nat, w: nat)
    requires i <= |accepts| && e <= |edges| && w <= |writes|
    ensures var o := AfterEach(ServerAt(accepts, edges, writes, i, e, w), AcceptOn(Port));
      Outcomes(o, accepts, i, SetLed(true), NewSocket) && (i < |accepts| ==> o != [])
    decreases |accepts| - i
  {
    if i < |accepts| {
      if !accepts[i] {
        var t := ServerAt(accepts, edges, writes, i + 1, e, w);
        ServerAtWellFormed(accepts, edges, writes, i + 1, e, w);
        AcceptOutcomes(accepts, edges, writes, i + 1, e, w);
        SkippedBlock(t);
        OutcomesCons(NewSocket, AfterEach(t, AcceptOn(Port)), accepts, i, SetLed(true), NewSocket);
      } else {
        var s := SessionAt(edges, writes, e, w, 0);
        var t := if s.broken then ServerAt(accepts, edges, writes, i + 1, s.edgesEnd, s.writesEnd) else [];
        AcceptedBlock(|s.sent|, t);
        if s.broken {
          AcceptOutcomes(accepts, edges, writes, i + 1, s.edgesEnd, s.writesEnd);
        }
        OutcomesCons(SetLed(true), AfterEach(t, AcceptOn(Port)), accepts, i, SetLed(true), NewSocket);
      }
    } else {
      ListenAfterAccept();
    }
  }

  /** A failed accept's part of the run: the accept is followed by a fresh socket. */
  lemma SkippedBlock(t: seq<Action>)
    requires t != []
    ensures AfterEach(Listen + t, AcceptOn(Port)) == [t[0]] + AfterEach(t, AcceptOn(Port))
    ensures EndsIn(Listen + t, AcceptOn(Port)) <==> EndsIn(t, AcceptOn(Port))
  {
    ListenAfterAccept();
    AfterEachResume(Listen, t, AcceptOn(Port));
  }

  /**
   * An accepted client's part of the run, with `n` updates sent: its accept
   * is followed by the LED going on, no other accept is in it, and the run
   * is not left blocked in an accept inside it.
   */
  lemma AcceptedBlock(n: nat, t: seq<Action>)
    ensures AfterEach(Listen + [SetLed(true)] + Writes(n) + t, AcceptOn(Port)) == [SetLed(true)] + AfterEach(t, AcceptOn(Port))
    ensures EndsIn(Listen + [SetLed(true)] + Writes(n) + t, AcceptOn(Port)) <==> EndsIn(t, AcceptOn(Port))
  {
    ListenAfterAccept();
    ServedNoAccept(n);
    AppendAssoc(Listen, [SetLed(true)], Writes(n));
    AfterEachBlockEnds(Listen, [SetLed(true)] + Writes(n), t, AcceptOn(Port));
  }

  /** Serving a client issues no accept. */
  lemma ServedNoAccept(n: nat)
    ensures AcceptOn(Port) !in [SetLed(true)] + Writes(n)
  {
    var m := [SetLed(true)] + Writes(n);
    forall k | 0 <= k < |m|
      ensures m[k] != AcceptOn(Port)
    {
      if k > 0 {
        assert m[k] == Writes(n)[k - 1];
      }
    }
  }

  /**
   * The outer loop retries: when the last accept of a run failed, or the run
   * reached no accept outcome at all, the run ends blocked in a new accept;
   * and a run ends blocked in an accept only when every accept outcome of
   * the stream has been consumed.
   */
  lemma {:induction false} AcceptRetries(accepts: seq<bool>, edges: seq<nat>, writes: seq<bool>, i: nat, e: nat, w: nat)
    requires i <= |accepts| && e <= |edges| && w <= |writes|
    ensures var log := ServerAt(accepts, edges, writes, i, e, w);
      Retried(log, AfterEach(log, AcceptOn(Port)), i, |accepts|, AcceptOn(Port), NewSocket)
    decreases |accepts| - i
  {
    var log := ServerAt(accepts, edges, writes, i, e, w);
    if i < |accepts| {
      if !accepts[i] {
        var t := ServerAt(accepts, edges, writes, i + 1, e, w);
        ServerAtWellFormed(accepts, edges, writes, i + 1, e, w);
        AcceptRetries(accepts, edges, writes, i + 1, e, w);
        SkippedBlock(t);
        RetriedCons(log, t, NewSocket, AfterEach(t, AcceptOn(Port)), i, |accepts|, AcceptOn(Port), NewSocket);
      } else {
        var s := SessionAt(edges, writes, e, w, 0);
        var t := if s.broken then ServerAt(accepts, edges, writes, i + 1, s.edgesEnd, s.writesEnd) else [];
        AcceptedBlock(|s.sent|, t);
        if s.broken {
          AcceptRetries(accepts, edges, writes, i + 1, s.edgesEnd, s.writesEnd);
          RetriedCons(log, t, SetLed(true), AfterEach(t, AcceptOn(Port)), i, |accepts|, AcceptOn(Port), NewSocket);
        }
      }
    } else {
      ListenAfterAccept();
    }
  }

  /**
   * What the writes of `log` lead to, from write position `w`: the k-th write
   * is followed by another write exactly when write `w + k` succeeds and by a
   * fresh socket when it fails; and a log that ends in a write ends either
   * awaiting that write's outcome or after a write that succeeded.
   */
  ghost predicate WritesAnswered(log: seq<Action>, writes: seq<bool>, w: nat)
  {
    var o := AfterEach(log, WriteAll(Payload));
    && Outcomes(o, writes, w, WriteAll(Payload), NewSocket)
    && (EndsIn(log, WriteAll(Payload)) ==> w + |o| == |writes| || (w + |o| < |writes| && writes[w + |o|]))
  }

  lemma WritesFront(n: nat)
    requires n > 0
    ensures Writes(n) == [WriteAll(Payload)] + Writes(n - 1)
  {
  }

  /** A run of `n` writes and what comes after it: each write but the last is followed by a write, the last by the rest. */
  lemma {:induction false} WritesThen(n: nat, t: seq<Action>)
    requires n > 0
    ensures AfterEach(Writes(n) + t, WriteAll(Payload))
         == Writes(n - 1) + (if t == [] then [] else [t[0]]) + AfterEach(t, WriteAll(Payload))
    ensures EndsIn(Writes(n) + t, WriteAll(Payload)) <==> t == [] || EndsIn(t, WriteAll(Payload))
  {
    var a := WriteAll(Payload);
    WritesFront(n);
    AppendAssoc([a], Writes(n - 1), t);
    AfterEachCons(a, Writes(n - 1) + t, a);
    if n > 1 {
      WritesThen(n - 1, t);
      WritesFront(n - 1);
      EndsInConcat([a], Writes(n - 1) + t, a);
    }
  }

  /**
   * One connection's writes followed by the rest `t` of the run, with the
   * session's write facts as `SessionEndsOnWriteFailure` states them: its
   * writes are answered as the stream says, a failed write is followed by the
   * fresh socket that starts `t`, and a connection that did not break is the
   * end of the run.
   */
  lemma SessionWrites(n: nat, t: seq<Action>, writes: seq<bool>, w: nat, wEnd: nat, broken: bool)
    requires w <= wEnd <= |writes|
    requires broken <==> wEnd > w && !writes[wEnd - 1]
    requires forall k :: w <= k < wEnd - 1 ==> writes[k]
    requires n == wEnd - w || (!broken && wEnd == |writes| && n == wEnd - w + 1)
    requires broken ==> t != [] && t[0] == NewSocket && WritesAnswered(t, writes, wEnd)
    requires !broken ==> t == []
    ensures WritesAnswered(Writes(n) + t, writes, w)
  {
    if n == 0 {
      assert Writes(n) + t == [];
    } else if broken {
      BrokenWrites(n, t, writes, w);
    } else {
      WritesThen(n, t);
      assert Writes(n - 1) + [] + [] == Writes(n - 1);
      assert Outcomes(Writes(n - 1), writes, w, WriteAll(Payload), NewSocket);
    }
  }

  /** A connection whose `n`-th write, at `w + n - 1`, failed after `n - 1` that succeeded. */
  lemma BrokenWrites(n: nat, t: seq<Action>, writes: seq<bool>, w: nat)
    requires n > 0 && w + n <= |writes| && !writes[w + n - 1]
    requires forall k :: w <= k < w + n - 1 ==> writes[k]
    requires t != [] && t[0] == NewSocket && WritesAnswered(t, writes, w + n)
    ensures WritesAnswered(Writes(n) + t, writes, w)
  {
    var a := WriteAll(Payload);
    WritesThen(n, t);
    assert Outcomes(Writes(n - 1), writes, w, a, NewSocket);
    OutcomesCons(NewSocket, AfterEach(t, a), writes, w + n - 1, a, NewSocket);
    OutcomesConcat(Writes(n - 1), [NewSocket] + AfterEach(t, a), writes, w, a, NewSocket);
    AppendAssoc(Writes(n - 1), [NewSocket], AfterEach(t, a));
  }

  /** An accepted connection from edge `e` and write `w`, followed by the rest `t` of the run. */
  lemma ServedWrites(edges: seq<nat>, writes: seq<bool>, e: nat, w: nat, t: seq<Action>)
    requires e <= |edges| && w <= |writes|
    requires var s := SessionAt(edges, writes, e, w, 0);
      if s.broken then t != [] && t[0] == NewSocket && WritesAnswered(t, writes, s.writesEnd) else t == []
    ensures WritesAnswered(Listen + [SetLed(true)] + Writes(|SessionAt(edges, writes, e, w, 0).sent|) + t, writes, w)
  {
    var s := SessionAt(edges, writes, e, w, 0);
    SessionEndsOnWriteFailure(edges, writes, e, w, 0);
    SessionWrites(|s.sent|, t, writes, w, s.writesEnd, s.broken);
    AcceptedWrites(Writes(|s.sent|) + t, writes, w);
    AppendAssoc(Listen + [SetLed(true)], Writes(|s.sent|), t);
  }

  /** The head of an accepted connection issues no write, so the connection's writes are answered as its session's. */
  lemma AcceptedWrites(y: seq<Action>, writes: seq<bool>, w: nat)
    requires WritesAnswered(y, writes, w)
    ensures WritesAnswered(Listen + [SetLed(true)] + y, writes, w)
  {
    var a := WriteAll(Payload);
    var head := Listen + [SetLed(true)];
    assert a !in head;
    AfterEachSkip(head, y, a);
    if y == [] {
      assert head + y == head;
    }
  }

  /**
   * What follows each write of a run, from any stream positions: the k-th
   * write is followed by another write exactly when write `w + k` succeeds and
   * by a fresh socket when it fails, so only a write error ends a connection
   * and leads back to the outer loop; and the run ends in a write only while
   * that write awaits its outcome or after one that succeeded, when the edge
   * stream ran out.
   */
  lemma {:induction false} WriteOutcomes(accepts: seq<bool>, edges: seq<nat>, writes: seq<bool>, i: nat, e: nat, w: nat)
    requires i <= |accepts| && e <= |edges| && w <= |writes|
    ensures WritesAnswered(ServerAt(accepts, edges, writes, i, e, w), writes, w)
    decreases |accepts| - i
  {
    var a := WriteAll(Payload);
    assert a !in Listen;
    if i == |accepts| {
      AfterEachAbsent(Listen, a);
    } else if !accepts[i] {
      var t := ServerAt(accepts, edges, writes, i + 1, e, w);
      WriteOutcomes(accepts, edges, writes, i + 1, e, w);
      AfterEachSkip(Listen, t, a);
    } else {
      var s := SessionAt(edges, writes, e, w, 0);
      var t := if s.broken then ServerAt(accepts, edges, writes, i + 1, s.edgesEnd, s.writesEnd) else [];
      if s.broken {
        WriteOutcomes(accepts, edges, writes, i + 1, s.edgesEnd, s.writesEnd);
      }
      ServedWrites(edges, writes, e, w, t);
    }
  }

  /**
   * The LED goes on only for a client that is then written to: what follows
   * it is always a write, so a connection that sent nothing is the end of the
   * run rather than a return to a fresh socket.
   */
  lemma {:induction false} LedThenWrite(accepts: seq<bool>, edges: seq<nat>, writes: seq<bool>, i: nat, e: nat, w: nat)
    requires i <= |accepts| && e <= |edges| && w <= |writes|
    ensures forall a :: a in AfterEach(ServerAt(accepts, edges, writes, i, e, w), SetLed(true)) ==> a == WriteAll(Payload)
    decreases |accepts| - i
  {
    var on := SetLed(true);
    assert on !in Listen;
    if i == |accepts| {
      AfterEachAbsent(Listen, on);
    } else if !accepts[i] {
      LedThenWrite(accepts, edges, writes, i + 1, e, w);
      AfterEachSkip(Listen, ServerAt(accepts, edges, writes, i + 1, e, w), on);
    } else {
      var s := SessionAt(edges, writes, e, w, 0);
      SessionEndsOnWriteFailure(edges, writes, e, w, 0);
      var n := |s.sent|;
      var t := if s.broken then ServerAt(accepts, edges, writes, i + 1, s.edgesEnd, s.writesEnd) else [];
      var head := Listen + [on];
      AfterEachSkip(Listen, [on], on);
      if n == 0 {
        assert head + Writes(n) + t == head;
      } else {
        assert on !in Writes(n);
        AfterEachBlockEnds(head, Writes(n), t, on);
        if s.broken {
          LedThenWrite(accepts, edges, writes, i + 1, s.edgesEnd, s.writesEnd);
        }
      }
    }
  }
}
