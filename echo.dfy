/**
 * The echo server's application loop (src/main.rs): an outer loop that builds a
 * socket with a 10 s timeout, turns the LED off and accepts on port 1234, and an
 * inner loop that reads into a 4096-byte buffer and writes back what it read.
 * A zero-length read, a read error or a write error ends the connection; a
 * chunk that is not valid UTF-8 makes the log line's `unwrap` panic.
 *
 * The environment is given as three streams: accept outcomes, read results and
 * write outcomes. A stream that runs out leaves the program blocked there.
 */
module EchoServer {
  import opened Io
  import Utf8

  const Port: nat := 1234
  const TimeoutSecs: nat := 10
  const BufSize: nat := 4096

  /** One pass through the head of the outer loop. */
  const Listen: seq<Action> := [NewSocket, SetTimeout(TimeoutSecs), SetLed(false), AcceptOn(Port)]

  /** A read never returns more bytes than the buffer it fills. */
  predicate Fits(results: seq<ReadResult>)
  {
    forall k :: 0 <= k < |results| && results[k].ReadOk? ==> |results[k].data| <= BufSize
  }

  /** Why a connection's inner loop stopped. */
  datatype End =
    | PeerClosed   // a read returned 0 bytes
    | ReadFailed   // a read returned an error
    | WriteFailed  // a write returned an error
    | Panicked     // a chunk was not valid UTF-8
    | AwaitRead    // the read stream ran out: blocked on a read
    | AwaitWrite   // the write stream ran out: blocked on a write

  /** The ends after which the outer loop accepts again. */
  predicate Continues(end: End)
  {
    end.PeerClosed? || end.ReadFailed? || end.WriteFailed?
  }

  /** One connection: the chunks it wrote back, where it stopped in each stream, and why. */
  datatype Echo = Echo(echoed: seq<seq<byte>>, readsEnd: nat, writesEnd: nat, end: End)

  /** The inner loop from read position `r` and write position `w`. */
  function EchoAt(results: seq<ReadResult>, writes: seq<bool>, r: nat, w: nat): (s: Echo)
    requires r <= |results| && w <= |writes|
    ensures r <= s.readsEnd <= |results| && w <= s.writesEnd <= |writes|
    decreases |results| - r
  {
    if r == |results| then Echo([], r, w, AwaitRead)
    else match results[r]
      case ReadErr => Echo([], r + 1, w, ReadFailed)
      case ReadOk(d) =>
        if d == [] then Echo([], r + 1, w, PeerClosed)
        else if !Utf8.Valid(d) then Echo([], r + 1, w, Panicked)
        else if w == |writes| then Echo([d], r + 1, w, AwaitWrite)
        else if !writes[w] then Echo([d], r + 1, w + 1, WriteFailed)
        else
          var s := EchoAt(results, writes, r + 1, w + 1);
          s.(echoed := [d] + s.echoed)
  }

  /** The log of the echoed rounds: each is a read followed by the write of the same bytes. */
  function Rounds(ds: seq<seq<byte>>): (r: seq<Action>)
    ensures |r| == 2 * |ds|
  {
    if ds == [] then [] else [ReadInto(BufSize), WriteAll(ds[0])] + Rounds(ds[1..])
  }

  /** What the last pass of the inner loop logs after the echoed rounds. */
  function Closing(end: End): (r: seq<Action>)
    ensures Panic in r <==> end.Panicked?
  {
    match end
    case PeerClosed => [ReadInto(BufSize)]
    case ReadFailed => [ReadInto(BufSize)]
    case AwaitRead => [ReadInto(BufSize)]
    case Panicked => [ReadInto(BufSize), Panic]
    case WriteFailed => []
    case AwaitWrite => []
  }

  /** The whole log of one connection's inner loop. */
  function SessionLog(s: Echo): (r: seq<Action>)
    ensures Panic in r <==> s.end.Panicked?
  {
    RoundsWellFormed(s.echoed);
    Rounds(s.echoed) + Closing(s.end)
  }

  /** The run from accept position `i`. */
  function EchoServerAt(accepts: seq<bool>, results: seq<ReadResult>, writes: seq<bool>, i: nat, r: nat, w: nat): (log: seq<Action>)
    requires i <= |accepts| && r <= |results| && w <= |writes|
    ensures |Listen| <= |log| && log[..|Listen|] == Listen
    decreases |accepts| - i
  {
    if i == |accepts| then Listen
    else if !accepts[i] then Listen + EchoServerAt(accepts, results, writes, i + 1, r, w)
    else
      var s := EchoAt(results, writes, r, w);
      Listen + [SetLed(true)] + SessionLog(s)
      + if Continues(s.end) then EchoServerAt(accepts, results, writes, i + 1, s.readsEnd, s.writesEnd) else []
  }

  /** The log of a whole run over the given streams. */
  function EchoLog(accepts: seq<bool>, results: seq<ReadResult>, writes: seq<bool>): (log: seq<Action>)
    ensures |Listen| <= |log| && log[..|Listen|] == Listen
  {
    EchoServerAt(accepts, results, writes, 0, 0, 0)
  }

  // ---------------------------------------------------------------------------
  // The loops

  /** `read` copies the received bytes into the front of the buffer. */
  method Fill(buf: array<byte>, d: seq<byte>)
    requires |d| <= buf.Length
    modifies buf
    ensures buf[..|d|] == d
    ensures buf[|d|..] == old(buf[|d|..])
  {
    for j := 0 to |d|
      invariant buf[..j] == d[..j]
      invariant buf[|d|..] == old(buf[|d|..])
    {
      buf[j] := d[j];
    }
  }

  lemma {:induction false} RoundsConcat(a: seq<seq<byte>>, b: seq<seq<byte>>)
    ensures Rounds(a + b) == Rounds(a) + Rounds(b)
  {
    if a == [] {
      assert a + b == b;
    } else {
      assert (a + b)[1..] == a[1..] + b;
      RoundsConcat(a[1..], b);
      AppendAssoc([ReadInto(BufSize), WriteAll(a[0])], Rounds(a[1..]), Rounds(b));
    }
  }

  /** What one pass of the inner loop does: what it logs, where it leaves the write stream, and whether the loop goes on. */
  datatype Pass = Pass(step: seq<Action>, writesEnd: nat, more: bool, end: End)

  /** The pass that reads at position `r` and, for a valid non-empty chunk, writes at position `w`. */
  function PassAt(results: seq<ReadResult>, writes: seq<bool>, r: nat, w: nat): (p: Pass)
    requires r < |results| && w <= |writes|
    ensures w <= p.writesEnd <= |writes| && p.writesEnd <= w + 1
    ensures p.more <==> p.writesEnd == w + 1 && writes[w]
  {
    match results[r]
    case ReadErr => Pass([ReadInto(BufSize)], w, false, ReadFailed)
    case ReadOk(d) =>
      if d == [] then Pass([ReadInto(BufSize)], w, false, PeerClosed)
      else if !Utf8.Valid(d) then Pass([ReadInto(BufSize), Panic], w, false, Panicked)
      else if w == |writes| then Pass([ReadInto(BufSize), WriteAll(d)], w, false, AwaitWrite)
      else if !writes[w] then Pass([ReadInto(BufSize), WriteAll(d)], w + 1, false, WriteFailed)
      else Pass([ReadInto(BufSize), WriteAll(d)], w + 1, true, AwaitRead)
  }

  /**
   * A pass that goes on logs the head of the connection's log and leaves the
   * rest to the next pass, which ends where this connection ends.
   */
  lemma PassMore(results: seq<ReadResult>, writes: seq<bool>, r: nat, w: nat, step: seq<Action>, w': nat, end: End)
    requires r < |results| && w <= |writes|
    requires Pass(step, w', true, end) == PassAt(results, writes, r, w)
    ensures w' <= |writes|
    ensures var s, s' := EchoAt(results, writes, r, w), EchoAt(results, writes, r + 1, w');
      && SessionLog(s) == step + SessionLog(s')
      && s.readsEnd == s'.readsEnd && s.writesEnd == s'.writesEnd && s.end == s'.end
  {
    var d := results[r].data;
    var s' := EchoAt(results, writes, r + 1, w');
    assert step == Rounds([d]);
    RoundsConcat([d], s'.echoed);
    AppendAssoc(step, Rounds(s'.echoed), Closing(s'.end));
  }

  /** A pass that stops logs all that is left of the connection. */
  lemma PassStop(results: seq<ReadResult>, writes: seq<bool>, r: nat, w: nat, step: seq<Action>, w': nat, end: End)
    requires r < |results| && w <= |writes|
    requires Pass(step, w', false, end) == PassAt(results, writes, r, w)
    ensures var s := EchoAt(results, writes, r, w);
      SessionLog(s) == step && s.readsEnd == r + 1 && s.writesEnd == w' && s.end == end
  {
    if results[r].ReadOk? && results[r].data != [] && Utf8.Valid(results[r].data) {
      assert step == Rounds([results[r].data]);
      assert SessionLog(EchoAt(results, writes, r, w)) == Rounds([results[r].data]) + [];
    }
  }

  /** With the read stream run out, the connection is left waiting in a read. */
  lemma PassNone(results: seq<ReadResult>, writes: seq<bool>, r: nat, w: nat)
    requires r == |results| && w <= |writes|
    ensures var s := EchoAt(results, writes, r, w);
      SessionLog(s) == [ReadInto(BufSize)] && s.readsEnd == r && s.writesEnd == w && s.end == AwaitRead
  {
    assert SessionLog(EchoAt(results, writes, r, w)) == [] + [ReadInto(BufSize)];
  }

  /**
   * One pass of the inner loop: `read` into the buffer, stop on 0 bytes or an
   * error, check the chunk is UTF-8, and write back `buf[..n]`.
   */
  method Round(results: seq<ReadResult>, writes: seq<bool>, r: nat, w: nat, buf: array<byte>)
    returns (step: seq<Action>, w': nat, more: bool, end: End)
    requires r < |results| && w <= |writes| && Fits(results) && buf.Length == BufSize
    modifies buf
    ensures Pass(step, w', more, end) == PassAt(results, writes, r, w)
  {
    var result := results[r];
    w' := w;
    more, end := false, AwaitRead;
    if result.ReadErr? {
      step, end := [ReadInto(BufSize)], ReadFailed;
    } else {
      Fill(buf, result.data);
      var n := |result.data|;
      assert buf[..n] == result.data;
      if n == 0 {
        step, end := [ReadInto(BufSize)], PeerClosed;
      } else if !Utf8.Valid(buf[..n]) {
        step, end := [ReadInto(BufSize), Panic], Panicked;
      } else {
        step := [ReadInto(BufSize), WriteAll(buf[..n])];
        if w == |writes| {
          end := AwaitWrite;
        } else {
          var ok := writes[w];
          w' := w + 1;
          if ok {
            more := true;
          } else {
            end := WriteFailed;
          }
        }
      }
    }
  }

  /**
   * The inner loop of one connection over the shared buffer `buf`: read into
   * it, stop on 0 bytes or an error, check the chunk is UTF-8, and write back
   * `buf[..n]`.
   */
  method Connection(results: seq<ReadResult>, writes: seq<bool>, r0: nat, w0: nat, buf: array<byte>)
    returns (out: seq<Action>, r: nat, w: nat, end: End)
    requires r0 <= |results| && w0 <= |writes| && Fits(results) && buf.Length == BufSize
    modifies buf
    ensures var s := EchoAt(results, writes, r0, w0);
      && out == SessionLog(s)
      && r == s.readsEnd && w == s.writesEnd && end == s.end
  {
    out, r, w := [], r0, w0;
    ghost var whole := EchoAt(results, writes, r0, w0);
    while true
      invariant r0 <= r <= |results| && w0 <= w <= |writes|
      invariant Rest(whole, out, EchoAt(results, writes, r, w))
      decreases |results| - r
    {
      if r == |results| {
        PassNone(results, writes, r, w);
        return out + [ReadInto(BufSize)], r, w, AwaitRead;
      }
      var step, w', more, e := Round(results, writes, r, w, buf);
      if !more {
        PassStop(results, writes, r, w, step, w', e);
        return out + step, r + 1, w', e;
      }
      PassMore(results, writes, r, w, step, w', e);
      RestStep(whole, out, step, EchoAt(results, writes, r, w), EchoAt(results, writes, r + 1, w'));
      out, r, w := out + step, r + 1, w';
    }
  }

  /** `here` is what is left of connection `whole` once `out` has been logged. */
  predicate Rest(whole: Echo, out: seq<Action>, here: Echo)
  {
    && SessionLog(whole) == out + SessionLog(here)
    && whole.readsEnd == here.readsEnd && whole.writesEnd == here.writesEnd && whole.end == here.end
  }

  lemma RestStep(whole: Echo, out: seq<Action>, step: seq<Action>, here: Echo, next: Echo)
    requires Rest(whole, out, here)
    requires SessionLog(here) == step + SessionLog(next)
    requires here.readsEnd == next.readsEnd && here.writesEnd == next.writesEnd && here.end == next.end
    ensures Rest(whole, out + step, next)
  {
    AppendAssoc(out, step, SessionLog(next));
  }

  /** A pass of the outer loop whose accept fails leaves the rest of the run to the next accept. */
  lemma SkipStep(accepts: seq<bool>, results: seq<ReadResult>, writes: seq<bool>, i: nat, r: nat, w: nat, before: seq<Action>)
    requires i < |accepts| && !accepts[i] && r <= |results| && w <= |writes|
    requires before + EchoServerAt(accepts, results, writes, i, r, w) == EchoLog(accepts, results, writes)
    ensures (before + Listen) + EchoServerAt(accepts, results, writes, i + 1, r, w) == EchoLog(accepts, results, writes)
  {
    AppendAssoc(before, Listen, EchoServerAt(accepts, results, writes, i + 1, r, w));
  }

  /** A pass of the outer loop that serves a connection: the run goes on with the next accept exactly when the connection ended normally. */
  lemma ServeStep(accepts: seq<bool>, results: seq<ReadResult>, writes: seq<bool>, i: nat, r: nat, w: nat,
                  before: seq<Action>, out: seq<Action>)
    requires i < |accepts| && accepts[i] && r <= |results| && w <= |writes|
    requires before + EchoServerAt(accepts, results, writes, i, r, w) == EchoLog(accepts, results, writes)
    requires out == SessionLog(EchoAt(results, writes, r, w))
    ensures var s := EchoAt(results, writes, r, w);
      var tail := if Continues(s.end) then EchoServerAt(accepts, results, writes, i + 1, s.readsEnd, s.writesEnd) else [];
      before + Listen + [SetLed(true)] + out + tail == EchoLog(accepts, results, writes)
  {
    var s := EchoAt(results, writes, r, w);
    var tail := if Continues(s.end) then EchoServerAt(accepts, results, writes, i + 1, s.readsEnd, s.writesEnd) else [];
    var pass := Listen + [SetLed(true)] + out;
    assert EchoServerAt(accepts, results, writes, i, r, w) == pass + tail;
    AppendAssoc(before, pass, tail);
    AppendAssoc(before, Listen + [SetLed(true)], out);
    AppendAssoc(before, Listen, [SetLed(true)]);
  }

  /** Both loops, with one buffer shared by every connection. */
  method Serve(accepts: seq<bool>, results: seq<ReadResult>, writes: seq<bool>) returns (log: seq<Action>)
    requires Fits(results)
    ensures log == EchoLog(accepts, results, writes)
  {
    var buf := new byte[BufSize];
    var i: nat, r: nat, w: nat := 0, 0, 0;
    log := [];
    while true
      invariant i <= |accepts| && r <= |results| && w <= |writes| && buf.Length == BufSize
      invariant fresh(buf)
      invariant log + EchoServerAt(accepts, results, writes, i, r, w) == EchoLog(accepts, results, writes)
      decreases |accepts| - i
    {
      ghost var before := log;
      log := log + Listen;
      if i == |accepts| {
        return;
      }
      if !accepts[i] {
        SkipStep(accepts, results, writes, i, r, w, before);
        i := i + 1;
        continue;
      }
      log := log + [SetLed(true)];
      var out, r', w', end := Connection(results, writes, r, w, buf);
      log := log + out;
      ServeStep(accepts, results, writes, i, r, w, before, out);
      if !Continues(end) {
        return;
      }
      i, r, w := i + 1, r', w';
    }
  }

  // ---------------------------------------------------------------------------
  // Properties

  /** Whether the read at position `k` ended a connection with this end. */
  predicate EndedBy(results: seq<ReadResult>, k: nat, end: End)
    requires k < |results|
  {
    match end
    case PeerClosed => results[k] == ReadOk([])
    case ReadFailed => results[k].ReadErr?
    case Panicked => results[k].ReadOk? && !Utf8.Valid(results[k].data)
    case _ => false
  }

  /**
   * What a connection echoes: the chunks of consecutive reads from position
   * `r`, each non-empty and valid UTF-8, written back unchanged; one more read
   * was consumed when the connection ended on a read.
   */
  lemma {:induction false} EchoedAreReads(results: seq<ReadResult>, writes: seq<bool>, r: nat, w: nat)
    requires r <= |results| && w <= |writes|
    ensures var s := EchoAt(results, writes, r, w);
      && s.readsEnd == r + |s.echoed| + (if s.end.PeerClosed? || s.end.ReadFailed? || s.end.Panicked? then 1 else 0)
      && (forall k :: 0 <= k < |s.echoed| ==>
            results[r + k] == ReadOk(s.echoed[k]) && s.echoed[k] != [] && Utf8.Valid(s.echoed[k]))
      && s.writesEnd + (if s.end.AwaitWrite? then 1 else 0) == w + |s.echoed|
    decreases |results| - r
  {
    if r < |results| && results[r].ReadOk? {
      var d := results[r].data;
      if d != [] && Utf8.Valid(d) && w < |writes| && writes[w] {
        EchoedAreReads(results, writes, r + 1, w + 1);
        var t := EchoAt(results, writes, r + 1, w + 1);
        assert forall k :: 0 < k <= |t.echoed| ==> ([d] + t.echoed)[k] == t.echoed[k - 1];
      }
    }
  }

  /**
   * Why a connection ends: on a zero-length read, a read error or an invalid
   * chunk exactly when its last read was one; on a write error exactly when
   * its last write failed, every earlier write having succeeded; otherwise
   * because a stream ran out.
   */
  lemma {:induction false} EchoEnds(results: seq<ReadResult>, writes: seq<bool>, r: nat, w: nat)
    requires r <= |results| && w <= |writes|
    ensures var s := EchoAt(results, writes, r, w);
      && (forall k :: w <= k < s.writesEnd ==> (writes[k] <==> !(s.end.WriteFailed? && k == s.writesEnd - 1)))
      && (forall e: End :: (e.PeerClosed? || e.ReadFailed? || e.Panicked?) ==>
            (s.end == e <==> r < s.readsEnd && EndedBy(results, s.readsEnd - 1, e)))
      && (s.end.WriteFailed? <==> w < s.writesEnd && !writes[s.writesEnd - 1])
      && (s.end.AwaitRead? ==> s.readsEnd == |results|)
      && (s.end.AwaitWrite? ==> s.writesEnd == |writes|)
    decreases |results| - r
  {
    if r < |results| && results[r].ReadOk? {
      var d := results[r].data;
      if d != [] && Utf8.Valid(d) && w < |writes| && writes[w] {
        EchoEnds(results, writes, r + 1, w + 1);
        var t := EchoAt(results, writes, r + 1, w + 1);
        if t.readsEnd == r + 1 {
          assert t.end.AwaitRead? || t.end.AwaitWrite? || t.end.WriteFailed?;
        }
      }
    }
  }

  /**
   * The order the loops impose on the log: every accept right after the LED
   * goes off, the LED on right after an accept, an accept followed by a
   * connection or a fresh socket, every write right after a read, and nothing
   * after a panic.
   */
  ghost predicate WellFormed(log: seq<Action>)
  {
    && PrecededBy(log, AcceptOn(Port), SetLed(false))
    && PrecededBy(log, SetLed(true), AcceptOn(Port))
    && FollowedBy(log, AcceptOn(Port), {SetLed(true), NewSocket})
    && (forall k :: 0 <= k < |log| && log[k].WriteAll? ==> 0 < k && log[k - 1] == ReadInto(BufSize))
    && (forall k :: 0 <= k < |log| - 1 ==> log[k] != Panic)
  }

  lemma WellFormedConcat(x: seq<Action>, y: seq<Action>)
    requires WellFormed(x) && WellFormed(y) && Panic !in x
    requires x != [] && x[|x| - 1] == AcceptOn(Port) && y != [] ==> y[0] in {SetLed(true), NewSocket}
    ensures WellFormed(x + y)
  {
    PrecededByConcat(x, y, AcceptOn(Port), SetLed(false));
    PrecededByConcat(x, y, SetLed(true), AcceptOn(Port));
    FollowedByConcat(x, y, AcceptOn(Port), {SetLed(true), NewSocket});
    var xy := x + y;
    forall k | 0 <= k < |xy| && xy[k].WriteAll?
      ensures 0 < k && xy[k - 1] == ReadInto(BufSize)
    {
      if k >= |x| {
        assert xy[k] == y[k - |x|];
        if k > |x| { assert xy[k - 1] == y[k - 1 - |x|]; }
      }
    }
    forall k | 0 <= k < |xy| - 1
      ensures xy[k] != Panic
    {
      if k >= |x| { assert xy[k] == y[k - |x|]; } else { assert xy[k] == x[k]; }
    }
  }

  lemma {:induction false} RoundsWellFormed(ds: seq<seq<byte>>)
    ensures WellFormed(Rounds(ds)) && Panic !in Rounds(ds)
    ensures Rounds(ds) != [] ==> Rounds(ds)[|Rounds(ds)| - 1].WriteAll?
    decreases |ds|
  {
    if ds != [] {
      var pair := [ReadInto(BufSize), WriteAll(ds[0])];
      RoundsWellFormed(ds[1..]);
      WellFormedConcat(pair, Rounds(ds[1..]));
    }
  }

  lemma ClosingWellFormed(end: End)
    ensures WellFormed(Closing(end))
    ensures Continues(end) ==> Panic !in Closing(end)
  {
    var c := Closing(end);
    if end.Panicked? {
      assert c == [ReadInto(BufSize), Panic];
    } else {
      assert c == [] || c == [ReadInto(BufSize)];
    }
  }

  /** One accepted connection's part of the log. */
  lemma ConnectionWellFormed(s: Echo)
    ensures WellFormed(Listen + [SetLed(true)] + SessionLog(s))
    ensures Continues(s.end) ==> Panic !in Listen + [SetLed(true)] + SessionLog(s)
  {
    var head := Listen + [SetLed(true)];
    assert WellFormed(head) && Panic !in head;
    RoundsWellFormed(s.echoed);
    WellFormedConcat(head, Rounds(s.echoed));
    ClosingWellFormed(s.end);
    WellFormedConcat(head + Rounds(s.echoed), Closing(s.end));
    AppendAssoc(head, Rounds(s.echoed), Closing(s.end));
  }

  lemma {:induction false} EchoServerAtWellFormed(accepts: seq<bool>, results: seq<ReadResult>, writes: seq<bool>, i: nat, r: nat, w: nat)
    requires i <= |accepts| && r <= |results| && w <= |writes|
    ensures var log := EchoServerAt(accepts, results, writes, i, r, w);
      log != [] && log[0] == NewSocket && WellFormed(log)
    decreases |accepts| - i
  {
    assert WellFormed(Listen);
    if i < |accepts| {
      if !accepts[i] {
        EchoServerAtWellFormed(accepts, results, writes, i + 1, r, w);
        WellFormedConcat(Listen, EchoServerAt(accepts, results, writes, i + 1, r, w));
      } else {
        var s := EchoAt(results, writes, r, w);
        var block := Listen + [SetLed(true)] + SessionLog(s);
        ConnectionWellFormed(s);
        if Continues(s.end) {
          EchoServerAtWellFormed(accepts, results, writes, i + 1, s.readsEnd, s.writesEnd);
          WellFormedConcat(block, EchoServerAt(accepts, results, writes, i + 1, s.readsEnd, s.writesEnd));
        } else {
          assert block + [] == block;
        }
      }
    }
  }

  /** The whole run starts by listening and has the loops' order. */
  lemma EchoLogWellFormed(accepts: seq<bool>, results: seq<ReadResult>, writes: seq<bool>)
    ensures var log := EchoLog(accepts, results, writes);
      log[..|Listen|] == Listen && WellFormed(log)
  {
    EchoServerAtWellFormed(accepts, results, writes, 0, 0, 0);
  }

  /**
   * A read of `hi` is echoed; the following zero-length read closes the
   * connection without a write and the server listens again.
   */
  lemma EchoThenClose()
    ensures EchoLog([true], [ReadOk([0x68, 0x69]), ReadOk([])], [true])
      == Listen + [SetLed(true), ReadInto(BufSize), WriteAll([0x68, 0x69]), ReadInto(BufSize)] + Listen
  {
  }

  /**
   * A character split across two reads panics on the first half, though the
   * bytes together are valid: `é` is C3 A9.
   */
  lemma SplitCharacterPanics()
    ensures Utf8.Valid([0xC3, 0xA9])
    ensures EchoLog([true], [ReadOk([0xC3]), ReadOk([0xA9])], [])
      == Listen + [SetLed(true), ReadInto(BufSize), Panic]
  {
  }

  /** A connection's inner loop never accepts. */
  lemma {:induction false} RoundsNoAccept(ds: seq<seq<byte>>)
    ensures AcceptOn(Port) !in Rounds(ds)
    decreases |ds|
  {
    if ds != [] {
      RoundsNoAccept(ds[1..]);
    }
  }

  /** No accept of the outer loop's head has a successor inside it. */
  lemma ListenAfterAccept()
    ensures AfterEach(Listen, AcceptOn(Port)) == []
  {
    var a := AcceptOn(Port);
    assert AfterEach(Listen[3..], a) == [];
    assert AfterEach(Listen[2..], a) == AfterEach(Listen[3..], a) by { assert Listen[2..][1..] == Listen[3..]; }
    assert AfterEach(Listen[1..], a) == AfterEach(Listen[2..], a) by { assert Listen[1..][1..] == Listen[2..]; }
    assert AfterEach(Listen, a) == AfterEach(Listen[1..], a);
  }

  /** A failed accept's part of the run: the accept is followed by a fresh socket. */
  lemma SkippedBlock(t: seq<Action>)
    requires t != []
    ensures AfterEach(Listen + t, AcceptOn(Port)) == [t[0]] + AfterEach(t, AcceptOn(Port))
    ensures EndsIn(Listen + t, AcceptOn(Port)) <==> EndsIn(t, AcceptOn(Port))
  {
    ListenAfterAccept();
    AfterEachResume(Listen, t, AcceptOn(Port));
  }

  /**
   * An accepted connection's part of the run: its accept is followed by the
   * LED going on, no other accept is in it, and the run is not left blocked
   * in an accept inside it.
   */
  lemma AcceptedBlock(s: Echo, t: seq<Action>)
    ensures AfterEach(Listen + [SetLed(true)] + SessionLog(s) + t, AcceptOn(Port)) == [SetLed(true)] + AfterEach(t, AcceptOn(Port))
    ensures EndsIn(Listen + [SetLed(true)] + SessionLog(s) + t, AcceptOn(Port)) <==> EndsIn(t, AcceptOn(Port))
  {
    var m := [SetLed(true)] + SessionLog(s);
    ListenAfterAccept();
    RoundsNoAccept(s.echoed);
    assert AcceptOn(Port) !in m;
    AppendAssoc(Listen, [SetLed(true)], SessionLog(s));
    AfterEachBlockEnds(Listen, m, t, AcceptOn(Port));
  }

  /**
   * What each accept leads to, from any stream positions: the k-th accept of
   * the run is followed by the LED going on exactly when accept `i + k`
   * succeeds, and by a fresh socket when it fails; and a run from an accept
   * that has an outcome in the stream reaches at least one outcome.
   */
  lemma {:induction false} AcceptOutcomes(accepts: seq<bool>, results: seq<ReadResult>, writes: seq<bool>, i: nat, r: nat, w: nat)
    requires i <= |accepts| && r <= |results| && w <= |writes|
    ensures var o := AfterEach(EchoServerAt(accepts, results, writes, i, r, w), AcceptOn(Port));
      Outcomes(o, accepts, i, SetLed(true), NewSocket) && (i < |accepts| ==> o != [])
    decreases |accepts| - i
  {
    if i < |accepts| {
      if !accepts[i] {
        var t := EchoServerAt(accepts, results, writes, i + 1, r, w);
        EchoServerAtWellFormed(accepts, results, writes, i + 1, r, w);
        AcceptOutcomes(accepts, results, writes, i + 1, r, w);
        SkippedBlock(t);
        OutcomesCons(NewSocket, AfterEach(t, AcceptOn(Port)), accepts, i, SetLed(true), NewSocket);
      } else {
        var s := EchoAt(results, writes, r, w);
        var t := if Continues(s.end) then EchoServerAt(accepts, results, writes, i + 1, s.readsEnd, s.writesEnd) else [];
        AcceptedBlock(s, t);
        if Continues(s.end) {
          AcceptOutcomes(accepts, results, writes, i + 1, s.readsEnd, s.writesEnd);
        }
        OutcomesCons(SetLed(true), AfterEach(t, AcceptOn(Port)), accepts, i, SetLed(true), NewSocket);
      }
    } else {
      ListenAfterAccept();
    }
  }

  /**
   * The outer loop retries: when the last accept of a run failed, or the run
   * reached no accept outcome at all, the run ends blocked in a new accept;
   * and a run ends blocked in an accept only when every accept outcome of
   * the stream has been consumed.
   */
  lemma {:induction false} AcceptRetries(accepts: seq<bool>, results: seq<ReadResult>, writes: seq<bool>, i: nat, r: nat, w: nat)
    requires i <= |accepts| && r <= |results| && w <= |writes|
    ensures var log := EchoServerAt(accepts, results, writes, i, r, w);
      Retried(log, AfterEach(log, AcceptOn(Port)), i, |accepts|, AcceptOn(Port), NewSocket)
    decreases |accepts| - i
  {
    var log := EchoServerAt(accepts, results, writes, i, r, w);
    if i < |accepts| {
      if !accepts[i] {
        var t := EchoServerAt(accepts, results, writes, i + 1, r, w);
        EchoServerAtWellFormed(accepts, results, writes, i + 1, r, w);
        AcceptRetries(accepts, results, writes, i + 1, r, w);
        SkippedBlock(t);
        RetriedCons(log, t, NewSocket, AfterEach(t, AcceptOn(Port)), i, |accepts|, AcceptOn(Port), NewSocket);
      } else {
        var s := EchoAt(results, writes, r, w);
        var t := if Continues(s.end) then EchoServerAt(accepts, results, writes, i + 1, s.readsEnd, s.writesEnd) else [];
        AcceptedBlock(s, t);
        if Continues(s.end) {
          AcceptRetries(accepts, results, writes, i + 1, s.readsEnd, s.writesEnd);
          RetriedCons(log, t, SetLed(true), AfterEach(t, AcceptOn(Port)), i, |accepts|, AcceptOn(Port), NewSocket);
        }
      }
    } else {
      ListenAfterAccept();
    }
  }

  // ---------------------------------------------------------------------------
  // What each read and each write leads to

  /**
   * What the loops do after a read with the given result: a fresh socket after
   * a zero-length read or a read error, a panic after bytes that are not
   * UTF-8, and otherwise the write of the same bytes.
   */
  function ReadNext(result: ReadResult): Action
  {
    match result
    case ReadErr => NewSocket
    case ReadOk(d) => if d == [] then NewSocket else if !Utf8.Valid(d) then Panic else WriteAll(d)
  }

  /**
   * The reads of `log` are answered as the read stream says from position `r`:
   * the k-th read is followed by `ReadNext` of result `r + k`, and the log ends
   * in a read only once every result has been consumed.
   */
  ghost predicate ReadsAnswered(log: seq<Action>, results: seq<ReadResult>, r: nat)
  {
    var o := AfterEach(log, ReadInto(BufSize));
    && r + |o| <= |results|
    && (forall k :: 0 <= k < |o| ==> o[k] == ReadNext(results[r + k]))
    && (EndsIn(log, ReadInto(BufSize)) ==> r + |o| == |results|)
  }

  /**
   * The writes of `log`, whatever their bytes, are answered as the write stream
   * says from position `w`: the k-th write is followed by the next read
   * exactly when write `w + k` succeeds and by a fresh socket when it fails,
   * and the log ends in a write only once every outcome has been consumed.
   */
  ghost predicate WritesAnswered(log: seq<Action>, writes: seq<bool>, w: nat)
  {
    Answered(Erased(log), writes, w)
  }

  /** `WritesAnswered` on a log whose writes are already erased to `AnyWrite`. */
  ghost predicate Answered(marks: seq<Action>, writes: seq<bool>, w: nat)
  {
    var o := AfterEach(marks, AnyWrite);
    && Outcomes(o, writes, w, ReadInto(BufSize), NewSocket)
    && (EndsIn(marks, AnyWrite) ==> w + |o| == |writes|)
  }

  /** The rest `t` of a run after a connection that ended as `s`: a run from a fresh socket when the loop accepts again, and nothing otherwise. */
  ghost predicate ReadsThen(s: Echo, t: seq<Action>, results: seq<ReadResult>)
  {
    if Continues(s.end) then t != [] && t[0] == NewSocket && ReadsAnswered(t, results, s.readsEnd) else t == []
  }

  ghost predicate WritesThen(s: Echo, t: seq<Action>, writes: seq<bool>)
  {
    if Continues(s.end) then t != [] && t[0] == NewSocket && WritesAnswered(t, writes, s.writesEnd) else t == []
  }

  lemma SessionLogCons(d: seq<byte>, s: Echo)
    ensures SessionLog(s.(echoed := [d] + s.echoed)) == [ReadInto(BufSize), WriteAll(d)] + SessionLog(s)
  {
    assert ([d] + s.echoed)[1..] == s.echoed;
    AppendAssoc([ReadInto(BufSize), WriteAll(d)], Rounds(s.echoed), Closing(s.end));
  }

  /** Every connection starts with a read. */
  lemma SessionStartsWithRead(results: seq<ReadResult>, writes: seq<bool>, r: nat, w: nat)
    requires r <= |results| && w <= |writes|
    ensures var log := SessionLog(EchoAt(results, writes, r, w));
      log != [] && log[0] == ReadInto(BufSize)
  {
    if r < |results| && results[r].ReadOk? {
      var d := results[r].data;
      if d != [] && Utf8.Valid(d) && w < |writes| && writes[w] {
        SessionLogCons(d, EchoAt(results, writes, r + 1, w + 1));
      }
    }
  }

  lemma ReadAnswered(u: seq<Action>, results: seq<ReadResult>, r: nat)
    requires r < |results| && u != [] && u[0] == ReadNext(results[r])
    requires ReadsAnswered(u, results, r + 1)
    ensures ReadsAnswered([ReadInto(BufSize)] + u, results, r)
  {
    var read := ReadInto(BufSize);
    AfterEachCons(read, u, read);
    EndsInConcat([read], u, read);
    var o := AfterEach([read] + u, read);
    forall k | 0 <= k < |o|
      ensures o[k] == ReadNext(results[r + k])
    {
      if k > 0 {
        assert o[k] == AfterEach(u, read)[k - 1];
      }
    }
  }

  lemma ReadsAfter(x: Action, u: seq<Action>, results: seq<ReadResult>, r: nat)
    requires x != ReadInto(BufSize) && ReadsAnswered(u, results, r)
    ensures ReadsAnswered([x] + u, results, r)
  {
    AfterEachCons(x, u, ReadInto(BufSize));
    if u != [] {
      EndsInConcat([x], u, ReadInto(BufSize));
    }
  }

  /** Whether a connection at read `r` and write `w` echoes a chunk and goes round again. */
  predicate Echoes(results: seq<ReadResult>, writes: seq<bool>, r: nat, w: nat)
  {
    && r < |results| && results[r].ReadOk? && results[r].data != [] && Utf8.Valid(results[r].data)
    && w < |writes| && writes[w]
  }

  /** One connection's reads followed by the rest `t` of the run. */
  lemma {:induction false} ConnectionReads(results: seq<ReadResult>, writes: seq<bool>, r: nat, w: nat, t: seq<Action>)
    requires r <= |results| && w <= |writes|
    requires ReadsThen(EchoAt(results, writes, r, w), t, results)
    ensures ReadsAnswered(SessionLog(EchoAt(results, writes, r, w)) + t, results, r)
    decreases |results| - r
  {
    if Echoes(results, writes, r, w) {
      var d := results[r].data;
      var rest := EchoAt(results, writes, r + 1, w + 1);
      ConnectionReads(results, writes, r + 1, w + 1, t);
      RoundReads(d, SessionLog(rest), t, results, r);
      SessionLogCons(d, rest);
    } else {
      LastReads(results, writes, r, w, t);
    }
  }

  /** An echoed round in front of the rest of a connection. */
  lemma RoundReads(d: seq<byte>, more: seq<Action>, t: seq<Action>, results: seq<ReadResult>, r: nat)
    requires r < |results| && results[r] == ReadOk(d) && d != [] && Utf8.Valid(d)
    requires ReadsAnswered(more + t, results, r + 1)
    ensures ReadsAnswered([ReadInto(BufSize), WriteAll(d)] + more + t, results, r)
  {
    var read := ReadInto(BufSize);
    AppendAssoc([read, WriteAll(d)], more, t);
    assert [read, WriteAll(d)] + (more + t) == [read] + ([WriteAll(d)] + (more + t));
    ReadsAfter(WriteAll(d), more + t, results, r + 1);
    ReadAnswered([WriteAll(d)] + (more + t), results, r);
  }

  /** The log of a connection's last pass: one read, then a panic or a write-back when the chunk was not empty. */
  lemma LastLog(results: seq<ReadResult>, writes: seq<bool>, r: nat, w: nat)
    requires r <= |results| && w <= |writes| && !Echoes(results, writes, r, w)
    ensures var log := SessionLog(EchoAt(results, writes, r, w));
      if r == |results| || results[r].ReadErr? || results[r].data == [] then log == [ReadInto(BufSize)]
      else if !Utf8.Valid(results[r].data) then log == [ReadInto(BufSize), Panic]
      else log == [ReadInto(BufSize), WriteAll(results[r].data)]
  {
  }

  /** The last pass of a connection, which does not go round again. */
  lemma LastReads(results: seq<ReadResult>, writes: seq<bool>, r: nat, w: nat, t: seq<Action>)
    requires r <= |results| && w <= |writes| && !Echoes(results, writes, r, w)
    requires ReadsThen(EchoAt(results, writes, r, w), t, results)
    ensures ReadsAnswered(SessionLog(EchoAt(results, writes, r, w)) + t, results, r)
  {
    var read := ReadInto(BufSize);
    var s := EchoAt(results, writes, r, w);
    LastLog(results, writes, r, w);
    if r == |results| {
      assert SessionLog(s) + t == [read];
    } else if results[r].ReadErr? || results[r].data == [] {
      assert SessionLog(s) == [read];
      ReadAnswered(t, results, r);
    } else if !Utf8.Valid(results[r].data) {
      assert SessionLog(s) + t == [read] + [Panic];
      ReadAnswered([Panic], results, r);
    } else {
      var d := results[r].data;
      assert SessionLog(s) + t == [read] + ([WriteAll(d)] + t);
      ReadsAfter(WriteAll(d), t, results, r + 1);
      ReadAnswered([WriteAll(d)] + t, results, r);
    }
  }

  /** The head of the outer loop reads nothing. */
  lemma HeadReads(x: seq<Action>, y: seq<Action>, results: seq<ReadResult>, r: nat)
    requires x == Listen || x == Listen + [SetLed(true)]
    requires ReadsAnswered(y, results, r)
    ensures ReadsAnswered(x + y, results, r)
  {
    var read := ReadInto(BufSize);
    assert read !in x;
    AfterEachSkip(x, y, read);
    if y == [] {
      assert x + y == x;
    }
  }

  /**
   * What follows each read of a run, from any stream positions: the k-th read
   * is followed by the echo of result `r + k` when it is valid non-empty
   * UTF-8, by a panic when it is not UTF-8, and by a fresh socket when it is
   * a zero-length read or an error, so those two end the connection and lead
   * back to the outer loop; and the run ends in a read only once the read
   * stream has run out.
   */
  lemma {:induction false} ReadOutcomes(accepts: seq<bool>, results: seq<ReadResult>, writes: seq<bool>, i: nat, r: nat, w: nat)
    requires i <= |accepts| && r <= |results| && w <= |writes|
    ensures ReadsAnswered(EchoServerAt(accepts, results, writes, i, r, w), results, r)
    decreases |accepts| - i
  {
    if i == |accepts| {
      HeadReads(Listen, [], results, r);
      assert Listen + [] == Listen;
    } else if !accepts[i] {
      ReadOutcomes(accepts, results, writes, i + 1, r, w);
      HeadReads(Listen, EchoServerAt(accepts, results, writes, i + 1, r, w), results, r);
    } else {
      var s := EchoAt(results, writes, r, w);
      var t := if Continues(s.end) then EchoServerAt(accepts, results, writes, i + 1, s.readsEnd, s.writesEnd) else [];
      if Continues(s.end) {
        ReadOutcomes(accepts, results, writes, i + 1, s.readsEnd, s.writesEnd);
      }
      ConnectionReads(results, writes, r, w, t);
      HeadReads(Listen + [SetLed(true)], SessionLog(s) + t, results, r);
      AppendAssoc(Listen + [SetLed(true)], SessionLog(s), t);
    }
  }

  lemma ErasedCons(x: Action, u: seq<Action>)
    ensures Erased([x] + u) == [if x.WriteAll? then AnyWrite else x] + Erased(u)
  {
    ErasedConcat([x], u);
    assert Erased([x]) == [if x.WriteAll? then AnyWrite else x];
  }

  lemma WriteAnswered(d: seq<byte>, u: seq<Action>, writes: seq<bool>, w: nat)
    requires w < |writes| && u != [] && Erased(u)[0] == (if writes[w] then ReadInto(BufSize) else NewSocket)
    requires WritesAnswered(u, writes, w + 1)
    ensures WritesAnswered([WriteAll(d)] + u, writes, w)
  {
    ErasedCons(WriteAll(d), u);
    MarkAnswered(Erased(u), writes, w);
  }

  lemma MarkAnswered(m: seq<Action>, writes: seq<bool>, w: nat)
    requires w < |writes| && m != [] && m[0] == (if writes[w] then ReadInto(BufSize) else NewSocket)
    requires Answered(m, writes, w + 1)
    ensures Answered([AnyWrite] + m, writes, w)
  {
    AfterEachCons(AnyWrite, m, AnyWrite);
    OutcomesCons(m[0], AfterEach(m, AnyWrite), writes, w, ReadInto(BufSize), NewSocket);
    EndsInConcat([AnyWrite], m, AnyWrite);
  }

  lemma WritesAfter(x: Action, u: seq<Action>, writes: seq<bool>, w: nat)
    requires !x.WriteAll? && WritesAnswered(u, writes, w)
    ensures WritesAnswered([x] + u, writes, w)
  {
    ErasedCons(x, u);
    MarkAfter(x, Erased(u), writes, w);
  }

  lemma MarkAfter(x: Action, m: seq<Action>, writes: seq<bool>, w: nat)
    requires x != AnyWrite && Answered(m, writes, w)
    ensures Answered([x] + m, writes, w)
  {
    AfterEachCons(x, m, AnyWrite);
    if m != [] {
      EndsInConcat([x], m, AnyWrite);
    }
  }

  /** One connection's writes followed by the rest `t` of the run. */
  lemma {:induction false} ConnectionWrites(results: seq<ReadResult>, writes: seq<bool>, r: nat, w: nat, t: seq<Action>)
    requires r <= |results| && w <= |writes|
    requires WritesThen(EchoAt(results, writes, r, w), t, writes)
    ensures WritesAnswered(SessionLog(EchoAt(results, writes, r, w)) + t, writes, w)
    decreases |results| - r
  {
    if Echoes(results, writes, r, w) {
      var d := results[r].data;
      var rest := EchoAt(results, writes, r + 1, w + 1);
      ConnectionWrites(results, writes, r + 1, w + 1, t);
      SessionStartsWithRead(results, writes, r + 1, w + 1);
      RoundWrites(d, SessionLog(rest), t, writes, w);
      SessionLogCons(d, rest);
    } else {
      LastWrites(results, writes, r, w, t);
    }
  }

  /** An echoed round whose write succeeded, in front of the rest of a connection, which starts with a read. */
  lemma RoundWrites(d: seq<byte>, more: seq<Action>, t: seq<Action>, writes: seq<bool>, w: nat)
    requires w < |writes| && writes[w] && more != [] && more[0] == ReadInto(BufSize)
    requires WritesAnswered(more + t, writes, w + 1)
    ensures WritesAnswered([ReadInto(BufSize), WriteAll(d)] + more + t, writes, w)
  {
    var read := ReadInto(BufSize);
    AppendAssoc([read, WriteAll(d)], more, t);
    assert [read, WriteAll(d)] + (more + t) == [read] + ([WriteAll(d)] + (more + t));
    assert (more + t)[0] == read;
    WriteAnswered(d, more + t, writes, w);
    WritesAfter(read, [WriteAll(d)] + (more + t), writes, w);
  }

  /** The last pass of a connection, which does not go round again. */
  lemma LastWrites(results: seq<ReadResult>, writes: seq<bool>, r: nat, w: nat, t: seq<Action>)
    requires r <= |results| && w <= |writes| && !Echoes(results, writes, r, w)
    requires WritesThen(EchoAt(results, writes, r, w), t, writes)
    ensures WritesAnswered(SessionLog(EchoAt(results, writes, r, w)) + t, writes, w)
  {
    var read := ReadInto(BufSize);
    var s := EchoAt(results, writes, r, w);
    LastLog(results, writes, r, w);
    if r == |results| || results[r].ReadErr? || results[r].data == [] {
      assert SessionLog(s) + t == [read] + t;
      WritesAfter(read, t, writes, w);
    } else if !Utf8.Valid(results[r].data) {
      assert SessionLog(s) + t == [read] + ([Panic] + []);
      WritesAfter(Panic, [], writes, w);
      WritesAfter(read, [Panic], writes, w);
    } else {
      var d := results[r].data;
      assert SessionLog(s) + t == [read] + ([WriteAll(d)] + t);
      EchoWrite(d, t, writes, w);
    }
  }

  /** A chunk read whose write-back finds the write stream run out or fails, and what follows it. */
  lemma EchoWrite(d: seq<byte>, t: seq<Action>, writes: seq<bool>, w: nat)
    requires (w == |writes| && t == [])
      || (w < |writes| && !writes[w] && t != [] && t[0] == NewSocket && WritesAnswered(t, writes, w + 1))
    ensures WritesAnswered([ReadInto(BufSize)] + ([WriteAll(d)] + t), writes, w)
  {
    if w == |writes| {
      ErasedCons(WriteAll(d), []);
    } else {
      WriteAnswered(d, t, writes, w);
    }
    WritesAfter(ReadInto(BufSize), [WriteAll(d)] + t, writes, w);
  }

  /** The head of the outer loop writes nothing. */
  lemma HeadWrites(x: seq<Action>, y: seq<Action>, writes: seq<bool>, w: nat)
    requires x == Listen || x == Listen + [SetLed(true)]
    requires WritesAnswered(y, writes, w)
    ensures WritesAnswered(x + y, writes, w)
  {
    ErasedConcat(x, y);
    ErasedNoWrites(x);
    AfterEachSkip(x, Erased(y), AnyWrite);
    if y == [] {
      assert Erased(y) == [] && x + y == x;
    }
  }

  /**
   * What follows each write of a run, from any stream positions: the k-th
   * write is followed by the next read exactly when write `w + k` succeeds and
   * by a fresh socket when it fails, so a write error ends the connection and
   * leads back to the outer loop; and the run ends in a write only once the
   * write stream has run out.
   */
  lemma {:induction false} WriteOutcomes(accepts: seq<bool>, results: seq<ReadResult>, writes: seq<bool>, i: nat, r: nat, w: nat)
    requires i <= |accepts| && r <= |results| && w <= |writes|
    ensures WritesAnswered(EchoServerAt(accepts, results, writes, i, r, w), writes, w)
    decreases |accepts| - i
  {
    if i == |accepts| {
      HeadWrites(Listen, [], writes, w);
      assert Listen + [] == Listen;
    } else if !accepts[i] {
      WriteOutcomes(accepts, results, writes, i + 1, r, w);
      HeadWrites(Listen, EchoServerAt(accepts, results, writes, i + 1, r, w), writes, w);
    } else {
      var s := EchoAt(results, writes, r, w);
      var t := if Continues(s.end) then EchoServerAt(accepts, results, writes, i + 1, s.readsEnd, s.writesEnd) else [];
      if Continues(s.end) {
        WriteOutcomes(accepts, results, writes, i + 1, s.readsEnd, s.writesEnd);
      }
      ConnectionWrites(results, writes, r, w, t);
      HeadWrites(Listen + [SetLed(true)], SessionLog(s) + t, writes, w);
      AppendAssoc(Listen + [SetLed(true)], SessionLog(s), t);
    }
  }
}
