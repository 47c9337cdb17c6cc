/**
 * The tune player (src/music.rs): `ode_to_joy` plays a fixed 30-note melody on
 * the buzzer's PWM slice. Each note turns the duty cycle to 50%, loads the
 * note's configuration, holds it for the note's length, silences the slice and
 * pauses 50 ms. Both duty-cycle calls are fallible and propagated with `?`, so
 * the first failure ends the tune with an error.
 *
 * As in the client, `failing` gives the positions, in run order, of the
 * fallible calls that return an error: note `k` makes calls `2 * k` and
 * `2 * k + 1`.
 */
module Music {
  import opened Io
  import Pwm

  /** A note of the tune: the configuration that sounds it and its length in ms. */
  datatype Note = Note(tone: Pwm.Config, time: nat)

  /** The pause after every note, in ms. */
  const Gap: nat := 50

  /** `tone(1047)`, written out; `NotesAreTones` proves it. */
  const C: Pwm.Config := Pwm.Config(true, 64, 2238, 1119)
  /** `tone(1175)`. */
  const D: Pwm.Config := Pwm.Config(true, 64, 1994, 997)
  /** `tone(1319)`. */
  const E: Pwm.Config := Pwm.Config(true, 64, 1776, 888)
  /** `tone(1397)`. */
  const F: Pwm.Config := Pwm.Config(true, 64, 1677, 838)
  /** `tone(1568)`. */
  const G: Pwm.Config := Pwm.Config(true, 64, 1494, 747)

  /** The five note configurations are what `tone` computes for their frequencies. */
  lemma NotesAreTones()
    ensures C == Pwm.ToneConfig(1047) && D == Pwm.ToneConfig(1175) && E == Pwm.ToneConfig(1319)
    ensures F == Pwm.ToneConfig(1397) && G == Pwm.ToneConfig(1568)
  {
    Pwm.KnownTones();
  }

  /** The melody, eight bars of quarter notes with a half note closing bars 4 and 8. */
  const Song: seq<Note> := [
    Note(E, 250), Note(E, 250), Note(F, 250), Note(G, 250),
    Note(G, 250), Note(F, 250), Note(E, 250), Note(D, 250),
    Note(C, 250), Note(C, 250), Note(D, 250), Note(E, 250),
    Note(E, 250), Note(D, 250), Note(D, 500),
    Note(E, 250), Note(E, 250), Note(F, 250), Note(G, 250),
    Note(G, 250), Note(F, 250), Note(E, 250), Note(D, 250),
    Note(C, 250), Note(C, 250), Note(D, 250), Note(E, 250),
    Note(D, 250), Note(C, 250), Note(C, 500)
  ]

  /** One pass of the loop when neither duty-cycle call fails. */
  function NoteSteps(n: Note): (r: seq<Action>)
    ensures |r| == 5
  {
    [SetDutyPercent(50), ApplyConfig(n.tone), Wait(n.time), SetDutyPercent(0), Wait(Gap)]
  }

  /** The whole song played without a failure. */
  function Steps(song: seq<Note>): (r: seq<Action>)
    ensures |r| == 5 * |song|
  {
    if song == [] then [] else NoteSteps(song[0]) + Steps(song[1..])
  }

  /** The loop from note `k` on: a failing call ends it, and is itself not an action. */
  function PlayAt(song: seq<Note>, failing: set<nat>, k: nat): (r: seq<Action>)
    requires k <= |song|
    ensures |r| <= 5 * (|song| - k)
    decreases |song| - k
  {
    if k == |song| then []
    else if 2 * k in failing then []
    else if 2 * k + 1 in failing then NoteSteps(song[k])[..3]
    else NoteSteps(song[k]) + PlayAt(song, failing, k + 1)
  }

  /** None of the first `n` fallible calls fails. */
  predicate CleanUpTo(n: nat, failing: set<nat>)
  {
    forall c :: 0 <= c < n ==> c !in failing
  }

  /**
   * The loop of `ode_to_joy` over `song`. `ok` is whether it completes, which
   * it does exactly when none of its duty-cycle calls fails.
   */
  method Play(song: seq<Note>, failing: set<nat>) returns (log: seq<Action>, ok: bool)
    ensures log == PlayAt(song, failing, 0)
    ensures ok == CleanUpTo(2 * |song|, failing)
  {
    log := [];
    for k := 0 to |song|
      invariant log + PlayAt(song, failing, k) == PlayAt(song, failing, 0)
      invariant CleanUpTo(2 * k, failing)
    {
      var note := song[k];
      if 2 * k in failing {
        return log, false;
      }
      ghost var before := log;
      log := log + [SetDutyPercent(50), ApplyConfig(note.tone), Wait(note.time)];
      if 2 * k + 1 in failing {
        assert NoteSteps(note)[..3] == [SetDutyPercent(50), ApplyConfig(note.tone), Wait(note.time)];
        return log, false;
      }
      log := log + [SetDutyPercent(0), Wait(Gap)];
      assert log == before + NoteSteps(note);
      AppendAssoc(before, NoteSteps(note), PlayAt(song, failing, k + 1));
    }
    ok := true;
  }

  /** `ode_to_joy`: `ok` is whether it returns `Ok(())`, which takes all 60 duty-cycle calls to succeed. */
  method OdeToJoy(failing: set<nat>) returns (log: seq<Action>, ok: bool)
    ensures log == PlayAt(Song, failing, 0)
    ensures ok == CleanUpTo(60, failing)
  {
    log, ok := Play(Song, failing);
  }

  // ---------------------------------------------------------------------------
  // What a run plays

  /** Without a failure the loop plays every remaining note in full. */
  lemma {:induction false} PlayClean(song: seq<Note>, failing: set<nat>, k: nat)
    requires k <= |song|
    requires forall c :: 2 * k <= c < 2 * |song| ==> c !in failing
    ensures PlayAt(song, failing, k) == Steps(song[k..])
    decreases |song| - k
  {
    if k < |song| {
      PlayClean(song, failing, k + 1);
      assert song[k..][1..] == song[k + 1..];
    }
  }

  /** The first failing call is the last event: the notes before it are played in full, then the part of its note before it. */
  lemma {:induction false} PlayStops(song: seq<Note>, failing: set<nat>, k: nat, j: nat)
    requires k <= j / 2 < |song|
    requires j in failing && forall c :: 2 * k <= c < j ==> c !in failing
    ensures PlayAt(song, failing, k) == Steps(song[k..j / 2]) + NoteSteps(song[j / 2])[..(if j % 2 == 0 then 0 else 3)]
    decreases |song| - k
  {
    if k == j / 2 {
      assert song[k..j / 2] == [];
    } else {
      PlayStops(song, failing, k + 1, j);
      assert song[k..j / 2] == [song[k]] + song[k + 1..j / 2];
      assert song[k..j / 2][1..] == song[k + 1..j / 2];
      AppendAssoc(NoteSteps(song[k]), Steps(song[k + 1..j / 2]), NoteSteps(song[j / 2])[..(if j % 2 == 0 then 0 else 3)]);
    }
  }

  /** `Ok(())` comes with the whole song; otherwise the log stops at the first failing call. */
  lemma OdeToJoyOutcome(failing: set<nat>, j: nat)
    ensures CleanUpTo(2 * |Song|, failing) ==> PlayAt(Song, failing, 0) == Steps(Song)
    ensures j < 2 * |Song| && j in failing && CleanUpTo(j, failing) ==>
      PlayAt(Song, failing, 0) == Steps(Song[..j / 2]) + NoteSteps(Song[j / 2])[..(if j % 2 == 0 then 0 else 3)]
  {
    if CleanUpTo(2 * |Song|, failing) {
      PlayClean(Song, failing, 0);
      assert Song[0..] == Song;
    }
    if j < 2 * |Song| && j in failing && CleanUpTo(j, failing) {
      PlayStops(Song, failing, 0, j);
      assert Song[0..j / 2] == Song[..j / 2];
    }
  }

  /** A failure of the very first call plays nothing; one of the last call cuts the final note short of its silencing and pause. */
  lemma FailureExamples()
    ensures PlayAt(Song, {0}, 0) == []
    ensures PlayAt(Song, {59}, 0) == Steps(Song[..29]) + [SetDutyPercent(50), ApplyConfig(C), Wait(500)]
  {
    OdeToJoyOutcome({0}, 0);
    OdeToJoyOutcome({59}, 59);
    assert Song[29] == Note(C, 500);
  }

  // ---------------------------------------------------------------------------
  // What the buzzer emits

  /** The tones of a melody, one segment per note. */
  function Melody(song: seq<Note>): seq<Segment>
  {
    if song == [] then [] else [Segment(song[0].tone, song[0].time)] + Melody(song[1..])
  }

  /** The sum of the note lengths. */
  function Length(song: seq<Note>): nat
  {
    if song == [] then 0 else song[0].time + Length(song[1..])
  }

  /** A note that sounds: its configuration is enabled with a non-zero compare value, and it lasts. */
  predicate Sounds(n: Note)
  {
    n.tone.enable && n.tone.compareA > 0 && n.time > 0
  }

  /**
   * Played in full, a melody whose notes all sound emits exactly its notes, in
   * order, whatever the slice was doing before; the slice ends silent.
   */
  lemma {:induction false} StepsSound(song: seq<Note>, s: PwmState)
    requires forall k :: 0 <= k < |song| ==> Sounds(song[k])
    ensures Audible(Steps(song), s) == Melody(song)
    ensures song != [] ==> PwmAfter(Steps(song), s) == PwmState(song[|song| - 1].tone, false)
  {
    if song != [] {
      var n := song[0];
      NoteSound(n, s);
      AudibleConcat(NoteSteps(n), Steps(song[1..]), s);
      StepsSound(song[1..], PwmState(n.tone, false));
      if |song| == 1 {
        assert song[1..] == [];
      }
    }
  }

  /** One note sounds its tone for its length and leaves the slice silent. */
  lemma NoteSound(n: Note, s: PwmState)
    requires Sounds(n)
    ensures Audible(NoteSteps(n), s) == [Segment(n.tone, n.time)]
    ensures PwmAfter(NoteSteps(n), s) == PwmState(n.tone, false)
  {
    var on := PwmState(s.config, true);
    var loaded := PwmState(n.tone, true);
    var off := PwmState(n.tone, false);
    assert PwmStep(s, SetDutyPercent(50)) == on;
    assert PwmStep(on, ApplyConfig(n.tone)) == loaded;
    assert PwmStep(loaded, SetDutyPercent(0)) == off;
    AudibleCons(Wait(Gap), [], off);
    AudibleCons(SetDutyPercent(0), [Wait(Gap)], loaded);
    AudibleCons(Wait(n.time), [SetDutyPercent(0), Wait(Gap)], loaded);
    AudibleCons(ApplyConfig(n.tone), [Wait(n.time), SetDutyPercent(0), Wait(Gap)], on);
    AudibleCons(SetDutyPercent(50), [ApplyConfig(n.tone), Wait(n.time), SetDutyPercent(0), Wait(Gap)], s);
  }

  /** A note played in full waits for its length and then for the pause. */
  lemma NoteTiming(n: Note)
    ensures TotalWait(NoteSteps(n)) == n.time + Gap
  {
    assert TotalWait([Wait(Gap)]) == Gap;
    assert TotalWait([SetDutyPercent(0), Wait(Gap)]) == Gap;
    assert TotalWait([Wait(n.time), SetDutyPercent(0), Wait(Gap)]) == n.time + Gap;
    assert TotalWait([ApplyConfig(n.tone), Wait(n.time), SetDutyPercent(0), Wait(Gap)]) == n.time + Gap;
  }

  /** Played in full, a melody takes its note lengths plus one pause per note. */
  lemma {:induction false} StepsTiming(song: seq<Note>)
    ensures TotalWait(Steps(song)) == Length(song) + Gap * |song|
  {
    if song != [] {
      var n := song[0];
      NoteTiming(n);
      TotalWaitConcat(NoteSteps(n), Steps(song[1..]));
      StepsTiming(song[1..]);
    }
  }

  lemma {:induction false} LengthConcat(x: seq<Note>, y: seq<Note>)
    ensures Length(x + y) == Length(x) + Length(y)
  {
    if x != [] {
      assert (x + y)[1..] == x[1..] + y;
      LengthConcat(x[1..], y);
    } else {
      assert x + y == y;
    }
  }

  // ---------------------------------------------------------------------------
  // The tune

  /** Every note of the tune is one of the five tones and sounds. */
  lemma SongNotes()
    ensures |Song| == 30
    ensures forall k :: 0 <= k < |Song| ==> Sounds(Song[k]) && Song[k].tone in {C, D, E, F, G}
  {
  }

  /** The second phrase repeats the first twelve notes and differs only in its three-note ending. */
  lemma SongPhrases()
    ensures Song[15..27] == Song[..12]
    ensures Song[12..15] == [Note(E, 250), Note(D, 250), Note(D, 500)]
    ensures Song[27..] == [Note(D, 250), Note(C, 250), Note(C, 500)]
  {
  }

  /** A run of notes of one length lasts that length once per note. */
  lemma {:induction false} LengthUniform(song: seq<Note>, time: nat)
    requires forall k :: 0 <= k < |song| ==> song[k].time == time
    ensures Length(song) == time * |song|
  {
    if song != [] {
      LengthUniform(song[1..], time);
    }
  }

  /** The tune lasts 8000 ms of notes and 9500 ms with the pauses. */
  lemma SongTiming()
    ensures Length(Song) == 8000
    ensures TotalWait(Steps(Song)) == 9500
  {
    var first, second := Song[..14], Song[15..29];
    assert Song == first + [Song[14]] + second + [Song[29]];
    LengthUniform(first, 250);
    LengthUniform(second, 250);
    LengthConcat(first, [Song[14]]);
    LengthConcat(first + [Song[14]], second);
    LengthConcat(first + [Song[14]] + second, [Song[29]]);
    StepsTiming(Song);
  }

  /** A complete run of the tune emits its thirty notes in order and leaves the buzzer silent on the last C. */
  lemma SongSound(s: PwmState)
    ensures Audible(Steps(Song), s) == Melody(Song)
    ensures PwmAfter(Steps(Song), s) == PwmState(C, false)
  {
    SongNotes();
    StepsSound(Song, s);
  }
}
