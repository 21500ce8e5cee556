/**
 * The change detection in the polling loop of `main`: `last_state` starts as
 * `None`; a probe result is reported through `fire_event` when it is known and
 * differs from `last_state`, and `last_state` then takes that result.
 * `fire_event` returns nothing and swallows its own errors, so whether the
 * report reached the server never feeds back into the loop.
 */
module Monitor {
  import opened Wrappers
  import opened Probe

  /** One probe result: `None` when the state could not be determined. */
  type Reading = Option<State>

  /** The test of the loop: report a reading that is known and differs from `last_state`. */
  predicate ShouldFire(last: Reading, current: Reading) {
    current.Some? && current != last
  }

  /** `last_state` after one tick: every known reading is taken, reported or not; an unknown one is not. */
  function Advance(last: Reading, current: Reading): (next: Reading)
    ensures current.Some? ==> next == current
    ensures current.None? ==> next == last
  {
    if ShouldFire(last, current) then current else last
  }

  /** `last_state` once the loop has consumed `readings`, starting from `None`. */
  function LastState(readings: seq<Reading>): (last: Reading)
    ensures last.Some? ==> last in readings
  {
    if readings == [] then None
    else Advance(LastState(readings[..|readings| - 1]), readings[|readings| - 1])
  }

  /** The states `fire_event` is called with while the loop consumes `readings`, in order. */
  function Fired(readings: seq<Reading>): (fired: seq<State>)
    ensures |fired| <= |readings|
  {
    if readings == [] then []
    else
      var prior, current := readings[..|readings| - 1], readings[|readings| - 1];
      Fired(prior) + (if ShouldFire(LastState(prior), current) then [current.value] else [])
  }

  /** The probe results of successive ticks, given what `pactl` printed on each. */
  function Readings(device: string, outputs: seq<Option<string>>): (rs: seq<Reading>)
    ensures |rs| == |outputs|
    ensures forall i :: 0 <= i < |outputs| ==> rs[i] == GetAudioState(device, outputs[i])
  {
    if outputs == [] then []
    else Readings(device, outputs[..|outputs| - 1]) + [GetAudioState(device, outputs[|outputs| - 1])]
  }

  /**
   * The loop of `main` over a finite run of ticks: each tick probes the
   * device and reports a change; `fired` lists the reported states.
   */
  method Run(device: string, outputs: seq<Option<string>>) returns (fired: seq<State>, last: Reading)
    ensures fired == Fired(Readings(device, outputs))
    ensures last == LastState(Readings(device, outputs))
    ensures last == LastKnown(Readings(device, outputs))
    ensures fired == Dedup(Known(Readings(device, outputs)))
    ensures forall k :: 0 <= k < |fired| - 1 ==> fired[k] != fired[k + 1]
  {
    fired, last := [], None;
    var i := 0;
    while i < |outputs|
      invariant 0 <= i <= |outputs|
      invariant fired == Fired(Readings(device, outputs[..i]))
      invariant last == LastState(Readings(device, outputs[..i]))
    {
      assert outputs[..i + 1][..i] == outputs[..i];
      var current := GetAudioState(device, outputs[i]);
      if current.Some? && current != last {
        fired := fired + [current.value];
        last := current;
      }
      i := i + 1;
    }
    assert outputs[..|outputs|] == outputs;
    var readings := Readings(device, outputs);
    LastStateIsLastKnown(readings);
    FiredIsDedupOfKnown(readings);
    FiredHasNoRepeats(readings);
  }

  // ---------------------------------------------------------------------------
  // Reference definitions, independent of the loop

  /** The most recent known reading, or `None` when no reading was known. */
  function LastKnown(readings: seq<Reading>): Reading {
    if readings == [] then None
    else if readings[|readings| - 1].Some? then readings[|readings| - 1]
    else LastKnown(readings[..|readings| - 1])
  }

  /** The known readings, in order, with the unknown ones dropped. */
  function Known(readings: seq<Reading>): seq<State> {
    if readings == [] then []
    else
      var prior, current := readings[..|readings| - 1], readings[|readings| - 1];
      Known(prior) + (if current.Some? then [current.value] else [])
  }

  /** `s` with every run of equal adjacent states collapsed to one. */
  function Dedup(s: seq<State>): seq<State> {
    if |s| <= 1 then s
    else if s[|s| - 1] == s[|s| - 2] then Dedup(s[..|s| - 1])
    else Dedup(s[..|s| - 1]) + [s[|s| - 1]]
  }

  // ---------------------------------------------------------------------------
  // Properties of the loop

  /** `last_state` is always the most recent known reading: an unknown reading never overwrites it. */
  lemma {:induction false} LastStateIsLastKnown(readings: seq<Reading>)
    ensures LastState(readings) == LastKnown(readings)
  {
    if readings != [] {
      LastStateIsLastKnown(readings[..|readings| - 1]);
    }
  }

  /**
   * One tick: it reports exactly when the reading is known and differs from the
   * last known state, and `last_state` moves to every known reading, reported or not.
   */
  lemma {:induction false} TickFires(readings: seq<Reading>, current: Reading)
    ensures Fired(readings + [current])
         == Fired(readings) + (if current.Some? && current != LastKnown(readings) then [current.value] else [])
    ensures LastState(readings + [current]) == if current.Some? then current else LastState(readings)
  {
    var p := readings + [current];
    assert p[..|p| - 1] == readings;
    LastStateIsLastKnown(readings);
  }

  /** The last state reported is `last_state`; before any report `last_state` is still `None`. */
  lemma {:induction false} LastFiredIsLastState(readings: seq<Reading>)
    ensures Fired(readings) == [] ==> LastState(readings) == None
    ensures Fired(readings) != [] ==> LastState(readings) == Some(Fired(readings)[|Fired(readings)| - 1])
  {
    if readings != [] {
      LastFiredIsLastState(readings[..|readings| - 1]);
    }
  }

  /** No two consecutive reports carry the same state. */
  lemma {:induction false} FiredHasNoRepeats(readings: seq<Reading>)
    ensures forall k :: 0 <= k < |Fired(readings)| - 1 ==> Fired(readings)[k] != Fired(readings)[k + 1]
  {
    if readings != [] {
      var prior := readings[..|readings| - 1];
      FiredHasNoRepeats(prior);
      LastFiredIsLastState(prior);
    }
  }

  lemma {:induction false} LastKnownIsLastOfKnown(readings: seq<Reading>)
    ensures Known(readings) == [] ==> LastKnown(readings) == None
    ensures Known(readings) != [] ==> LastKnown(readings) == Some(Known(readings)[|Known(readings)| - 1])
  {
    if readings != [] {
      LastKnownIsLastOfKnown(readings[..|readings| - 1]);
    }
  }

  /** The reports are the known readings with repeats collapsed. */
  lemma {:induction false} FiredIsDedupOfKnown(readings: seq<Reading>)
    ensures Fired(readings) == Dedup(Known(readings))
  {
    if readings != [] {
      var prior, current := readings[..|readings| - 1], readings[|readings| - 1];
      FiredIsDedupOfKnown(prior);
      LastStateIsLastKnown(prior);
      LastKnownIsLastOfKnown(prior);
      if current.Some? {
        var known := Known(prior);
        var k := known + [current.value];
        assert Known(readings) == k;
        assert k[..|k| - 1] == known;
        assert Fired(readings) == Fired(prior) + (if ShouldFire(LastState(prior), current) then [current.value] else []);
        if known == [] {
          assert k == [current.value];
        } else {
          assert k[|k| - 2] == known[|known| - 1];
          assert k[|k| - 1] == current.value;
          assert LastState(prior) == Some(known[|known| - 1]);
          assert Dedup(k) == if current.value == known[|known| - 1] then Dedup(known) else Dedup(known) + [current.value];
        }
      } else {
        assert Known(readings) == Known(prior);
        assert Fired(readings) == Fired(prior);
      }
    }
  }

  /** Unknown readings play no part: dropping one changes neither the reports nor `last_state`. */
  lemma {:induction false} UnknownIsTransparent(before: seq<Reading>, after: seq<Reading>)
    ensures Fired(before + [None] + after) == Fired(before + after)
    ensures LastState(before + [None] + after) == LastState(before + after)
  {
    var unknown: seq<Reading> := [None];
    assert Known(unknown) == [] by { assert unknown[..0] == []; }
    KnownAppend(before, unknown);
    KnownAppend(before + unknown, after);
    KnownAppend(before, after);
    assert Known(before + unknown + after) == Known(before + after);
    FiredIsDedupOfKnown(before + [None] + after);
    FiredIsDedupOfKnown(before + after);
    LastStateIsLastKnown(before + [None] + after);
    LastStateIsLastKnown(before + after);
    LastKnownIsLastOfKnown(before + [None] + after);
    LastKnownIsLastOfKnown(before + after);
  }

  lemma {:induction false} KnownAppend(a: seq<Reading>, b: seq<Reading>)
    ensures Known(a + b) == Known(a) + Known(b)
    decreases |b|
  {
    if b == [] {
      assert a + b == a;
    } else {
      var ab := a + b;
      assert ab[..|ab| - 1] == a + b[..|b| - 1];
      assert ab[|ab| - 1] == b[|b| - 1];
      KnownAppend(a, b[..|b| - 1]);
    }
  }

  /** `n` ticks in a row with the same known reading report at most once, on the first of them. */
  lemma {:induction false} RepeatedReadingFiresOnce(readings: seq<Reading>, s: State, n: nat)
    ensures Fired(readings + seq(n, _ => Some(s)))
         == Fired(readings) + (if n > 0 && LastState(readings) != Some(s) then [s] else [])
    ensures n > 0 ==> LastState(readings + seq(n, _ => Some(s))) == Some(s)
  {
    var run := seq(n, _ => Some(s));
    if n == 0 {
      assert readings + run == readings;
    } else {
      var shorter := seq(n - 1, _ => Some(s));
      assert readings + run == (readings + shorter) + [Some(s)];
      RepeatedReadingFiresOnce(readings, s, n - 1);
      TickFires(readings + shorter, Some(s));
      LastStateIsLastKnown(readings + shorter);
      LastStateIsLastKnown(readings);
    }
  }

  /** Since `last_state` starts as `None`, the first known reading is always reported. */
  lemma {:induction false} FirstKnownReadingFires(unknown: nat, s: State)
    ensures Fired(seq(unknown, _ => None) + [Some(s)]) == [s]
  {
    var nones: seq<Reading> := seq(unknown, _ => None);
    TickFires(nones, Some(s));
    KnownNone(unknown);
    FiredIsDedupOfKnown(nones);
    LastKnownIsLastOfKnown(nones);
  }

  lemma {:induction false} KnownNone(n: nat)
    ensures Known(seq(n, _ => None)) == []
  {
    if n > 0 {
      var nones: seq<Reading> := seq(n, _ => None);
      assert nones[..n - 1] == seq(n - 1, _ => None);
      KnownNone(n - 1);
    }
  }
}
