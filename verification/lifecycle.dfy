/**
  The life of one engine: the calls a user of the `Rabbit` interface makes
  (key setup, IV setup, reset) plus keystream extraction, in any order, and
  what holds across them. Every property here is about sequences of calls
  of the operations of module Rabbit.
 */
module Lifecycle {
  import opened Words
  import opened Rabbit

  /** One call on an engine. */
  datatype Call =
    | SetKey(key: seq<Byte>)
    | SetIV(iv: seq<Byte>)
    | ResetAll
    | Extract

  /** The engine after one call. A refused call leaves it as it was;
      extraction advances the state once; reset forgets everything; a key
      setup that succeeds leaves a keyed engine whose master copy is its
      working state; IV setup and extraction never touch the master copy or
      the flag. */
  function Step(r: Engine, call: Call): (s: Engine)
    ensures call.SetKey? && |call.key| != 16 ==> s == r
    ensures call.SetKey? && |call.key| == 16 ==> s.keySetupCalled && s.masterX == s.x && s.masterC == s.c && s.masterB == s.b
    ensures call.SetIV? && (!r.keySetupCalled || |call.iv| != 8) ==> s == r
    ensures call.ResetAll? ==> s == Initial
    ensures call.Extract? ==> s == NextState(r)
    ensures call.SetIV? ==>
      s.masterX == r.masterX && s.masterC == r.masterC && s.masterB == r.masterB && s.keySetupCalled == r.keySetupCalled
    ensures call.Extract? ==>
      s.masterX == r.masterX && s.masterC == r.masterC && s.masterB == r.masterB && s.keySetupCalled == r.keySetupCalled
  {
    match call
    case SetKey(key) => SetupKey(r, key).engine
    case SetIV(iv) => SetupIV(r, iv).engine
    case ResetAll => Reset(r)
    case Extract => KeyStream(r).engine
  }

  /** The bytes one call hands back: 16 for an extraction, none otherwise. */
  function Emitted(r: Engine, call: Call): seq<Byte>
  {
    if call.Extract? then KeyStream(r).bytes else []
  }

  /** The engine after a whole sequence of calls, first call first. */
  function Run(r: Engine, calls: seq<Call>): Engine
    decreases |calls|
  {
    if |calls| == 0 then r else Run(Step(r, calls[0]), calls[1..])
  }

  /** All keystream bytes a sequence of calls produces, in order. */
  function Output(r: Engine, calls: seq<Call>): (out: seq<Byte>)
    ensures |out| == 16 * Extractions(calls)
    decreases |calls|
  {
    if |calls| == 0 then [] else Emitted(r, calls[0]) + Output(Step(r, calls[0]), calls[1..])
  }

  /** How many extractions a call sequence contains. */
  function Extractions(calls: seq<Call>): nat
    decreases |calls|
  {
    if |calls| == 0 then 0 else (if calls[0].Extract? then 1 else 0) + Extractions(calls[1..])
  }

  /* ---------------------------------------------------------------------
     An invariant of every engine reachable from a fresh one.
     --------------------------------------------------------------------- */

  /** The carries are bits, and an engine whose key was never set (or was
      reset since) has an all-zero master copy. Every engine reachable from
      a fresh one satisfies this; it over-approximates reachability, since
      it says nothing about the state and counter words. */
  predicate Invariant(r: Engine)
  {
    && r.b <= 1
    && r.masterB <= 1
    && (!r.keySetupCalled ==> r.masterX == Zero && r.masterC == Zero && r.masterB == 0)
  }

  lemma InitialSatisfiesInvariant()
    ensures Invariant(Initial)
  {
  }

  /** No single call leaves the invariant. */
  lemma StepKeepsInvariant(r: Engine, call: Call)
    requires Invariant(r)
    ensures Invariant(Step(r, call))
  {
  }

  /** No sequence of calls leaves the invariant: carries stay 0 or 1 for as
      long as the engine lives. */
  lemma {:induction false} RunKeepsInvariant(r: Engine, calls: seq<Call>)
    requires Invariant(r)
    ensures Invariant(Run(r, calls))
    decreases |calls|
  {
    if |calls| > 0 {
      StepKeepsInvariant(r, calls[0]);
      RunKeepsInvariant(Step(r, calls[0]), calls[1..]);
    }
  }

  /* ---------------------------------------------------------------------
     Key setup.
     --------------------------------------------------------------------- */

  /** A successful key setup forgets everything about the engine it was
      called on: two engines keyed with the same key are identical. */
  lemma SetupKeyForgetsHistory(r1: Engine, r2: Engine, key: seq<Byte>)
    requires |key| == 16
    ensures SetupKey(r1, key) == SetupKey(r2, key)
  {
  }

  /** Hence whatever follows a key setup, engine and keystream alike, does
      not depend on the calls made before it. */
  lemma RekeyForgetsHistory(r1: Engine, r2: Engine, key: seq<Byte>, calls: seq<Call>)
    requires |key| == 16
    ensures Run(r1, [SetKey(key)] + calls) == Run(r2, [SetKey(key)] + calls)
    ensures Output(r1, [SetKey(key)] + calls) == Output(r2, [SetKey(key)] + calls)
  {
    SetupKeyForgetsHistory(r1, r2, key);
    RunFirst(r1, SetKey(key), calls);
    RunFirst(r2, SetKey(key), calls);
  }

  /** A call sequence runs its first call, then the rest. */
  lemma RunFirst(r: Engine, call: Call, calls: seq<Call>)
    ensures Run(r, [call] + calls) == Run(Step(r, call), calls)
    ensures Output(r, [call] + calls) == Emitted(r, call) + Output(Step(r, call), calls)
  {
    assert ([call] + calls)[0] == call && ([call] + calls)[1..] == calls;
  }

  /* ---------------------------------------------------------------------
     IV setup.
     --------------------------------------------------------------------- */

  /** IV setup reads nothing of the working state: two keyed engines with
      the same master copy give the same result for the same IV. */
  lemma SetupIVReadsOnlyMasters(r1: Engine, r2: Engine, iv: seq<Byte>)
    requires r1.keySetupCalled && r2.keySetupCalled
    requires r1.masterX == r2.masterX && r1.masterC == r2.masterC && r1.masterB == r2.masterB
    requires |iv| == 8
    ensures SetupIV(r1, iv) == SetupIV(r2, iv)
  {
  }

  /** Of two IV setups in a row only the second matters. */
  lemma SetupIVLastWins(r: Engine, first: seq<Byte>, second: seq<Byte>)
    requires |second| == 8
    ensures SetupIV(SetupIV(r, first).engine, second) == SetupIV(r, second)
  {
    if r.keySetupCalled {
      SetupIVReadsOnlyMasters(SetupIV(r, first).engine, r, second);
    }
  }

  /** Repeating an IV setup changes nothing. */
  lemma SetupIVIdempotent(r: Engine, iv: seq<Byte>)
    ensures SetupIV(SetupIV(r, iv).engine, iv) == SetupIV(r, iv)
  {
    if |iv| == 8 {
      SetupIVLastWins(r, iv, iv);
    }
  }

  /** IV setup rewinds the stream: however many blocks were extracted, and
      whatever IV setups came between, setting an IV again restarts the
      keystream that IV produced the first time. */
  lemma {:induction false} SetupIVRestarts(r: Engine, iv: seq<Byte>, calls: seq<Call>)
    requires r.keySetupCalled && |iv| == 8
    requires forall i :: 0 <= i < |calls| ==> calls[i].Extract? || calls[i].SetIV?
    ensures SetupIV(Run(r, calls), iv) == SetupIV(r, iv)
    decreases |calls|
  {
    if |calls| > 0 {
      var next := Step(r, calls[0]);
      assert next.keySetupCalled && next.masterX == r.masterX && next.masterC == r.masterC && next.masterB == r.masterB;
      assert forall i :: 0 <= i < |calls[1..]| ==> calls[1..][i] == calls[i + 1];
      SetupIVRestarts(next, iv, calls[1..]);
      SetupIVReadsOnlyMasters(next, r, iv);
    }
  }

  /** Before any key setup, IV setup is refused and nothing changes. */
  lemma SetupIVNeedsKey(iv: seq<Byte>)
    ensures SetupIV(Initial, iv) == Outcome(Initial, Failed(KeyNotSet))
  {
  }

  /* ---------------------------------------------------------------------
     Reset.
     --------------------------------------------------------------------- */

  /** Reset forgets the key: IV setup is refused after it, whatever came
      before. */
  lemma ResetForgetsKey(r: Engine, iv: seq<Byte>)
    ensures SetupIV(Reset(r), iv).status == Failed(KeyNotSet)
    ensures SetupIV(Reset(r), iv).engine == Initial
  {
  }
}
