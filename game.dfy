// The game loop of `main`: its locals `level`, `sequences`, `delay`, `loose`
// and the 52-byte `sequence` buffer, changed step by step by the four parts
// of a round (reset after a loss, generation, the answer check, the win
// check and level advance). Each step is proved against the functions of
// module Rounds; `getch()` and `rand()` are input sequences.
module Game {
  import opened CTypes
  import opened Codec
  import opened Rounds
  import Buffer

  class Machine {
    var level: byte
    var sequences: byte
    var delay: int32
    var loose: bool
    const sequence: array<byte>

    function State(): Session
      reads this
    {
      Session(level, sequences, delay, loose)
    }

    ghost predicate Valid()
      reads this
    {
      sequence.Length == ARRAY_SIZE && Inv(State())
    }

    /** Program start: `loose` is 1 so that the first round resets the
        counters, which C leaves uninitialised. */
    constructor ()
      ensures Valid() && loose && fresh(sequence)
    {
      sequence := new byte[ARRAY_SIZE];
      loose := true;
    }

    /** The start of a round: after a loss, reset the counters and read the
        start-screen key, on which ESC (compared as an `int`) ends the game. */
    method Begin(startKey: int) returns (quit: bool)
      requires Valid()
      modifies this
      ensures Valid()
      ensures State() == ResetIfLost(old(State()))
      ensures quit <==> old(loose) && startKey == ESC
    {
      quit := false;
      if loose {
        level := START_LEVEL;
        sequences := START_SEQUENCES;
        delay := START_DELAY;
        loose := false;
        quit := startKey == ESC;
      }
    }

    /** Clear the buffer, then draw and flash one colour per slot of the
        answer; `frames` are the colours the screen is filled with. */
    method Generate(draws: seq<nat>) returns (frames: seq<byte>)
      requires Valid() && !loose && |draws| >= sequences as int
      modifies sequence
      ensures Valid()
      ensures sequence[..] == Generated(draws, sequences as int)
      ensures frames == Flashes(sequence[..sequences])
    {
      Buffer.ClearArray(sequence, ARRAY_SIZE as byte);
      frames := [];
      var i: byte := 0;
      while i < sequences
        invariant i <= sequences
        invariant forall k :: 0 <= k < i as int ==> sequence[k] == DrawColor(draws[k])
        invariant forall k :: i as int <= k < ARRAY_SIZE ==> sequence[k] == FAIL
        invariant frames == Flashes(sequence[..i])
      {
        sequence[i as int] := DrawColor(draws[i]);
        assert sequence[..i + 1][..i] == sequence[..i];
        frames := frames + Flash(sequence[i as int]);
        i := i + 1;
      }
    }

    /** The answer loop: read keys one by one against the filled prefix,
        stop at the first wrong key (a loss), at a key stored as byte 0, or
        at the end of the prefix. The index is bounded by ARRAY_SIZE, which
        the source omits (see module Overrun). */
    method Validate(keys: seq<int>) returns (consumed: nat)
      requires Valid() && !loose
      requires Shaped(sequence[..], sequences as int)
      requires |keys| >= sequences as int
      modifies this`loose
      ensures Valid()
      ensures loose == Check(sequence[..sequences], keys).lost
      ensures consumed == Check(sequence[..sequences], keys).consumed
    {
      ghost var expected := sequence[..sequences];
      var i: byte := 0;
      consumed := 0;
      while i < ARRAY_SIZE as byte && sequence[i] != FAIL
        invariant i <= sequences && consumed == i as int && !loose
        invariant forall k :: 0 <= k < i as int ==> Answers(keys[k], expected[k])
      {
        var key := Truncate(keys[i]);
        consumed := consumed + 1;
        if key == 0 {
          break;
        }
        if KeyValue(key) != sequence[i] {
          loose := true;
          break;
        }
        i := i + 1;
      }
      CheckUnique(expected, keys, Verdict(loose, consumed));
    }

    /** The end of a round: a correct answer at the last level wins and
        sets `loose` (the confirming key's value is not used); any other
        correct answer advances a level. */
    method EndRound() returns (won: bool)
      requires Valid()
      modifies this
      ensures Valid()
      ensures State() == Finish(old(State()))
      ensures won <==> !old(loose) && old(level) == LEVELS
    {
      won := false;
      if !loose && level == LEVELS {
        won := true;
        loose := true;
      }
      if !loose {
        level := level + 1;
        sequences := sequences + INCREASE_SEQUENCES;
        delay := delay - REDUCE_DELAY;
      }
    }

    /** One pass of the game loop */
    method PlayRound(input: RoundInput) returns (quit: bool, frames: seq<byte>)
      requires Valid() && Supplied(input)
      modifies this, sequence
      ensures Valid()
      ensures Step(State(), quit, frames) == Round(old(State()), input)
    {
      frames := [];
      quit := Begin(input.startKey);
      if quit {
        return;
      }
      frames := Generate(input.draws);
      var consumed := Validate(input.keys);
      var won := EndRound();
    }

    /** The game loop over a finite run of rounds, left by ESC on the
        start screen */
    method Play(rounds: seq<RoundInput>) returns (quit: bool, shown: seq<byte>)
      requires Valid()
      requires forall i :: 0 <= i < |rounds| ==> Supplied(rounds[i])
      modifies this, sequence
      ensures Valid()
      ensures Step(State(), quit, shown) == Run(old(State()), rounds)
    {
      quit, shown := false, [];
      var r := 0;
      while r < |rounds| && !quit
        invariant 0 <= r <= |rounds| && Valid()
        invariant quit ==> Run(old(State()), rounds) == Step(State(), true, shown)
        invariant !quit ==> Run(old(State()), rounds) == Step(Run(State(), rounds[r..]).session, Run(State(), rounds[r..]).quit, shown + Run(State(), rounds[r..]).shown)
      {
        var frames;
        quit, frames := PlayRound(rounds[r]);
        assert rounds[r..][1..] == rounds[r + 1..];
        shown := shown + frames;
        r := r + 1;
      }
      if !quit {
        assert rounds[r..] == [];
      }
    }
  }
}
