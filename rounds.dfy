// The round logic of `main` in VGAMEM.C, as functions over the game's
// counters and its 52-byte sequence buffer: the reset after a loss, the
// buffer a round generates, the fail-fast check of the typed answer, the
// win check and the level advance, and whole rounds and games built from
// them.
module Rounds {
  import opened CTypes
  import opened Codec

  const ARRAY_SIZE := 52
  const LEVELS: byte := 25
  const REDUCE_DELAY: int32 := 60000
  const INCREASE_SEQUENCES: byte := 2
  const START_SEQUENCES: byte := 4
  const START_DELAY: int32 := 2000000
  const START_LEVEL: byte := 1
  /** The key that leaves the game from the start screen */
  const ESC := 27

  /** The locals of `main` that outlive a round. `loose` is the C flag
      ("lost"): set after a wrong key and after the final win, it makes the
      next round start over. */
  datatype Session = Session(level: byte, sequences: byte, delay: int32, loose: bool)

  const Initial := Session(START_LEVEL, START_SEQUENCES, START_DELAY, false)

  /** The counters agree with the difficulty schedule for their level */
  predicate Scheduled(s: Session) {
    && START_LEVEL <= s.level <= LEVELS
    && s.sequences as int == START_SEQUENCES as int + INCREASE_SEQUENCES as int * (s.level as int - 1)
    && s.delay as int == START_DELAY as int - REDUCE_DELAY as int * (s.level as int - 1)
  }

  /** The invariant of the game loop: only a lost session (the first one,
      whose counters C leaves uninitialised, among them) may be off schedule */
  predicate Inv(s: Session) {
    s.loose || Scheduled(s)
  }

  /** The schedule at the last level: the answer fills the whole buffer and
      the flash delay is still positive, however the counters got there. */
  lemma LastLevel(s: Session)
    requires Scheduled(s)
    ensures s.sequences as int <= ARRAY_SIZE && s.delay as int >= 560000
    ensures s.level == LEVELS ==> s.sequences as int == ARRAY_SIZE && s.delay == 560000
  {
  }

  /** The start of every round: a lost session goes back to level 1 */
  function ResetIfLost(s: Session): (r: Session)
    ensures !r.loose
    ensures Inv(s) ==> Scheduled(r)
    ensures s.loose ==> r.level == START_LEVEL
    ensures !s.loose ==> r == s
  {
    if s.loose then Initial else s
  }

  /** Whatever level was reached, a loss restarts at level 1 with the
      starting length and delay. */
  lemma LossResets(s: Session)
    requires s.loose
    ensures ResetIfLost(s) == Session(1, 4, 2000000, false)
  {
  }

  /** The end of a round, once the answer has been checked: a correct
      answer at the last level is the win, which sets `loose` so that the
      next round starts over; a correct answer below it advances a level. */
  function Finish(s: Session): (r: Session)
    requires Inv(s)
    ensures Inv(r)
    ensures Scheduled(s) ==> Scheduled(r)
    ensures r.loose <==> s.loose || s.level == LEVELS
    ensures r.level as int == s.level as int + (if s.loose || s.level == LEVELS then 0 else 1)
  {
    if !s.loose && s.level == LEVELS then
      s.(loose := true)
    else if !s.loose then
      s.(level := s.level + 1,
         sequences := s.sequences + INCREASE_SEQUENCES,
         delay := s.delay - REDUCE_DELAY)
    else
      s
  }

  /** A correct answer below the last level lengthens the answer by two
      colours and shortens each flash by 60000 microseconds. */
  lemma AdvanceStep(s: Session)
    requires Scheduled(s) && !s.loose && s.level < LEVELS
    ensures Finish(s).sequences == s.sequences + 2
    ensures Finish(s).delay == s.delay - 60000
    ensures !Finish(s).loose
  {
  }

  /** The colour of one `rand()` draw: `rand() % 4 + 1` */
  function DrawColor(draw: nat): (code: byte)
    ensures IsColour(code)
  {
    (draw % 4 + 1) as byte
  }

  /** Every colour is drawn by one of any four consecutive draws. */
  lemma DrawColorOnto(draw: nat)
    ensures {DrawColor(draw), DrawColor(draw + 1), DrawColor(draw + 2), DrawColor(draw + 3)}
            == {BLUE, GREEN, RED, YELLOW}
  {
  }

  /** The buffer holds `n` colours followed by empty slots */
  predicate Shaped(buf: seq<byte>, n: int) {
    && |buf| == ARRAY_SIZE
    && (forall k :: 0 <= k < n && k < |buf| ==> IsColour(buf[k]))
    && (forall k :: n <= k < |buf| && 0 <= k ==> buf[k] == FAIL)
  }

  /** The sequence buffer after `clear_array` and the generation loop of a
      round whose answer has `n` colours */
  function Generated(draws: seq<nat>, n: int): (buf: seq<byte>)
    requires 0 <= n <= ARRAY_SIZE && n <= |draws|
    ensures Shaped(buf, n)
    ensures forall k :: 0 <= k < n ==> buf[k] == DrawColor(draws[k])
  {
    seq(ARRAY_SIZE, k requires 0 <= k < ARRAY_SIZE => if k < n then DrawColor(draws[k]) else FAIL)
  }

  /** The screen fills that show one colour: blank, the colour, blank */
  function Flash(code: byte): seq<byte> {
    [COLOR_BLANK, ColorCode(code), COLOR_BLANK]
  }

  /** The screen fills that show a whole sequence, in order */
  function Flashes(codes: seq<byte>): seq<byte> {
    if codes == [] then [] else Flashes(codes[..|codes| - 1]) + Flash(codes[|codes| - 1])
  }

  /** Each colour of the sequence is shown in its turn between two blanks:
      fill 3k+1 is colour k. */
  lemma {:induction false} FlashesAt(codes: seq<byte>, k: int)
    requires 0 <= k < |codes|
    ensures |Flashes(codes)| == 3 * |codes|
    ensures Flashes(codes)[3 * k] == COLOR_BLANK && Flashes(codes)[3 * k + 2] == COLOR_BLANK
    ensures Flashes(codes)[3 * k + 1] == ColorCode(codes[k])
  {
    var n := |codes| - 1;
    if k < n {
      FlashesAt(codes[..n], k);
      assert codes[..n][k] == codes[k];
    } else {
      FlashesLength(codes[..n]);
    }
  }

  lemma {:induction false} FlashesLength(codes: seq<byte>)
    ensures |Flashes(codes)| == 3 * |codes|
  {
    if codes != [] {
      FlashesLength(codes[..|codes| - 1]);
    }
  }

  /** The fills of a generated sequence are colours, never the blank, at
      every position 3k+1, and blanks everywhere else. */
  lemma GeneratedFlashes(buf: seq<byte>, n: int, j: int)
    requires Shaped(buf, n) && 0 <= n <= |buf| && 0 <= j < 3 * n
    ensures |Flashes(buf[..n])| == 3 * n
    ensures Flashes(buf[..n])[j] in Palette
    ensures Flashes(buf[..n])[j] != COLOR_BLANK <==> j % 3 == 1
  {
    FlashesAt(buf[..n], j / 3);
  }

  /** One answer key is right for one expected colour. A key stored as byte
      0 stops the check without a verdict on it; see Check. */
  predicate Answers(key: int, code: byte) {
    Truncate(key) != 0 && KeyValue(Truncate(key)) == code
  }

  /** One answer key is wrong for one expected colour */
  predicate Mismatch(key: int, code: byte) {
    Truncate(key) != 0 && KeyValue(Truncate(key)) != code
  }

  /** The outcome of checking an answer: lost or not, and how many keys
      were read */
  datatype Verdict = Verdict(lost: bool, consumed: nat)

  /** The fail-fast check of the answer `keys` against the `expected`
      colours (the filled prefix of the buffer). It reads one key per
      expected colour and stops at the first wrong key, a loss, or at the
      first key stored as byte 0, which ends the answer without a loss.
      The ensures characterise the verdict; CheckUnique shows they fix it. */
  function Check(expected: seq<byte>, keys: seq<int>): (v: Verdict)
    requires |keys| >= |expected|
    ensures v.consumed <= |expected|
    ensures forall k :: 0 <= k < v.consumed - 1 ==> Answers(keys[k], expected[k])
    ensures v.consumed < |expected| ==> 0 < v.consumed && !Answers(keys[v.consumed - 1], expected[v.consumed - 1])
    ensures v.lost <==> 0 < v.consumed && Mismatch(keys[v.consumed - 1], expected[v.consumed - 1])
    decreases |expected|
  {
    if expected == [] then
      Verdict(false, 0)
    else
      var key := Truncate(keys[0]);
      if key == 0 then
        Verdict(false, 1)
      else if KeyValue(key) != expected[0] then
        Verdict(true, 1)
      else
        var rest := Check(expected[1..], keys[1..]);
        assert forall k :: 0 <= k < rest.consumed ==> keys[1..][k] == keys[k + 1] && expected[1..][k] == expected[k + 1];
        Verdict(rest.lost, rest.consumed + 1)
  }

  /** The fail-fast description determines the verdict: any verdict that
      reads good keys up to its last one, stops early only on a key that
      is not good, and is lost exactly on a wrong last key, is Check's. */
  lemma CheckUnique(expected: seq<byte>, keys: seq<int>, v: Verdict)
    requires |keys| >= |expected|
    requires v.consumed <= |expected|
    requires forall k :: 0 <= k < v.consumed - 1 ==> Answers(keys[k], expected[k])
    requires v.consumed < |expected| ==> 0 < v.consumed && !Answers(keys[v.consumed - 1], expected[v.consumed - 1])
    requires v.lost <==> 0 < v.consumed && Mismatch(keys[v.consumed - 1], expected[v.consumed - 1])
    ensures v == Check(expected, keys)
  {
  }

  /** A complete correct answer is never a loss and reads exactly one key
      per colour. */
  lemma CorrectAnswerPasses(expected: seq<byte>, keys: seq<int>)
    requires |keys| >= |expected|
    requires forall k :: 0 <= k < |expected| ==> Answers(keys[k], expected[k])
    ensures Check(expected, keys) == Verdict(false, |expected|)
  {
  }

  /** Against a sequence of colours, a key that names no colour loses as
      soon as it is reached, unless it is stored as byte 0. */
  lemma NonColourKeyLoses(expected: seq<byte>, keys: seq<int>, j: int)
    requires |keys| >= |expected| && 0 <= j < |expected|
    requires forall k :: 0 <= k < |expected| ==> IsColour(expected[k])
    requires forall k :: 0 <= k < j ==> Answers(keys[k], expected[k])
    requires Truncate(keys[j]) != 0 && KeyValue(Truncate(keys[j])) == FAIL
    ensures Check(expected, keys) == Verdict(true, j + 1)
  {
    CheckUnique(expected, keys, Verdict(true, j + 1));
  }

  /** A key stored as byte 0 (an extended key's first byte, or any code
      that is 0 modulo 256) ends the answer early without a loss, so the
      round counts as answered correctly. */
  lemma ZeroKeyEndsAnswer(expected: seq<byte>, keys: seq<int>, j: int)
    requires |keys| >= |expected| && 0 <= j < |expected|
    requires forall k :: 0 <= k < j ==> Answers(keys[k], expected[k])
    requires Truncate(keys[j]) == 0
    ensures Check(expected, keys) == Verdict(false, j + 1)
  {
    CheckUnique(expected, keys, Verdict(false, j + 1));
  }

  /** What a round reads: the key pressed on the start screen (read only
      after a loss), the `rand()` draws and the answer keys. `getch()` and
      `rand()` never run out; a round reads at most ARRAY_SIZE of each. */
  datatype RoundInput = RoundInput(startKey: int, draws: seq<nat>, keys: seq<int>)

  predicate Supplied(input: RoundInput) {
    |input.draws| >= ARRAY_SIZE && |input.keys| >= ARRAY_SIZE
  }

  /** The counters after a round or a game, whether ESC ended it, and the
      screen fills that flashed the colours */
  datatype Step = Step(session: Session, quit: bool, shown: seq<byte>)

  /** One pass of the game loop */
  function Round(s: Session, input: RoundInput): (st: Step)
    requires Inv(s) && Supplied(input)
    ensures Scheduled(st.session)
    ensures st.quit <==> s.loose && input.startKey == ESC
    ensures st.quit ==> st.session == Initial && st.shown == []
  {
    var s1 := ResetIfLost(s);
    if s.loose && input.startKey == ESC then
      Step(s1, true, [])
    else
      var expected := Generated(input.draws, s1.sequences as int)[..s1.sequences];
      var v := Check(expected, input.keys);
      Step(Finish(s1.(loose := v.lost)), false, Flashes(expected))
  }

  /** Rounds played one after the other until ESC leaves the game */
  function Run(s: Session, rounds: seq<RoundInput>): (st: Step)
    requires Inv(s)
    requires forall i :: 0 <= i < |rounds| ==> Supplied(rounds[i])
    ensures Inv(st.session)
    ensures rounds != [] ==> Scheduled(st.session)
    decreases |rounds|
  {
    if rounds == [] then
      Step(s, false, [])
    else
      var first := Round(s, rounds[0]);
      if first.quit then
        first
      else
        var rest := Run(first.session, rounds[1..]);
        Step(rest.session, rest.quit, first.shown + rest.shown)
  }

  /** The first `n` answer keys are right: one good key for each of the
      first `n` colours drawn. The one definition of a correct answer. */
  predicate AnswersFirst(input: RoundInput, n: int)
    requires Supplied(input) && n <= ARRAY_SIZE
  {
    forall k :: 0 <= k < n ==> Answers(input.keys[k], DrawColor(input.draws[k]))
  }

  /** The round's answer is right for the length the round is played at,
      and the game was not left on the start screen */
  predicate AnswersRound(s: Session, input: RoundInput)
    requires Inv(s) && Supplied(input)
  {
    && !(s.loose && input.startKey == ESC)
    && AnswersFirst(input, ResetIfLost(s).sequences as int)
  }

  /** A round answered correctly whatever its level: the answer is right
      for the whole buffer, the length of the last level, and the start key
      is not ESC. */
  predicate Perfect(input: RoundInput)
    requires Supplied(input)
  {
    input.startKey != ESC && AnswersFirst(input, ARRAY_SIZE)
  }

  /** An answer right for the whole buffer is right at every level. */
  lemma PerfectAnswersRound(s: Session, input: RoundInput)
    requires Inv(s) && Supplied(input) && Perfect(input)
    ensures AnswersRound(s, input)
  {
  }

  /** An answer identical to the drawn colours, exactly as long as the
      round's sequence, is never a loss: the round advances the level, or
      at the last level wins the game. */
  lemma CorrectRoundAdvances(s: Session, input: RoundInput)
    requires Inv(s) && Supplied(input) && AnswersRound(s, input)
    ensures Round(s, input).session == Finish(ResetIfLost(s))
  {
    var s1 := ResetIfLost(s);
    var expected := Generated(input.draws, s1.sequences as int)[..s1.sequences];
    CorrectAnswerPasses(expected, input.keys);
  }

  /** A wrong key after j good ones loses the round: the level is kept,
      `loose` is set, and the next round starts over at level 1. */
  lemma WrongAnswerLoses(s: Session, input: RoundInput, j: int)
    requires Inv(s) && Supplied(input) && !(s.loose && input.startKey == ESC)
    requires 0 <= j < ResetIfLost(s).sequences as int
    requires forall k :: 0 <= k < j ==> Answers(input.keys[k], DrawColor(input.draws[k]))
    requires Mismatch(input.keys[j], DrawColor(input.draws[j]))
    ensures Round(s, input).session == ResetIfLost(s).(loose := true)
    ensures ResetIfLost(Round(s, input).session) == Initial
  {
    var s1 := ResetIfLost(s);
    var expected := Generated(input.draws, s1.sequences as int)[..s1.sequences];
    CheckUnique(expected, input.keys, Verdict(true, j + 1));
  }

  /** The first round after the start screen, with every draw blue: typing
      `b` advances to level 2 (6 colours, 1940000 microseconds); typing `g`
      loses, and the next round is back at level 1. */
  lemma FirstRoundExample(s: Session)
    requires s.loose
    ensures Round(s, RoundInput(13, seq(52, _ => 0), seq(52, _ => 98))).session
         == Session(2, 6, 1940000, false)
    ensures Round(s, RoundInput(13, seq(52, _ => 0), seq(52, _ => 103))).session
         == Session(1, 4, 2000000, true)
  {
    var blue := seq(52, _ => 0);
    CorrectRoundAdvances(s, RoundInput(13, blue, seq(52, _ => 98)));
    WrongAnswerLoses(s, RoundInput(13, blue, seq(52, _ => 103)), 0);
  }

  /** Each round of `rounds` is answered correctly for the length it is
      played at: the first for `n` colours, each next one for two more. */
  predicate AnswersEach(rounds: seq<RoundInput>, n: int)
    requires forall i :: 0 <= i < |rounds| ==> Supplied(rounds[i])
    decreases |rounds|
  {
    rounds == [] || (n <= ARRAY_SIZE && AnswersFirst(rounds[0], n) && AnswersEach(rounds[1..], n + INCREASE_SEQUENCES as int))
  }

  /** Correct answers climb one level per round from a running session,
      and the round answered at the last level wins, setting `loose`,
      instead of advancing to a level past the last. Each round needs good
      keys for exactly the colours it shows; the start-screen key is not
      read. */
  lemma {:induction false} Climb(s: Session, rounds: seq<RoundInput>)
    requires Scheduled(s) && !s.loose
    requires s.level as int + |rounds| <= LEVELS as int + 1
    requires forall i :: 0 <= i < |rounds| ==> Supplied(rounds[i])
    requires AnswersEach(rounds, s.sequences as int)
    ensures !Run(s, rounds).quit && Scheduled(Run(s, rounds).session)
    ensures Run(s, rounds).session.level as int == if s.level as int + |rounds| <= LEVELS as int then s.level as int + |rounds| else LEVELS as int
    ensures Run(s, rounds).session.loose <==> s.level as int + |rounds| == LEVELS as int + 1
    decreases |rounds|
  {
    if rounds != [] {
      CorrectRoundAdvances(s, rounds[0]);
      if s.level == LEVELS {
        assert rounds[1..] == [];
      } else {
        Climb(Round(s, rounds[0]).session, rounds[1..]);
      }
    }
  }

  /** A game of 25 correctly answered rounds, started from the start
      screen, ends in the win at level 25 with the whole buffer as the last
      answer, and the next round starts over. Round i is answered for the
      length of level i + 1, and only the first round reads the start key. */
  lemma PerfectGameWins(s: Session, rounds: seq<RoundInput>)
    requires Inv(s) && s.loose
    requires |rounds| == LEVELS as int && rounds[0].startKey != ESC
    requires forall i :: 0 <= i < |rounds| ==> Supplied(rounds[i])
    requires AnswersEach(rounds, START_SEQUENCES as int)
    ensures Run(s, rounds).session == Session(25, 52, 560000, true)
    ensures !Run(s, rounds).quit
  {
    Climb(ResetIfLost(s), rounds);
  }
}
