// The answer loop of `main` as written, `while (sequence[i] != 0 && (key =
// getch()))`, bounded only by the 0 that ends the filled prefix. At the
// last level the prefix is the whole 52-byte buffer, no 0 is left, and a
// fully correct answer makes the loop read sequence[52], one byte past the
// array. Rounds.Check and Game.Machine.Validate model the loop with the
// bound `i < ARRAY_SIZE` added; below the last level the two agree.
module Overrun {
  import opened CTypes
  import opened Codec
  import opened Rounds

  /** How the loop as written leaves: with a verdict, or by evaluating
      `sequence[i]` at i == ARRAY_SIZE */
  datatype Exit = Stopped(verdict: Verdict) | ReadPastEnd

  /** The answer loop as written, from index `i` of the buffer. It runs
      off the end exactly when no 0 is left from `i` on and every remaining
      key is good; otherwise it stops inside the buffer, lost exactly on a
      wrong last key. */
  function ScanAsWritten(buf: seq<byte>, keys: seq<int>, i: nat): (e: Exit)
    requires i <= |buf| <= |keys|
    ensures e.ReadPastEnd? <==> forall k :: i <= k < |buf| ==> buf[k] != FAIL && Answers(keys[k], buf[k])
    ensures e.Stopped? ==> i <= e.verdict.consumed <= |buf|
    ensures e.Stopped? ==> (e.verdict.lost <==> i < e.verdict.consumed && Mismatch(keys[e.verdict.consumed - 1], buf[e.verdict.consumed - 1]))
    decreases |buf| - i
  {
    if i == |buf| then
      ReadPastEnd
    else if buf[i] == FAIL then
      Stopped(Verdict(false, i))
    else
      var key := Truncate(keys[i]);
      if key == 0 then
        Stopped(Verdict(false, i + 1))
      else if KeyValue(key) != buf[i] then
        Stopped(Verdict(true, i + 1))
      else
        ScanAsWritten(buf, keys, i + 1)
  }

  /** The overrun: at level 25 a correct answer makes the loop as written
      read sequence[ARRAY_SIZE]. */
  lemma LastLevelOverrun(s: Session, input: RoundInput)
    requires Scheduled(s) && !s.loose && s.level == LEVELS
    requires Supplied(input) && AnswersFirst(input, ARRAY_SIZE)
    ensures ScanAsWritten(Generated(input.draws, s.sequences as int), input.keys, 0) == ReadPastEnd
  {
  }

  /** With the 0 sentinel at index n < ARRAY_SIZE, the loop as written
      gives Check's verdict on the filled prefix. */
  lemma {:induction false} ScanAsWrittenStops(buf: seq<byte>, keys: seq<int>, n: int, i: nat)
    requires Shaped(buf, n) && 0 <= n < |buf| <= |keys| && i <= n
    requires forall k :: 0 <= k < i ==> Answers(keys[k], buf[k])
    ensures ScanAsWritten(buf, keys, i) == Stopped(Check(buf[..n], keys))
    decreases n - i
  {
    var expected := buf[..n];
    assert forall k :: 0 <= k < n ==> expected[k] == buf[k];
    if i == n {
      CorrectAnswerPasses(expected, keys);
    } else {
      var key := Truncate(keys[i]);
      if key == 0 {
        ZeroKeyEndsAnswer(expected, keys, i);
      } else if KeyValue(key) != buf[i] {
        CheckUnique(expected, keys, Verdict(true, i + 1));
      } else {
        ScanAsWrittenStops(buf, keys, n, i + 1);
      }
    }
  }

  /** Below the last level the added bound changes nothing: the loop as
      written and the bounded loop give the same verdict on every answer. */
  lemma BoundAgreesBelowLastLevel(s: Session, input: RoundInput)
    requires Scheduled(s) && s.level < LEVELS && Supplied(input)
    ensures ScanAsWritten(Generated(input.draws, s.sequences as int), input.keys, 0)
         == Stopped(Check(Generated(input.draws, s.sequences as int)[..s.sequences], input.keys))
  {
    ScanAsWrittenStops(Generated(input.draws, s.sequences as int), input.keys, s.sequences as int, 0);
  }
}
