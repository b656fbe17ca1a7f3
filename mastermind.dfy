/**
  Scoring of one round of the game of Mastermind.

  A round compares a secret code with a guess, both sequences of digits in
  [1, 9], and answers with a score (strong, weak): `strong` counts the
  positions where the two agree, `weak` counts the distinct digit VALUES that
  occur in the guess at a non-strong position and also occur in the secret at
  a non-strong position. This is a set intersection, not the classic
  peg-by-peg matching of Mastermind. Invalid input (a digit outside [1, 9],
  or sequences of different lengths) scores (0, 0).
 */
module Mastermind {

  /** The answer to one guess: correct digit in correct place, correct digit in wrong place. */
  datatype Score = Score(strong: nat, weak: nat)

  /** One position of a round: the secret's digit and the guess's digit there. */
  datatype Pair = Pair(secret: int, guess: int)

  predicate IsDigit(v: int) {
    1 <= v <= 9
  }

  // ---------------------------------------------------------------------------
  // Validation
  // ---------------------------------------------------------------------------

  /** The range check, done over the set of distinct values of the sequence. */
  function IsValidRange(sequence: seq<int>): (valid: bool)
    ensures valid <==> forall i :: 0 <= i < |sequence| ==> IsDigit(sequence[i])
  {
    forall entry | entry in (set x | x in sequence) :: IsDigit(entry)
  }

  /** A sequence is invalid when some entry lies outside [1, 9]. */
  function IsInvalid(sequence: seq<int>): (invalid: bool)
    ensures invalid <==> exists i :: 0 <= i < |sequence| && !IsDigit(sequence[i])
  {
    !IsValidRange(sequence)
  }

  /** The condition under which a round is scored at all. */
  predicate Scorable(secret: seq<int>, guess: seq<int>) {
    !IsInvalid(secret) && !IsInvalid(guess) && |secret| == |guess|
  }

  // ---------------------------------------------------------------------------
  // Pairing by position
  // ---------------------------------------------------------------------------

  /** Position-wise pairing; like Python's zip it stops at the shorter input. */
  function Zip(secret: seq<int>, guess: seq<int>): (pairs: seq<Pair>)
    ensures |pairs| == if |secret| <= |guess| then |secret| else |guess|
    ensures forall i :: 0 <= i < |pairs| ==> pairs[i] == Pair(secret[i], guess[i])
  {
    if |secret| == 0 || |guess| == 0 then []
    else [Pair(secret[0], guess[0])] + Zip(secret[1..], guess[1..])
  }

  // ---------------------------------------------------------------------------
  // Strong count
  // ---------------------------------------------------------------------------

  /** Maps a difference of two digits to 1 when it is zero and to 0 otherwise. */
  function ConvertToBinary(value: int): (b: nat)
    ensures b <= 1
    ensures b == 1 <==> value == 0
  {
    if value == 0 then 1 else 0
  }

  /** Sum, from left to right, of ConvertToBinary(secret - guess) over the pairs. */
  function GetStrongCount(pairs: seq<Pair>): (strong: nat)
    ensures strong <= |pairs|
  {
    if |pairs| == 0 then 0
    else
      var last := pairs[|pairs| - 1];
      GetStrongCount(pairs[..|pairs| - 1]) + ConvertToBinary(last.secret - last.guess)
  }

  /** The indices of the pairs whose two digits agree. */
  function PairMatches(pairs: seq<Pair>): set<nat> {
    set i: nat | i < |pairs| && pairs[i].secret == pairs[i].guess
  }

  /** The positions where secret and guess agree. */
  function MatchPositions(secret: seq<int>, guess: seq<int>): set<nat> {
    set i: nat | i < |secret| && i < |guess| && secret[i] == guess[i]
  }

  /** The strong count is the number of agreeing pairs. */
  lemma {:induction false} StrongCountIsMatchCount(pairs: seq<Pair>)
    ensures GetStrongCount(pairs) == |PairMatches(pairs)|
  {
    if |pairs| > 0 {
      var n := |pairs|;
      var pre := pairs[..n - 1];
      var last := pairs[n - 1];
      StrongCountIsMatchCount(pre);
      assert n - 1 !in PairMatches(pre);
      if last.secret == last.guess {
        assert PairMatches(pairs) == PairMatches(pre) + {n - 1};
      } else {
        assert PairMatches(pairs) == PairMatches(pre);
      }
    }
  }

  /** The strong count reaches the number of pairs exactly when every pair agrees. */
  lemma {:induction false} StrongCountFullIff(pairs: seq<Pair>)
    ensures GetStrongCount(pairs) == |pairs| <==> forall i :: 0 <= i < |pairs| ==> pairs[i].secret == pairs[i].guess
  {
    if |pairs| > 0 {
      var n := |pairs|;
      var pre := pairs[..n - 1];
      StrongCountFullIff(pre);
      assert forall i :: 0 <= i < n - 1 ==> pre[i] == pairs[i];
    }
  }

  /** Over zipped sequences the strong count is the number of agreeing positions. */
  lemma StrongCountOfZip(secret: seq<int>, guess: seq<int>)
    requires |secret| == |guess|
    ensures GetStrongCount(Zip(secret, guess)) == |MatchPositions(secret, guess)|
    ensures GetStrongCount(Zip(secret, guess)) == |secret| <==> secret == guess
  {
    var pairs := Zip(secret, guess);
    StrongCountIsMatchCount(pairs);
    assert PairMatches(pairs) == MatchPositions(secret, guess);
    StrongCountFullIff(pairs);
    if GetStrongCount(pairs) == |secret| {
      assert forall i :: 0 <= i < |secret| ==> secret[i] == guess[i] by {
        forall i | 0 <= i < |secret| ensures secret[i] == guess[i] {
          assert pairs[i] == Pair(secret[i], guess[i]);
        }
      }
    }
  }

  // ---------------------------------------------------------------------------
  // Weak count
  // ---------------------------------------------------------------------------

  /** The pairs whose digits differ, in their original order. */
  function Mismatched(pairs: seq<Pair>): (filtered: seq<Pair>)
    ensures |filtered| <= |pairs|
    ensures forall p :: p in filtered <==> p in pairs && p.secret != p.guess
  {
    if |pairs| == 0 then []
    else
      var last := pairs[|pairs| - 1];
      Mismatched(pairs[..|pairs| - 1]) + (if last.secret != last.guess then [last] else [])
  }

  /** The distinct secret digits of some pairs. */
  function SecretDigits(pairs: seq<Pair>): set<int> {
    set p | p in pairs :: p.secret
  }

  /** The distinct guess digits of some pairs. */
  function GuessDigits(pairs: seq<Pair>): set<int> {
    set p | p in pairs :: p.guess
  }

  /** The digit values that count as weak: guessed, and present in the secret, at mismatched positions. */
  function WeakDigits(pairs: seq<Pair>): set<int> {
    GuessDigits(Mismatched(pairs)) * SecretDigits(Mismatched(pairs))
  }

  /** The weak count as a set cardinality. */
  function WeakCount(pairs: seq<Pair>): nat {
    |WeakDigits(pairs)|
  }

  /**
    The source's loop: collect the secret and guess digits of the mismatched
    pairs into two lists, then count the distinct guess digits that are also
    secret digits. Every counted digit d contributes d/d, so the source
    raises on a counted 0; the precondition excludes exactly that.
   */
  method GetWeakCount(pairs: seq<Pair>) returns (weak: nat)
    requires 0 !in WeakDigits(pairs)
    ensures weak == WeakCount(pairs)
  {
    var filtered := Mismatched(pairs);
    var secretValues: seq<int> := [];
    var guessValues: seq<int> := [];
    for k := 0 to |filtered|
      invariant |secretValues| == k && |guessValues| == k
      invariant forall j :: 0 <= j < k ==> secretValues[j] == filtered[j].secret
      invariant forall j :: 0 <= j < k ==> guessValues[j] == filtered[j].guess
    {
      secretValues := secretValues + [filtered[k].secret];
      guessValues := guessValues + [filtered[k].guess];
    }
    var guessSet := set d | d in guessValues;
    var secretSet := set d | d in secretValues;
    assert guessSet == GuessDigits(filtered) by {
      forall d | d in GuessDigits(filtered) ensures d in guessSet {
        var p :| p in filtered && p.guess == d;
        var j :| 0 <= j < |filtered| && filtered[j] == p;
        assert guessValues[j] == d;
      }
    }
    assert secretSet == SecretDigits(filtered) by {
      forall d | d in SecretDigits(filtered) ensures d in secretSet {
        var p :| p in filtered && p.secret == d;
        var j :| 0 <= j < |filtered| && filtered[j] == p;
        assert secretValues[j] == d;
      }
    }
    weak := |set digit | digit in guessSet && digit in secretSet|;
    assert (set digit | digit in guessSet && digit in secretSet) == WeakDigits(pairs);
  }

  /** The guess digits at positions where secret and guess differ. */
  function MismatchedGuessValues(secret: seq<int>, guess: seq<int>): set<int> {
    set i | 0 <= i < |secret| && i < |guess| && secret[i] != guess[i] :: guess[i]
  }

  /** The secret digits at positions where secret and guess differ. */
  function MismatchedSecretValues(secret: seq<int>, guess: seq<int>): set<int> {
    set i | 0 <= i < |secret| && i < |guess| && secret[i] != guess[i] :: secret[i]
  }

  /** Over zipped sequences the weak digits are the common values of the two position-indexed sets. */
  lemma WeakDigitsOfZip(secret: seq<int>, guess: seq<int>)
    requires |secret| == |guess|
    ensures WeakDigits(Zip(secret, guess)) == MismatchedGuessValues(secret, guess) * MismatchedSecretValues(secret, guess)
  {
    var pairs := Zip(secret, guess);
    var filtered := Mismatched(pairs);
    assert GuessDigits(filtered) == MismatchedGuessValues(secret, guess) by {
      forall v | v in GuessDigits(filtered) ensures v in MismatchedGuessValues(secret, guess) {
        var p :| p in filtered && p.guess == v;
        var i :| 0 <= i < |pairs| && pairs[i] == p;
        assert secret[i] != guess[i] && guess[i] == v;
      }
      forall v | v in MismatchedGuessValues(secret, guess) ensures v in GuessDigits(filtered) {
        var i :| 0 <= i < |secret| && secret[i] != guess[i] && guess[i] == v;
        assert pairs[i] in filtered;
      }
    }
    assert SecretDigits(filtered) == MismatchedSecretValues(secret, guess) by {
      forall v | v in SecretDigits(filtered) ensures v in MismatchedSecretValues(secret, guess) {
        var p :| p in filtered && p.secret == v;
        var i :| 0 <= i < |pairs| && pairs[i] == p;
        assert secret[i] != guess[i] && secret[i] == v;
      }
      forall v | v in MismatchedSecretValues(secret, guess) ensures v in SecretDigits(filtered) {
        var i :| 0 <= i < |secret| && secret[i] != guess[i] && secret[i] == v;
        assert pairs[i] in filtered;
      }
    }
  }

  /** Every pair is either counted as strong or kept by the mismatch filter. */
  lemma {:induction false} MismatchedLength(pairs: seq<Pair>)
    ensures |Mismatched(pairs)| + GetStrongCount(pairs) == |pairs|
  {
    if |pairs| > 0 {
      MismatchedLength(pairs[..|pairs| - 1]);
    }
  }

  /** A sequence of pairs has at most as many distinct guess digits as it has pairs. */
  lemma {:induction false} GuessDigitsBound(pairs: seq<Pair>)
    ensures |GuessDigits(pairs)| <= |pairs|
  {
    if |pairs| > 0 {
      var pre := pairs[..|pairs| - 1];
      GuessDigitsBound(pre);
      assert pairs == pre + [pairs[|pairs| - 1]];
      assert GuessDigits(pairs) == GuessDigits(pre) + {pairs[|pairs| - 1].guess};
    }
  }

  /** Strong and weak together never exceed the number of pairs. */
  lemma WeakBound(pairs: seq<Pair>)
    ensures WeakCount(pairs) <= |Mismatched(pairs)|
    ensures GetStrongCount(pairs) + WeakCount(pairs) <= |pairs|
  {
    var filtered := Mismatched(pairs);
    GuessDigitsBound(filtered);
    SubsetCard(WeakDigits(pairs), GuessDigits(filtered));
    MismatchedLength(pairs);
  }

  /** A subset is no larger than its superset. */
  lemma SubsetCard(a: set<int>, b: set<int>)
    requires a <= b
    ensures |a| <= |b|
  {
    assert b == a + (b - a);
    assert a * (b - a) == {};
  }

  /** When every pair agrees nothing survives the filter, so there is no weak digit. */
  lemma NoWeakWhenAllMatch(pairs: seq<Pair>)
    requires forall i :: 0 <= i < |pairs| ==> pairs[i].secret == pairs[i].guess
    ensures WeakCount(pairs) == 0
  {
  }

  // ---------------------------------------------------------------------------
  // Scoring a round
  // ---------------------------------------------------------------------------

  /** Scores one guess against the secret code. */
  function Solve(secret: seq<int>, guess: seq<int>): (score: Score)
    ensures !Scorable(secret, guess) ==> score == Score(0, 0)
    ensures score.strong + score.weak <= |secret|
    ensures Scorable(secret, guess) ==>
              && score.strong == |MatchPositions(secret, guess)|
              && score.weak == |MismatchedGuessValues(secret, guess) * MismatchedSecretValues(secret, guess)|
    ensures Scorable(secret, guess) ==> (score.strong == |secret| <==> secret == guess)
    ensures Scorable(secret, guess) && secret == guess ==> score.weak == 0
  {
    if IsInvalid(secret) || IsInvalid(guess) || |secret| != |guess| then
      Score(0, 0)
    else
      var pairs := Zip(secret, guess);
      StrongCountOfZip(secret, guess);
      WeakDigitsOfZip(secret, guess);
      WeakBound(pairs);
      var score := Score(GetStrongCount(pairs), WeakCount(pairs));
      if secret == guess then NoWeakWhenAllMatch(pairs); score else score
  }

  /** On scorable input no counted weak digit is 0, so the source's d/d never divides by zero. */
  lemma ScorableHasNoZeroWeakDigit(secret: seq<int>, guess: seq<int>)
    requires Scorable(secret, guess)
    ensures 0 !in WeakDigits(Zip(secret, guess))
  {
    WeakDigitsOfZip(secret, guess);
  }

  /** The scorer as the source runs it: validation, pairing, and the weak-count loop. */
  method SolveRound(secret: seq<int>, guess: seq<int>) returns (score: Score)
    ensures score == Solve(secret, guess)
  {
    if IsInvalid(secret) || IsInvalid(guess) || |secret| != |guess| {
      return Score(0, 0);
    }
    var pairs := Zip(secret, guess);
    ScorableHasNoZeroWeakDigit(secret, guess);
    var weak := GetWeakCount(pairs);
    score := Score(GetStrongCount(pairs), weak);
  }

  // ---------------------------------------------------------------------------
  // Worked rounds
  // ---------------------------------------------------------------------------

  /** The documented round: the first seven and the second three are strong, the one is weak. */
  lemma DocumentedRound()
    ensures Solve([1, 7, 9, 3, 7], [2, 7, 3, 3, 1]) == Score(2, 1)
  {
    var s, g := [1, 7, 9, 3, 7], [2, 7, 3, 3, 1];
    assert MatchPositions(s, g) == {1, 3} by {
      assert 1 in MatchPositions(s, g) && 3 in MatchPositions(s, g);
    }
    assert MismatchedGuessValues(s, g) == {2, 3, 1} by {
      assert g[0] in MismatchedGuessValues(s, g) && g[2] in MismatchedGuessValues(s, g);
      assert g[4] in MismatchedGuessValues(s, g);
    }
    assert MismatchedSecretValues(s, g) == {1, 9, 7} by {
      assert s[0] in MismatchedSecretValues(s, g) && s[2] in MismatchedSecretValues(s, g);
      assert s[4] in MismatchedSecretValues(s, g);
    }
    assert {2, 3, 1} * {1, 9, 7} == {1};
    assert |{1, 3}| == 2;
  }

  /** A repeated value counts once: two distinct values are shared, so weak is 2, not 4. */
  lemma RepeatedValuesCountOnce()
    ensures Solve([2, 2, 3, 3], [3, 3, 2, 2]) == Score(0, 2)
  {
    var s, g := [2, 2, 3, 3], [3, 3, 2, 2];
    assert MatchPositions(s, g) == {};
    assert MismatchedGuessValues(s, g) == {2, 3} by {
      assert g[0] in MismatchedGuessValues(s, g) && g[2] in MismatchedGuessValues(s, g);
    }
    assert MismatchedSecretValues(s, g) == {2, 3} by {
      assert s[0] in MismatchedSecretValues(s, g) && s[2] in MismatchedSecretValues(s, g);
    }
    assert {2, 3} * {2, 3} == {2, 3};
    assert |{2, 3}| == 2;
  }

  /** A full reversal of four distinct digits has no strong and four weak matches. */
  lemma ReversedRound()
    ensures Solve([1, 2, 3, 4], [4, 3, 2, 1]) == Score(0, 4)
  {
    var s, g := [1, 2, 3, 4], [4, 3, 2, 1];
    assert MatchPositions(s, g) == {};
    assert MismatchedGuessValues(s, g) == {1, 2, 3, 4} by {
      assert g[0] in MismatchedGuessValues(s, g) && g[1] in MismatchedGuessValues(s, g);
      assert g[2] in MismatchedGuessValues(s, g) && g[3] in MismatchedGuessValues(s, g);
    }
    assert MismatchedSecretValues(s, g) == {1, 2, 3, 4} by {
      assert s[0] in MismatchedSecretValues(s, g) && s[1] in MismatchedSecretValues(s, g);
      assert s[2] in MismatchedSecretValues(s, g) && s[3] in MismatchedSecretValues(s, g);
    }
    assert {1, 2, 3, 4} * {1, 2, 3, 4} == {1, 2, 3, 4};
    assert |{1, 2, 3, 4}| == 4;
  }

  /** A guess equal to the secret is all strong, repeated digits included. */
  lemma ExactRounds()
    ensures Solve([1, 2, 3, 4], [1, 2, 3, 4]) == Score(4, 0)
    ensures Solve([1, 1, 1, 1], [1, 1, 1, 1]) == Score(4, 0)
  {
  }

  /** A length mismatch or a digit outside [1, 9] gives the safe default. */
  lemma InvalidRounds()
    ensures Solve([1, 2, 3], [1, 2]) == Score(0, 0)
    ensures Solve([0, 2, 3], [1, 2, 3]) == Score(0, 0)
    ensures Solve([1, 2, 3], [1, 10, 3]) == Score(0, 0)
  {
    assert !IsDigit([0, 2, 3][0]);
    assert !IsDigit([1, 10, 3][1]);
  }
}
