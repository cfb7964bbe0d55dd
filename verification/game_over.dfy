/** The message shown on the game-over screen. Its ladder uses the same six
    messages as the score message but with much lower thresholds. */
module GameOver {

  import opened GameUtils

  /** Lower bounds of tiers 1 to 5 of the game-over ladder. */
  const GameOverThresholds: seq<int> := [1, 10, 20, 30, 50]

  /** The game-over message, chosen by comparing the score with each threshold from the bottom up. */
  function GameOverMessage(score: nat): (m: string)
    ensures m in Messages
    ensures score == 0 <==> m == Messages[0]
    ensures 1 <= score < 10 <==> m == Messages[1]
    ensures 10 <= score < 20 <==> m == Messages[2]
    ensures 20 <= score < 30 <==> m == Messages[3]
    ensures 30 <= score < 50 <==> m == Messages[4]
    ensures 50 <= score <==> m == Messages[5]
  {
    if score == 0 then "Better luck next time!"
    else if score < 10 then "Good effort!"
    else if score < 20 then "Well played!"
    else if score < 30 then "Impressive!"
    else if score < 50 then "Amazing!"
    else "You're a Mayan Snake Master!"
  }

  /** The message is the one at the tier the score has reached. */
  lemma GameOverMessageIsTier(score: nat)
    ensures GameOverMessage(score) == Messages[Reached(score, GameOverThresholds)]
  {
    ReachedFive(score, GameOverThresholds);
  }

  /** Every score gets a message, and a higher score never a lower tier. */
  lemma GameOverMessageMonotone(a: nat, b: nat)
    requires a <= b
    ensures Reached(a, GameOverThresholds) <= Reached(b, GameOverThresholds)
    ensures GameOverMessage(a) == Messages[Reached(a, GameOverThresholds)]
    ensures GameOverMessage(b) == Messages[Reached(b, GameOverThresholds)]
  {
    ReachedMonotone(a, b, GameOverThresholds);
    GameOverMessageIsTier(a);
    GameOverMessageIsTier(b);
  }

  /** The game-over ladder is never below the score-message ladder: the
      two classifiers agree only at 0, at 1..9 and from 500 on. */
  lemma GameOverTierAtLeastScoreTier(score: nat)
    ensures Reached(score, ScoreThresholds) <= Reached(score, GameOverThresholds)
    ensures GameOverMessage(score) == ScoreMessage(score) <==> score < 10 || score >= 500
  {
    ReachedFive(score, ScoreThresholds);
    ReachedFive(score, GameOverThresholds);
  }

}
