// The score counter (ScoreManager). The stored high score, kept by the game
// in the player preferences, is a plain field here.

module Scoring {

  /** What AddScore adds for a number of cleared lines. */
  function Increment(linesCleared: int): (r: int)
    ensures linesCleared >= 1 ==> r == 150 * linesCleared - 50
    ensures linesCleared >= 0 ==> r >= 0
    ensures linesCleared >= 0 ==> (r == 0 <==> linesCleared == 0)
  {
    if linesCleared == 0 then 0
    else if linesCleared == 1 then 100
    else (linesCleared - 1) * 50 + linesCleared * 100
  }

  /** The rewards for one to four lines. */
  lemma IncrementTable()
    ensures Increment(0) == 0 && Increment(1) == 100 && Increment(2) == 250
    ensures Increment(3) == 400 && Increment(4) == 550
  {
  }

  class ScoreManager {
    var score: int
    var highScore: int

    /** Start: the score is zero and the stored high score is reset to zero. */
    constructor ()
      ensures score == 0 && highScore == 0
    {
      score := 0;
      highScore := 0;
    }

    method AddScore(linesCleared: int)
      modifies this
      ensures score == old(score) + Increment(linesCleared)
      ensures highScore == old(highScore)
    {
      if linesCleared == 0 {
        return;
      }
      if linesCleared == 1 {
        score := score + 100;
        return;
      }
      score := score + (linesCleared - 1) * 50 + linesCleared * 100;
    }

    /** At game over a score above the stored high score becomes the new high
        score and is kept; any other score is reset to zero. */
    method GameOver() returns (newHighScore: bool)
      modifies this
      ensures newHighScore == (old(score) > old(highScore))
      ensures newHighScore ==> score == old(score) && highScore == old(score)
      ensures !newHighScore ==> score == 0 && highScore == old(highScore)
    {
      if score <= highScore {
        score := 0;
        return false;
      }
      highScore := score;
      return true;
    }
  }
}
