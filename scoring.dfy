/** The score: an integer total that grows by the points awarded. Its font
    and on-screen text are drawing only and not part of this model. */
module Scoring {

  class Score {
    var score: int

    constructor ()
      ensures score == 0
    {
      score := 0;
    }

    /** `gain_points`: add exactly `points`. */
    method GainPoints(points: int)
      modifies this
      ensures score == old(score) + points
    {
      score := score + points;
    }
  }
}
