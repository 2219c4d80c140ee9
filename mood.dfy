/** The progress percentage of updateProgress and the mood table of updateMood. */
module Mood {
  import opened Tasks

  /** The CSS animation updateMood attaches to the mood face. */
  datatype Animation = Bounce | HappyDance

  /** The six faces updateMood chooses between, from the idle start to all tasks done. */
  datatype Mood = Sleepy | Neutral | Pleased | Happy | Excited | Celebratory {

    function Face(): string {
      match this
      case Sleepy => "\U{1F634}"
      case Neutral => "\U{1F610}"
      case Pleased => "\U{1F60A}"
      case Happy => "\U{1F604}"
      case Excited => "\U{1F929}"
      case Celebratory => "\U{1F389}"
    }

    function Message(): string {
      match this
      case Sleepy => "Ready to start?"
      case Neutral => "Getting started..."
      case Pleased => "Making progress!"
      case Happy => "You're on fire!"
      case Excited => "Almost there!"
      case Celebratory => "Perfect! All done!"
    }

    function Animation(): Animation {
      match this
      case Sleepy | Neutral | Pleased => Bounce
      case Happy | Excited | Celebratory => HappyDance
    }

    /** The position of the mood in the table, from 0 (sleepy) to 5 (celebratory). */
    function Rank(): nat {
      match this
      case Sleepy => 0
      case Neutral => 1
      case Pleased => 2
      case Happy => 3
      case Excited => 4
      case Celebratory => 5
    }
  }

  /** The progress updateProgress computes from the stats: the completed share of all tasks as
      a percentage, 0 when there are no tasks. Exact arithmetic stands for the float division. */
  function Progress(st: TaskStats): (p: real)
    requires 0 <= st.completed <= st.total
    ensures 0.0 <= p <= 100.0
    ensures p == 0.0 <==> st.completed == 0
    ensures p == 100.0 <==> 0 < st.completed == st.total
  {
    if st.total > 0 then
      RatioBelow(st.completed, st.total, 100);
      RatioBelow(st.completed, st.total, 0);
      assert (st.completed as real / st.total as real) * st.total as real == st.completed as real;
      (st.completed as real / st.total as real) * 100.0
    else
      0.0
  }

  /** updateMood's branch table over the progress value. The high-energy animation is chosen
      exactly from 50 percent on. */
  function MoodFor(progress: real): (m: Mood)
    ensures m.Animation() == HappyDance <==> progress >= 50.0
  {
    if progress == 0.0 then Sleepy
    else if progress < 25.0 then Neutral
    else if progress < 50.0 then Pleased
    else if progress < 75.0 then Happy
    else if progress < 100.0 then Excited
    else Celebratory
  }

  /** A reference definition of the mood on whole task counts, with no division: each
      threshold of the table compared as `completed * 100` against `threshold * total`. */
  function MoodByCounts(completed: int, total: int): Mood {
    if completed == 0 then Sleepy
    else if 4 * completed < total then Neutral
    else if 2 * completed < total then Pleased
    else if 4 * completed < 3 * total then Happy
    else if completed < total then Excited
    else Celebratory
  }

  /** The mood shown for some stats is the count-based mood: the division and the float
      thresholds of updateMood agree with the integer comparisons. */
  lemma MoodForProgress(st: TaskStats)
    requires 0 <= st.completed <= st.total
    ensures MoodFor(Progress(st)) == MoodByCounts(st.completed, st.total)
  {
    if st.total > 0 {
      var c, t := st.completed, st.total;
      RatioBelow(c, t, 25);
      RatioBelow(c, t, 50);
      RatioBelow(c, t, 75);
      RatioBelow(c, t, 100);
    }
  }

  /** More progress never shows a sadder face. */
  lemma MoodMonotone(p: real, q: real)
    requires 0.0 <= p <= q
    ensures MoodFor(p).Rank() <= MoodFor(q).Rank()
  {
  }

  /** The two exact boundaries are distinct states: no tasks done shows the sleepy face, all
      of at least one task done shows the celebration, and nothing else does. */
  lemma MoodBoundaries(st: TaskStats)
    requires 0 <= st.completed <= st.total
    ensures MoodFor(Progress(st)) == Sleepy <==> st.completed == 0
    ensures MoodFor(Progress(st)) == Celebratory <==> 0 < st.completed == st.total
  {
    MoodForProgress(st);
  }

  /** For t > 0: `c / t * 100 < k` holds exactly when `100 * c < k * t`. */
  lemma RatioBelow(c: int, t: int, k: int)
    requires t > 0
    ensures (c as real / t as real) * 100.0 < k as real <==> 100 * c < k * t
  {
    var q := c as real / t as real;
    assert q * t as real == c as real;
    ScaleLess(q * 100.0, k as real, t as real);
    assert q * 100.0 * t as real == (100 * c) as real;
    assert (k as real) * (t as real) == (k * t) as real;
  }

  lemma ScaleLess(x: real, y: real, t: real)
    requires t > 0.0
    ensures x < y <==> x * t < y * t
  {
    if x < y { assert (y - x) * t > 0.0; }
    if x * t < y * t { assert (y - x) * t > 0.0; }
  }
}
