/** The landing page's feature showcase: every five seconds a timer moves the
    highlighted feature on to the next of four, wrapping after the last. */
module Landing {
  import Rotation

  /** The titles of `features`, in rotation order. */
  const FeatureTitles: seq<string> := [
    "AI-Powered Analysis", "Instant Alerts", "Automated Maintenance", "Enhanced Learning"]

  class HomePage {
    var activeFeature: nat
    /** How many times the timer has fired since the page mounted. */
    ghost var ticks: nat

    /** The feature shown is a valid index, and it is the number of timer
        ticks so far modulo the number of features. */
    ghost predicate Valid()
      reads this
    {
      activeFeature < |FeatureTitles| && activeFeature == ticks % |FeatureTitles|
    }

    constructor ()
      ensures Valid()
      ensures activeFeature == 0 && ticks == 0
    {
      activeFeature := 0;
      ticks := 0;
    }

    /** One timer tick: `(prev + 1) % features.length`. */
    method Tick()
      requires Valid()
      modifies this
      ensures Valid()
      ensures ticks == old(ticks) + 1
      ensures activeFeature == Rotation.Next(old(activeFeature), |FeatureTitles|)
    {
      Rotation.ModSucc(ticks, |FeatureTitles|);
      activeFeature := Rotation.Next(activeFeature, |FeatureTitles|);
      ticks := ticks + 1;
    }

    /** The feature the showcase displays, `features[activeFeature].title`. */
    function ActiveFeatureTitle(): (title: string)
      reads this
      requires Valid()
      ensures title in FeatureTitles
      ensures ticks % |FeatureTitles| == 0 ==> title == "AI-Powered Analysis"
    {
      FeatureTitles[activeFeature]
    }
  }
}
