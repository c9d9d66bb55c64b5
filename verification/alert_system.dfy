/** The alert decision: fire exactly when an object of interest is in view and
    the cooldown since the last alert has strictly elapsed.

    Time is a real number of seconds. The decision reads the clock twice: once
    for the elapsed-time test (`now`) and once more for the timestamp it stores
    (`fireTime`). Both readings are parameters here. */
module AlertSystem {

  type Time = real

  /** The elements of a list, forgetting order and duplicates. */
  ghost function Members(s: seq<int>): set<int> {
    set x | x in s
  }

  /** Python's `any(cls in classes for cls in detected)`, scanning the
      detections left to right. */
  function HasInterest(detected: seq<int>, classes: seq<int>): (r: bool)
    ensures r <==> exists k :: 0 <= k < |detected| && detected[k] in classes
  {
    if |detected| == 0 then false
    else if detected[0] in classes then true
    else
      var rest := HasInterest(detected[1..], classes);
      assert rest ==> exists k :: 0 <= k < |detected| && detected[k] in classes by {
        if rest {
          var k :| 0 <= k < |detected| - 1 && detected[1..][k] in classes;
          assert detected[k + 1] in classes;
        }
      }
      rest
  }

  /** The scan finds a match exactly when the two lists share an element. */
  lemma HasInterestIffIntersecting(detected: seq<int>, classes: seq<int>)
    ensures HasInterest(detected, classes) <==> Members(detected) * Members(classes) != {}
  {
    if HasInterest(detected, classes) {
      var k :| 0 <= k < |detected| && detected[k] in classes;
      assert detected[k] in Members(detected) * Members(classes);
    } else {
      forall x | x in Members(detected)
        ensures x !in Members(classes)
      {
        var k :| 0 <= k < |detected| && detected[k] == x;
      }
      assert Members(detected) * Members(classes) == {};
    }
  }

  /** Reordering or duplicating detections, or classes of interest, does not
      change whether the scan finds a match: only membership matters. */
  lemma HasInterestOnlyMembership(d1: seq<int>, d2: seq<int>, c1: seq<int>, c2: seq<int>)
    requires Members(d1) == Members(d2) && Members(c1) == Members(c2)
    ensures HasInterest(d1, c1) == HasInterest(d2, c2)
  {
    HasInterestIffIntersecting(d1, c1);
    HasInterestIffIntersecting(d2, c2);
  }

  /** The pair `(fired, new_last_alert_time)` returned by the decision. One
      boolean and one timestamp, however many detections match. */
  datatype Decision = Decision(fired: bool, lastAlertTime: Time)

  /** Fire when some detected id is of interest and strictly more than
      `cooldown` seconds separate `now` from the last alert; on a fire the
      stored timestamp becomes the second clock reading `fireTime`, otherwise
      it is returned unchanged. */
  function CheckAlertCondition(detected: seq<int>, classes: seq<int>, lastAlertTime: Time,
                               cooldown: Time, now: Time, fireTime: Time): (d: Decision)
    ensures d.fired <==> (exists k :: 0 <= k < |detected| && detected[k] in classes)
                         && now - lastAlertTime > cooldown
    ensures d.fired ==> d.lastAlertTime == fireTime
    ensures !d.fired ==> d.lastAlertTime == lastAlertTime
  {
    if HasInterest(detected, classes) && now - lastAlertTime > cooldown then
      Decision(true, fireTime)
    else
      Decision(false, lastAlertTime)
  }

  /** No detections: no alert and the timestamp is kept, whatever the time. */
  lemma EmptyDetectionsNeverFire(classes: seq<int>, lastAlertTime: Time, cooldown: Time,
                                 now: Time, fireTime: Time)
    ensures CheckAlertCondition([], classes, lastAlertTime, cooldown, now, fireTime)
            == Decision(false, lastAlertTime)
  {
  }

  /** Detections that share nothing with the classes of interest never fire. */
  lemma DisjointDetectionsNeverFire(detected: seq<int>, classes: seq<int>, lastAlertTime: Time,
                                    cooldown: Time, now: Time, fireTime: Time)
    requires Members(detected) * Members(classes) == {}
    ensures CheckAlertCondition(detected, classes, lastAlertTime, cooldown, now, fireTime)
            == Decision(false, lastAlertTime)
  {
    HasInterestIffIntersecting(detected, classes);
  }

  /** The comparison is strict: exactly `cooldown` seconds is not enough. */
  lemma CooldownBoundaryDoesNotFire(detected: seq<int>, classes: seq<int>, lastAlertTime: Time,
                                    cooldown: Time, now: Time, fireTime: Time)
    requires now - lastAlertTime == cooldown
    ensures !CheckAlertCondition(detected, classes, lastAlertTime, cooldown, now, fireTime).fired
  {
  }

  /** With a clock that does not run backwards, a fire stores a timestamp no
      earlier than the check, and more than `cooldown` after the previous one. */
  lemma FireStampNotBeforeCheck(detected: seq<int>, classes: seq<int>, lastAlertTime: Time,
                                cooldown: Time, now: Time, fireTime: Time)
    requires now <= fireTime
    requires CheckAlertCondition(detected, classes, lastAlertTime, cooldown, now, fireTime).fired
    ensures var d := CheckAlertCondition(detected, classes, lastAlertTime, cooldown, now, fireTime);
            now <= d.lastAlertTime && d.lastAlertTime - lastAlertTime > cooldown
  {
  }

  /** The decision depends on the detections only through the set of ids. */
  lemma DecisionOnlyMembership(d1: seq<int>, d2: seq<int>, classes: seq<int>, lastAlertTime: Time,
                               cooldown: Time, now: Time, fireTime: Time)
    requires Members(d1) == Members(d2)
    ensures CheckAlertCondition(d1, classes, lastAlertTime, cooldown, now, fireTime)
            == CheckAlertCondition(d2, classes, lastAlertTime, cooldown, now, fireTime)
  {
    HasInterestOnlyMembership(d1, d2, classes, classes);
  }

  /** The two states of the cooldown machine. The machine is armed again as
      soon as strictly more than `cooldown` seconds have passed; no timer is
      involved, the test is made lazily on each decision. A decision fires
      exactly when something of interest is seen while armed, and a decision
      that does not fire keeps the timestamp, so the phase at every later
      time is unchanged by it. */
  datatype Phase = Armed | CoolingDown

  function PhaseAt(lastAlertTime: Time, cooldown: Time, now: Time): Phase {
    if now - lastAlertTime > cooldown then Armed else CoolingDown
  }

  /** A fire moves the machine to cooling down, for the whole window of
      `cooldown` seconds after the stored timestamp. */
  lemma FireStartsCooldown(detected: seq<int>, classes: seq<int>, lastAlertTime: Time,
                           cooldown: Time, now: Time, fireTime: Time, later: Time)
    requires 0.0 <= cooldown && now <= fireTime
    requires CheckAlertCondition(detected, classes, lastAlertTime, cooldown, now, fireTime).fired
    requires fireTime <= later <= fireTime + cooldown
    ensures var d := CheckAlertCondition(detected, classes, lastAlertTime, cooldown, now, fireTime);
            PhaseAt(d.lastAlertTime, cooldown, later) == CoolingDown
  {
  }

  /** Worked scenarios with classes {0} or {0, 2} and a 30-second cooldown. */
  lemma ScenarioFireAfterCooldown()
    ensures CheckAlertCondition([0], [0], 0.0, 30.0, 31.0, 31.0) == Decision(true, 31.0)
  {
  }

  lemma ScenarioSuppressedWithinCooldown()
    ensures CheckAlertCondition([0], [0], 0.0, 30.0, 29.0, 29.0) == Decision(false, 0.0)
  {
  }

  lemma ScenarioNoOverlap(lastAlertTime: Time, now: Time, fireTime: Time)
    ensures !CheckAlertCondition([1, 3], [0, 2], lastAlertTime, 30.0, now, fireTime).fired
  {
  }

  /** Two qualifying calls at 31 and 40: the first fires and stamps 31, the
      second sees only 9 seconds elapsed and is suppressed. */
  lemma ScenarioSecondCallSuppressed()
    ensures var first := CheckAlertCondition([0], [0], 0.0, 30.0, 31.0, 31.0);
            var second := CheckAlertCondition([0], [0], first.lastAlertTime, 30.0, 40.0, 40.0);
            first == Decision(true, 31.0) && second == Decision(false, 31.0)
  {
  }
}
