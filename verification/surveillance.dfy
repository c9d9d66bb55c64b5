/** The main monitoring loop, as a fold over the inputs of its iterations.

    Each iteration captures a frame, slices the region of interest out of it,
    hands that sub-image to the detector, writes the detector's annotated
    sub-image back into the frame, and then decides whether to alert. The
    detector, the camera and the clock are outside the model: an iteration's
    input carries the captured frame, the annotated sub-image and the detected
    class ids the detector returned for it, and the two clock readings the
    iteration takes. The only value threaded from one iteration to the next is
    `last_alert_time`. Stopping the loop (end of stream, a key press) is the
    end of the input sequence. */
module Surveillance {
  import opened Frames
  import opened AlertSystem
  import opened Settings

  /** What an alert does, in the order it does it. */
  datatype Action<P> =
    | SaveSnapshot(image: Frame<P>)
    | PublishAlert
    | PlayAlertSound
    | StampAlertTime(time: Time)

  /** The inputs of one iteration. `now` is the clock reading used in the
      cooldown test; `fireTime` is the later reading stored when an alert
      fires, taken after the alert's actions. */
  datatype Tick<P> = Tick(frame: Frame<P>, annotatedRoi: Frame<P>, detected: seq<int>,
                          now: Time, fireTime: Time)

  /** What one iteration produced: the sub-image given to the detector, the
      frame after the annotated region was written back, whether an alert
      fired, the `last_alert_time` carried into the next iteration, and the
      alert actions performed. */
  datatype Iteration<P> = Iteration(detectorInput: Frame<P>, output: Frame<P>, fired: bool,
                                    lastAlertTime: Time, actions: seq<Action<P>>)

  /** The captured frame contains the region and the detector returned an
      image of the region's size. */
  ghost predicate Captured<P>(t: Tick<P>) {
    Fits(Roi, t.frame) && IsGrid(t.annotatedRoi, Roi.h, Roi.w)
  }

  ghost predicate AllCaptured<P>(trace: seq<Tick<P>>) {
    forall k :: 0 <= k < |trace| ==> Captured(trace[k])
  }

  /** The stored timestamp is read no earlier than the check's reading. */
  ghost predicate StampAfterCheck<P>(trace: seq<Tick<P>>) {
    forall k :: 0 <= k < |trace| ==> trace[k].now <= trace[k].fireTime
  }

  /** The snapshot, the message, the sound, then the new timestamp. */
  function AlertActions<P>(snapshot: Frame<P>, fireTime: Time): seq<Action<P>> {
    [SaveSnapshot(snapshot), PublishAlert, PlayAlertSound, StampAlertTime(fireTime)]
  }

  /** The loop's alert test, given `last_alert_time` on entry: fire exactly
      when some detected id is of interest and strictly more than the
      cooldown has passed; a fire stores the second clock reading, anything
      else leaves the timestamp as it was. */
  function AlertTest<P>(t: Tick<P>, lastAlertTime: Time): (d: Decision)
    ensures d.fired <==> (exists k :: 0 <= k < |t.detected| && t.detected[k] in ClassesOfInterest)
                         && t.now - lastAlertTime > AlertCooldown
    ensures d.fired ==> d.lastAlertTime == t.fireTime
    ensures !d.fired ==> d.lastAlertTime == lastAlertTime
  {
    if HasInterest(t.detected, ClassesOfInterest) && t.now - lastAlertTime > AlertCooldown then
      Decision(true, t.fireTime)
    else
      Decision(false, lastAlertTime)
  }

  /** The loop's own alert test agrees with the standalone decision function
      called with the configured classes and cooldown. */
  lemma AlertTestAgreesWithCheckAlertCondition<P>(t: Tick<P>, lastAlertTime: Time)
    ensures AlertTest(t, lastAlertTime)
            == CheckAlertCondition(t.detected, ClassesOfInterest, lastAlertTime, AlertCooldown,
                                   t.now, t.fireTime)
  {
  }

  /** `last_alert_time` on entry to iteration `k`, given the decisions made. */
  function StoredBefore(ds: seq<Decision>, initial: Time, k: int): Time
    requires 0 <= k <= |ds|
  {
    if k == 0 then initial else ds[k - 1].lastAlertTime
  }

  /** The decisions of a whole run, starting from `lastAlertTime`: decision
      `k` is the alert test on input `k` against the timestamp left behind by
      decision `k-1`. This is the only state the loop carries across
      iterations. */
  function Decisions<P>(trace: seq<Tick<P>>, lastAlertTime: Time): (ds: seq<Decision>)
    ensures |ds| == |trace|
    ensures forall k {:trigger trace[k]} :: 0 <= k < |trace| ==>
              ds[k] == AlertTest(trace[k], StoredBefore(ds, lastAlertTime, k))
    decreases |trace|
  {
    if |trace| == 0 then []
    else
      var first := AlertTest(trace[0], lastAlertTime);
      [first] + Decisions(trace[1..], first.lastAlertTime)
  }

  /** Decision `k` of a run, read off the alert test: it fires exactly when
      its detections are of interest and the check comes more than the
      cooldown after the timestamp on entry, and it leaves behind its own stamp
      or that timestamp. */
  lemma DecisionAt<P>(trace: seq<Tick<P>>, initial: Time, k: int)
    requires 0 <= k < |trace|
    ensures var ds := Decisions(trace, initial);
            && (ds[k].fired <==>
                  HasInterest(trace[k].detected, ClassesOfInterest)
                  && trace[k].now - StoredBefore(ds, initial, k) > AlertCooldown)
            && ds[k].lastAlertTime == if ds[k].fired then trace[k].fireTime
                                      else StoredBefore(ds, initial, k)
  {
  }

  /** One pass of the loop body once its alert decision `d` is known: the
      detector sees exactly the region of the captured frame; the frame after
      write-back, which is what a fire snapshots, differs from the captured
      one only inside the region, where it holds the annotated sub-image; a
      fire performs the alert actions on that frame, in order. */
  function Step<P>(t: Tick<P>, d: Decision): (it: Iteration<P>)
    requires Captured(t)
    ensures IsGrid(it.detectorInput, RoiH, RoiW)
    ensures forall i, j :: 0 <= i < RoiH && 0 <= j < RoiW ==>
              it.detectorInput[i][j] == t.frame[RoiY + i][RoiX + j]
    ensures SameOutside(t.frame, it.output, Roi)
    ensures forall i, j :: 0 <= i < RoiH && 0 <= j < RoiW ==>
              it.output[RoiY + i][RoiX + j] == t.annotatedRoi[i][j]
    ensures it.fired == d.fired && it.lastAlertTime == d.lastAlertTime
    ensures it.actions == if d.fired then AlertActions(it.output, d.lastAlertTime) else []
  {
    var frame := Composite(t.frame, t.annotatedRoi, Roi);
    assert forall i, j :: 0 <= i < RoiH && 0 <= j < RoiW ==>
             frame[RoiY + i][RoiX + j] == t.annotatedRoi[i][j] by {
      forall i, j | 0 <= i < RoiH && 0 <= j < RoiW
        ensures frame[RoiY + i][RoiX + j] == t.annotatedRoi[i][j]
      {
        assert InRect(Roi, RoiY + i, RoiX + j);
      }
    }
    Iteration(Extract(t.frame, Roi), frame, d.fired, d.lastAlertTime,
              if d.fired then AlertActions(frame, d.lastAlertTime) else [])
  }

  /** The whole loop, starting from `lastAlertTime`: one iteration per input,
      each firing and storing as its alert decision says, each write-back
      frame differing from its captured frame only inside the region. */
  function Run<P>(trace: seq<Tick<P>>, lastAlertTime: Time): (runs: seq<Iteration<P>>)
    requires AllCaptured(trace)
    ensures |runs| == |trace|
    ensures forall k :: 0 <= k < |trace| ==>
              && runs[k].fired == Decisions(trace, lastAlertTime)[k].fired
              && runs[k].lastAlertTime == Decisions(trace, lastAlertTime)[k].lastAlertTime
    ensures forall k :: 0 <= k < |trace| ==>
              && SameOutside(trace[k].frame, runs[k].output, Roi)
              && runs[k].actions == if runs[k].fired then AlertActions(runs[k].output, trace[k].fireTime) else []
  {
    var ds := Decisions(trace, lastAlertTime);
    seq(|trace|, k requires 0 <= k < |trace| => Step(trace[k], ds[k]))
  }

  /** The stored timestamp is the stamp of the most recent alert, or the
      starting value when nothing has fired yet. */
  lemma {:induction false} StoredIsLatestFire<P>(trace: seq<Tick<P>>, initial: Time, i: int)
    requires 0 <= i < |trace|
    ensures var ds := Decisions(trace, initial);
            (forall k :: 0 <= k <= i ==> !ds[k].fired) ==> ds[i].lastAlertTime == initial
    ensures var ds := Decisions(trace, initial);
            forall j :: 0 <= j <= i && ds[j].fired && (forall k :: j < k <= i ==> !ds[k].fired)
                        ==> ds[i].lastAlertTime == trace[j].fireTime
  {
    var ds := Decisions(trace, initial);
    DecisionAt(trace, initial, i);
    if !ds[i].fired && i > 0 {
      StoredIsLatestFire(trace, initial, i - 1);
    }
  }

  /** Alerts only ever move the stored timestamp forward. */
  lemma {:induction false} StoredNeverDecreases<P>(trace: seq<Tick<P>>, initial: Time, a: int, b: int)
    requires StampAfterCheck(trace)
    requires 0 <= a <= b <= |trace|
    ensures var ds := Decisions(trace, initial);
            StoredBefore(ds, initial, a) <= StoredBefore(ds, initial, b)
    decreases b
  {
    if a < b {
      var ds := Decisions(trace, initial);
      StoredNeverDecreases(trace, initial, a, b - 1);
      DecisionAt(trace, initial, b - 1);
      assert trace[b - 1].now <= trace[b - 1].fireTime;
    }
  }

  /** Every alert of a run comes strictly more than the cooldown after the
      starting timestamp. */
  lemma FireNeedsCooldownSinceStart<P>(trace: seq<Tick<P>>, initial: Time, j: int)
    requires StampAfterCheck(trace)
    requires 0 <= j < |trace| && Decisions(trace, initial)[j].fired
    ensures trace[j].now - initial > AlertCooldown
  {
    var ds := Decisions(trace, initial);
    StoredNeverDecreases(trace, initial, 0, j);
    DecisionAt(trace, initial, j);
  }

  /** Alerts `i` and `j > i` of a run are more than the cooldown apart. */
  lemma FirePairSeparated<P>(trace: seq<Tick<P>>, initial: Time, i: int, j: int)
    requires StampAfterCheck(trace)
    requires 0 <= i < j < |trace|
    requires Decisions(trace, initial)[i].fired && Decisions(trace, initial)[j].fired
    ensures trace[j].now - trace[i].fireTime > AlertCooldown
    ensures trace[j].fireTime - trace[i].fireTime > AlertCooldown
  {
    DecisionAt(trace, initial, i);
    DecisionAt(trace, initial, j);
    StoredNeverDecreases(trace, initial, i + 1, j);
    assert trace[j].now <= trace[j].fireTime;
  }

  /** Any two alerts of a run are more than the cooldown apart, measured both
      from the earlier stamp to the later check and between the two stamps. */
  lemma FiresSeparated<P>(trace: seq<Tick<P>>, initial: Time)
    requires StampAfterCheck(trace)
    ensures var ds := Decisions(trace, initial);
            forall i, j :: 0 <= i < j < |trace| && ds[i].fired && ds[j].fired ==>
              && trace[j].now - trace[i].fireTime > AlertCooldown
              && trace[j].fireTime - trace[i].fireTime > AlertCooldown
  {
    var ds := Decisions(trace, initial);
    forall i, j | 0 <= i < j < |trace| && ds[i].fired && ds[j].fired
      ensures trace[j].now - trace[i].fireTime > AlertCooldown
      ensures trace[j].fireTime - trace[i].fireTime > AlertCooldown
    {
      FirePairSeparated(trace, initial, i, j);
    }
  }

  /** Two alerts of a run whose checks lie within one cooldown of each other
      are the same alert. */
  lemma AtMostOneFireWithinCooldown<P>(trace: seq<Tick<P>>, initial: Time, i: int, j: int)
    requires StampAfterCheck(trace)
    requires 0 <= i < |trace| && 0 <= j < |trace|
    requires Decisions(trace, initial)[i].fired && Decisions(trace, initial)[j].fired
    requires -AlertCooldown <= trace[j].now - trace[i].now <= AlertCooldown
    ensures i == j
  {
    assert trace[i].now <= trace[i].fireTime && trace[j].now <= trace[j].fireTime;
    if i < j {
      FirePairSeparated(trace, initial, i, j);
    } else if j < i {
      FirePairSeparated(trace, initial, j, i);
    }
  }

  /** No check made at or before the cooldown after the starting timestamp
      can alert; the program starts from 0, so nothing alerts during the
      first `ALERT_COOLDOWN` seconds of its clock. */
  lemma QuietDuringFirstCooldown<P>(trace: seq<Tick<P>>, initial: Time, k: int)
    requires StampAfterCheck(trace)
    requires 0 <= k < |trace| && trace[k].now - initial <= AlertCooldown
    ensures !Decisions(trace, initial)[k].fired
  {
    if Decisions(trace, initial)[k].fired {
      FireNeedsCooldownSinceStart(trace, initial, k);
    }
  }

  /** The first qualifying detection checked more than the cooldown after the
      starting timestamp alerts. */
  lemma FirstQualifyingDetectionFires<P>(trace: seq<Tick<P>>, initial: Time, i: int)
    requires 0 <= i < |trace|
    requires forall k :: 0 <= k < i ==> !Decisions(trace, initial)[k].fired
    requires HasInterest(trace[i].detected, ClassesOfInterest) && trace[i].now - initial > AlertCooldown
    ensures Decisions(trace, initial)[i].fired
  {
    DecisionAt(trace, initial, i);
    if i > 0 {
      StoredIsLatestFire(trace, initial, i - 1);
    }
  }

  /** The program as started, with `last_alert_time` at 0: no check at or
      before clock time `ALERT_COOLDOWN` alerts, and the first qualifying
      detection checked after it does. */
  lemma ProgramStart<P>(trace: seq<Tick<P>>, i: int)
    requires 0 <= i < |trace|
    requires forall k :: 0 <= k < i ==> !HasInterest(trace[k].detected, ClassesOfInterest)
    ensures trace[i].now <= AlertCooldown ==> !Decisions(trace, InitialAlertTime)[i].fired
    ensures HasInterest(trace[i].detected, ClassesOfInterest) && trace[i].now > AlertCooldown
            ==> Decisions(trace, InitialAlertTime)[i].fired
  {
  }
}
