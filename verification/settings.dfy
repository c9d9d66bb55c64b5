/** The process-start constants of the surveillance loop. */
module Settings {
  import opened Frames

  /** Region of interest `(x, y, w, h)` analysed on every frame. */
  const RoiX: int := 100
  const RoiY: int := 100
  const RoiW: int := 400
  const RoiH: int := 400
  const Roi: Rect := Rect(RoiX, RoiY, RoiW, RoiH)

  /** Seconds that must strictly elapse between two alerts. */
  const AlertCooldown: real := 30.0

  /** Detector class ids that raise an alert: 0 is "person", 2 is "car". */
  const ClassesOfInterest: seq<int> := [0, 2]

  /** Resolution the annotated output video is configured for. */
  const FrameWidth: int := 1920
  const FrameHeight: int := 1080

  /** `last_alert_time` before any alert has fired. */
  const InitialAlertTime: real := 0.0

  /** The configured region lies inside a frame of the configured resolution:
      its right edge 500 is within 1920 columns and its bottom edge 500 within
      1080 rows. */
  lemma RoiFitsConfiguredFrame<P>(f: Frame<P>)
    requires IsGrid(f, FrameHeight, FrameWidth)
    ensures Fits(Roi, f)
    ensures Roi.x + Roi.w <= FrameWidth && Roi.y + Roi.h <= FrameHeight
  {
  }
}
