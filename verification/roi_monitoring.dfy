/** The standalone region-of-interest helper: a fixed rectangle and the
    sub-image it selects. */
module RoiMonitoring {
  import opened Frames
  import Settings

  /** The rectangle the helper hard-codes. */
  const DefaultRoi: Rect := Rect(100, 100, 400, 400)

  /** Slice the fixed rectangle out of `frame` and return it together with the
      rectangle's coordinates. The frame itself is a value and is not changed. */
  function DefineRoi<P>(frame: Frame<P>): (res: (Frame<P>, Rect))
    requires Fits(DefaultRoi, frame)
    ensures res.1 == Rect(100, 100, 400, 400)
    ensures IsGrid(res.0, 400, 400)
    ensures forall i, j :: 0 <= i < 400 && 0 <= j < 400 ==>
              res.0[i][j] == frame[res.1.y + i][res.1.x + j]
  {
    (Extract(frame, DefaultRoi), DefaultRoi)
  }

  /** The helper and the main loop agree on the rectangle, so the helper's
      sub-image is exactly the one the loop hands to the detector. */
  lemma DefineRoiMatchesLoopRoi<P>(frame: Frame<P>)
    requires Fits(Settings.Roi, frame)
    ensures Fits(DefaultRoi, frame)
    ensures DefineRoi(frame).1 == Settings.Roi
    ensures DefineRoi(frame).0 == Extract(frame, Settings.Roi)
  {
  }
}
