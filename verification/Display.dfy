/** The one decision `update_display` makes about the state: which status
    label to draw. Drawing, formatting and the I2C transfer are not part of
    this model. */
module Display {
  import opened TimerSpec

  /** The status line: the pause flag wins over the mode. */
  function Label(paused: bool, mode: Mode): (r: string)
    ensures r in {"PAUSED", "MEASURING", "READY"}
    ensures r == "PAUSED" <==> paused
    ensures r == "MEASURING" <==> !paused && mode == Measuring
  {
    if paused then "PAUSED" else if mode == Measuring then "MEASURING" else "READY"
  }

  /** Under the state machine's invariant the label names the mode exactly:
      PAUSED, MEASURING and READY (for IDLE) each in both directions. */
  lemma LabelNamesMode(s: Snapshot)
    requires Inv(s)
    ensures Label(s.paused, s.mode) == "PAUSED" <==> s.mode == Paused
    ensures Label(s.paused, s.mode) == "MEASURING" <==> s.mode == Measuring
    ensures Label(s.paused, s.mode) == "READY" <==> s.mode == Idle
  {
  }
}
