/** Where the component seeks: the default time on metadata load and the clamp of a user timestamp. */
module SeekPolicy {
  import opened Wrappers
  import opened JsNumbers

  /** The seek target on metadata load for a video of at least this length, in seconds. */
  const DefaultTimestamp: real := 5.0

  /** The initial value of the "Capture at (seconds)" input; it coincides with DefaultTimestamp only by choice of literal. */
  const InitialTimestampInput: real := 5.0

  /**
    Seek target chosen when metadata is loaded: 5 s into the video, or, for a
    video shorter than that, the whole second at or before its midpoint.
   */
  function DefaultSeekTime(duration: real): (t: real)
    ensures duration >= DefaultTimestamp ==> t == DefaultTimestamp
    ensures duration < DefaultTimestamp ==> t <= duration / 2.0 < t + 1.0
    ensures t == t.Floor as real
    ensures 0.0 <= duration ==> 0.0 <= t <= duration
  {
    if duration >= DefaultTimestamp then DefaultTimestamp
    else (duration / 2.0).Floor as real
  }

  /** For a three-second video the default seek lands on second 1, not 1.5. */
  lemma DefaultSeekTimeShortVideo()
    ensures DefaultSeekTime(3.0) == 1.0
  {
  }

  /**
    The time a custom capture seeks to: nothing when the timestamp is NaN,
    otherwise Math.min(timestamp, duration). Only the upper end is clamped.
   */
  function SafeTimestamp(timestamp: JsNumber, duration: JsNumber): (r: Option<JsNumber>)
    ensures r.None? <==> timestamp.NaN?
    ensures r.Some? && duration.NaN? ==> r.value.NaN?
    ensures r.Some? && duration.Num? ==>
      r.value.Num? && r.value.value <= duration.value && r.value.value <= timestamp.value &&
      (r.value.value == timestamp.value || r.value.value == duration.value)
    ensures r.Some? && duration.Num? && timestamp.value <= duration.value ==> r.value == timestamp
  {
    if timestamp.NaN? then None else Some(Min(timestamp, duration))
  }

  /** A negative timestamp passes through unchanged: there is no lower clamp at 0. */
  lemma NegativeTimestampNotClamped(t: real, duration: real)
    requires t < 0.0 <= duration
    ensures SafeTimestamp(Num(t), Num(duration)) == Some(Num(t))
  {
  }
}
