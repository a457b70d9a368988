/**
  The `VideoThumbnailGenerator` component as an object: its React state, the
  `<video>` element it drives and its hidden canvas are fields, and each event
  handler is a method that updates them in place. Every method is proved to
  perform the matching transition of module ThumbnailState and to keep its
  invariant.
 */
module Generator {
  import opened Wrappers
  import opened JsNumbers
  import opened CaptureGeometry
  import opened SeekPolicy
  import opened ThumbnailState

  class VideoThumbnailGenerator {
    // React state
    var thumbnail: Option<Image>
    var captured: bool
    var timestamp: JsNumber
    var manualCapture: bool
    var videoUrl: Option<Url>
    // the <video> element, rendered while videoUrl is set
    var duration: JsNumber
    var videoWidth: nat
    var videoHeight: nat
    var currentTime: real
    // the hidden <canvas>
    var canvasWidth: nat
    var canvasHeight: nat

    /** The component's current state as a value. */
    ghost function Snapshot(): State
      reads this
    {
      State(thumbnail, captured, timestamp, manualCapture,
            if videoUrl.Some? then Some(Video(videoUrl.value, duration, videoWidth, videoHeight, currentTime))
            else None,
            canvasWidth, canvasHeight)
    }

    ghost predicate Valid()
      reads this
    {
      Invariant(Snapshot())
    }

    /** The component as first rendered: no video, no thumbnail, timestamp 5. */
    constructor ()
      ensures Snapshot() == Initial() && Valid()
    {
      thumbnail, captured, timestamp, manualCapture := None, false, Num(InitialTimestampInput), false;
      videoUrl := None;
      duration, videoWidth, videoHeight, currentTime := NaN, 0, 0, 0.0;
      canvasWidth, canvasHeight := DefaultCanvasWidth, DefaultCanvasHeight;
      InitialInvariant();
    }

    /**
      `handleVideoUpload`, given the object URL created for the selected file
      (None when no file was selected). Rendering the new URL makes the
      element load it, which resets its metadata and position.
     */
    method HandleVideoUpload(file: Option<Url>)
      requires Valid()
      modifies this
      ensures Snapshot() == OnUpload(old(Snapshot()), file) && Valid()
    {
      StepPreservesInvariant(Snapshot(), Upload(file));
      if file.None? {
        return;
      }
      videoUrl := Some(file.value);
      thumbnail := None;
      duration, videoWidth, videoHeight, currentTime := NaN, 0, 0, 0.0;
    }

    /**
      `handleLoadedMetadata`, after the element has read the video's duration
      and frame size: seek to the default time.
     */
    method HandleLoadedMetadata(newDuration: real, newWidth: nat, newHeight: nat)
      requires Valid()
      modifies this
      ensures Snapshot() == OnLoadedMetadata(old(Snapshot()), newDuration, newWidth, newHeight) && Valid()
    {
      StepPreservesInvariant(Snapshot(), LoadedMetadata(newDuration, newWidth, newHeight));
      if videoUrl.None? {
        return;
      }
      duration, videoWidth, videoHeight := Num(newDuration), newWidth, newHeight;
      if newDuration >= DefaultTimestamp {
        currentTime := DefaultTimestamp;
      } else {
        currentTime := (newDuration / 2.0).Floor as real;
      }
    }

    /** `captureFrame`: draw the fitted part of the current frame on a 1200x630 canvas and keep it as JPEG. */
    method CaptureFrame()
      requires Valid()
      modifies this
      ensures Snapshot() == Capture(old(Snapshot())) && Valid()
    {
      StepPreservesInvariant(Snapshot(), AnalogCapture);
      if videoUrl.None? {
        return;
      }
      canvasWidth := TargetWidth;
      canvasHeight := TargetHeight;
      var region := Fit(videoWidth, videoHeight);
      thumbnail := Some(Image(videoUrl.value, currentTime, videoWidth, videoHeight, region,
                              canvasWidth, canvasHeight, JpegMime, JpegQuality));
    }

    /** `handleSeeked`: capture only for a pending manual request or when nothing was captured yet. */
    method HandleSeeked()
      requires Valid()
      modifies this
      ensures Snapshot() == OnSeeked(old(Snapshot())) && Valid()
    {
      StepPreservesInvariant(Snapshot(), Seeked);
      if videoUrl.Some? && (manualCapture || !captured) {
        CaptureFrame();
        captured := true;
        manualCapture := false;
      }
    }

    /** The timestamp input's `onChange`. */
    method SetTimestamp(value: JsNumber)
      requires Valid()
      modifies this
      ensures Snapshot() == OnTimestampInput(old(Snapshot()), value) && Valid()
    {
      timestamp := value;
    }

    /**
      `handleCustomCapture`: request a manual capture and seek to the
      timestamp clamped to the duration. A NaN target makes the assignment
      to `currentTime` throw, leaving the position as it was.
     */
    method HandleCustomCapture()
      requires Valid()
      modifies this
      ensures Snapshot() == OnCustomCapture(old(Snapshot())) && Valid()
    {
      StepPreservesInvariant(Snapshot(), CustomCapture);
      if videoUrl.None? || timestamp.NaN? {
        return;
      }
      var safeTimestamp := Min(timestamp, duration);
      manualCapture := true;
      if safeTimestamp.Num? {
        currentTime := safeTimestamp.value;
      }
    }

    /**
      The browser moving the video's position, by playback or by the user
      dragging the video's controls; no handler of the component runs.
     */
    method MovePlayback(position: real)
      requires Valid()
      modifies this
      ensures Snapshot() == OnPlaybackMoved(old(Snapshot()), position) && Valid()
    {
      StepPreservesInvariant(Snapshot(), PlaybackMoved(position));
      if videoUrl.Some? {
        currentTime := position;
      }
    }

    /** `handleAnalogCapture`: capture the frame showing now, without seeking. */
    method HandleAnalogCapture()
      requires Valid()
      modifies this
      ensures Snapshot() == OnAnalogCapture(old(Snapshot())) && Valid()
    {
      CaptureFrame();
    }
  }
}
