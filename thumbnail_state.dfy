/**
  The state of the thumbnail component as a value, and each event handler as a
  transition on it. The class in module Generator updates the same state in
  place; its methods are proved equal to these transitions, and the lemmas
  here state what the handlers guarantee over any sequence of events.
 */
module ThumbnailState {
  import opened Wrappers
  import opened JsNumbers
  import opened CaptureGeometry
  import opened SeekPolicy

  /** The object URL created for an uploaded file. */
  type Url = string

  /** Format and quality passed to `canvas.toDataURL`. */
  const JpegMime: string := "image/jpeg"
  const JpegQuality: real := 0.9

  /** Size of an HTML canvas whose width and height were never set. */
  const DefaultCanvasWidth: nat := 300
  const DefaultCanvasHeight: nat := 150

  /**
    The data URL stored as the thumbnail, described by what was encoded in it:
    which video, the frame time, the frame size, the source rectangle drawn,
    the raster size, format and quality. The pixel and JPEG bytes are opaque.
   */
  datatype Image = Image(source: Url, frameTime: real, frameWidth: nat, frameHeight: nat,
                         region: Rect, width: nat, height: nat, mime: string, quality: real)

  /** The `<video>` element: its source and the attributes the component reads or sets. */
  datatype Video = Video(src: Url, duration: JsNumber, videoWidth: nat, videoHeight: nat,
                         currentTime: real)

  /**
    The component's React state (`thumbnail`, `captured`, `timestamp`,
    `manualCapture`), the video element, rendered exactly when a video URL is
    set, and the size of the hidden canvas.
   */
  datatype State = State(thumbnail: Option<Image>, captured: bool, timestamp: JsNumber,
                         manualCapture: bool, video: Option<Video>,
                         canvasWidth: nat, canvasHeight: nat)

  /** The user and browser events the component reacts to. */
  datatype Event =
    | Upload(file: Option<Url>)
    | LoadedMetadata(duration: real, videoWidth: nat, videoHeight: nat)
    | Seeked
    | TimestampInput(value: JsNumber)
    | CustomCapture
    | AnalogCapture
    | PlaybackMoved(position: real)

  function Initial(): State
  {
    State(None, false, Num(InitialTimestampInput), false, None, DefaultCanvasWidth, DefaultCanvasHeight)
  }

  /** The thumbnail `captureFrame` encodes from the video's current frame. */
  function FrameImage(v: Video): (img: Image)
    ensures img.source == v.src && img.frameTime == v.currentTime
    ensures img.frameWidth == v.videoWidth && img.frameHeight == v.videoHeight
    ensures img.region == Fit(v.videoWidth, v.videoHeight)
    ensures WellFormedImage(img)
  {
    Image(v.src, v.currentTime, v.videoWidth, v.videoHeight, Fit(v.videoWidth, v.videoHeight),
          TargetWidth, TargetHeight, JpegMime, JpegQuality)
  }

  /** `captureFrame`: without a video element nothing happens. */
  function Capture(s: State): (r: State)
    ensures s.video.None? ==> r == s
    ensures s.video.Some? ==>
      r.thumbnail == Some(FrameImage(s.video.value)) &&
      r.canvasWidth == TargetWidth && r.canvasHeight == TargetHeight
    ensures r.video == s.video && r.captured == s.captured &&
            r.manualCapture == s.manualCapture && r.timestamp == s.timestamp
  {
    if s.video.None? then s
    else s.(canvasWidth := TargetWidth, canvasHeight := TargetHeight,
            thumbnail := Some(FrameImage(s.video.value)))
  }

  /**
    `handleVideoUpload`: with a file, show its video and drop the old
    thumbnail. The element then loads the new source, which resets its
    duration to NaN, its size to 0x0 and its position to 0.
   */
  function OnUpload(s: State, file: Option<Url>): (r: State)
    ensures file.None? ==> r == s
    ensures file.Some? ==>
      r.thumbnail.None? && r.video == Some(Video(file.value, NaN, 0, 0, 0.0))
    ensures r.captured == s.captured && r.manualCapture == s.manualCapture &&
            r.timestamp == s.timestamp
    ensures r.canvasWidth == s.canvasWidth && r.canvasHeight == s.canvasHeight
  {
    if file.None? then s
    else s.(video := Some(Video(file.value, NaN, 0, 0, 0.0)), thumbnail := None)
  }

  /**
    `handleLoadedMetadata`: the element now knows its duration and size, and
    the handler seeks to the default time.
   */
  function OnLoadedMetadata(s: State, duration: real, videoWidth: nat, videoHeight: nat): (r: State)
    ensures s.video.None? ==> r == s
    ensures s.video.Some? ==>
      r.video == Some(Video(s.video.value.src, Num(duration), videoWidth, videoHeight,
                            DefaultSeekTime(duration)))
    ensures s.video.Some? && 0.0 <= duration ==>
      0.0 <= r.video.value.currentTime <= duration
    ensures r.thumbnail == s.thumbnail && r.captured == s.captured &&
            r.manualCapture == s.manualCapture && r.timestamp == s.timestamp
    ensures r.canvasWidth == s.canvasWidth && r.canvasHeight == s.canvasHeight
  {
    if s.video.None? then s
    else s.(video := Some(s.video.value.(duration := Num(duration), videoWidth := videoWidth,
                                          videoHeight := videoHeight,
                                          currentTime := DefaultSeekTime(duration))))
  }

  /** A "seeked" event leads to a capture exactly in this state. */
  predicate CapturesOnSeek(s: State)
  {
    s.video.Some? && (s.manualCapture || !s.captured)
  }

  /**
    `handleSeeked`: capture when a manual capture is pending or nothing was
    captured yet, then mark the capture done and the request served.
   */
  function OnSeeked(s: State): (r: State)
    ensures CapturesOnSeek(s) ==>
      r.thumbnail == Some(FrameImage(s.video.value)) && r.captured && !r.manualCapture &&
      r.canvasWidth == TargetWidth && r.canvasHeight == TargetHeight
    ensures !CapturesOnSeek(s) ==> r == s
    ensures r.video == s.video && r.timestamp == s.timestamp
  {
    if CapturesOnSeek(s) then Capture(s).(captured := true, manualCapture := false)
    else s
  }

  /** The timestamp input's `onChange`: store the number typed. */
  function OnTimestampInput(s: State, value: JsNumber): (r: State)
    ensures r.timestamp == value
    ensures r.(timestamp := s.timestamp) == s
  {
    s.(timestamp := value)
  }

  /**
    `handleCustomCapture`: without a video or with a NaN timestamp nothing
    happens. Otherwise a manual capture is requested and the video seeks to
    Math.min(timestamp, duration). If that is NaN (no metadata yet), assigning
    it to `currentTime` throws after the request flag was already set.
   */
  function OnCustomCapture(s: State): (r: State)
    ensures s.video.None? || s.timestamp.NaN? ==> r == s
    ensures s.video.Some? && s.timestamp.Num? ==>
      r.manualCapture && r.video.Some? && r.video.value.src == s.video.value.src &&
      r.video.value.duration == s.video.value.duration
    ensures s.video.Some? && s.timestamp.Num? && s.video.value.duration.Num? ==>
      r.video.value.currentTime <= s.video.value.duration.value &&
      r.video.value.currentTime <= s.timestamp.value &&
      (s.timestamp.value <= s.video.value.duration.value ==>
         r.video.value.currentTime == s.timestamp.value)
    ensures s.video.Some? && s.timestamp.Num? && s.video.value.duration.Num? &&
            s.timestamp.value > s.video.value.duration.value ==>
      r.video == Some(s.video.value.(currentTime := s.video.value.duration.value))
    ensures s.video.Some? && s.timestamp.Num? && s.video.value.duration.Num? ==>
      r.video == Some(s.video.value.(currentTime := Min(s.timestamp, s.video.value.duration).value))
    ensures s.video.Some? && s.video.value.duration.NaN? ==> r.video == s.video
    ensures r.thumbnail == s.thumbnail && r.captured == s.captured && r.timestamp == s.timestamp
    ensures r.canvasWidth == s.canvasWidth && r.canvasHeight == s.canvasHeight
  {
    if s.video.None? then s
    else match SafeTimestamp(s.timestamp, s.video.value.duration)
      case None => s
      case Some(NaN) => s.(manualCapture := true)
      case Some(Num(t)) => s.(manualCapture := true, video := Some(s.video.value.(currentTime := t)))
  }

  /** `handleAnalogCapture`: capture whatever frame is showing, leaving the flags alone. */
  function OnAnalogCapture(s: State): (r: State)
    ensures s.video.None? ==> r == s
    ensures s.video.Some? ==>
      r.thumbnail == Some(FrameImage(s.video.value)) &&
      r.canvasWidth == TargetWidth && r.canvasHeight == TargetHeight
    ensures r.video == s.video && r.captured == s.captured &&
            r.manualCapture == s.manualCapture && r.timestamp == s.timestamp
  {
    Capture(s)
  }

  /**
    Playback, or the user dragging the video's own controls, moves the
    element's position without any handler running. Scrubbing also fires
    "seeked", which is the separate event Seeked.
   */
  function OnPlaybackMoved(s: State, position: real): (r: State)
    ensures s.video.None? ==> r == s
    ensures s.video.Some? ==> r.video == Some(s.video.value.(currentTime := position))
    ensures r.thumbnail == s.thumbnail && r.captured == s.captured &&
            r.manualCapture == s.manualCapture && r.timestamp == s.timestamp
    ensures r.canvasWidth == s.canvasWidth && r.canvasHeight == s.canvasHeight
  {
    if s.video.None? then s else s.(video := Some(s.video.value.(currentTime := position)))
  }

  function Step(s: State, e: Event): State
  {
    match e
    case Upload(file) => OnUpload(s, file)
    case LoadedMetadata(d, w, h) => OnLoadedMetadata(s, d, w, h)
    case Seeked => OnSeeked(s)
    case TimestampInput(v) => OnTimestampInput(s, v)
    case CustomCapture => OnCustomCapture(s)
    case AnalogCapture => OnAnalogCapture(s)
    case PlaybackMoved(t) => OnPlaybackMoved(s, t)
  }

  function Run(s: State, events: seq<Event>): State
    decreases |events|
  {
    if events == [] then s else Run(Step(s, events[0]), events[1..])
  }

  /** How many of the "seeked" events in `events` lead to a capture. */
  function SeekCaptures(s: State, events: seq<Event>): nat
    decreases |events|
  {
    if events == [] then 0
    else (if events[0].Seeked? && CapturesOnSeek(s) then 1 else 0) +
         SeekCaptures(Step(s, events[0]), events[1..])
  }

  /** How many custom-capture requests `events` holds. */
  function CustomCaptures(events: seq<Event>): nat
    decreases |events|
  {
    if events == [] then 0
    else (if events[0].CustomCapture? then 1 else 0) + CustomCaptures(events[1..])
  }

  /** A thumbnail as `captureFrame` writes it. */
  predicate WellFormedImage(img: Image)
  {
    img.width == TargetWidth && img.height == TargetHeight &&
    img.mime == JpegMime && img.quality == JpegQuality &&
    HasTargetAspect(img.region) &&
    Inside(img.region, img.frameWidth as real, img.frameHeight as real)
  }

  /**
    What holds in every reachable state: a shown thumbnail is a 1200x630 JPEG
    of a target-proportioned part of a frame of the video currently loaded,
    the canvas has its default or its target size, and a manual capture is
    only pending while there is a video.
   */
  predicate Invariant(s: State)
  {
    (s.thumbnail.Some? ==>
       s.video.Some? && s.thumbnail.value.source == s.video.value.src &&
       WellFormedImage(s.thumbnail.value) &&
       s.canvasWidth == TargetWidth && s.canvasHeight == TargetHeight) &&
    (s.manualCapture ==> s.video.Some?) &&
    ((s.canvasWidth == DefaultCanvasWidth && s.canvasHeight == DefaultCanvasHeight) ||
     (s.canvasWidth == TargetWidth && s.canvasHeight == TargetHeight))
  }

  lemma InitialInvariant()
    ensures Invariant(Initial())
    ensures Initial().thumbnail.None? && !Initial().captured && !Initial().manualCapture
  {
  }

  lemma StepPreservesInvariant(s: State, e: Event)
    requires Invariant(s)
    ensures Invariant(Step(s, e))
  {
  }

  /** Every state reachable from a consistent one is consistent. */
  lemma {:induction false} RunPreservesInvariant(s: State, events: seq<Event>)
    requires Invariant(s)
    ensures Invariant(Run(s, events))
    decreases |events|
  {
    if events != [] {
      StepPreservesInvariant(s, events[0]);
      RunPreservesInvariant(Step(s, events[0]), events[1..]);
    }
  }

  /** A second "seeked" right after one changes nothing. */
  lemma SeekedIdempotent(s: State)
    ensures OnSeeked(OnSeeked(s)) == OnSeeked(s)
  {
  }

  /**
    Once a capture was made and no manual request is pending, no further
    "seeked" event captures until the user asks for a custom capture.
   */
  lemma {:induction false} NoRecaptureWithoutRequest(s: State, events: seq<Event>)
    requires s.captured && !s.manualCapture
    requires forall i :: 0 <= i < |events| ==> !events[i].CustomCapture?
    ensures SeekCaptures(s, events) == 0
    ensures Run(s, events).captured && !Run(s, events).manualCapture
    decreases |events|
  {
    if events != [] {
      NoRecaptureWithoutRequest(Step(s, events[0]), events[1..]);
    }
  }

  /** 1 when a "seeked" event in `s` would capture for lack of any capture or for a pending request. */
  function Pending(s: State): nat
  {
    if s.manualCapture || !s.captured then 1 else 0
  }

  /**
    Each custom-capture request is served by at most one seek-triggered
    capture; besides those there is at most the first automatic one.
   */
  lemma {:induction false} SeekCapturesBounded(s: State, events: seq<Event>)
    ensures SeekCaptures(s, events) <= Pending(s) + CustomCaptures(events)
    decreases |events|
  {
    if events != [] {
      var next := Step(s, events[0]);
      SeekCapturesBounded(next, events[1..]);
      assert events[0].CustomCapture? || Pending(next) <= Pending(s);
      assert events[0].Seeked? && CapturesOnSeek(s) ==> Pending(next) == 0;
    }
  }

  /** Running three events is applying them one after another. */
  lemma RunThree(s: State, a: Event, b: Event, c: Event)
    ensures Run(s, [a, b, c]) == Step(Step(Step(s, a), b), c)
  {
    assert [a, b, c][1..] == [b, c];
    assert [b, c][1..] == [c];
    assert [c][1..] == [];
    var s1 := Step(s, a);
    var s2 := Step(s1, b);
    assert Run(s2, [c]) == Step(s2, c);
    assert Run(s1, [b, c]) == Run(s2, [c]);
  }

  /**
    On a fresh component the first video gets its thumbnail automatically:
    after the upload, the metadata and the default seek, the frame at the
    default time is captured.
   */
  lemma FirstVideoCapturedAtDefault(url: Url, duration: real, videoWidth: nat, videoHeight: nat)
    ensures
      var s := Run(Initial(), [Upload(Some(url)), LoadedMetadata(duration, videoWidth, videoHeight), Seeked]);
      s.thumbnail == Some(FrameImage(Video(url, Num(duration), videoWidth, videoHeight,
                                           DefaultSeekTime(duration)))) &&
      s.captured && !s.manualCapture
  {
    RunThree(Initial(), Upload(Some(url)), LoadedMetadata(duration, videoWidth, videoHeight), Seeked);
  }

  /**
    A custom capture followed by the seek it starts captures the frame at the
    clamped timestamp, once metadata is known.
   */
  lemma CustomCaptureThenSeekedCaptures(s: State)
    requires s.video.Some? && s.timestamp.Num? && s.video.value.duration.Num?
    ensures
      var t := Min(s.timestamp, s.video.value.duration).value;
      var r := OnSeeked(OnCustomCapture(s));
      r.thumbnail == Some(FrameImage(s.video.value.(currentTime := t))) &&
      t <= s.video.value.duration.value &&
      r.captured && !r.manualCapture
  {
  }

  /** Analog capture takes the frame at wherever playback or scrubbing has brought the video. */
  lemma AnalogCaptureTakesPlayingFrame(s: State, position: real)
    requires s.video.Some?
    ensures OnAnalogCapture(OnPlaybackMoved(s, position)).thumbnail ==
            Some(FrameImage(s.video.value.(currentTime := position)))
  {
  }

  /**
    While a manual capture is pending, a scrub with the video's controls is
    captured at the scrubbed position, and the request is then served.
   */
  lemma ScrubServesPendingRequest(s: State, position: real)
    requires s.video.Some? && s.manualCapture
    ensures
      var r := OnSeeked(OnPlaybackMoved(s, position));
      r.thumbnail == Some(FrameImage(s.video.value.(currentTime := position))) &&
      r.captured && !r.manualCapture
  {
  }

  /**
    As written, uploading a new video clears the thumbnail but not `captured`:
    once a video was captured, the next one's metadata load and default seek
    capture nothing, and no thumbnail is shown until the user asks for one.
   */
  lemma NewVideoNotCaptured(s: State, url: Url, duration: real, videoWidth: nat, videoHeight: nat)
    requires s.captured && !s.manualCapture
    ensures
      var r := Run(s, [Upload(Some(url)), LoadedMetadata(duration, videoWidth, videoHeight), Seeked]);
      r.thumbnail.None? && r.video.Some? && r.video.value.src == url
  {
    RunThree(s, Upload(Some(url)), LoadedMetadata(duration, videoWidth, videoHeight), Seeked);
  }

  /** The concrete run: two uploads in a row, the second video ends up without a thumbnail. */
  lemma SecondUploadShowsNoThumbnail()
    ensures
      var first := Run(Initial(), [Upload(Some("blob:a")), LoadedMetadata(10.0, 1920, 1080), Seeked]);
      var second := Run(first, [Upload(Some("blob:b")), LoadedMetadata(8.0, 1280, 720), Seeked]);
      first.thumbnail.Some? && second.thumbnail.None?
  {
  }

  /**
    The upload handler as evidently intended: a new video starts with no
    capture made and no request pending, so its default seek captures it.
   */
  function OnUploadFresh(s: State, file: Option<Url>): (r: State)
    ensures file.None? ==> r == s
    ensures file.Some? ==>
      r.thumbnail.None? && r.video == OnUpload(s, file).video &&
      !r.captured && !r.manualCapture
    ensures r.timestamp == s.timestamp &&
            r.canvasWidth == s.canvasWidth && r.canvasHeight == s.canvasHeight
  {
    if file.None? then s else OnUpload(s, file).(captured := false, manualCapture := false)
  }

  /**
    With the intended upload handler every new video, whatever came before,
    gets the frame at its default seek time as its thumbnail.
   */
  lemma FreshUploadCapturesNewVideo(s: State, url: Url, duration: real, videoWidth: nat, videoHeight: nat)
    ensures
      var r := OnSeeked(OnLoadedMetadata(OnUploadFresh(s, Some(url)), duration, videoWidth, videoHeight));
      r.thumbnail == Some(FrameImage(Video(url, Num(duration), videoWidth, videoHeight,
                                           DefaultSeekTime(duration))))
  {
  }
}
