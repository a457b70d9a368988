# Video thumbnail capture — Dafny model

This project models the `VideoThumbnailGenerator` React component of the
thumbnail-capture application. The component takes an uploaded video and
seeks it to a default time (5 s, or the whole second at or before the
midpoint of a shorter video). It then captures the frame on the "seeked"
event, drawing a centred part of the frame in the 1200:630 proportion onto a
1200×630 canvas and keeping the result as a JPEG data URL (quality 0.9). The
user can also capture at a chosen timestamp, clamped to the duration, or
capture whatever frame is showing.

Layout:

- `capture_geometry.dfy` (module `CaptureGeometry`) holds the aspect-fit rectangle of `captureFrame`. It is computed over `real` and proved to have the target proportion, to lie inside the frame, to be centred, to cover the frame in at least one dimension, and to be the largest such rectangle.
- `seek_policy.dfy` (module `SeekPolicy`) holds the default seek time and the clamp of a user timestamp.
- `js_numbers.dfy` (module `JsNumbers`) models JavaScript numbers as a real or NaN, with `Math.min`.
- `thumbnail_state.dfy` (module `ThumbnailState`) holds the component state as a value and each event handler as a transition. It also holds lemmas over arbitrary event sequences: the state invariant, the capture gating, and the bound on captures.
- `thumbnail_generator.dfy` (module `Generator`) is the component as a class. Its fields are the React state, the video element and the canvas. Each handler is a method that updates them in place, proved equal to the matching transition and to keep the invariant.
- `wrappers.dfy` holds `Option`.

Where the code's behaviour may be unexpected, the model follows the code:

- `Fit` does not fail on a 0×0 frame (metadata not loaded). It returns a zero-size rectangle, as the code does.
- The custom-capture timestamp is clamped only from above (`Math.min(timestamp, duration)`). Negative values pass through.
- The default seek time for a short video is `Math.floor(duration / 2)`: 1 s for a 3 s video, not 1.5 s.
- There is no de-duplication of stale "seeked" events, no timeout and no error kind. The code has none of these.

## Model

| member | source | states |
|---|---|---|
| CaptureGeometry.Fit | app/components/VideoThumbnailGenerator.tsx:72-81 | the source rectangle has exactly the 1200:630 proportion, lies inside the frame, is centred both ways, spans the full width or the full height, and is zero-sized exactly when a frame dimension is 0 |
| CaptureGeometry.FitIsLargest | app/components/VideoThumbnailGenerator.tsx:72-78 | every rectangle of the target proportion inside the frame is no wider and no taller than the fitted one (crop-to-fill) |
| CaptureGeometry.FitExactProportion | app/components/VideoThumbnailGenerator.tsx:72-81 | a 2400×1260 frame is used whole |
| CaptureGeometry.FitTallFrame | app/components/VideoThumbnailGenerator.tsx:72-81 | a 1200×1000 frame gives a 1200×630 rectangle at y = 185 |
| CaptureGeometry.FitWideScreen | app/components/VideoThumbnailGenerator.tsx:72-81 | a 1920×1080 frame gives a 1920×1008 rectangle at y = 36 |
| JsNumbers.Min | app/components/VideoThumbnailGenerator.tsx:104 | `Math.min` is NaN iff an operand is NaN, and is otherwise one of the operands and no larger than either |
| SeekPolicy.DefaultSeekTime | app/components/VideoThumbnailGenerator.tsx:33-37 | the target is 5 for a duration of at least 5; otherwise it is the whole second at or before the midpoint; it is a whole number and lies in [0, duration] for a non-negative duration |
| SeekPolicy.DefaultSeekTimeShortVideo | app/components/VideoThumbnailGenerator.tsx:36 | a 3 s video seeks to second 1 |
| SeekPolicy.SafeTimestamp | app/components/VideoThumbnailGenerator.tsx:101-104 | no seek iff the timestamp is NaN; otherwise the target is NaN with an unknown duration, and with a known one it is at most the duration and the timestamp, equals one of them, and equals the timestamp when that is within the duration |
| SeekPolicy.NegativeTimestampNotClamped | app/components/VideoThumbnailGenerator.tsx:104 | a negative timestamp is passed on unchanged |
| ThumbnailState.FrameImage | app/components/VideoThumbnailGenerator.tsx:65-96 | the captured image is of the current video at its current time and frame size; its region is exactly `Fit` of the frame (so proportioned, inside, centred and covering); it is a 1200×630 JPEG at quality 0.9 |
| ThumbnailState.Capture | app/components/VideoThumbnailGenerator.tsx:57-97 | without a video nothing changes; otherwise the canvas becomes 1200×630 and the thumbnail is the current frame's image; the flags and the video are untouched |
| ThumbnailState.OnUpload | app/components/VideoThumbnailGenerator.tsx:18-25 | with no file nothing changes; with one, the video shows the new URL with unknown duration, a 0×0 frame and position 0, and the thumbnail is cleared, while `captured`, `manualCapture`, the timestamp and the canvas are kept |
| ThumbnailState.OnLoadedMetadata | app/components/VideoThumbnailGenerator.tsx:32-38 | the video records the duration and size and is positioned at the default seek time, which lies within [0, duration]; thumbnail, flags and canvas unchanged |
| ThumbnailState.OnSeeked | app/components/VideoThumbnailGenerator.tsx:40-46 | captures the current frame onto a 1200×630 canvas iff there is a video and `manualCapture \|\| !captured`, then `captured` is true and `manualCapture` false; otherwise nothing changes |
| ThumbnailState.OnTimestampInput | app/components/VideoThumbnailGenerator.tsx:142 | only the timestamp changes, to the value typed |
| ThumbnailState.OnCustomCapture | app/components/VideoThumbnailGenerator.tsx:99-107 | no change without a video or with a NaN timestamp; otherwise a manual capture is requested and, when the duration is known, only the video's position changes, to exactly `Math.min(timestamp, duration)`: the timestamp when within the duration, the duration otherwise; with unknown duration the position stays; the thumbnail, `captured`, the timestamp and the canvas are unchanged |
| ThumbnailState.OnPlaybackMoved | app/components/VideoThumbnailGenerator.tsx:118-126 | playback or the video's own controls move only the position of the video, when there is one; nothing else changes |
| ThumbnailState.AnalogCaptureTakesPlayingFrame | app/components/VideoThumbnailGenerator.tsx:109-112 | analog capture takes the frame at the position playback or scrubbing reached |
| ThumbnailState.ScrubServesPendingRequest | app/components/VideoThumbnailGenerator.tsx:40-46 | with a manual capture pending, a scrub's "seeked" captures the scrubbed frame and serves the request |
| ThumbnailState.OnAnalogCapture | app/components/VideoThumbnailGenerator.tsx:110-112 | without a video nothing changes; otherwise the canvas becomes 1200×630 and the thumbnail is the showing frame's image; the video, the timestamp, `captured` and `manualCapture` are untouched |
| ThumbnailState.InitialInvariant | app/components/VideoThumbnailGenerator.tsx:12-16 | the initial state has no thumbnail, nothing captured, no pending request, and satisfies the invariant |
| ThumbnailState.StepPreservesInvariant | app/components/VideoThumbnailGenerator.tsx:18-112 | every handler keeps the invariant: a shown thumbnail is a 1200×630 JPEG of a target-proportioned region of a frame of the video currently loaded, and the canvas is 300×150 or 1200×630 |
| ThumbnailState.RunPreservesInvariant | app/components/VideoThumbnailGenerator.tsx:18-112 | the invariant holds after any sequence of events |
| ThumbnailState.SeekedIdempotent | app/components/VideoThumbnailGenerator.tsx:40-46 | a second "seeked" right after one changes nothing |
| ThumbnailState.NoRecaptureWithoutRequest | app/components/VideoThumbnailGenerator.tsx:40-46 | once a capture was made with no request pending, no "seeked" event captures again until a custom capture is requested |
| ThumbnailState.SeekCapturesBounded | app/components/VideoThumbnailGenerator.tsx:40-46 | the number of seek-triggered captures in any event sequence is at most the custom-capture requests plus one pending capture |
| ThumbnailState.FirstVideoCapturedAtDefault | app/components/VideoThumbnailGenerator.tsx:18-46 | on a fresh component, upload, metadata and the default seek give the thumbnail of the frame at the default time |
| ThumbnailState.CustomCaptureThenSeekedCaptures | app/components/VideoThumbnailGenerator.tsx:99-107 | a custom capture followed by its seek captures the frame at `min(timestamp, duration)` and clears the request |
| ThumbnailState.NewVideoNotCaptured | app/components/VideoThumbnailGenerator.tsx:18-25 | once something was captured, a newly uploaded video goes through metadata load and the default seek and still has no thumbnail |
| ThumbnailState.SecondUploadShowsNoThumbnail | app/components/VideoThumbnailGenerator.tsx:18-46 | concrete run: the first video gets a thumbnail, the second does not |
| ThumbnailState.OnUploadFresh | app/components/VideoThumbnailGenerator.tsx:24 | the intended upload: the same new video and cleared thumbnail as the upload as written, with timestamp and canvas kept, and both capture flags cleared |
| ThumbnailState.FreshUploadCapturesNewVideo | app/components/VideoThumbnailGenerator.tsx:18-46 | with the intended upload, any new video gets the frame at its default seek time as its thumbnail |
| Generator.VideoThumbnailGenerator.constructor | app/components/VideoThumbnailGenerator.tsx:10-16 | the component starts in the initial state |
| Generator.VideoThumbnailGenerator.HandleVideoUpload | app/components/VideoThumbnailGenerator.tsx:18-25 | updates the fields exactly as `OnUpload` and keeps the invariant |
| Generator.VideoThumbnailGenerator.HandleLoadedMetadata | app/components/VideoThumbnailGenerator.tsx:32-38 | updates the fields exactly as `OnLoadedMetadata` and keeps the invariant |
| Generator.VideoThumbnailGenerator.CaptureFrame | app/components/VideoThumbnailGenerator.tsx:57-97 | updates the fields exactly as `Capture` and keeps the invariant |
| Generator.VideoThumbnailGenerator.HandleSeeked | app/components/VideoThumbnailGenerator.tsx:40-46 | updates the fields exactly as `OnSeeked` and keeps the invariant |
| Generator.VideoThumbnailGenerator.SetTimestamp | app/components/VideoThumbnailGenerator.tsx:142 | updates the fields exactly as `OnTimestampInput` and keeps the invariant |
| Generator.VideoThumbnailGenerator.HandleCustomCapture | app/components/VideoThumbnailGenerator.tsx:99-107 | updates the fields exactly as `OnCustomCapture` and keeps the invariant |
| Generator.VideoThumbnailGenerator.MovePlayback | app/components/VideoThumbnailGenerator.tsx:118-126 | updates the fields exactly as `OnPlaybackMoved` and keeps the invariant |
| Generator.VideoThumbnailGenerator.HandleAnalogCapture | app/components/VideoThumbnailGenerator.tsx:110-112 | updates the fields exactly as `OnAnalogCapture` and keeps the invariant |

## Left out

- `app/page.tsx`: a file input and rendering, with no logic. It is not part of this model.
- `app/utils/cropper.ts`: awaits an image load, then calls `drawImage` and `toDataURL`. It is a wrapper over the canvas API and is not part of this model.
- JSX rendering, and registering and removing the listeners in `useEffect` (lines 48–55). The model assumes each handler sees the current state, and that events arrive one at a time in the order given. How a browser event interleaves with a React re-render is not modelled.
- Pixel copying by `drawImage` and JPEG encoding by `toDataURL`. A thumbnail is described by what was encoded: the video, frame time, frame size, source region, raster size, format and quality.
- `canvas.getContext("2d")` returning null: the canvas element always has a 2D context in the model.
- Creating the object URL and converting the input's text with `Number(...)`. Both are inputs of the handlers.
- Browser media behaviour. The metadata values are parameters of `HandleLoadedMetadata`. Playback and scrubbing with the video's controls are the event `PlaybackMoved`, with the new position as a parameter; how fast playback advances is not modelled. A captured image is tagged with the element's `currentTime`; while a seek is still in progress the browser may draw the previous frame, which the model does not distinguish, so `AnalogCaptureTakesPlayingFrame` assumes the frame shown is the one at `currentTime`. When and whether "seeked" fires is up to the caller of `HandleSeeked`. The browser's own clamping of a `currentTime` outside the media range is not modelled, so a negative target stays negative in the model.
- Floating point: all arithmetic is over `real`, so IEEE rounding of the divisions and of `Math.min`, the infinities (for example an unbounded stream's duration) and negative zero are not modelled.

## Findings

| source | as written | input that shows it | evidently intended | confidence | as-written member | corrected member |
|---|---|---|---|---|---|---|
| app/components/VideoThumbnailGenerator.tsx:24 | uploading a video clears `thumbnail` but leaves `captured` true, so the new video's default seek fails the `manualCapture \|\| !captured` gate | upload a 10 s 1920×1080 video, then metadata and seeked, which gives a thumbnail; upload a second video, then metadata and seeked, which leaves no thumbnail | a new video gets its own automatic thumbnail, as the first one does | medium, not executed | ThumbnailState.NewVideoNotCaptured | ThumbnailState.FreshUploadCapturesNewVideo |

The class `Generator.VideoThumbnailGenerator` follows the code as written. `ThumbnailState.OnUploadFresh` is the corrected upload transition, and `ThumbnailState.FreshUploadCapturesNewVideo` proves that any new video then gets its default-time thumbnail.
