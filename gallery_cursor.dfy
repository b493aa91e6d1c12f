// share.php, browser side: the preview modal's cursor. The script keeps the
// index of the image shown (-1 when the modal is closed), whether an image is
// still loading, and where the last touch started; buttons, keys, swipes and
// the image's load callbacks move it. Each handler is a function from the old
// state to the new one; the DOM, timers and preloading are left out.

module GalleryCursor {

  /** The script's mutable state: `currentIndex`, `isLoading`, whether the
      modal is shown, and `touchStartX`, `touchStartY`, `touchStartTime`. */
  datatype Viewer = Viewer(index: int, loading: bool, visible: bool,
                           startX: int, startY: int, startTime: int)

  /** The state when the page has loaded. */
  const Initial: Viewer := Viewer(-1, false, false, 0, 0, 0)

  const SwipeThreshold: int := 50
  const Restraint: int := 100
  const TimeThreshold: int := 500

  datatype Key = Escape | ArrowLeft | ArrowRight | Space | OtherKey

  /** What can happen to the viewer. `LoadSettled` is the preview image's
      `onload` or `onerror`; both end the loading state. Touch positions are
      page coordinates, times milliseconds. */
  datatype Event =
    | Open(i: int)
    | LoadSettled
    | Close
    | Prev
    | Next
    | KeyDown(key: Key)
    | TouchStart(x: int, y: int, t: int)
    | TouchEnd(x: int, y: int, t: int)

  /** `openPreview(index)`: ignored when there is no (non-empty) name at
      `index` or an image is still loading; otherwise shows that image and
      starts loading it. */
  function OpenPreview(v: Viewer, files: seq<string>, i: int): Viewer
  {
    if !(0 <= i < |files|) || files[i] == "" || v.loading then v
    else v.(index := i, loading := true, visible := true)
  }

  /** `hideLoading`, run by the image's load and error callbacks. */
  function HideLoading(v: Viewer): Viewer
  {
    v.(loading := false)
  }

  /** `closeModal`: hides the modal, forgets the index and the loading state. */
  function CloseModal(v: Viewer): Viewer
  {
    v.(index := -1, loading := false, visible := false)
  }

  /** `showPrev`. */
  function ShowPrev(v: Viewer, files: seq<string>): Viewer
  {
    if v.index > 0 && !v.loading then OpenPreview(v, files, v.index - 1) else v
  }

  /** `showNext`. */
  function ShowNext(v: Viewer, files: seq<string>): Viewer
  {
    if v.index < |files| - 1 && !v.loading then OpenPreview(v, files, v.index + 1) else v
  }

  function Abs(x: int): nat
  {
    if x < 0 then -x else x
  }

  /** The gesture test of the `touchend` handler: far enough sideways, not too
      far up or down, and quick enough. */
  predicate IsSwipe(dx: int, dy: int, dt: int)
  {
    Abs(dx) >= SwipeThreshold && Abs(dy) <= Restraint && dt <= TimeThreshold
  }

  /** The `keydown` handler: nothing while the modal is hidden; Escape closes,
      the left arrow goes back, the right arrow and space go forward. */
  function OnKeyDown(v: Viewer, files: seq<string>, key: Key): Viewer
  {
    if !v.visible then v
    else
      match key
      case Escape => CloseModal(v)
      case ArrowLeft => ShowPrev(v, files)
      case ArrowRight => ShowNext(v, files)
      case Space => ShowNext(v, files)
      case OtherKey => v
  }

  /** The `touchstart` handler records where and when the touch began, unless loading. */
  function OnTouchStart(v: Viewer, x: int, y: int, t: int): Viewer
  {
    if v.loading then v else v.(startX := x, startY := y, startTime := t)
  }

  /** The `touchend` handler: a swipe to the right shows the previous image,
      any other swipe the next one. */
  function OnTouchEnd(v: Viewer, files: seq<string>, x: int, y: int, t: int): Viewer
  {
    if v.loading then v
    else
      var dx := x - v.startX;
      var dy := y - v.startY;
      var dt := t - v.startTime;
      if IsSwipe(dx, dy, dt) then
        if dx > 0 then ShowPrev(v, files) else ShowNext(v, files)
      else v
  }

  function Step(v: Viewer, files: seq<string>, e: Event): Viewer
  {
    match e
    case Open(i) => OpenPreview(v, files, i)
    case LoadSettled => HideLoading(v)
    case Close => CloseModal(v)
    case Prev => ShowPrev(v, files)
    case Next => ShowNext(v, files)
    case KeyDown(key) => OnKeyDown(v, files, key)
    case TouchStart(x, y, t) => OnTouchStart(v, x, y, t)
    case TouchEnd(x, y, t) => OnTouchEnd(v, files, x, y, t)
  }

  /** A sequence of events, in order. */
  function Replay(v: Viewer, files: seq<string>, events: seq<Event>): Viewer
    decreases |events|
  {
    if events == [] then v
    else Step(Replay(v, files, events[..|events| - 1]), files, events[|events| - 1])
  }

  /** The cursor is -1 or a valid index of a named image; the modal is shown
      exactly when the cursor is on an image; only a shown image loads. */
  predicate CursorInvariant(v: Viewer, files: seq<string>)
  {
    -1 <= v.index < |files| &&
    (v.visible <==> v.index >= 0) &&
    (v.loading ==> v.visible) &&
    (v.index >= 0 ==> files[v.index] != "")
  }

  lemma InitialSatisfiesInvariant(files: seq<string>)
    ensures CursorInvariant(Initial, files)
  {
  }

  /** Every handler keeps the invariant. */
  lemma StepPreservesInvariant(v: Viewer, files: seq<string>, e: Event)
    requires CursorInvariant(v, files)
    ensures CursorInvariant(Step(v, files, e), files)
  {
  }

  /** Whatever the user does, the cursor stays within [-1, len-1]. */
  lemma {:induction false} ReplayPreservesInvariant(v: Viewer, files: seq<string>, events: seq<Event>)
    requires CursorInvariant(v, files)
    ensures CursorInvariant(Replay(v, files, events), files)
    ensures -1 <= Replay(v, files, events).index < |files|
    decreases |events|
  {
    if events != [] {
      var k := |events| - 1;
      ReplayPreservesInvariant(v, files, events[..k]);
      StepPreservesInvariant(Replay(v, files, events[..k]), files, events[k]);
    }
  }

  /** Replaying two runs of events is replaying their concatenation. */
  lemma {:induction false} ReplayAppend(v: Viewer, files: seq<string>, a: seq<Event>, b: seq<Event>)
    ensures Replay(v, files, a + b) == Replay(Replay(v, files, a), files, b)
    decreases |b|
  {
    if b == [] {
      assert a + b == a;
    } else {
      var k := |b| - 1;
      assert (a + b)[..|a + b| - 1] == a + b[..k];
      ReplayAppend(v, files, a, b[..k]);
    }
  }

  /** `openPreview` does nothing for a missing or empty name or while loading;
      otherwise the cursor lands exactly on `i`. */
  lemma OpenPreviewRule(v: Viewer, files: seq<string>, i: int)
    ensures var v' := OpenPreview(v, files, i);
      (v' == v <==> !(0 <= i < |files|) || files[i] == "" || v.loading) &&
      (v' != v ==> v'.index == i && v'.loading && v'.visible)
  {
  }

  /** While an image loads, only its load callback and closing change the
      viewer: navigation, opening and touches are all ignored. */
  lemma NothingMovesWhileLoading(v: Viewer, files: seq<string>, e: Event)
    requires v.loading
    requires !e.LoadSettled? && !e.Close? && e != KeyDown(Escape)
    ensures Step(v, files, e) == v
  {
  }

  /** Next moves the cursor one step forward or not at all, and moves it
      exactly when there is a named next image and nothing is loading. */
  lemma NextMovesByOne(v: Viewer, files: seq<string>)
    requires CursorInvariant(v, files)
    ensures var v' := ShowNext(v, files);
      (v'.index == v.index || v'.index == v.index + 1) &&
      (v'.index == v.index + 1 <==> v.index + 1 < |files| && files[v.index + 1] != "" && !v.loading)
  {
  }

  /** Prev moves the cursor one step back or not at all, never below the first image. */
  lemma PrevMovesByOne(v: Viewer, files: seq<string>)
    requires CursorInvariant(v, files)
    ensures var v' := ShowPrev(v, files);
      (v'.index == v.index || v'.index == v.index - 1) &&
      (v'.index == v.index - 1 <==> v.index > 0 && files[v.index - 1] != "" && !v.loading)
  {
  }

  /** After stepping forward and letting the image load, stepping back
      returns to the image the user came from. */
  lemma PrevUndoesNext(v: Viewer, files: seq<string>)
    requires CursorInvariant(v, files) && v.index >= 0
    requires ShowNext(v, files).index == v.index + 1
    ensures ShowPrev(HideLoading(ShowNext(v, files)), files).index == v.index
  {
    NextMovesByOne(v, files);
  }

  /** Closing always lands on the closed state, whatever was going on. */
  lemma CloseResets(v: Viewer, files: seq<string>)
    ensures var v' := Step(v, files, Close);
      v'.index == -1 && !v'.loading && !v'.visible && CursorInvariant(v', files)
  {
  }

  /** Keys are ignored while the modal is closed. */
  lemma KeysIgnoredWhenClosed(v: Viewer, files: seq<string>, key: Key)
    requires !v.visible
    ensures Step(v, files, KeyDown(key)) == v
  {
  }

  /** A swipe to the right is Prev, any other swipe is Next. */
  lemma SwipeDirection(v: Viewer, files: seq<string>, x: int, y: int, t: int)
    requires !v.loading && IsSwipe(x - v.startX, y - v.startY, t - v.startTime)
    ensures x > v.startX ==> Step(v, files, TouchEnd(x, y, t)) == Step(v, files, Prev)
    ensures x < v.startX ==> Step(v, files, TouchEnd(x, y, t)) == Step(v, files, Next)
  {
  }

  /** A touch that moves less than 50 sideways, more than 100 up or down, or
      lasts longer than half a second does not navigate. */
  lemma NonSwipeIgnored(v: Viewer, files: seq<string>, x: int, y: int, t: int)
    requires Abs(x - v.startX) < SwipeThreshold || Abs(y - v.startY) > Restraint ||
             t - v.startTime > TimeThreshold
    ensures Step(v, files, TouchEnd(x, y, t)) == v
  {
  }

  /** The start of a touch is recorded only when nothing loads, so a swipe
      that began during loading is measured from the touch before it. */
  lemma TouchStartIgnoredWhileLoading(v: Viewer, x: int, y: int, t: int)
    ensures var v' := OnTouchStart(v, x, y, t);
      (v.loading ==> v' == v) &&
      (!v.loading ==> v'.startX == x && v'.startY == y && v'.startTime == t &&
                      v'.index == v.index && v'.loading == v.loading)
  {
  }
}
