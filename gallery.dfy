// share.php, browser side: the script's `let` variables and the handlers
// that update them in place, each proved to act as its counterpart in
// GalleryCursor and to keep the cursor invariant.

module GalleryView {
  import C = GalleryCursor

  class Gallery {
    /** `imageFiles`, the list the PHP prologue handed to the script. */
    const imageFiles: seq<string>
    var currentIndex: int
    var isLoading: bool
    var modalVisible: bool
    var touchStartX: int
    var touchStartY: int
    var touchStartTime: int

    function State(): C.Viewer
      reads this
    {
      C.Viewer(currentIndex, isLoading, modalVisible, touchStartX, touchStartY, touchStartTime)
    }

    predicate Valid()
      reads this
    {
      C.CursorInvariant(State(), imageFiles)
    }

    constructor (files: seq<string>)
      ensures imageFiles == files && State() == C.Initial && Valid()
    {
      imageFiles := files;
      currentIndex := -1;
      isLoading := false;
      modalVisible := false;
      touchStartX := 0;
      touchStartY := 0;
      touchStartTime := 0;
    }

    /** `showLoading`: only ever run by `openPreview`, just before it moves the cursor. */
    method ShowLoading()
      modifies this
      ensures State() == old(State()).(loading := true)
    {
      isLoading := true;
    }

    /** `hideLoading`, also the body of the image's `onload` and `onerror`. */
    method HideLoading()
      requires Valid()
      modifies this
      ensures State() == C.HideLoading(old(State())) && Valid()
    {
      isLoading := false;
    }

    method OpenPreview(index: int)
      requires Valid()
      modifies this
      ensures State() == C.OpenPreview(old(State()), imageFiles, index) && Valid()
    {
      if !(0 <= index < |imageFiles|) || imageFiles[index] == "" || isLoading {
        return;
      }
      ShowLoading();
      currentIndex := index;
      modalVisible := true;
    }

    method CloseModal()
      requires Valid()
      modifies this
      ensures State() == C.CloseModal(old(State())) && Valid()
    {
      modalVisible := false;
      currentIndex := -1;
      isLoading := false;
    }

    method ShowPrev()
      requires Valid()
      modifies this
      ensures State() == C.ShowPrev(old(State()), imageFiles) && Valid()
    {
      if currentIndex > 0 && !isLoading {
        OpenPreview(currentIndex - 1);
      }
    }

    method ShowNext()
      requires Valid()
      modifies this
      ensures State() == C.ShowNext(old(State()), imageFiles) && Valid()
    {
      if currentIndex < |imageFiles| - 1 && !isLoading {
        OpenPreview(currentIndex + 1);
      }
    }

    method OnKeyDown(key: C.Key)
      requires Valid()
      modifies this
      ensures State() == C.OnKeyDown(old(State()), imageFiles, key) && Valid()
    {
      if !modalVisible {
        return;
      }
      match key
      case Escape => CloseModal();
      case ArrowLeft => ShowPrev();
      case ArrowRight => ShowNext();
      case Space => ShowNext();
      case OtherKey =>
    }

    method OnTouchStart(x: int, y: int, now: int)
      requires Valid()
      modifies this
      ensures State() == C.OnTouchStart(old(State()), x, y, now) && Valid()
    {
      if isLoading {
        return;
      }
      touchStartX := x;
      touchStartY := y;
      touchStartTime := now;
    }

    method OnTouchEnd(x: int, y: int, now: int)
      requires Valid()
      modifies this
      ensures State() == C.OnTouchEnd(old(State()), imageFiles, x, y, now) && Valid()
    {
      if isLoading {
        return;
      }
      var dx := x - touchStartX;
      var dy := y - touchStartY;
      var dt := now - touchStartTime;
      if C.IsSwipe(dx, dy, dt) {
        if dx > 0 {
          ShowPrev();
        } else {
          ShowNext();
        }
      }
    }
  }
}
