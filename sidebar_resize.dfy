/**
 * The hook `useSidebarResize`: the sidebar width, clamped while dragging,
 * restored from storage when the stored value is in range, and written back
 * to storage on release and on reset.
 */
module SidebarResize {
  import opened Wrappers

  const DEFAULT_WIDTH: int := 256
  const MIN_WIDTH: int := 200
  const MAX_WIDTH: int := 400

  function Max(a: int, b: int): int { if a >= b then a else b }
  function Min(a: int, b: int): int { if a <= b then a else b }

  /** `Math.max(minWidth, Math.min(maxWidth, w))`. */
  function Clamp(minWidth: int, maxWidth: int, w: int): (r: int)
    ensures minWidth <= maxWidth ==> minWidth <= r <= maxWidth
    ensures minWidth <= w <= maxWidth ==> r == w
    ensures w < minWidth ==> r == minWidth
    ensures minWidth <= maxWidth < w ==> r == maxWidth
    ensures maxWidth < minWidth ==> r == minWidth
  {
    Max(minWidth, Min(maxWidth, w))
  }

  /** Clamping a clamped width changes nothing. */
  lemma ClampIdempotent(minWidth: int, maxWidth: int, w: int)
    ensures Clamp(minWidth, maxWidth, Clamp(minWidth, maxWidth, w)) == Clamp(minWidth, maxWidth, w)
  {
  }

  /** Dragging further right never gives a narrower sidebar. */
  lemma ClampMonotone(minWidth: int, maxWidth: int, w1: int, w2: int)
    requires w1 <= w2
    ensures Clamp(minWidth, maxWidth, w1) <= Clamp(minWidth, maxWidth, w2)
  {
  }

  /**
   * The width after reading storage: the stored number when there is one (the
   * stored text was present and parsed) and it lies in the range, inclusive;
   * otherwise the width the hook already has.
   */
  function Restored(stored: Option<int>, current: int, minWidth: int, maxWidth: int): (r: int)
    ensures r == current || (stored.Some? && r == stored.value)
    ensures stored.Some? && minWidth <= stored.value <= maxWidth ==> r == stored.value
    ensures stored.None? || stored.value < minWidth || maxWidth < stored.value ==> r == current
  {
    if stored.Some? && stored.value >= minWidth && stored.value <= maxWidth then stored.value else current
  }

  /** A width the drag can produce is adopted again when it is read back from storage. */
  lemma DraggedWidthRestored(minWidth: int, maxWidth: int, w: int, current: int)
    requires minWidth <= maxWidth
    ensures Restored(Some(Clamp(minWidth, maxWidth, w)), current, minWidth, maxWidth) == Clamp(minWidth, maxWidth, w)
  {
  }

  /** With the default options a stored width outside 200..400 leaves the default of 256. */
  lemma OutOfRangeKeepsDefault(stored: int)
    requires stored < MIN_WIDTH || MAX_WIDTH < stored
    ensures Restored(Some(stored), DEFAULT_WIDTH, MIN_WIDTH, MAX_WIDTH) == DEFAULT_WIDTH
  {
  }

  /** The hook's state; `saved` is the width in storage as `parseInt` reads it back. */
  class Resizer {
    const defaultWidth: int
    const minWidth: int
    const maxWidth: int
    var width: int
    var isResizing: bool
    var saved: Option<int>
    var startX: int
    var startWidth: int

    /** The width is in range, or it is the default width. */
    ghost predicate Valid()
      reads this
    {
      minWidth <= maxWidth && (minWidth <= width <= maxWidth || width == defaultWidth)
    }

    /** Mounting: the default width, replaced by the stored width when that is acceptable. */
    constructor (defaultWidth: int, minWidth: int, maxWidth: int, stored: Option<int>)
      requires minWidth <= maxWidth
      ensures this.defaultWidth == defaultWidth && this.minWidth == minWidth && this.maxWidth == maxWidth
      ensures width == Restored(stored, defaultWidth, minWidth, maxWidth)
      ensures !isResizing && saved == stored
      ensures Valid()
    {
      this.defaultWidth := defaultWidth;
      this.minWidth := minWidth;
      this.maxWidth := maxWidth;
      width := Restored(stored, defaultWidth, minWidth, maxWidth);
      isResizing := false;
      saved := stored;
      startX := 0;
      startWidth := 0;
    }

    /** A drag starts: the pointer position and the width at this moment are captured. */
    method MouseDown(clientX: int)
      requires Valid()
      modifies this
      ensures isResizing && startX == clientX && startWidth == old(width)
      ensures width == old(width) && saved == old(saved)
      ensures Valid()
    {
      isResizing := true;
      startX := clientX;
      startWidth := width;
    }

    /** While dragging, the width follows the pointer, clamped to the range. */
    method MouseMove(clientX: int)
      requires Valid() && isResizing
      modifies this
      ensures width == Clamp(minWidth, maxWidth, startWidth + (clientX - startX))
      ensures minWidth <= width <= maxWidth
      ensures isResizing && saved == old(saved) && startX == old(startX) && startWidth == old(startWidth)
      ensures Valid()
    {
      width := Clamp(minWidth, maxWidth, startWidth + (clientX - startX));
    }

    /**
     * The drag ends. The width written to storage is the one captured when the
     * drag began, not the width on screen.
     */
    method MouseUp()
      requires Valid() && isResizing
      modifies this
      ensures !isResizing && saved == Some(startWidth)
      ensures width == old(width) && startX == old(startX) && startWidth == old(startWidth)
      ensures Valid()
    {
      isResizing := false;
      saved := Some(startWidth);
    }

    /** The drag ends and the width on screen is written to storage. */
    method MouseUpSavingWidth()
      requires Valid() && isResizing
      modifies this
      ensures !isResizing && saved == Some(width)
      ensures width == old(width) && startX == old(startX) && startWidth == old(startWidth)
      ensures Valid()
    {
      isResizing := false;
      saved := Some(width);
    }

    /** Back to the default width, which is also written to storage. */
    method ResetWidth()
      requires Valid()
      modifies this
      ensures width == defaultWidth && saved == Some(defaultWidth)
      ensures isResizing == old(isResizing) && startX == old(startX) && startWidth == old(startWidth)
      ensures Valid()
    {
      width := defaultWidth;
      saved := Some(defaultWidth);
    }
  }

  /**
   * A fresh sidebar dragged by `delta` pixels and released: the width shown is
   * the clamped drag, but storage keeps 256, so the next mount is back at 256.
   */
  method DragAndRelease(delta: int) returns (shown: int, persisted: Option<int>, afterReload: int)
    ensures shown == Clamp(MIN_WIDTH, MAX_WIDTH, DEFAULT_WIDTH + delta)
    ensures persisted == Some(DEFAULT_WIDTH)
    ensures afterReload == DEFAULT_WIDTH
    ensures delta != 0 && -56 <= delta <= 144 ==> afterReload != shown
  {
    var r := new Resizer(DEFAULT_WIDTH, MIN_WIDTH, MAX_WIDTH, None);
    r.MouseDown(0);
    r.MouseMove(delta);
    r.MouseUp();
    shown := r.width;
    persisted := r.saved;
    afterReload := Restored(persisted, DEFAULT_WIDTH, MIN_WIDTH, MAX_WIDTH);
  }

  /**
   * A reset in the middle of a drag: the width goes back to the default, and
   * the next move is still measured from the width and position captured when
   * the drag began.
   */
  method ResetDuringDrag(delta: int) returns (afterReset: int, afterMove: int)
    ensures afterReset == DEFAULT_WIDTH
    ensures afterMove == Clamp(MIN_WIDTH, MAX_WIDTH, DEFAULT_WIDTH + delta)
  {
    var r := new Resizer(DEFAULT_WIDTH, MIN_WIDTH, MAX_WIDTH, None);
    r.MouseDown(0);
    r.ResetWidth();
    afterReset := r.width;
    r.MouseMove(delta);
    afterMove := r.width;
  }

  /** With the width on screen saved on release, the next mount shows the dragged width. */
  method DragAndReleaseSavingWidth(delta: int) returns (shown: int, persisted: Option<int>, afterReload: int)
    ensures shown == Clamp(MIN_WIDTH, MAX_WIDTH, DEFAULT_WIDTH + delta)
    ensures persisted == Some(shown)
    ensures afterReload == shown
  {
    var r := new Resizer(DEFAULT_WIDTH, MIN_WIDTH, MAX_WIDTH, None);
    r.MouseDown(0);
    r.MouseMove(delta);
    r.MouseUpSavingWidth();
    shown := r.width;
    persisted := r.saved;
    DraggedWidthRestored(MIN_WIDTH, MAX_WIDTH, DEFAULT_WIDTH + delta, DEFAULT_WIDTH);
    afterReload := Restored(persisted, DEFAULT_WIDTH, MIN_WIDTH, MAX_WIDTH);
  }
}
