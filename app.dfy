/** The viewer's scroll state: the lines shown, the first visible line, the
    viewport's height and the quit flag. Every operation keeps the first
    visible line at most the line count less the viewport height. */
module Scroll {
  import opened Common

  /** `usize::MAX` on a 64-bit target. */
  const UsizeMax: nat := 0xFFFF_FFFF_FFFF_FFFF

  /** Rust's `usize::saturating_add`. */
  function SatAdd(a: nat, b: nat): (r: nat)
    ensures a <= UsizeMax ==> r == Min(a + b, UsizeMax)
  {
    if a + b <= UsizeMax then a + b else Max(a, UsizeMax)
  }

  /** The greatest first line that still fills the viewport, zero when all
      lines fit. */
  function MaxOffset(len: nat, height: nat): (r: nat)
    ensures r <= len
    ensures r + height >= len
    ensures height >= len ==> r == 0
  {
    SatSub(len, height)
  }

  /** The offset `scroll_down` leaves: moved down by `n`, then clamped. */
  function ScrolledDown(offset: nat, n: nat, len: nat, height: nat): (r: nat)
    requires offset <= UsizeMax && len <= UsizeMax
    ensures r <= MaxOffset(len, height)
    ensures r == Min(offset + n, MaxOffset(len, height))
  {
    var moved := SatAdd(offset, n);
    if moved > MaxOffset(len, height) then MaxOffset(len, height) else moved
  }

  /** The offset `scroll_up` leaves: moved up by `n`, stopping at the top. */
  function ScrolledUp(offset: nat, n: nat): (r: nat)
    ensures r <= offset
    ensures r == Max(offset - n, 0)
  {
    SatSub(offset, n)
  }

  /** Scrolling down and back up by the same amount returns to the same
      line when the clamp did not bite. */
  lemma DownThenUp(offset: nat, n: nat, len: nat, height: nat)
    requires offset <= UsizeMax && len <= UsizeMax
    requires offset + n <= MaxOffset(len, height)
    ensures ScrolledUp(ScrolledDown(offset, n, len, height), n) == offset
  {
  }

  /** Scrolling down in two steps goes as far as in one. */
  lemma ScrollDownAdds(offset: nat, m: nat, n: nat, len: nat, height: nat)
    requires offset <= MaxOffset(len, height) && len <= UsizeMax
    ensures ScrolledDown(ScrolledDown(offset, m, len, height), n, len, height)
            == ScrolledDown(offset, m + n, len, height)
  {
  }

  /** The amount a page moves: the viewport less two lines of context. */
  function PageStep(height: nat): nat {
    SatSub(height, 2)
  }

  class App {
    const lines: seq<string>
    var scrollOffset: nat
    var viewportHeight: nat
    var quit: bool

    /** The offset never passes the last full page; the sizes fit a `usize`. */
    ghost predicate Valid()
      reads this
    {
      && |lines| <= UsizeMax && viewportHeight <= UsizeMax
      && scrollOffset <= MaxOffset(|lines|, viewportHeight)
    }

    /** `App::new`: at the top, with a 24-line viewport, not quitting. */
    constructor New(ls: seq<string>)
      requires |ls| <= UsizeMax
      ensures Valid()
      ensures lines == ls && scrollOffset == 0 && viewportHeight == 24 && !quit
    {
      lines := ls;
      scrollOffset := 0;
      viewportHeight := 24;
      quit := false;
    }

    function Lines(): seq<string>
      reads this
    {
      lines
    }

    function ScrollOffset(): nat
      reads this
    {
      scrollOffset
    }

    function ShouldQuit(): bool
      reads this
    {
      quit
    }

    /** `clamp_scroll`: pull the offset back to the last full page. */
    method ClampScroll()
      requires |lines| <= UsizeMax && viewportHeight <= UsizeMax
      modifies this
      ensures Valid()
      ensures scrollOffset == Min(old(scrollOffset), MaxOffset(|lines|, viewportHeight))
      ensures viewportHeight == old(viewportHeight) && quit == old(quit)
    {
      var max := SatSub(|lines|, viewportHeight);
      if scrollOffset > max {
        scrollOffset := max;
      }
    }

    /** `set_viewport_height`, clamping the offset to the new height. */
    method SetViewportHeight(height: nat)
      requires Valid() && height <= UsizeMax
      modifies this
      ensures Valid()
      ensures viewportHeight == height && quit == old(quit)
      ensures scrollOffset == Min(old(scrollOffset), MaxOffset(|lines|, height))
    {
      viewportHeight := height;
      ClampScroll();
    }

    /** `scroll_down`: move down by `n`, then clamp. */
    method ScrollDown(n: nat)
      requires Valid()
      modifies this
      ensures Valid()
      ensures scrollOffset == ScrolledDown(old(scrollOffset), n, |lines|, viewportHeight)
      ensures viewportHeight == old(viewportHeight) && quit == old(quit)
    {
      scrollOffset := SatAdd(scrollOffset, n);
      ClampScroll();
    }

    /** `scroll_up`: move up by `n`, stopping at the top. */
    method ScrollUp(n: nat)
      requires Valid()
      modifies this
      ensures Valid()
      ensures scrollOffset == ScrolledUp(old(scrollOffset), n)
      ensures viewportHeight == old(viewportHeight) && quit == old(quit)
    {
      scrollOffset := SatSub(scrollOffset, n);
    }

    /** `page_down`: scroll down by a page. */
    method PageDown()
      requires Valid()
      modifies this
      ensures Valid()
      ensures scrollOffset == ScrolledDown(old(scrollOffset), PageStep(viewportHeight), |lines|, viewportHeight)
      ensures viewportHeight == old(viewportHeight) && quit == old(quit)
    {
      ScrollDown(SatSub(viewportHeight, 2));
    }

    /** `page_up`: scroll up by a page. */
    method PageUp()
      requires Valid()
      modifies this
      ensures Valid()
      ensures scrollOffset == ScrolledUp(old(scrollOffset), PageStep(viewportHeight))
      ensures viewportHeight == old(viewportHeight) && quit == old(quit)
    {
      ScrollUp(SatSub(viewportHeight, 2));
    }

    /** `scroll_to_top`. */
    method ScrollToTop()
      requires Valid()
      modifies this
      ensures Valid()
      ensures scrollOffset == 0
      ensures viewportHeight == old(viewportHeight) && quit == old(quit)
    {
      scrollOffset := 0;
    }

    /** `scroll_to_bottom`: the last full page when the lines overflow the
        viewport; otherwise the offset stays (it is then already zero). */
    method ScrollToBottom()
      requires Valid()
      modifies this
      ensures Valid()
      ensures |lines| > viewportHeight ==> scrollOffset == |lines| - viewportHeight
      ensures |lines| <= viewportHeight ==> scrollOffset == old(scrollOffset) == 0
      ensures scrollOffset == MaxOffset(|lines|, viewportHeight)
      ensures viewportHeight == old(viewportHeight) && quit == old(quit)
    {
      if |lines| > viewportHeight {
        scrollOffset := |lines| - viewportHeight;
      }
    }

    /** `quit`: raise the flag and nothing else. */
    method Quit()
      requires Valid()
      modifies this
      ensures Valid() && ShouldQuit()
      ensures scrollOffset == old(scrollOffset) && viewportHeight == old(viewportHeight)
    {
      quit := true;
    }

    /** `visible_lines`: the window of at most a viewport's height starting at
        the offset; the end never overflows a `usize`. */
    function VisibleLines(): (r: seq<string>)
      reads this
      requires Valid()
      ensures scrollOffset + viewportHeight <= UsizeMax
      ensures |r| == Min(viewportHeight, |lines| - scrollOffset)
      ensures forall i :: 0 <= i < |r| ==> r[i] == lines[scrollOffset + i]
    {
      var end := Min(scrollOffset + viewportHeight, |lines|);
      lines[scrollOffset..end]
    }

    /** A full viewport is shown whenever the lines can fill one. */
    lemma VisibleFillsViewport()
      requires Valid() && |lines| >= viewportHeight
      ensures |VisibleLines()| == viewportHeight
    {
    }
  }
}
