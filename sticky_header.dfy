/**
 * The sticky header (js/main.js, section 2): the header carries
 * header--scrolled exactly while the page is scrolled more than 50 pixels
 * down.
 */
module StickyHeader {

  /** Pixels of vertical scroll past which the header is marked. */
  const ScrollThreshold: real := 50.0

  /** window.scrollY > 50 */
  predicate IsScrolled(scrollY: real) {
    scrollY > ScrollThreshold
  }

  /** Marking is monotone in the scroll offset, and the threshold itself is
      not yet scrolled. */
  lemma IsScrolledMonotone(a: real, b: real)
    requires a <= b
    ensures IsScrolled(a) ==> IsScrolled(b)
    ensures !IsScrolled(ScrollThreshold)
  {
  }

  class Header {
    /** header--scrolled on the header element. */
    var scrolled: bool

    constructor (scrolled: bool)
      ensures this.scrolled == scrolled
    {
      this.scrolled := scrolled;
    }

    /** handleStickyHeader: the class follows the current offset alone; the
        state before the scroll event plays no part. */
    method HandleStickyHeader(scrollY: real)
      modifies this
      ensures scrolled <==> scrollY > ScrollThreshold
    {
      if scrollY > 50.0 {
        scrolled := true;
      } else {
        scrolled := false;
      }
    }
  }
}
