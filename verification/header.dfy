/**
 * The header scroll effect: the page header carries the class "scrolled"
 * exactly while the page is scrolled more than 40 pixels down. The rule is
 * applied once at load and again on every scroll event.
 */
module HeaderScroll {

  /** Vertical offset, in CSS pixels, beyond which the header is "scrolled". */
  const Threshold: real := 40.0

  class Header {
    /** The header's class list. */
    var classes: set<string>

    /** Registration at load, which runs the handler once for the offset the
        page has at that moment. */
    constructor (markup: set<string>, scrollY: real)
      ensures "scrolled" in classes <==> scrollY > Threshold
      ensures classes - {"scrolled"} == markup - {"scrolled"}
    {
      classes := markup;
      new;
      OnScroll(scrollY);
    }

    /** The scroll listener: toggle "scrolled" on the comparison, leaving every
        other class alone. */
    method OnScroll(scrollY: real)
      modifies this
      ensures "scrolled" in classes <==> scrollY > Threshold
      ensures classes - {"scrolled"} == old(classes) - {"scrolled"}
    {
      if scrollY > Threshold {
        classes := classes + {"scrolled"};
      } else {
        classes := classes - {"scrolled"};
      }
    }
  }
}
