/**
 * Active-link highlighting in the desktop navigation. The sections of the
 * page are watched by an IntersectionObserver; for every entry of a batch
 * that reports its section as intersecting, each navigation link gets the
 * class "active" exactly when its href is "#" followed by that section's id.
 */
module ActiveNav {
  import opened Wrappers
  import opened JsStrings

  /** An observer entry: the id of the section it reports on and whether the
      section intersects the observed band of the viewport. */
  datatype Entry = Entry(id: JsString, isIntersecting: bool)

  /** The fragment link that points at section `id`. */
  function Anchor(id: JsString): JsString {
    Lit("#") + id
  }

  /** The "active" flags of links with the given href attributes (None for a
      link without one) once section `id` has been reported. */
  function Highlight(hrefs: seq<Option<JsString>>, id: JsString): (active: seq<bool>)
    ensures |active| == |hrefs|
  {
    seq(|hrefs|, k requires 0 <= k < |hrefs| => hrefs[k] == Some(Anchor(id)))
  }

  /** The id of the last intersecting entry of a batch: the one whose
      highlighting the batch leaves in place. */
  function LastIntersecting(entries: seq<Entry>): (r: Option<JsString>)
    ensures r.None? <==> forall k :: 0 <= k < |entries| ==> !entries[k].isIntersecting
    ensures r.Some? ==>
              exists k :: (0 <= k < |entries| && entries[k] == Entry(r.value, true)
                           && forall m :: k < m < |entries| ==> !entries[m].isIntersecting)
  {
    if entries == [] then None
    else if entries[|entries| - 1].isIntersecting then Some(entries[|entries| - 1].id)
    else LastIntersecting(entries[..|entries| - 1])
  }

  /** A link is active only if it points at the section, and some link is
      active exactly when one points at the section. */
  lemma HighlightAnchor(hrefs: seq<Option<JsString>>, id: JsString)
    ensures forall k :: 0 <= k < |hrefs| && Highlight(hrefs, id)[k] ==> hrefs[k] == Some(Anchor(id))
    ensures (exists k :: 0 <= k < |hrefs| && Highlight(hrefs, id)[k]) <==> Some(Anchor(id)) in hrefs
  {
    if Some(Anchor(id)) in hrefs {
      var k :| 0 <= k < |hrefs| && hrefs[k] == Some(Anchor(id));
      assert Highlight(hrefs, id)[k];
    }
  }

  /** With distinct hrefs, at most one link is active: the one that points at
      the section, if any. */
  lemma HighlightSingle(hrefs: seq<Option<JsString>>, id: JsString)
    requires forall i, j :: 0 <= i < j < |hrefs| && hrefs[i].Some? ==> hrefs[i] != hrefs[j]
    ensures forall i, j ::
              (0 <= i < |hrefs| && 0 <= j < |hrefs| && Highlight(hrefs, id)[i] && Highlight(hrefs, id)[j])
              ==> i == j
    ensures forall k :: 0 <= k < |hrefs| && Highlight(hrefs, id)[k] ==> hrefs[k] == Some(Anchor(id))
    ensures (exists k :: 0 <= k < |hrefs| && Highlight(hrefs, id)[k]) <==> Some(Anchor(id)) in hrefs
  {
    HighlightAnchor(hrefs, id);
  }

  /** The links of the desktop navigation and their "active" classes. */
  class NavLinks {
    const hrefs: seq<Option<JsString>>
    var active: seq<bool>

    ghost predicate Valid()
      reads this
    {
      |active| == |hrefs|
    }

    constructor (hrefs: seq<Option<JsString>>, active: seq<bool>)
      requires |active| == |hrefs|
      ensures Valid() && this.hrefs == hrefs && this.active == active
    {
      this.hrefs := hrefs;
      this.active := active;
    }

    /** The observer callback for one batch of entries. Entries that do not
        intersect change nothing; each intersecting one re-highlights every
        link, so the last of them decides. */
    method OnEntries(entries: seq<Entry>)
      requires Valid()
      modifies this
      ensures Valid()
      ensures active == match LastIntersecting(entries)
                        case None => old(active)
                        case Some(id) => Highlight(hrefs, id)
    {
      for i := 0 to |entries|
        invariant Valid()
        invariant active == match LastIntersecting(entries[..i])
                            case None => old(active)
                            case Some(id) => Highlight(hrefs, id)
      {
        if entries[i].isIntersecting {
          var id := entries[i].id;
          for k := 0 to |hrefs|
            invariant |active| == |hrefs|
            invariant forall j :: 0 <= j < k ==> active[j] == (hrefs[j] == Some(Anchor(id)))
          {
            active := active[k := hrefs[k] == Some(Anchor(id))];
          }
          assert active == Highlight(hrefs, id);
        }
        assert entries[..i + 1][..i] == entries[..i];
      }
      assert entries[..|entries|] == entries;
    }
  }
}
