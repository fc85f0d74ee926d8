/**
 * The one-shot IntersectionObservers of the scroll reveal and of the stat
 * counters. For every entry of a batch that intersects, the observer acts on
 * the element (the reveal observer gives it the class "visible", the counter
 * observer starts its count-up animation) and stops observing it. Two
 * instances of the class below stand for the two observers.
 */
module OneShot {

  /** The identity of a page element. */
  type Element = nat

  /** An observer entry: its target and whether the target intersects. */
  datatype Entry = Entry(target: Element, isIntersecting: bool)

  /** The targets of the intersecting entries of a batch, in order. */
  function Triggered(entries: seq<Entry>): (r: seq<Element>)
    ensures forall x :: x in r <==> Entry(x, true) in entries
    ensures |r| <= |entries|
  {
    if entries == [] then []
    else (if entries[0].isIntersecting then [entries[0].target] else []) + Triggered(entries[1..])
  }

  predicate Distinct(s: seq<Element>) {
    forall i, j :: 0 <= i < j < |s| ==> s[i] != s[j]
  }

  /**
   * No element is acted on twice, given what the browser guarantees: the
   * entries of a batch are for distinct targets that are still observed,
   * and an element no longer observed was acted on already.
   */
  lemma {:induction false} FiresAtMostOnce(fired: seq<Element>, observed: set<Element>, entries: seq<Entry>)
    requires Distinct(fired)
    requires forall x :: x in fired ==> x !in observed
    requires forall k :: 0 <= k < |entries| ==> entries[k].target in observed
    requires forall i, j :: 0 <= i < j < |entries| ==> entries[i].target != entries[j].target
    ensures Distinct(fired + Triggered(entries))
    decreases |entries|
  {
    if entries != [] {
      var e := entries[0];
      var head := if e.isIntersecting then [e.target] else [];
      assert Triggered(entries) == head + Triggered(entries[1..]);
      assert forall x :: x in Triggered(entries[1..]) ==> x != e.target;
      var observed' := observed - {e.target};
      FiresAtMostOnce(fired + head, observed', entries[1..]);
      assert fired + head + Triggered(entries[1..]) == fired + Triggered(entries);
    } else {
      assert fired + Triggered(entries) == fired;
    }
  }

  class OneShotObserver {
    /** The elements the observer still watches. */
    var observed: set<Element>
    /** The elements acted on, in the order the callbacks reached them. */
    var fired: seq<Element>

    /** An element acted on is no longer watched. */
    ghost predicate Valid()
      reads this
    {
      forall x :: x in fired ==> x !in observed
    }

    /** The elements carrying the class the reveal observer adds. */
    ghost function Visible(): set<Element>
      reads this
    {
      set x | x in fired
    }

    /** Set-up at load: every matching element is observed, none acted on. */
    constructor (elements: set<Element>)
      ensures Valid() && observed == elements && fired == []
    {
      observed := elements;
      fired := [];
    }

    /** The callback for one batch of entries. */
    method OnEntries(entries: seq<Entry>)
      requires Valid()
      modifies this
      ensures Valid()
      ensures fired == old(fired) + Triggered(entries)
      ensures observed == old(observed) - set x | x in Triggered(entries)
      ensures old(Visible()) <= Visible()
    {
      for i := 0 to |entries|
        invariant Valid()
        invariant fired == old(fired) + Triggered(entries[..i])
        invariant observed == old(observed) - set x | x in Triggered(entries[..i])
      {
        TriggeredSnoc(entries, i);
        if entries[i].isIntersecting {
          fired := fired + [entries[i].target];
          observed := observed - {entries[i].target};
        }
      }
      assert entries[..|entries|] == entries;
    }
  }

  lemma {:induction false} TriggeredSnoc(entries: seq<Entry>, i: nat)
    requires i < |entries|
    ensures Triggered(entries[..i + 1])
         == Triggered(entries[..i]) + (if entries[i].isIntersecting then [entries[i].target] else [])
    decreases i
  {
    if i > 0 {
      var prefix := entries[..i + 1];
      assert prefix[1..] == entries[1..][..i];
      assert entries[..i][1..] == entries[1..][..i - 1];
      TriggeredSnoc(entries[1..], i - 1);
    }
  }
}
