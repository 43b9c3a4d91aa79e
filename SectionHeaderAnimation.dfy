/**
 * The intersection callback for section headers: for each entry, in order,
 * the target gets 'header-visible' and loses 'header-hidden' when it
 * intersects, and the reverse when it does not. A class list is a set of
 * class names; the observer's thresholds and the DOM are not modelled.
 */
module SectionHeaderAnimation {
  import opened Wrappers

  const Visible: string := "header-visible"
  const Hidden: string := "header-hidden"

  /** The class set of a target after one entry about it. */
  function AfterEntry(classes: set<string>, isIntersecting: bool): (r: set<string>)
    ensures isIntersecting ==> Visible in r && Hidden !in r
    ensures !isIntersecting ==> Hidden in r && Visible !in r
    ensures forall c :: c != Visible && c != Hidden ==> (c in r <==> c in classes)
  {
    if isIntersecting then (classes + {Visible}) - {Hidden}
    else (classes - {Visible}) + {Hidden}
  }

  /** Only the latest entry matters: a second entry overrides the first. */
  lemma LastEntryWins(classes: set<string>, first: bool, second: bool)
    ensures AfterEntry(AfterEntry(classes, first), second) == AfterEntry(classes, second)
  {
  }

  /** An element whose class list the callback edits in place. */
  class Element {
    var classList: set<string>

    constructor(classes: set<string>)
      ensures classList == classes
    {
      classList := classes;
    }

    method Add(c: string)
      modifies this
      ensures classList == old(classList) + {c}
    {
      classList := classList + {c};
    }

    method Remove(c: string)
      modifies this
      ensures classList == old(classList) - {c}
    {
      classList := classList - {c};
    }

    /** The body of the callback for one entry whose target is this element. */
    method ApplyEntry(isIntersecting: bool)
      modifies this
      ensures classList == AfterEntry(old(classList), isIntersecting)
    {
      if isIntersecting {
        Add(Visible);
        Remove(Hidden);
      } else {
        Remove(Visible);
        Add(Hidden);
      }
    }
  }

  datatype Entry = Entry(target: Element, isIntersecting: bool)

  function Targets(entries: seq<Entry>): set<Element> {
    set i | 0 <= i < |entries| :: entries[i].target
  }

  /** The class set of `t` after the entries are handled in order, from `classes`. */
  function ClassesAfter(classes: set<string>, entries: seq<Entry>, t: Element): set<string> {
    if entries == [] then classes
    else
      var before := ClassesAfter(classes, entries[..|entries| - 1], t);
      var last := entries[|entries| - 1];
      if last.target == t then AfterEntry(before, last.isIntersecting) else before
  }

  /** Whether the last entry about `t` intersects, or None when no entry is about `t`. */
  function LastFor(entries: seq<Entry>, t: Element): (r: Option<bool>)
    ensures r.None? <==> t !in Targets(entries)
    ensures r.Some? ==> exists k :: (0 <= k < |entries| && entries[k].target == t
                                     && entries[k].isIntersecting == r.value
                                     && forall j :: k < j < |entries| ==> entries[j].target != t)
  {
    if entries == [] then None
    else if entries[|entries| - 1].target == t then Some(entries[|entries| - 1].isIntersecting)
    else
      var prefix := entries[..|entries| - 1];
      assert forall i :: 0 <= i < |prefix| ==> prefix[i] == entries[i];
      assert Targets(entries) == Targets(prefix) + {entries[|entries| - 1].target};
      LastFor(prefix, t)
  }

  /**
   * Handling a batch of entries leaves each target as if only its last entry
   * had been handled, and an element no entry is about as it was.
   */
  lemma {:induction false} LastEntryDecides(classes: set<string>, entries: seq<Entry>, t: Element)
    ensures ClassesAfter(classes, entries, t) == match LastFor(entries, t)
      case None => classes
      case Some(v) => AfterEntry(classes, v)
  {
    if entries != [] {
      var prefix := entries[..|entries| - 1];
      var last := entries[|entries| - 1];
      LastEntryDecides(classes, prefix, t);
      if last.target == t {
        match LastFor(prefix, t)
        case None =>
        case Some(v) => LastEntryWins(classes, v, last.isIntersecting);
      }
    }
  }

  /** The observer callback: the forEach over the entries. */
  method HandleEntries(entries: seq<Entry>)
    modifies Targets(entries)
    ensures forall t :: t in Targets(entries) ==> t.classList == ClassesAfter(old(t.classList), entries, t)
  {
    var i := 0;
    while i < |entries|
      invariant 0 <= i <= |entries|
      invariant forall t :: t in Targets(entries) ==> t.classList == ClassesAfter(old(t.classList), entries[..i], t)
    {
      var entry := entries[i];
      assert entries[..i + 1][..i] == entries[..i];
      entry.target.ApplyEntry(entry.isIntersecting);
      i := i + 1;
    }
    assert entries[..|entries|] == entries;
  }
}
