/**
 * The on/off flag of the cursor and parallax animation. It starts on; the
 * key 't' or 'T' flips it, any other key leaves it, and a click switches it
 * on whatever it was. The per-frame easing the flag gates is not modelled.
 */
module ParallaxCursor {

  predicate IsToggleKey(key: string) {
    key == "t" || key == "T"
  }

  /** The inputs that reach the flag's handlers. */
  datatype InputEvent = KeyDown(key: string) | Click

  /** The flag after one event. */
  function Step(v: bool, e: InputEvent): (r: bool)
    ensures e.Click? ==> r
    ensures e.KeyDown? ==> (r != v <==> IsToggleKey(e.key))
  {
    match e
    case KeyDown(key) => if IsToggleKey(key) then !v else v
    case Click => true
  }

  /** The flag after a sequence of events, oldest first. */
  function Run(v: bool, events: seq<InputEvent>): bool {
    if events == [] then v else Step(Run(v, events[..|events| - 1]), events[|events| - 1])
  }

  /** How many of the events are presses of the toggle key. */
  function ToggleKeys(events: seq<InputEvent>): nat {
    if events == [] then 0
    else ToggleKeys(events[..|events| - 1])
         + (if events[|events| - 1].KeyDown? && IsToggleKey(events[|events| - 1].key) then 1 else 0)
  }

  predicate NoClick(events: seq<InputEvent>) {
    forall i :: 0 <= i < |events| ==> events[i].KeyDown?
  }

  /** Without a click the flag has been flipped once per toggle-key press. */
  lemma {:induction false} RunWithoutClick(v: bool, events: seq<InputEvent>)
    requires NoClick(events)
    ensures Run(v, events) == (v == (ToggleKeys(events) % 2 == 0))
  {
    if events != [] {
      var prefix := events[..|events| - 1];
      assert NoClick(prefix) by {
        forall i | 0 <= i < |prefix| ensures prefix[i].KeyDown? {
          assert prefix[i] == events[i];
        }
      }
      RunWithoutClick(v, prefix);
    }
  }

  /**
   * After the last click the flag is on exactly when an even number of
   * toggle-key presses has followed it; what came before the click is lost.
   */
  lemma {:induction false} RunAfterClick(v: bool, before: seq<InputEvent>, after: seq<InputEvent>)
    requires NoClick(after)
    ensures Run(v, before + [Click] + after) == (ToggleKeys(after) % 2 == 0)
  {
    var events := before + [Click] + after;
    if after == [] {
      assert events[..|events| - 1] == before;
    } else {
      var prefix := after[..|after| - 1];
      assert NoClick(prefix) by {
        forall i | 0 <= i < |prefix| ensures prefix[i].KeyDown? {
          assert prefix[i] == after[i];
        }
      }
      assert events[..|events| - 1] == before + [Click] + prefix;
      assert events[|events| - 1] == after[|after| - 1];
      RunAfterClick(v, before, prefix);
    }
  }

  class ParallaxCursorState {
    /** Whether the cursor proxy and the name's parallax are shown. */
    var isAnimating: bool
    /** Every key press and click handled so far. */
    ghost var history: seq<InputEvent>

    ghost predicate Valid()
      reads this
    {
      isAnimating == Run(true, history)
    }

    constructor()
      ensures Valid() && history == []
      ensures isAnimating
    {
      isAnimating := true;
      history := [];
    }

    method OnKeyDown(key: string)
      requires Valid()
      modifies this
      ensures Valid() && history == old(history) + [KeyDown(key)]
      ensures isAnimating == if IsToggleKey(key) then !old(isAnimating) else old(isAnimating)
    {
      if key == "t" || key == "T" {
        isAnimating := !isAnimating;
      }
      history := history + [KeyDown(key)];
      assert history[..|history| - 1] == old(history);
    }

    method OnClick()
      requires Valid()
      modifies this
      ensures Valid() && history == old(history) + [Click]
      ensures isAnimating
    {
      isAnimating := true;
      history := history + [Click];
      assert history[..|history| - 1] == old(history);
    }
  }
}
