# Portfolio page state logic, verified

A model of the few pieces of state logic in the single-page portfolio's
`src/App.jsx`: the age shown on the profile, the colour-mode context, the
on/off flag of the cursor and parallax animation, the list of bubbles drawn
over the portfolio section, and the class update that reveals section
headers as they scroll into view. Everything else in that file is markup,
DOM wiring, timing, randomness or floating-point animation.

- `Age.dfy` — `getAge` as a method over explicit (year, month, day) triples,
  with "today" as a parameter. It is proved against `IsAge`: the age-th
  birthday has been reached and the next one has not. Lemmas show that age
  is unique, never decreases as today advances, and is zero on the day of
  birth.
- `ColorMode.dfy` — the initial mode (`localStorage.getItem(...) || 'dark'`)
  and the toggle updater as functions. The provider is a class whose mode,
  storage slot and `data-theme` attribute stay in step.
- `ParallaxCursor.dfy` — the animation flag as a class. A ghost history of
  key presses and clicks is kept, and the flag always equals `Run(true, history)`.
  Lemmas characterise `Run`: without a click the flag flips once per toggle
  key; after the last click it is on exactly when an even number of toggle
  keys followed.
- `BubblyEffect.dfy` — the two `setBubbles` updaters as functions (`Appended`
  is append then `slice(-20)`; `Removed` is the `filter` by id). Lemmas cover
  order, counts, idempotence, the two removal orders commuting, and
  add-then-expire giving back the list. The hook's state is a class with the
  hover flag and the ids whose removal timer is pending. Its invariant: at
  most 20 bubbles, and every live bubble still has a removal pending.
- `SectionHeaderAnimation.dfy` — the intersection callback as a loop over
  the entries, editing each target element's class set in place. Several
  entries may share a target. The result is characterised as "the last
  entry about each target decides".
- `Wrappers.dfy` — `Option`, for JavaScript's `null`.

A stored colour mode is not validated: the code falls back to `dark` only
when the slot is missing or holds the empty string, and any other stored
string becomes the mode as it is (`UnvalidatedStoredMode`).

## Model

| member | source | states |
|---|---|---|
| `Age.GetAge` | src/App.jsx:37-46 | the result is the age on `today` (the age-th birthday reached, the next not); it is the year difference or one less, and one less exactly when today's month is earlier than the birth month, or the same month with an earlier day |
| `Age.AgeUnique` | src/App.jsx:40-45 | at most one age fits a birth date and a day, so the age is determined |
| `Age.AgeMonotone` | src/App.jsx:37-46 | advancing "today" never decreases the age |
| `Age.OnOrAfterBirthday` | src/App.jsx:40-43 | on the birthday and on any later day of that year the age is the plain year difference |
| `Age.AgeNonNegative` | src/App.jsx:40-45 | from the birth date on the age is at least zero, and zero on the birth date itself |
| `ColorMode.InitialMode` | src/App.jsx:22-24 | the initial mode is never empty; it is the stored string when that is present and non-empty, otherwise `dark` |
| `ColorMode.Toggled` | src/App.jsx:29 | the toggled mode is always `dark` or `light`, is `light` exactly when the mode was `dark`, and always differs from the mode before |
| `ColorMode.ToggleInvolution` | src/App.jsx:29 | toggling twice restores `dark` or `light` |
| `ColorMode.ToggledTimesParity` | src/App.jsx:29 | from a theme, an even number of toggles returns to it and an odd number gives the other one |
| `ColorMode.ToggledIsTheme` | src/App.jsx:29 | after one or more toggles the mode is `dark` or `light`, whatever it started as |
| `ColorMode.UnvalidatedStoredMode` | src/App.jsx:22-24 | a stored non-empty string that is not a theme is used as the mode; one toggle gives `dark`, two give `light`, so two toggles do not restore it |
| `ColorMode.ColorModeProvider.constructor` | src/App.jsx:21-28 | the mode starts as `InitialMode` of the stored value, and the storage slot and `data-theme` then hold it |
| `ColorMode.ColorModeProvider.Toggle` | src/App.jsx:25-29 | the mode becomes the toggled mode, and the storage slot and `data-theme` follow it |
| `ParallaxCursor.Step` | src/App.jsx:122-125 | a click leaves the flag on; a key press changes the flag exactly when the key is `t` or `T` |
| `ParallaxCursor.RunWithoutClick` | src/App.jsx:122-123 | with no click, the flag equals its start value when an even number of toggle keys was pressed, and its negation otherwise |
| `ParallaxCursor.RunAfterClick` | src/App.jsx:122-125 | after the last click, the flag is on exactly when an even number of toggle keys followed it; earlier events do not matter |
| `ParallaxCursor.ParallaxCursorState.constructor` | src/App.jsx:110 | the flag starts on, with no events handled |
| `ParallaxCursor.ParallaxCursorState.OnKeyDown` | src/App.jsx:122-123 | `t` or `T` negates the flag and any other key leaves it; the flag stays equal to `Run` over the events so far |
| `ParallaxCursor.ParallaxCursorState.OnClick` | src/App.jsx:125 | a click turns the flag on whatever it was, so a second click changes nothing |
| `BubblyEffect.Appended` | src/App.jsx:233-236 | the result is the last min(20, n+1) bubbles of the old list plus the new one; the new bubble is last; below 20 nothing is dropped; at 20 or more only the oldest are dropped |
| `BubblyEffect.Removed` | src/App.jsx:239 | a bubble is in the result exactly when it was in the list and its id differs; the length never grows |
| `BubblyEffect.RemovedConcat` | src/App.jsx:239 | removal splits over concatenation, so the kept bubbles stay in their original relative order |
| `BubblyEffect.RemovedAbsent` | src/App.jsx:239 | removing an id that no bubble carries changes nothing |
| `BubblyEffect.RemovedCounts` | src/App.jsx:239 | every bubble with another id is kept as many times as it occurred, and none with the id is kept |
| `BubblyEffect.RemovedIdempotent` | src/App.jsx:239 | removing the same id twice is the same as removing it once |
| `BubblyEffect.RemovedCommute` | src/App.jsx:238-240 | two removal timers give the same list whichever fires first |
| `BubblyEffect.AddThenExpire` | src/App.jsx:233-240 | below the cap, adding a bubble with a fresh id and then firing its removal gives back the original list |
| `BubblyEffect.AllExpired` | src/App.jsx:238-240 | once the removal for every live bubble's id has fired, the list is empty |
| `BubblyEffect.BubblyEffectState.constructor` | src/App.jsx:195-198 | no bubbles, not hovering, no removal pending |
| `BubblyEffect.BubblyEffectState.OnMouseEnter` | src/App.jsx:209-212 | hovering starts; the bubbles and pending removals are unchanged |
| `BubblyEffect.BubblyEffectState.OnMouseLeave` | src/App.jsx:214-219 | hovering stops; bubbles already live and their pending removals are kept |
| `BubblyEffect.BubblyEffectState.CreateBubble` | src/App.jsx:222-240 | while hovering the list becomes `Appended` and the bubble's removal is scheduled; otherwise nothing changes; at most 20 bubbles, each with a removal pending |
| `BubblyEffect.BubblyEffectState.RemovalFires` | src/App.jsx:238-240 | the timer's id leaves the pending list and its bubbles leave the list; the invariant is kept |
| `BubblyEffect.BubblyEffectState.NoPendingNoBubbles` | src/App.jsx:233-240 | when no removal is pending, no bubble is live |
| `SectionHeaderAnimation.AfterEntry` | src/App.jsx:175-181 | an intersecting entry leaves `header-visible` and not `header-hidden`; a non-intersecting one the reverse; every other class is unchanged |
| `SectionHeaderAnimation.LastEntryWins` | src/App.jsx:174-182 | a second entry for the same target overrides the first |
| `SectionHeaderAnimation.Element.constructor` | src/App.jsx:171 | an element starts with the given class set |
| `SectionHeaderAnimation.Element.Add` | src/App.jsx:176 | `classList.add`: the class set gains the class and nothing else changes |
| `SectionHeaderAnimation.Element.Remove` | src/App.jsx:177 | `classList.remove`: the class set loses the class and nothing else changes |
| `SectionHeaderAnimation.Element.ApplyEntry` | src/App.jsx:175-181 | the element's classes become `AfterEntry` of its old classes, through the same add and remove calls |
| `SectionHeaderAnimation.LastFor` | src/App.jsx:174-182 | no value exactly when no entry is about the element; otherwise the flag of an entry about it with none after it |
| `SectionHeaderAnimation.LastEntryDecides` | src/App.jsx:174-182 | after a batch each target's classes are as if only its last entry was handled; an element no entry is about keeps its classes |
| `SectionHeaderAnimation.HandleEntries` | src/App.jsx:173-183 | each target's classes become `ClassesAfter` its old classes and the entries in order; no element outside the targets is touched |

## Left out

- Reading the clock and parsing the birth-date string (`new Date()`, `new Date(birthDate)`, time zones): "today" and the birth date are given as integer triples, numbered as the Date getters number them.
- The browser storage and the `data-theme` attribute are fields of the provider class. The effect that writes them runs at mount and after each change of the mode; here it runs at once. A failed storage write is not modelled.
- The cursor and parallax easing loop (`animate`): floating-point arithmetic written to DOM styles once per animation frame. The effect is re-created whenever the flag changes, which resets the eased positions; that is not modelled either.
- Frame and timer scheduling (`requestAnimationFrame`, `cancelAnimationFrame`, `setTimeout` with 2000 ms) and listener attach and detach. A bubble-creation frame is a call to `CreateBubble`. An expiring timer is a call to `RemovalFires` for any pending one, in any order, so the 2000 ms delay is not modelled.
- Bubble ids, positions, sizes and opacities (`Date.now() + Math.random()`, the mouse position, random size and opacity): a bubble is an input record with real-valued fields. Mouse moves that only update the position are left out.
- The `IntersectionObserver` setup (threshold, root margin, `observe`, `disconnect`): entries arrive as a given sequence. A class list is a set; the order of class names in the DOM's token list is not modelled.
- Scroll-to-section navigation, the JSX rendering, the static skill and project tables and the video fallback: presentation and data, not logic.
