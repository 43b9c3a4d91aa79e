/**
 * The bubbles drawn while the mouse hovers over the portfolio section.
 * Each animation frame while hovering adds one bubble and keeps only the
 * newest twenty; each added bubble schedules its own removal by id. Bubble
 * ids, positions, sizes and opacities come from the clock, the mouse position and
 * a random source, so a bubble is an input here; timing is abstracted to
 * "some pending removal fires".
 */
module BubblyEffect {

  const MaxBubbles: nat := 20

  datatype Bubble = Bubble(id: real, x: real, y: real, size: real, opacity: real)

  function Min(a: int, b: int): int {
    if a <= b then a else b
  }

  /** The creation updater: append the new bubble, then keep the last twenty. */
  function Appended(prev: seq<Bubble>, b: Bubble): (r: seq<Bubble>)
    ensures |r| == Min(|prev| + 1, MaxBubbles) && |r| <= MaxBubbles
    ensures r == (prev + [b])[|prev| + 1 - |r|..]
    ensures r[|r| - 1] == b
    ensures |prev| < MaxBubbles ==> r == prev + [b]
    ensures |prev| >= MaxBubbles ==> r == prev[|prev| - MaxBubbles + 1..] + [b]
  {
    var all := prev + [b];
    if |all| <= MaxBubbles then all else all[|all| - MaxBubbles..]
  }

  /** The removal updater: keep the bubbles whose id differs, in order. */
  function Removed(prev: seq<Bubble>, id: real): (r: seq<Bubble>)
    ensures |r| <= |prev|
    ensures forall x :: x in r <==> x in prev && x.id != id
  {
    if prev == [] then []
    else (if prev[0].id != id then [prev[0]] else []) + Removed(prev[1..], id)
  }

  predicate HasId(s: seq<Bubble>, id: real) {
    exists i :: 0 <= i < |s| && s[i].id == id
  }

  /** Filtering splits over concatenation, so relative order is kept. */
  lemma {:induction false} RemovedConcat(a: seq<Bubble>, b: seq<Bubble>, id: real)
    ensures Removed(a + b, id) == Removed(a, id) + Removed(b, id)
  {
    if a != [] {
      assert (a + b)[0] == a[0];
      assert (a + b)[1..] == a[1..] + b;
      RemovedConcat(a[1..], b, id);
    } else {
      assert a + b == b;
    }
  }

  /** Removing an id that no bubble carries changes nothing. */
  lemma {:induction false} RemovedAbsent(s: seq<Bubble>, id: real)
    requires !HasId(s, id)
    ensures Removed(s, id) == s
  {
    if s != [] {
      assert !HasId(s[1..], id) by {
        forall i | 0 <= i < |s[1..]| ensures s[1..][i].id != id {
          assert s[1..][i] == s[i + 1];
        }
      }
      RemovedAbsent(s[1..], id);
      assert s[0].id != id by { assert s[0] == s[0]; }
      assert [s[0]] + s[1..] == s;
    }
  }

  /** Each bubble survives as often as it occurred, unless it has the removed id. */
  lemma {:induction false} RemovedCounts(s: seq<Bubble>, id: real, x: Bubble)
    ensures multiset(Removed(s, id))[x] == if x.id == id then 0 else multiset(s)[x]
  {
    if s != [] {
      RemovedCounts(s[1..], id, x);
      assert s == [s[0]] + s[1..];
      assert multiset(s) == multiset([s[0]]) + multiset(s[1..]);
    }
  }

  /** Removing the same id twice is removing it once. */
  lemma {:induction false} RemovedIdempotent(s: seq<Bubble>, id: real)
    ensures Removed(Removed(s, id), id) == Removed(s, id)
  {
    if s != [] {
      RemovedIdempotent(s[1..], id);
      var head := if s[0].id != id then [s[0]] else [];
      RemovedConcat(head, Removed(s[1..], id), id);
      if s[0].id != id {
        assert head[1..] == [];
      }
    }
  }

  /** Removals scheduled for two ids give the same list whichever fires first. */
  lemma {:induction false} RemovedCommute(s: seq<Bubble>, i: real, j: real)
    ensures Removed(Removed(s, i), j) == Removed(Removed(s, j), i)
  {
    if s != [] {
      RemovedCommute(s[1..], i, j);
      var hi := if s[0].id != i then [s[0]] else [];
      var hj := if s[0].id != j then [s[0]] else [];
      RemovedConcat(hi, Removed(s[1..], i), j);
      RemovedConcat(hj, Removed(s[1..], j), i);
      if s[0].id != i { assert hi[1..] == []; }
      if s[0].id != j { assert hj[1..] == []; }
    }
  }

  /**
   * Below the cap, adding a bubble with a fresh id and then firing its
   * removal gives back the list as it was.
   */
  lemma {:induction false} AddThenExpire(prev: seq<Bubble>, b: Bubble)
    requires |prev| < MaxBubbles
    requires !HasId(prev, b.id)
    ensures Removed(Appended(prev, b), b.id) == prev
  {
    RemovedConcat(prev, [b], b.id);
    RemovedAbsent(prev, b.id);
    assert Removed([b], b.id) == [] by { assert [b][1..] == []; }
  }

  /** Helper for AllExpired and NoPendingNoBubbles: a sequence with no members is empty. */
  lemma NoMemberMeansEmpty(s: seq<Bubble>)
    ensures (forall x :: x !in s) ==> s == []
  {
    if s != [] {
      assert s[0] in s;
    }
  }

  /** The list after the removals for `ids` fire one after another. */
  function RemovedAll(s: seq<Bubble>, ids: seq<real>): seq<Bubble>
    decreases |ids|
  {
    if ids == [] then s else RemovedAll(Removed(s, ids[0]), ids[1..])
  }

  /** Once the removal of every live bubble's id has fired, no bubble is left. */
  lemma {:induction false} AllExpired(s: seq<Bubble>, ids: seq<real>)
    requires forall x :: x in s ==> x.id in ids
    ensures RemovedAll(s, ids) == []
    decreases |ids|
  {
    if ids == [] {
      NoMemberMeansEmpty(s);
    } else {
      var rest := Removed(s, ids[0]);
      forall x | x in rest ensures x.id in ids[1..] {
        assert x.id in ids && x.id != ids[0];
      }
      AllExpired(rest, ids[1..]);
    }
  }

  class BubblyEffectState {
    /** The live bubbles, oldest first. */
    var bubbles: seq<Bubble>
    /** Whether the mouse is over the portfolio section. */
    var isHovering: bool
    /** The ids whose two-second removal timer has been set and not yet fired. */
    var pending: seq<real>

    /** At most twenty bubbles, and every live bubble still has a removal coming. */
    ghost predicate Valid()
      reads this
    {
      |bubbles| <= MaxBubbles && forall x :: x in bubbles ==> x.id in pending
    }

    constructor()
      ensures Valid()
      ensures bubbles == [] && !isHovering && pending == []
    {
      bubbles := [];
      isHovering := false;
      pending := [];
    }

    method OnMouseEnter()
      requires Valid()
      modifies this
      ensures Valid()
      ensures isHovering && bubbles == old(bubbles) && pending == old(pending)
    {
      isHovering := true;
    }

    method OnMouseLeave()
      requires Valid()
      modifies this
      ensures Valid()
      ensures !isHovering && bubbles == old(bubbles) && pending == old(pending)
    {
      isHovering := false;
    }

    /** One animation frame of bubble creation; it does nothing once hovering has stopped. */
    method CreateBubble(b: Bubble)
      requires Valid()
      modifies this
      ensures Valid() && isHovering == old(isHovering)
      ensures old(isHovering) ==> bubbles == Appended(old(bubbles), b) && pending == old(pending) + [b.id]
      ensures !old(isHovering) ==> bubbles == old(bubbles) && pending == old(pending)
    {
      if !isHovering {
        return;
      }
      bubbles := Appended(bubbles, b);
      pending := pending + [b.id];
    }

    /** The removal timer for `pending[k]` fires. */
    method RemovalFires(k: nat)
      requires Valid()
      requires k < |pending|
      modifies this
      ensures Valid() && isHovering == old(isHovering)
      ensures bubbles == Removed(old(bubbles), old(pending)[k])
      ensures pending == old(pending)[..k] + old(pending)[k + 1..]
    {
      var id := pending[k];
      bubbles := Removed(bubbles, id);
      pending := pending[..k] + pending[k + 1..];
      forall x | x in bubbles ensures x.id in pending {
        assert x in old(bubbles) && x.id != id;
        var j :| 0 <= j < |old(pending)| && old(pending)[j] == x.id;
        if j < k {
          assert pending[j] == x.id;
        } else {
          assert j > k;
          assert pending[j - 1] == x.id;
        }
      }
    }

    /** With no removal pending, no bubble is live. */
    lemma NoPendingNoBubbles()
      requires Valid()
      requires pending == []
      ensures bubbles == []
    {
      NoMemberMeansEmpty(bubbles);
    }
  }
}
