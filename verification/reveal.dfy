/**
 The scroll-reveal latch (js/main.js): on load and on every scroll, each
 `.reveal` element that has come within the trigger zone gets the `active`
 class. The class is only ever added, so an element once revealed stays
 revealed. Whether an element is in the zone (its top above the window
 height minus 150 pixels) is browser geometry and enters as an input.
 */
module Reveal {

  /** One pass of `revealOnScroll`: `active` is set on every element in the
      zone and kept on every element that already had it. */
  function Pass(active: seq<bool>, inZone: seq<bool>): (r: seq<bool>)
    requires |inZone| == |active|
    ensures |r| == |active|
    ensures forall i :: 0 <= i < |r| ==> (r[i] <==> active[i] || inZone[i])
  {
    if |active| == 0 then []
    else [active[0] || inZone[0]] + Pass(active[1..], inZone[1..])
  }

  /** Element `i` was in the zone at one of the passes. */
  predicate EverInZone(zones: seq<seq<bool>>, i: nat) {
    exists k :: 0 <= k < |zones| && i < |zones[k]| && zones[k][i]
  }

  predicate Rectangular(zones: seq<seq<bool>>, n: nat) {
    forall k :: 0 <= k < |zones| ==> |zones[k]| == n
  }

  /** The classes after one pass per entry of `zones`, in order. */
  function Passes(active: seq<bool>, zones: seq<seq<bool>>): (r: seq<bool>)
    requires Rectangular(zones, |active|)
    ensures |r| == |active|
    decreases |zones|
  {
    if |zones| == 0 then active else Passes(Pass(active, zones[0]), zones[1..])
  }

  /** After any number of scroll passes an element is revealed exactly when
      it was revealed at the start or was in the zone at some pass: revealing
      is never undone. */
  lemma {:induction false} PassesLatch(active: seq<bool>, zones: seq<seq<bool>>)
    requires Rectangular(zones, |active|)
    ensures forall i :: 0 <= i < |active| ==>
      (Passes(active, zones)[i] <==> active[i] || EverInZone(zones, i))
    decreases |zones|
  {
    if |zones| > 0 {
      var next := Pass(active, zones[0]);
      PassesLatch(next, zones[1..]);
      forall i | 0 <= i < |active|
        ensures Passes(active, zones)[i] <==> active[i] || EverInZone(zones, i)
      {
        if EverInZone(zones[1..], i) {
          var k :| 0 <= k < |zones[1..]| && i < |zones[1..][k]| && zones[1..][k][i];
          assert zones[k + 1][i];
        }
        if EverInZone(zones, i) && !zones[0][i] {
          var k :| 0 <= k < |zones| && i < |zones[k]| && zones[k][i];
          assert zones[1..][k - 1][i];
        }
      }
    }
  }

  /** Once revealed, an element stays revealed through any later passes. */
  lemma RevealedStaysRevealed(active: seq<bool>, zones: seq<seq<bool>>, i: nat)
    requires Rectangular(zones, |active|) && i < |active| && active[i]
    ensures Passes(active, zones)[i]
  {
    PassesLatch(active, zones);
  }
}
