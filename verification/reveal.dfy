/** Scroll-triggered entrance animations: each registered element waits
    (observed, not animated) until an intersecting entry arrives for it; the
    callback then marks it animated and stops observing it. */
module Reveal {

  type ElementId = nat

  /** One IntersectionObserver entry, reduced to what the callback reads. */
  datatype Entry = Entry(target: ElementId, isIntersecting: bool)

  /** Whether the element has the `animated` class, and whether the observer
      still watches it. */
  datatype Status = Status(animated: bool, observed: bool)

  type Registry = map<ElementId, Status>

  /** The state set up on `DOMContentLoaded`: every target gets the
      `animate-on-scroll` class and is observed, none is animated yet. */
  function Register(targets: set<ElementId>): (r: Registry)
    ensures r.Keys == targets
    ensures forall id :: id in r ==> r[id] == Status(false, true)
    ensures Coherent(r)
  {
    map id | id in targets :: Status(false, true)
  }

  /** The callback's work for one entry: an intersecting target gets
      `animated` and is unobserved at once; anything else is left alone. */
  function OnEntry(r: Registry, e: Entry): Registry
  {
    if e.isIntersecting && e.target in r then r[e.target := Status(true, false)] else r
  }

  /** The observer callback over one batch of entries, in order. */
  function Callback(r: Registry, entries: seq<Entry>): Registry
    decreases |entries|
  {
    if |entries| == 0 then r else Callback(OnEntry(r, entries[0]), entries[1..])
  }

  /** The callback never adds or drops registered elements. */
  lemma {:induction false} CallbackKeys(r: Registry, entries: seq<Entry>)
    ensures Callback(r, entries).Keys == r.Keys
    decreases |entries|
  {
    if |entries| > 0 {
      CallbackKeys(OnEntry(r, entries[0]), entries[1..]);
    }
  }

  /** Some entry of the batch reports `id` as intersecting. */
  predicate Intersects(entries: seq<Entry>, id: ElementId)
  {
    exists k :: 0 <= k < |entries| && entries[k].target == id && entries[k].isIntersecting
  }

  /** After a batch, an element is animated exactly when it was before or some
      entry of the batch reported it intersecting, and it is still observed
      exactly when it was and no such entry came. */
  lemma {:induction false} CallbackEffect(r: Registry, entries: seq<Entry>, id: ElementId)
    requires id in r
    ensures id in Callback(r, entries)
    ensures Callback(r, entries)[id].animated <==> r[id].animated || Intersects(entries, id)
    ensures Callback(r, entries)[id].observed <==> r[id].observed && !Intersects(entries, id)
    decreases |entries|
  {
    if |entries| > 0 {
      var e := entries[0];
      CallbackKeys(r, entries);
      CallbackEffect(OnEntry(r, e), entries[1..], id);
      if Intersects(entries, id) && !(e.target == id && e.isIntersecting) {
        var k :| 0 <= k < |entries| && entries[k].target == id && entries[k].isIntersecting;
        assert entries[1..][k - 1] == entries[k];
      }
      if Intersects(entries[1..], id) {
        var k :| 0 <= k < |entries[1..]| && entries[1..][k].target == id && entries[1..][k].isIntersecting;
        assert entries[k + 1] == entries[1..][k];
      }
    }
  }

  /** Every registered element is either waiting (observed, not animated) or
      done (animated, no longer observed). */
  predicate Coherent(r: Registry)
  {
    forall id :: id in r ==> (r[id].animated <==> !r[id].observed)
  }

  /** The entries the browser hands to the callback: those of targets it still
      observes when the batch is computed. */
  function Deliverable(r: Registry, entries: seq<Entry>): (d: seq<Entry>)
    ensures forall k :: 0 <= k < |d| ==> d[k] in entries && d[k].target in r && r[d[k].target].observed
    ensures forall k :: 0 <= k < |entries| ==> entries[k].target in r && r[entries[k].target].observed
                                               ==> entries[k] in d
    decreases |entries|
  {
    if |entries| == 0 then []
    else
      var rest := Deliverable(r, entries[1..]);
      var e := entries[0];
      assert forall k :: 1 <= k < |entries| ==> entries[k] == entries[1..][k - 1];
      if e.target in r && r[e.target].observed then [e] + rest else rest
  }

  /** One batch: the browser delivers, the callback runs. */
  function Notify(r: Registry, entries: seq<Entry>): Registry
  {
    Callback(r, Deliverable(r, entries))
  }

  /** A batch keeps every element coherent. */
  lemma NotifyKeepsCoherent(r: Registry, entries: seq<Entry>)
    requires Coherent(r)
    ensures Coherent(Notify(r, entries))
    ensures Notify(r, entries).Keys == r.Keys
  {
    var d := Deliverable(r, entries);
    CallbackKeys(r, d);
    forall id | id in r
      ensures Callback(r, d)[id].animated <==> !Callback(r, d)[id].observed
    {
      CallbackEffect(r, d, id);
    }
  }

  /** Once animated, an element stays animated through any batch. */
  lemma NotifyKeepsAnimated(r: Registry, entries: seq<Entry>, id: ElementId)
    requires id in r && r[id].animated
    ensures id in Notify(r, entries) && Notify(r, entries)[id].animated
  {
    CallbackEffect(r, Deliverable(r, entries), id);
  }

  /** A waiting element becomes animated in a batch exactly when the batch
      reports it intersecting. */
  lemma NotifyAnimatesOnIntersection(r: Registry, entries: seq<Entry>, id: ElementId)
    requires id in r && !r[id].animated && r[id].observed
    ensures id in Notify(r, entries)
    ensures Notify(r, entries)[id].animated <==> Intersects(entries, id)
  {
    var d := Deliverable(r, entries);
    CallbackEffect(r, d, id);
    if Intersects(entries, id) {
      var k :| 0 <= k < |entries| && entries[k].target == id && entries[k].isIntersecting;
      var j :| 0 <= j < |d| && d[j] == entries[k];
    }
    if Intersects(d, id) {
      var j :| 0 <= j < |d| && d[j].target == id && d[j].isIntersecting;
      var k :| 0 <= k < |entries| && entries[k] == d[j];
    }
  }

  /** The registries seen along a series of batches, starting with `r`. */
  function History(r: Registry, batches: seq<seq<Entry>>): (h: seq<Registry>)
    ensures |h| == |batches| + 1 && h[0] == r
    decreases |batches|
  {
    if |batches| == 0 then [r] else [r] + History(Notify(r, batches[0]), batches[1..])
  }

  /** Number of steps of a history at which `id` goes from not animated to animated. */
  function Transitions(h: seq<Registry>, id: ElementId): nat
    decreases |h|
  {
    if |h| < 2 then 0
    else
      (if id in h[0] && id in h[1] && !h[0][id].animated && h[1][id].animated then 1 else 0)
      + Transitions(h[1..], id)
  }

  lemma {:induction false} StaysAnimated(r: Registry, batches: seq<seq<Entry>>, id: ElementId)
    requires id in r && r[id].animated
    ensures Transitions(History(r, batches), id) == 0
    decreases |batches|
  {
    if |batches| > 0 {
      var next := Notify(r, batches[0]);
      NotifyKeepsAnimated(r, batches[0], id);
      StaysAnimated(next, batches[1..], id);
      assert History(r, batches)[1..] == History(next, batches[1..]);
    }
  }

  /** However often it intersects, a registered element is animated at most
      once: its `animated` class is added in one step and never removed. */
  lemma {:induction false} AnimatedAtMostOnce(r: Registry, batches: seq<seq<Entry>>, id: ElementId)
    requires id in r
    ensures Transitions(History(r, batches), id) <= 1
    decreases |batches|
  {
    if |batches| > 0 {
      var next := Notify(r, batches[0]);
      CallbackEffect(r, Deliverable(r, batches[0]), id);
      assert History(r, batches)[1..] == History(next, batches[1..]);
      if next[id].animated {
        StaysAnimated(next, batches[1..], id);
      } else {
        AnimatedAtMostOnce(next, batches[1..], id);
      }
    }
  }
}
