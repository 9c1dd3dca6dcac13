/** The nested loops FOR_IN and END_FOR_IN expand to without clang
    (Source/GSFastEnumeration.h).  The loop body is any function of the element, the mutation
    counter and a state of its own: it gives their next values, and says whether it breaks. */
module FastEnumeration {

  datatype Event<T> = Read(item: T) | Hook

  /** The mutation counter of the collection, and everything else a body may look at. */
  datatype World<M, S> = World(counter: M, state: S)

  datatype Progress<T, M, S> = Progress(events: seq<Event<T>>, now: World<M, S>, broken: bool)

  type Body<!T, !M, !S> = (T, World<M, S>) -> (World<M, S>, bool)

  /** One element: the mutation hook first if the counter is not what it was at the start. */
  function Step<T, M(==)>(item: T, start: M, now: M): seq<Event<T>> {
    (if now != start then [Hook] else []) + [Read(item)]
  }

  /** Plain iteration, which is also the inner loop on one batch. */
  function Iterate<T, M(==), S>(items: seq<T>, start: M, now: World<M, S>, body: Body<T, M, S>): Progress<T, M, S> {
    if items == [] then Progress([], now, false)
    else
      var (m, broken) := body(items[0], now);
      var events := Step(items[0], start, now.counter);
      if broken then Progress(events, m, true)
      else var rest := Iterate(items[1..], start, m, body); rest.(events := events + rest.events)
  }

  /** What the two loops do: a break leaves the inner one only. */
  function IterateBatches<T, M(==), S>(batches: seq<seq<T>>, start: M, now: World<M, S>, body: Body<T, M,
                               S>): Progress<T, M, S> {
    if batches == [] || batches[0] == [] then Progress([], now, false)
    else
      var batch := Iterate(batches[0], start, now, body);
      var rest := IterateBatches(batches[1..], start, batch.now, body);
      Progress(batch.events + rest.events, rest.now, batch.broken || rest.broken)
  }

  /** The batches handed out before the first empty one, which ends the enumeration. */
  function Delivered<T>(batches: seq<seq<T>>): seq<seq<T>> {
    if batches == [] || batches[0] == [] then [] else [batches[0]] + Delivered(batches[1..])
  }

  function Flat<T>(batches: seq<seq<T>>): seq<T> {
    if batches == [] then [] else batches[0] + Flat(batches[1..])
  }

  /** Whatever would come after an empty batch is never asked for. */
  lemma {:induction false} EmptyBatchEnds<T, M, S>(a: seq<seq<T>>, b: seq<seq<T>>, start: M, now: World<M, S>,
                                                   body: Body<T, M, S>)
    ensures IterateBatches(a + [[]] + b, start, now, body) == IterateBatches(a, start, now, body)
    decreases |a|
  {
    hide Iterate;
    var all := a + [[]] + b;
    if a == [] {
      assert all[0] == [];
    } else {
      assert all[0] == a[0] && all[1..] == a[1..] + [[]] + b;
      EmptyBatchEnds(a[1..], b, start, Iterate(a[0], start, now, body).now, body);
    }
  }

  /** The collection: `countByEnumeratingWithState:objects:count:` hands out the next batch,
      and nothing once they are used up. */
  class Collection<T> {
    const batches: seq<seq<T>>
    var next: nat

    constructor (batches: seq<seq<T>>)
      ensures this.batches == batches && next == 0
    {
      this.batches := batches;
      next := 0;
    }

    method CountByEnumerating() returns (items: seq<T>)
      modifies this
      ensures items == if old(next) < |batches| then batches[old(next)] else []
      ensures next == old(next) + 1
    {
      items := if next < |batches| then batches[next] else [];
      next := next + 1;
    }
  }

  method ForIn<T, M(==), S>(c: Collection<T>, world: World<M, S>, body: Body<T, M, S>)
    returns (events: seq<Event<T>>, now: World<M, S>)
    requires c.next == 0
    modifies c
    ensures events == IterateBatches(c.batches, world.counter, world, body).events
    ensures now == IterateBatches(c.batches, world.counter, world, body).now
  {
    hide Iterate;
    hide IterateBatches;
    events, now := [], world;
    ghost var all := IterateBatches(c.batches, world.counter, world, body);
    var items := c.CountByEnumerating();
    assert c.batches[0..] == c.batches;
    if |items| == 0 {
      NoBatch(c.batches, 0, world.counter, world, body);
    }
    if |items| > 0 {
      var start := now.counter;
      while true
        invariant 0 < c.next <= |c.batches| && items == c.batches[c.next - 1] && |items| > 0
        invariant events + IterateBatches(c.batches[c.next - 1..], start, now, body).events == all.events
        invariant IterateBatches(c.batches[c.next - 1..], start, now, body).now == all.now
        decreases |c.batches| - c.next
      {
        BatchesFrom(c.batches, c.next - 1, start, now, body);
        ghost var before, batch := events, Iterate(items, start, now, body);
        ghost var rest := IterateBatches(c.batches[c.next..], start, batch.now, body).events;
        events, now := InnerLoop(items, start, now, body, events);
        assert before + (batch.events + rest) == events + rest;
        items := c.CountByEnumerating();
        if |items| == 0 {
          NoBatch(c.batches, c.next - 1, start, now, body);
          break;
        }
      }
    }
  }

  lemma BatchesFrom<T, M, S>(batches: seq<seq<T>>, i: nat, start: M, now: World<M, S>, body: Body<T, M, S>)
    requires i < |batches| && batches[i] != []
    ensures var batch := Iterate(batches[i], start, now, body);
            var rest, all := IterateBatches(batches[i + 1..], start, batch.now, body),
              IterateBatches(batches[i..], start, now, body);
            all.events == batch.events + rest.events && all.now == rest.now
  {
    assert batches[i..][1..] == batches[i + 1..];
  }

  lemma NoBatch<T, M, S>(batches: seq<seq<T>>, i: nat, start: M, now: World<M, S>, body: Body<T, M, S>)
    requires i <= |batches| && (i < |batches| ==> batches[i] == [])
    ensures IterateBatches(batches[i..], start, now, body) == Progress([], now, false)
  {}

  /** The inner loop: its first read is in bounds because the batch is not empty. */
  method InnerLoop<T, M(==), S>(items: seq<T>, start: M, world: World<M, S>, body: Body<T, M, S>, before: seq<Event<T>>)
    returns (events: seq<Event<T>>, now: World<M, S>)
    requires |items| > 0
    ensures events == before + Iterate(items, start, world, body).events
    ensures now == Iterate(items, start, world, body).now
  {
    events, now := before, world;
    ghost var all := Iterate(items, start, world, body);
    var counter := 0;
    assert items[0..] == items;
    while true
      invariant 0 <= counter < |items|
      invariant events + Iterate(items[counter..], start, now, body).events == before + all.events
      invariant Iterate(items[counter..], start, now, body).now == all.now
      decreases |items| - counter
    {
      assert items[counter..][1..] == items[counter + 1..];
      if start != now.counter {
        events := events + [Hook];
      }
      var item := items[counter];
      counter := counter + 1;
      events := events + [Read(item)];
      var (m, broken) := body(item, now);
      now := m;
      if broken || counter >= |items| {
        break;
      }
    }
  }

  // ---- the loops against plain iteration

  lemma {:induction false} IterateAppend<T, M, S>(a: seq<T>, b: seq<T>, start: M, now: World<M, S>, body: Body<T, M, S>)
    ensures var first := Iterate(a, start, now, body); var all := Iterate(a + b, start, now, body);
            if first.broken then all == first
            else var rest := Iterate(b, start, first.now, body); all == rest.(events := first.events + rest.events)
    decreases |a|
  {
    if a == [] {
      assert a + b == b;
    } else {
      assert (a + b)[1..] == a[1..] + b;
      var (m, broken) := body(a[0], now);
      IterateAppend(a[1..], b, start, m, body);
    }
  }

  /** Without a break the batches do not show: the loops do what plain iteration does. */
  lemma {:induction false} BatchesDoNotShow<T, M, S>(batches: seq<seq<T>>, start: M, now: World<M, S>,
                                                     body: Body<T, M, S>)
    requires !Iterate(Flat(Delivered(batches)), start, now, body).broken
    ensures IterateBatches(batches, start, now, body) == Iterate(Flat(Delivered(batches)), start, now, body)
    decreases |batches|
  {
    if batches != [] && batches[0] != [] {
      var rest := Flat(Delivered(batches[1..]));
      assert Delivered(batches)[1..] == Delivered(batches[1..]);
      IterateAppend(batches[0], rest, start, now, body);
      BatchesDoNotShow(batches[1..], start, Iterate(batches[0], start, now, body).now, body);
    }
  }

  function Reads<T>(events: seq<Event<T>>): seq<T> {
    if events == [] then []
    else (if events[0].Read? then [events[0].item] else []) + Reads(events[1..])
  }

  lemma {:induction false} ReadsAppend<T>(a: seq<Event<T>>, b: seq<Event<T>>)
    ensures Reads(a + b) == Reads(a) + Reads(b)
    decreases |a|
  {
    if a == [] {
      assert a + b == b;
    } else {
      assert (a + b)[1..] == a[1..] + b && (a + b)[0] == a[0];
      ReadsAppend(a[1..], b);
      var first := if a[0].Read? then [a[0].item] else [];
      assert Reads(a + b) == first + (Reads(a[1..]) + Reads(b)) && Reads(a) == first + Reads(a[1..]);
    }
  }

  lemma StepReads<T, M>(item: T, start: M, now: M)
    ensures Reads(Step(item, start, now)) == [item]
  {
    var last := [Read(item)];
    assert last[1..] == [] && Reads(last) == [item];
    if now != start {
      assert Step(item, start, now)[1..] == last;
    }
  }

  /** Every element is read once, in order, when the body does not break. */
  lemma {:induction false} ReadsAll<T, M, S>(items: seq<T>, start: M, now: World<M, S>, body: Body<T, M, S>)
    ensures var run := Iterate(items, start, now, body);
            && Reads(run.events) <= items
            && (!run.broken ==> Reads(run.events) == items)
            && (items != [] ==> run.events != [])
    decreases |items|
  {
    if items != [] {
      var (m, broken) := body(items[0], now);
      var step := Step(items[0], start, now.counter);
      StepReads(items[0], start, now.counter);
      if !broken {
        ReadsAll(items[1..], start, m, body);
        ReadsAppend(step, Iterate(items[1..], start, m, body).events);
      }
    }
  }

  /** A break leaves the loops as it would leave plain iteration exactly when it comes in the
      last batch; in an earlier one the loops go on with the next batch. */
  lemma {:induction false} BreakShows<T, M, S>(batches: seq<seq<T>>, start: M, now: World<M, S>, body: Body<T, M, S>)
    ensures var all := Delivered(batches);
            IterateBatches(batches, start, now, body).events == Iterate(Flat(all), start, now, body).events <==>
            all == [] || !Iterate(Flat(all[..|all| - 1]), start, now, body).broken
    decreases |batches|
  {
    var all := Delivered(batches);
    if all != [] {
      var rest := all[1..];
      assert rest == Delivered(batches[1..]) && Flat(all) == batches[0] + Flat(rest);
      var batch := Iterate(batches[0], start, now, body);
      IterateAppend(batches[0], Flat(rest), start, now, body);
      BreakShows(batches[1..], start, batch.now, body);
      if rest == [] {
        assert all[..0] == [] && Flat(rest) == [];
      } else {
        var init := rest[..|rest| - 1];
        assert all[..|all| - 1] == [batches[0]] + init && ([batches[0]] + init)[1..] == init;
        IterateAppend(batches[0], Flat(init), start, now, body);
        Cancel(batch.events, IterateBatches(batches[1..], start, batch.now, body).events,
               Iterate(Flat(rest), start, batch.now, body).events);
        Cancel(batch.events, IterateBatches(batches[1..], start, batch.now, body).events, []);
        NextBatchReads(batches[1..], start, batch.now, body);
      }
    }
  }

  lemma Cancel<T>(a: seq<T>, b: seq<T>, c: seq<T>)
    ensures a + b == a + c <==> b == c
  {
    if a + b == a + c {
      assert (a + b)[|a|..] == b && (a + c)[|a|..] == c;
    }
  }

  lemma NextBatchReads<T, M, S>(batches: seq<seq<T>>, start: M, now: World<M, S>, body: Body<T, M, S>)
    requires Delivered(batches) != []
    ensures IterateBatches(batches, start, now, body).events != []
  {
    ReadsAll(batches[0], start, now, body);
  }

  // ---- mutation

  /** Counter and state after the first `n` elements. */
  function After<T, M, S>(items: seq<T>, n: nat, now: World<M, S>, body: Body<T, M, S>): World<M, S>
    requires n <= |items|
  {
    if n == 0 then now else After(items[1..], n - 1, body(items[0], now).0, body)
  }

  /** The hook is called right before element `n` is read, and then once, exactly when the counter
      differs then from its value at the start; so once the body has changed it, no element is
      read unannounced until the counter has its old value again. */
  lemma {:induction false} HookBeforeRead<T, M, S>(items: seq<T>, start: M, now: World<M, S>, body: Body<T, M, S>,
                                                   n: nat)
    requires n < |items| && !Iterate(items[..n], start, now, body).broken
    ensures var seen := Iterate(items[..n], start, now, body).events;
            && seen < Iterate(items, start, now, body).events
            && (Iterate(items, start, now, body).events[|seen|].Hook? <==> After(items, n, now, body).counter != start)
            && (if After(items, n, now, body).counter != start then
                  seen + [Hook, Read(items[n])] <= Iterate(items, start, now, body).events
                else seen + [Read(items[n])] <= Iterate(items, start, now, body).events)
    decreases n
  {
    assert items == items[..n] + items[n..];
    IterateAppend(items[..n], items[n..], start, now, body);
    ReadsAll(items[n..], start, Iterate(items[..n], start, now, body).now, body);
    AfterIs(items, n, start, now, body);
  }

  lemma {:induction false} AfterIs<T, M, S>(items: seq<T>, n: nat, start: M, now: World<M, S>, body: Body<T, M, S>)
    requires n <= |items| && !Iterate(items[..n], start, now, body).broken
    ensures Iterate(items[..n], start, now, body).now == After(items, n, now, body)
    decreases n
  {
    if n > 0 {
      assert items[..n][1..] == items[1..][..n - 1];
      AfterIs(items[1..], n - 1, start, body(items[0], now).0, body);
    }
  }

  /** The body breaks at element `n` and at none before. */
  ghost predicate BreaksAt<T, M, S>(items: seq<T>, now: World<M, S>, body: Body<T, M, S>, n: nat)
    requires n < |items|
  {
    body(items[n], After(items, n, now, body)).1
      && forall k: nat | k < n :: !body(items[k], After(items, k, now, body)).1
  }

  /** An iteration is broken off exactly when the body breaks at some element.  It has read the
      elements up to that one, and leaves counter and state as the body left them there. */
  lemma {:induction false} BrokenOff<T, M, S>(items: seq<T>, start: M, now: World<M, S>, body: Body<T, M, S>, n: nat)
    requires n < |items| && BreaksAt(items, now, body, n)
    ensures var run := Iterate(items, start, now, body);
            run.broken && run.now == body(items[n], After(items, n, now, body)).0 && Reads(run.events) == items[..n + 1]
    decreases n
  {
    var (m, broken) := body(items[0], now);
    assert After(items, 0, now, body) == now;
    var step := Step(items[0], start, now.counter);
    StepReads(items[0], start, now.counter);
    if n == 0 {
      assert items[..1] == [items[0]];
    } else {
      var rest := items[1..];
      forall k: nat | k < n ensures After(rest, k, m, body) == After(items, k + 1, now, body) {
      }
      BrokenOff(rest, start, m, body, n - 1);
      ReadsAppend(step, Iterate(rest, start, m, body).events);
      assert items[..n + 1] == [items[0]] + rest[..n];
    }
  }

  lemma {:induction false} NotBrokenOff<T, M, S>(items: seq<T>, start: M, now: World<M, S>, body: Body<T, M, S>)
    requires forall n: nat | n < |items| :: !body(items[n], After(items, n, now, body)).1
    ensures var run := Iterate(items, start, now, body);
            !run.broken && run.now == After(items, |items|, now, body)
    decreases |items|
  {
    if items != [] {
      var (m, broken) := body(items[0], now);
      assert After(items, 0, now, body) == now;
      var rest := items[1..];
      forall n: nat | n < |rest| ensures !body(rest[n], After(rest, n, m, body)).1 {
        assert After(items, n + 1, now, body) == After(rest, n, m, body);
      }
      NotBrokenOff(rest, start, m, body);
    }
  }

  /** When the body breaks in a batch, the next batch goes on from there. */
  lemma GoesOn<T, M, S>(batches: seq<seq<T>>, start: M, now: World<M, S>, body: Body<T, M, S>, n: nat)
    requires batches != [] && n < |batches[0]| && BreaksAt(batches[0], now, body, n)
    ensures var left := body(batches[0][n], After(batches[0], n, now, body)).0;
            && IterateBatches(batches, start, now, body).now == IterateBatches(batches[1..], start, left, body).now
            && Reads(IterateBatches(batches, start, now, body).events) ==
                 batches[0][..n + 1] + Reads(IterateBatches(batches[1..], start, left, body).events)
  {
    BrokenOff(batches[0], start, now, body, n);
    var batch := Iterate(batches[0], start, now, body);
    ReadsAppend(batch.events, IterateBatches(batches[1..], start, batch.now, body).events);
  }
}
