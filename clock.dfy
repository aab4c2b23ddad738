/**
 * The clock plugin worker (client/src/plugin/clock.rs). It registers once
 * with the controller and then folds a stream of requests into messages that
 * it pushes onto its bounded outgoing mailbox.
 *
 * The wall clock is an input: every step of the serving loop receives a
 * `ClockReading` whose two titles are opaque strings (the formatted time and
 * date). The filter `crate::plugin::utils::search` is not part of this model;
 * the worker receives it as a function value and nothing is assumed of it.
 */
module Clock {
  import opened Model
  import opened Mailboxes

  const Id: string := "clock"
  const Priority: nat := 10
  const Title: string := "\U{F0150} Clock"

  /** The two formatted titles the clock shows at one instant. */
  datatype ClockReading = ClockReading(time: string, date: string)

  /** One turn of the serving loop: the request it handles and the time it sees. */
  datatype Tick = Tick(request: PluginRequest, now: ClockReading)

  /** How `main` ends: it exits the process, or it is still serving. */
  datatype Status = Exited(code: int) | Serving(handled: nat)

  /** The entry filter `crate::plugin::utils::search(entries, query)`. */
  type Filter = (seq<Entry>, string) -> seq<Entry>

  /** `all_entries`: the current time and date as two entries with no action. */
  function AllEntries(now: ClockReading): (r: seq<Entry>)
    ensures |r| == 2
    ensures r[0] == Entry("time-entry", now.time, "", "Clock Time")
    ensures r[1] == Entry("date", now.date, "", "Clock Date")
    ensures r[0].id != r[1].id
  {
    [Entry("time-entry", now.time, "", "Clock Time"), Entry("date", now.date, "", "Clock Date")]
  }

  /** The record the clock registers with. */
  function Record(entries: seq<Entry>): Plugin {
    Plugin(Id, Priority, Title, entries)
  }

  /**
   * What a search tries to send, in order: one `Clear` and then one
   * `AppendEntry` per filtered entry.
   */
  function SearchMessages(entries: seq<Entry>, query: string, filter: Filter): (r: seq<Message>)
    ensures |r| == 1 + |filter(entries, query)|
    ensures r[0] == Clear(Id)
    ensures forall i :: 1 <= i < |r| ==> r[i] == AppendEntry(Id, filter(entries, query)[i - 1])
  {
    [Clear(Id)] + AppendAll(filter(entries, query))
  }

  function AppendAll(es: seq<Entry>): (r: seq<Message>)
    ensures |r| == |es|
    ensures forall i :: 0 <= i < |es| ==> r[i] == AppendEntry(Id, es[i])
  {
    if es == [] then [] else [AppendEntry(Id, es[0])] + AppendAll(es[1..])
  }

  /** How many more messages fit in a mailbox holding `outbox`. */
  function Room(outbox: seq<Message>, capacity: nat): nat {
    if |outbox| < capacity then capacity - |outbox| else 0
  }

  function Min(a: nat, b: nat): nat {
    if a <= b then a else b
  }

  /**
   * The worker's state as the source keeps it: `plugin.entries`,
   * `last_query`, and what its outgoing mailbox holds.
   */
  datatype Worker = Worker(entries: seq<Entry>, lastQuery: string, outbox: seq<Message>)

  /**
   * `try_send` of each message in turn, stopping at the first one that does
   * not fit (the `?` after each send). The flag says whether all were sent.
   */
  function Deliver(outbox: seq<Message>, capacity: nat, msgs: seq<Message>): (bool, seq<Message>)
    decreases |msgs|
  {
    if msgs == [] then (true, outbox)
    else if |outbox| < capacity then Deliver(outbox + [msgs[0]], capacity, msgs[1..])
    else (false, outbox)
  }

  /**
   * Delivering sends exactly the longest prefix of `msgs` that fits, and
   * reports success exactly when that prefix is all of `msgs`.
   */
  lemma {:induction false} DeliverSendsPrefix(outbox: seq<Message>, capacity: nat, msgs: seq<Message>)
    decreases |msgs|
    ensures Deliver(outbox, capacity, msgs).0 <==> |msgs| <= Room(outbox, capacity)
    ensures Deliver(outbox, capacity, msgs).1 == outbox + msgs[..Min(|msgs|, Room(outbox, capacity))]
  {
    if msgs != [] && |outbox| < capacity {
      DeliverSendsPrefix(outbox + [msgs[0]], capacity, msgs[1..]);
      var k := Min(|msgs| - 1, Room(outbox + [msgs[0]], capacity));
      assert Min(|msgs|, Room(outbox, capacity)) == k + 1;
      assert msgs[..k + 1] == [msgs[0]] + msgs[1..][..k];
    }
  }

  /** `search`: record the query, then try to send the search messages. */
  function SearchStep(w: Worker, query: string, capacity: nat, filter: Filter): (bool, Worker) {
    var (ok, outbox) := Deliver(w.outbox, capacity, SearchMessages(w.entries, query, filter));
    (ok, Worker(w.entries, query, outbox))
  }

  /** `update` on one request; the flag is false when a send failed. */
  function Step(w: Worker, t: Tick, capacity: nat, filter: Filter): (bool, Worker) {
    match t.request
    case Search(q) => SearchStep(w, q, capacity, filter)
    case Timeout => SearchStep(w.(entries := AllEntries(t.now)), w.lastQuery, capacity, filter)
    case Activate(_) => (true, w)
  }

  /** The state after `register_plugin` succeeded. */
  function Registered(w: Worker): Worker {
    w.(outbox := w.outbox + [RegisterPlugin(Record(w.entries))])
  }

  /**
   * The serving loop of `main` over a finite prefix of the request stream.
   * A failed step is only logged: the loop goes on with the next request.
   */
  function Serve(w: Worker, ticks: seq<Tick>, capacity: nat, filter: Filter): Worker
    decreases |ticks|
  {
    if ticks == [] then w
    else Step(Serve(w, ticks[..|ticks| - 1], capacity, filter), ticks[|ticks| - 1], capacity, filter).1
  }

  /**
   * A search leaves the entries alone, sets `last_query` to the query whether
   * or not a send fails, and sends the search messages: all of them when it
   * succeeds, a proper prefix of them (at least nothing after the first
   * refused send) when it fails.
   */
  lemma SearchStepEmits(w: Worker, query: string, capacity: nat, filter: Filter)
    ensures var (ok, w') := SearchStep(w, query, capacity, filter);
      var msgs := SearchMessages(w.entries, query, filter);
      && w'.entries == w.entries
      && w'.lastQuery == query
      && (ok <==> |msgs| <= Room(w.outbox, capacity))
      && (ok ==> w'.outbox == w.outbox + msgs)
      && (!ok ==> exists k :: 0 <= k < |msgs| && w'.outbox == w.outbox + msgs[..k])
  {
    var msgs := SearchMessages(w.entries, query, filter);
    DeliverSendsPrefix(w.outbox, capacity, msgs);
    assert msgs[..|msgs|] == msgs;
  }

  /** `Activate(_)` sends nothing and changes nothing. */
  lemma ActivateChangesNothing(w: Worker, id: string, now: ClockReading, capacity: nat, filter: Filter)
    ensures Step(w, Tick(Activate(id), now), capacity, filter) == (true, w)
  {
  }

  /**
   * `Timeout` refreshes the entries from the clock and re-runs the previous
   * query, so `last_query` is unchanged; the refresh survives a failed send,
   * which leaves a proper prefix of the messages in the mailbox.
   */
  lemma TimeoutRefreshes(w: Worker, now: ClockReading, capacity: nat, filter: Filter)
    ensures var (ok, w') := Step(w, Tick(Timeout, now), capacity, filter);
      var msgs := SearchMessages(AllEntries(now), w.lastQuery, filter);
      && w'.entries == AllEntries(now)
      && w'.lastQuery == w.lastQuery
      && (ok <==> |msgs| <= Room(w.outbox, capacity))
      && (ok ==> w'.outbox == w.outbox + msgs)
      && (!ok ==> exists k :: 0 <= k < |msgs| && w'.outbox == w.outbox + msgs[..k])
  {
    SearchStepEmits(w.(entries := AllEntries(now)), w.lastQuery, capacity, filter);
  }

  /**
   * Searching twice in a row for the same query sends the same messages both
   * times when both fit.
   */
  lemma SearchTwiceSameMessages(w: Worker, query: string, capacity: nat, filter: Filter)
    requires 2 * |SearchMessages(w.entries, query, filter)| <= Room(w.outbox, capacity)
    ensures var (ok1, w1) := SearchStep(w, query, capacity, filter);
      var (ok2, w2) := SearchStep(w1, query, capacity, filter);
      var msgs := SearchMessages(w.entries, query, filter);
      ok1 && ok2 && w1.outbox == w.outbox + msgs && w2.outbox == w.outbox + msgs + msgs
  {
    SearchStepEmits(w, query, capacity, filter);
    var w1 := SearchStep(w, query, capacity, filter).1;
    SearchStepEmits(w1, query, capacity, filter);
  }

  /** The query the worker last searched for: that of the latest `Search`, else `q0`. */
  function LastQuery(q0: string, ticks: seq<Tick>): string
    decreases |ticks|
  {
    if ticks == [] then q0
    else if ticks[|ticks| - 1].request.Search? then ticks[|ticks| - 1].request.query
    else LastQuery(q0, ticks[..|ticks| - 1])
  }

  /** The entries the worker holds: from the latest `Timeout`'s reading, else `e0`. */
  function LatestEntries(e0: seq<Entry>, ticks: seq<Tick>): seq<Entry>
    decreases |ticks|
  {
    if ticks == [] then e0
    else if ticks[|ticks| - 1].request.Timeout? then AllEntries(ticks[|ticks| - 1].now)
    else LatestEntries(e0, ticks[..|ticks| - 1])
  }

  /**
   * After serving any requests, whatever sends failed on the way, the last
   * query is that of the latest `Search`, and the entries are those of the
   * latest `Timeout`.
   */
  lemma {:induction false} ServeTracksQueryAndEntries(w: Worker, ticks: seq<Tick>, capacity: nat, filter: Filter)
    decreases |ticks|
    ensures Serve(w, ticks, capacity, filter).lastQuery == LastQuery(w.lastQuery, ticks)
    ensures Serve(w, ticks, capacity, filter).entries == LatestEntries(w.entries, ticks)
  {
    if ticks != [] {
      var prev := ticks[..|ticks| - 1];
      ServeTracksQueryAndEntries(w, prev, capacity, filter);
      var v := Serve(w, prev, capacity, filter);
      var t := ticks[|ticks| - 1];
      match t.request
      case Search(q) => SearchStepEmits(v, q, capacity, filter);
      case Timeout => SearchStepEmits(v.(entries := AllEntries(t.now)), v.lastQuery, capacity, filter);
      case Activate(_) =>
    }
  }

  /**
   * Serving only ever appends to the mailbox, and never fills it beyond its
   * capacity.
   */
  lemma {:induction false} ServeAppendsWithinCapacity(w: Worker, ticks: seq<Tick>, capacity: nat, filter: Filter)
    requires |w.outbox| <= capacity
    decreases |ticks|
    ensures var out := Serve(w, ticks, capacity, filter).outbox;
      |out| <= capacity && w.outbox <= out
  {
    if ticks != [] {
      var prev := ticks[..|ticks| - 1];
      ServeAppendsWithinCapacity(w, prev, capacity, filter);
      var v := Serve(w, prev, capacity, filter);
      var t := ticks[|ticks| - 1];
      match t.request
      case Search(q) =>
        DeliverSendsPrefix(v.outbox, capacity, SearchMessages(v.entries, q, filter));
      case Timeout =>
        DeliverSendsPrefix(v.outbox, capacity, SearchMessages(AllEntries(t.now), v.lastQuery, filter));
      case Activate(_) =>
    }
  }

  /** The worker (`ClockPlugin`). */
  class ClockPlugin {
    /** `plugin`: the record it registers with; its `entries` are replaced on a timeout. */
    var plugin: Plugin
    /** `last_query`. */
    var lastQuery: string
    /** `plugin_channel_out`: the mailbox towards the controller. */
    const out: Mailbox<Message>
    /** `crate::plugin::utils::search`. */
    const filter: Filter

    ghost predicate Valid()
      reads this, out
    {
      plugin == Record(plugin.entries) && out.Valid()
    }

    /** The state as the pure model sees it. */
    function State(): Worker
      reads this, out
    {
      Worker(plugin.entries, lastQuery, out.queue)
    }

    /** `ClockPlugin::new`: no query yet, the entries as of `now`. */
    constructor (out: Mailbox<Message>, filter: Filter, now: ClockReading)
      requires out.Valid()
      ensures Valid()
      ensures plugin == Record(AllEntries(now)) && lastQuery == ""
      ensures this.out == out && this.filter == filter
    {
      this.out := out;
      this.filter := filter;
      plugin := Record(AllEntries(now));
      lastQuery := "";
    }

    /** `register_plugin`: one `RegisterPlugin` carrying the whole record. */
    method RegisterPlugin() returns (ok: bool)
      requires Valid()
      modifies out
      ensures Valid()
      ensures ok <==> |old(out.queue)| < out.capacity
      ensures State() == if ok then Registered(old(State())) else old(State())
    {
      ok := out.TrySend(Message.RegisterPlugin(plugin));
    }

    /** `search`. */
    method Search(query: string) returns (ok: bool)
      requires Valid()
      modifies this, out
      ensures Valid() && plugin == old(plugin)
      ensures lastQuery == query
      ensures var msgs := SearchMessages(plugin.entries, query, filter);
        && (ok <==> |msgs| <= out.capacity - |old(out.queue)|)
        && out.queue == old(out.queue) + msgs[..Min(|msgs|, out.capacity - |old(out.queue)|)]
      ensures (ok, State()) == SearchStep(old(State()), query, out.capacity, filter)
    {
      ghost var msgs := SearchMessages(plugin.entries, query, filter);
      ghost var room := out.capacity - |out.queue|;
      lastQuery := query;
      var filtered := filter(plugin.entries, query);
      ok := out.TrySend(Message.Clear(plugin.id));
      if !ok {
        DeliverSendsPrefix(old(out.queue), out.capacity, msgs);
        return;
      }
      for i := 0 to |filtered|
        invariant Valid() && plugin == old(plugin) && lastQuery == query
        invariant i + 1 <= room
        invariant out.queue == old(out.queue) + msgs[..i + 1]
      {
        ok := out.TrySend(Message.AppendEntry(plugin.id, filtered[i]));
        if !ok {
          DeliverSendsPrefix(old(out.queue), out.capacity, msgs);
          return;
        }
        assert msgs[..i + 2] == msgs[..i + 1] + [msgs[i + 1]];
      }
      assert msgs[..|filtered| + 1] == msgs;
      DeliverSendsPrefix(old(out.queue), out.capacity, msgs);
    }

    /** `update`: handle one request. */
    method Update(t: Tick) returns (ok: bool)
      requires Valid()
      modifies this, out
      ensures Valid()
      ensures (ok, State()) == Step(old(State()), t, out.capacity, filter)
    {
      match t.request
      case Search(q) =>
        ok := Search(q);
      case Timeout =>
        plugin := plugin.(entries := AllEntries(t.now));
        ok := Search(lastQuery);
      case Activate(_) =>
        ok := true;
    }

    /**
     * `main` over the first `|ticks|` requests: registration failure exits
     * the process with status 1 before any request is handled; otherwise
     * every request is handled, whether or not its sends succeed.
     */
    method Run(ticks: seq<Tick>) returns (status: Status)
      requires Valid()
      modifies this, out
      ensures Valid()
      ensures status == (if |old(out.queue)| >= out.capacity then Exited(1) else Serving(|ticks|))
      ensures status.Exited? ==> State() == old(State())
      ensures status.Serving? ==>
        status.handled == |ticks| && State() == Serve(Registered(old(State())), ticks, out.capacity, filter)
    {
      var registered := RegisterPlugin();
      if !registered {
        return Exited(1);
      }
      ghost var start := State();
      var handled := 0;
      while handled < |ticks|
        invariant 0 <= handled <= |ticks|
        invariant Valid()
        invariant State() == Serve(start, ticks[..handled], out.capacity, filter)
      {
        var _ := Update(ticks[handled]);
        assert ticks[..handled + 1][..handled] == ticks[..handled];
        handled := handled + 1;
      }
      assert ticks[..handled] == ticks;
      status := Serving(handled);
    }
  }
}
