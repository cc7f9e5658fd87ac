/** The reorder buffer for cross-chain messages: in-order, exactly-once delivery per source chain,
    with a bounded memory of delivered ids. */
module MessageOrderer {

  datatype Message = Message(
    id: string,
    source: string,
    dest: string,
    sequence: nat,
    canonical: string,
    payloadHash: string,
    timestamp: nat)

  type Place = (string, nat)

  datatype State = State(
    next: map<string, nat>,
    pending: map<Place, Message>,
    delivered: set<string>,
    order: seq<string>,
    outbound: map<string, nat>)

  const INITIAL := State(map[], map[], {}, [], map[])

  function PlaceOf(m: Message): Place { (m.source, m.sequence) }

  function Expected(s: State, source: string): nat {
    if source in s.next then s.next[source] else 0
  }

  // ----- the operations

  datatype Drained = Drained(out: seq<Message>, rest: map<Place, Message>)

  /** The consecutive buffered messages of `source` from `from` on, and what stays buffered. */
  function Drain(pending: map<Place, Message>, source: string, from: nat): Drained
    decreases |pending|
  {
    if (source, from) in pending then
      var more := Drain(pending - {(source, from)}, source, from + 1);
      Drained([pending[(source, from)]] + more.out, more.rest)
    else
      Drained([], pending)
  }

  ghost predicate DrainsOut(pending: map<Place, Message>, source: string, from: nat, out: seq<Message>) {
    && (forall k :: 0 <= k < |out| ==> At(pending, source, from + k, out[k]))
    && (source, from + |out|) !in pending
  }

  ghost predicate At(pending: map<Place, Message>, source: string, n: nat, m: Message) {
    (source, n) in pending && pending[(source, n)] == m
  }

  ghost predicate Leaves(pending: map<Place, Message>, source: string, from: nat, to: nat, rest: map<Place, Message>) {
    && (forall p: Place :: p in rest <==> p in pending && !(p.0 == source && from <= p.1 < to))
    && (forall p: Place :: p in rest ==> rest[p] == pending[p])
  }

  lemma {:induction false} DrainsOutSpec(pending: map<Place, Message>, source: string, from: nat)
    ensures DrainsOut(pending, source, from, Drain(pending, source, from).out)
    decreases |pending|
  {
    if (source, from) in pending {
      DrainsOutSpec(pending - {(source, from)}, source, from + 1);
      var more := Drain(pending - {(source, from)}, source, from + 1).out;
      var out := Drain(pending, source, from).out;
      forall k | 0 <= k < |out| ensures At(pending, source, from + k, out[k]) {
        if k > 0 {
          assert At(pending - {(source, from)}, source, (from + 1) + (k - 1), more[k - 1]);
        }
      }
    }
  }

  lemma {:induction false} LeavesSpec(pending: map<Place, Message>, source: string, from: nat)
    ensures var r := Drain(pending, source, from);
            Leaves(pending, source, from, from + |r.out|, r.rest)
    decreases |pending|
  {
    if (source, from) in pending {
      LeavesSpec(pending - {(source, from)}, source, from + 1);
    }
  }

  function Ids(ms: seq<Message>): (ids: seq<string>)
    ensures |ids| == |ms|
  {
    seq(|ms|, i requires 0 <= i < |ms| => ms[i].id)
  }

  function Elements<T>(s: seq<T>): set<T> { set x | x in s }

  function AfterIngest(s: State, m: Message): (State, seq<Message>) {
    if m.id in s.delivered || m.sequence < Expected(s, m.source) then (s, [])
    else
      var expected := Expected(s, m.source);
      var d := Drain(s.pending[PlaceOf(m) := m], m.source, expected);
      (s.(next := s.next[m.source := expected + |d.out|],
          pending := d.rest,
          delivered := s.delivered + Elements(Ids(d.out)),
          order := s.order + Ids(d.out)),
       d.out)
  }

  /** Forget the oldest ids until at most `max` are remembered. */
  function Prune(delivered: set<string>, order: seq<string>, max: nat): (set<string>, seq<string>)
    decreases |order|
  {
    if |delivered| <= max then (delivered, order)
    else if order == [] then ({}, order)
    else Prune(delivered - {order[0]}, order[1..], max)
  }

  function AfterPrune(s: State, max: nat): State {
    var (delivered, order) := Prune(s.delivered, s.order, max);
    s.(delivered := delivered, order := order)
  }

  function AfterOutbound(s: State, dest: string): (State, nat) {
    var current := if dest in s.outbound then s.outbound[dest] else 0;
    (s.(outbound := s.outbound[dest := current + 1]), current)
  }

  lemma DrainStep(done: seq<Message>, pending: map<Place, Message>, source: string, from: nat)
    requires (source, from) in pending
    ensures var m := pending[(source, from)];
            var more := Drain(pending - {(source, from)}, source, from + 1);
            && done + Drain(pending, source, from).out == (done + [m]) + more.out
            && Drain(pending, source, from).rest == more.rest
            && Ids(done + [m]) == Ids(done) + [m.id]
            && Elements(Ids(done + [m])) == Elements(Ids(done)) + {m.id}
  {
  }

  lemma DrainStop(done: seq<Message>, pending: map<Place, Message>, source: string, from: nat)
    requires (source, from) !in pending
    ensures Drain(pending, source, from).rest == pending
    ensures done + Drain(pending, source, from).out == done
  {
  }

  function Accepted(s: State, m: Message, d: Drained): State {
    State(s.next[m.source := Expected(s, m.source) + |d.out|], d.rest,
          s.delivered + Elements(Ids(d.out)), s.order + Ids(d.out), s.outbound)
  }

  lemma IngestCases(s: State, m: Message)
    ensures AfterIngest(s, m) ==
      if m.id in s.delivered || m.sequence < Expected(s, m.source) then (s, [])
      else
        var d := Drain(s.pending[(m.source, m.sequence) := m], m.source, Expected(s, m.source));
        (Accepted(s, m, d), d.out)
  {
  }

  lemma EmptyIds()
    ensures Ids([]) == [] && Elements(Ids([])) == {}
  {
  }

  class Orderer {
    var next: map<string, nat>
    var pending: map<Place, Message>
    var delivered: set<string>
    var order: seq<string>
    var outbound: map<string, nat>

    ghost function Abstract(): State
      reads this
    {
      State(next, pending, delivered, order, outbound)
    }

    constructor ()
      ensures Abstract() == INITIAL
    {
      next, pending, delivered, order, outbound := map[], map[], {}, [], map[];
    }

    method NextOutboundSeq(dest: string) returns (current: nat)
      modifies this
      ensures (Abstract(), current) == AfterOutbound(old(Abstract()), dest)
    {
      if dest !in outbound {
        outbound := outbound[dest := 0];
      }
      current := outbound[dest];
      outbound := outbound[dest := current + 1];
      assert outbound == old(outbound)[dest := current + 1];
    }

    method Ingest(msg: Message) returns (deliverable: seq<Message>)
      modifies this
      ensures Abstract() == AfterIngest(old(Abstract()), msg).0
      ensures deliverable == AfterIngest(old(Abstract()), msg).1
    {
      hide AfterIngest, Drain, Ids, Elements;
      IngestCases(Abstract(), msg);
      deliverable := [];
      if msg.id in delivered { return; }
      var expected := if msg.source in next then next[msg.source] else 0;
      if msg.sequence < expected { return; }
      pending := pending[(msg.source, msg.sequence) := msg];
      deliverable := DrainFrom(msg.source, expected);
      next := next[msg.source := expected + |deliverable|];
    }

    /** The draining loop of `Ingest`. */
    method DrainFrom(source: string, expected: nat) returns (deliverable: seq<Message>)
      modifies this`pending, this`delivered, this`order
      ensures Drained(deliverable, pending) == Drain(old(pending), source, expected)
      ensures delivered == old(delivered) + Elements(Ids(deliverable))
      ensures order == old(order) + Ids(deliverable)
    {
      hide Drain, Ids, Elements;
      EmptyIds();
      deliverable := [];
      var from := expected;
      while (source, from) in pending
        invariant from == expected + |deliverable|
        invariant deliverable + Drain(pending, source, from).out == Drain(old(pending), source, expected).out
        invariant Drain(pending, source, from).rest == Drain(old(pending), source, expected).rest
        invariant delivered == old(delivered) + Elements(Ids(deliverable))
        invariant order == old(order) + Ids(deliverable)
        decreases |pending|
      {
        var m := pending[(source, from)];
        DrainStep(deliverable, pending, source, from);
        pending := pending - {(source, from)};
        delivered := delivered + {m.id};
        order := order + [m.id];
        deliverable := deliverable + [m];
        from := from + 1;
      }
      DrainStop(deliverable, pending, source, from);
    }

    method PruneDelivered(max: nat)
      modifies this
      ensures Abstract() == AfterPrune(old(Abstract()), max)
    {
      while |delivered| > max
        invariant Prune(delivered, order, max) == Prune(old(delivered), old(order), max)
        invariant next == old(next) && pending == old(pending) && outbound == old(outbound)
        decreases |order|, |delivered|
      {
        if order != [] {
          var oldest := order[0];
          order := order[1..];
          delivered := delivered - {oldest};
        } else {
          delivered := {};
          break;
        }
      }
    }
  }
}
