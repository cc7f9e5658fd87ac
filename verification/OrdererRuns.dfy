/** What the reorder buffer delivers over whole runs of arrivals and prunes. */
module OrdererRuns {
  import opened MessageOrderer
  import opened Sorting

  datatype Event = Arrive(message: Message) | Forget(max: nat)

  datatype Outcome = Outcome(state: State, log: seq<Message>)

  function Step(s: State, e: Event): Outcome {
    match e
    case Arrive(m) => var (s', out) := AfterIngest(s, m); Outcome(s', out)
    case Forget(max) => Outcome(AfterPrune(s, max), [])
  }

  function Run(s: State, events: seq<Event>): Outcome
    decreases |events|
  {
    if events == [] then Outcome(s, [])
    else
      var first := Step(s, events[0]);
      var rest := Run(first.state, events[1..]);
      Outcome(rest.state, first.log + rest.log)
  }

  function Arrivals(events: seq<Event>): set<Message> {
    set e | e in events && e.Arrive? :: e.message
  }

  function OfSource(log: seq<Message>, source: string): seq<Message> {
    if log == [] then []
    else (if log[0].source == source then [log[0]] else []) + OfSource(log[1..], source)
  }

  lemma {:induction false} OfSourceConcat(a: seq<Message>, b: seq<Message>, source: string)
    ensures OfSource(a + b, source) == OfSource(a, source) + OfSource(b, source)
  {
    if a == [] {
      assert a + b == b;
    } else {
      var head := if a[0].source == source then [a[0]] else [];
      OfSourceConcat(a[1..], b, source);
      assert (a + b)[0] == a[0] && (a + b)[1..] == a[1..] + b;
      assert OfSource(a + b, source) == head + OfSource(a[1..] + b, source);
      assert OfSource(a, source) == head + OfSource(a[1..], source);
    }
  }

  lemma {:induction false} OfOneSource(out: seq<Message>, source: string, c: string)
    requires forall k :: 0 <= k < |out| ==> out[k].source == source
    ensures OfSource(out, c) == if c == source then out else []
  {
    if out != [] {
      OfOneSource(out[1..], source, c);
    }
  }

  // ----- what every run keeps, whatever the ids

  /** The messages of one source in the log: numbered from zero without gap, and all arrived. */
  ghost predicate Numbered(d: seq<Message>, source: string, arrived: set<Message>) {
    forall k :: 0 <= k < |d| ==> PlaceOf(d[k]) == (source, k) && d[k] in arrived
  }

  ghost predicate LogInvariant(s: State, log: seq<Message>, arrived: set<Message>) {
    forall c :: Numbered(OfSource(log, c), c, arrived) && |OfSource(log, c)| == Expected(s, c)
  }

  ghost predicate BufferInvariant(s: State, arrived: set<Message>) {
    forall p: Place :: p in s.pending ==>
      PlaceOf(s.pending[p]) == p && p.1 > Expected(s, p.0) && s.pending[p] in arrived
  }

  ghost predicate Accepts(s: State, m: Message) {
    m.id !in s.delivered && m.sequence >= Expected(s, m.source)
  }

  /** The messages an accepted arrival sets free. */
  function Freed(s: State, m: Message): Drained {
    Drain(s.pending[PlaceOf(m) := m], m.source, Expected(s, m.source))
  }

  lemma IngestAccepted(s: State, m: Message)
    requires Accepts(s, m)
    ensures AfterIngest(s, m) == (Accepted(s, m, Freed(s, m)), Freed(s, m).out)
  {
    IngestCases(s, m);
  }

  lemma FreedMessages(s: State, m: Message, arrived: set<Message>)
    requires BufferInvariant(s, arrived) && Accepts(s, m)
    ensures forall k :: 0 <= k < |Freed(s, m).out| ==>
      PlaceOf(Freed(s, m).out[k]) == (m.source, Expected(s, m.source) + k) && Freed(s, m).out[k] in arrived + {m}
  {
    hide Drain;
    var e := Expected(s, m.source);
    DrainsOutSpec(s.pending[PlaceOf(m) := m], m.source, e);
    forall k | 0 <= k < |Freed(s, m).out|
      ensures PlaceOf(Freed(s, m).out[k]) == (m.source, e + k) && Freed(s, m).out[k] in arrived + {m}
    {
      assert At(s.pending[PlaceOf(m) := m], m.source, e + k, Freed(s, m).out[k]);
    }
  }

  lemma LogStepAt(s: State, log: seq<Message>, arrived: set<Message>, m: Message, c: string)
    requires Numbered(OfSource(log, c), c, arrived) && |OfSource(log, c)| == Expected(s, c)
    requires BufferInvariant(s, arrived) && Accepts(s, m)
    ensures Numbered(OfSource(log + Freed(s, m).out, c), c, arrived + {m})
    ensures |OfSource(log + Freed(s, m).out, c)| == Expected(Accepted(s, m, Freed(s, m)), c)
  {
    hide Freed, OfSource, BufferInvariant, Elements, Ids, Numbered;
    var out := Freed(s, m).out;
    FreedMessages(s, m, arrived);
    assert forall k :: 0 <= k < |out| ==> out[k].source == PlaceOf(out[k]).0;
    OfSourceConcat(log, out, c);
    OfOneSource(out, m.source, c);
    NumberedConcat(OfSource(log, c), if c == m.source then out else [], c, arrived, m);
  }

  lemma LogStep(s: State, log: seq<Message>, arrived: set<Message>, m: Message)
    requires LogInvariant(s, log, arrived) && BufferInvariant(s, arrived) && Accepts(s, m)
    ensures LogInvariant(Accepted(s, m, Freed(s, m)), log + Freed(s, m).out, arrived + {m})
  {
    hide Freed, OfSource, Numbered, BufferInvariant, Accepted, Expected;
    forall c
      ensures Numbered(OfSource(log + Freed(s, m).out, c), c, arrived + {m})
      ensures |OfSource(log + Freed(s, m).out, c)| == Expected(Accepted(s, m, Freed(s, m)), c)
    {
      assert Numbered(OfSource(log, c), c, arrived);
      LogStepAt(s, log, arrived, m, c);
    }
  }

  lemma NumberedConcat(d: seq<Message>, out: seq<Message>, c: string, arrived: set<Message>, m: Message)
    requires Numbered(d, c, arrived)
    requires forall k :: 0 <= k < |out| ==> PlaceOf(out[k]) == (c, |d| + k) && out[k] in arrived + {m}
    ensures Numbered(d + out, c, arrived + {m})
  {
  }

  lemma BufferStep(s: State, arrived: set<Message>, m: Message)
    requires BufferInvariant(s, arrived) && Accepts(s, m)
    ensures BufferInvariant(Accepted(s, m, Freed(s, m)), arrived + {m})
  {
    hide Drain;
    var e := Expected(s, m.source);
    var buffered := s.pending[PlaceOf(m) := m];
    DrainsOutSpec(buffered, m.source, e);
    LeavesSpec(buffered, m.source, e);
    var s' := Accepted(s, m, Freed(s, m));
    forall p: Place | p in s'.pending
      ensures PlaceOf(s'.pending[p]) == p && p.1 > Expected(s', p.0) && s'.pending[p] in arrived + {m}
    {
      assert p in buffered;
      assert p.0 == m.source ==> p.1 != e + |Freed(s, m).out|;
    }
  }

  // ----- what the ids add

  /** Ids name their place: the id of a message determines its source and sequence number. */
  ghost predicate Placed(arrived: set<Message>, place: string -> Place) {
    forall m :: m in arrived ==> place(m.id) == PlaceOf(m)
  }

  /** A place has one message. */
  ghost predicate OnePerPlace(arrived: set<Message>) {
    forall m, m' :: m in arrived && m' in arrived && PlaceOf(m) == PlaceOf(m') ==> m == m'
  }

  /** Everything in the replay memory has been delivered. */
  ghost predicate Sound(s: State, place: string -> Place) {
    forall id :: id in s.delivered ==> place(id).1 < Expected(s, place(id).0)
  }

  ghost predicate Remembered(s: State) {
    Elements(s.order) == s.delivered && NoRepeats(s.order)
  }

  lemma SoundStep(s: State, arrived: set<Message>, m: Message, place: string -> Place)
    requires BufferInvariant(s, arrived) && Accepts(s, m) && Sound(s, place)
    requires Placed(arrived, place) && place(m.id) == PlaceOf(m)
    ensures Sound(Accepted(s, m, Freed(s, m)), place)
    ensures Remembered(s) ==> Remembered(Accepted(s, m, Freed(s, m)))
  {
    hide Drain, Freed;
    var e := Expected(s, m.source);
    var out := Freed(s, m).out;
    var s' := Accepted(s, m, Freed(s, m));
    FreedMessages(s, m, arrived);
    forall k | 0 <= k < |out| ensures place(Ids(out)[k]) == (m.source, e + k) {
      assert out[k] in arrived + {m};
    }
    forall id | id in s'.delivered ensures place(id).1 < Expected(s', place(id).0) {
      if id !in s.delivered {
        var k :| 0 <= k < |out| && Ids(out)[k] == id;
      }
    }
    if Remembered(s) {
      assert Elements(s.order + Ids(out)) == Elements(s.order) + Elements(Ids(out));
      forall i, j | 0 <= i < j < |s'.order| ensures s'.order[i] != s'.order[j] {
        if i < |s.order| <= j {
          assert s.order[i] in s.delivered;
          assert s'.order[j] == Ids(out)[j - |s.order|];
        }
      }
    }
  }

  // ----- pruning

  lemma {:induction false} PruneShrinks(delivered: set<string>, order: seq<string>, max: nat)
    requires delivered <= Elements(order)
    ensures var (d, o) := Prune(delivered, order, max);
            d <= delivered && d <= Elements(o)
    decreases |order|
  {
    if |delivered| > max && order != [] {
      assert delivered - {order[0]} <= Elements(order[1..]);
      PruneShrinks(delivered - {order[0]}, order[1..], max);
    }
  }

  /** Pruning never finds the queue empty: the defensive clearing is dead code. */
  lemma {:induction false} PruneNeverClears(delivered: set<string>, order: seq<string>, max: nat)
    requires delivered <= Elements(order)
    ensures |Prune(delivered, order, max).0| <= max
    ensures |delivered| >= max ==> |Prune(delivered, order, max).0| == max
    decreases |order|
  {
    if |delivered| > max {
      SomeQueued(delivered, order);
      assert delivered - {order[0]} <= Elements(order[1..]);
      PruneNeverClears(delivered - {order[0]}, order[1..], max);
    }
  }

  lemma SomeQueued(delivered: set<string>, order: seq<string>)
    requires delivered <= Elements(order) && |delivered| > 0
    ensures order != []
  {
  }

  lemma {:induction false} PruneKeepsRecent(delivered: set<string>, order: seq<string>, max: nat)
    requires Elements(order) == delivered && NoRepeats(order)
    ensures var kept := if |order| <= max then order else order[|order| - max..];
            Prune(delivered, order, max) == (Elements(kept), kept)
    decreases |order|
  {
    hide Elements;
    NoRepeatsSize(order);
    if |delivered| > max {
      ElementsTail(order);
      PruneKeepsRecent(delivered - {order[0]}, order[1..], max);
      if |order| - 1 > max {
        assert order[1..][|order| - 1 - max..] == order[|order| - max..];
      }
    }
  }

  lemma ElementsTail(order: seq<string>)
    requires NoRepeats(order) && order != []
    ensures NoRepeats(order[1..]) && Elements(order[1..]) == Elements(order) - {order[0]}
  {
    assert order[0] !in order[1..];
  }

  lemma {:induction false} NoRepeatsSize(order: seq<string>)
    requires NoRepeats(order)
    ensures |Elements(order)| == |order|
  {
    if order != [] {
      NoRepeatsSize(order[1..]);
      assert order[0] !in order[1..];
      assert Elements(order) == Elements(order[1..]) + {order[0]};
    }
  }

  // ----- one step of a run

  function ArrivedAt(e: Event): set<Message> {
    match e
    case Arrive(m) => {m}
    case Forget(_) => {}
  }

  /** What holds along every run. */
  ghost predicate Invariant(s: State, log: seq<Message>, arrived: set<Message>) {
    LogInvariant(s, log, arrived) && BufferInvariant(s, arrived) && s.delivered <= Elements(s.order)
  }

  lemma InvariantStep(s: State, log: seq<Message>, arrived: set<Message>, e: Event)
    requires Invariant(s, log, arrived)
    ensures Invariant(Step(s, e).state, log + Step(s, e).log, arrived + ArrivedAt(e))
  {
    hide AfterIngest, Prune, Freed, Numbered;
    match e
    case Forget(max) =>
      PruneShrinks(s.delivered, s.order, max);
      assert log + [] == log;
      assert arrived + {} == arrived;
      SameLog(s, Step(s, e).state, log, arrived, arrived);
    case Arrive(m) =>
      if Accepts(s, m) {
        IngestAccepted(s, m);
        LogStep(s, log, arrived, m);
        BufferStep(s, arrived, m);
      } else {
        IngestCases(s, m);
        assert log + [] == log;
        SameLog(s, s, log, arrived, arrived + {m});
      }
  }

  lemma SameLog(s: State, s': State, log: seq<Message>, arrived: set<Message>, arrived': set<Message>)
    requires LogInvariant(s, log, arrived) && BufferInvariant(s, arrived)
    requires s'.next == s.next && s'.pending == s.pending && arrived <= arrived'
    ensures LogInvariant(s', log, arrived') && BufferInvariant(s', arrived')
  {
    hide OfSource;
    forall c ensures Numbered(OfSource(log, c), c, arrived') {
      assert Numbered(OfSource(log, c), c, arrived);
    }
  }

  /** What the ids add along every run in which they name their place. */
  ghost predicate IdInvariant(s: State, arrived: set<Message>, place: string -> Place) {
    Placed(arrived, place) && Sound(s, place) && Remembered(s)
  }

  lemma IdStep(s: State, log: seq<Message>, arrived: set<Message>, e: Event, place: string -> Place)
    requires Invariant(s, log, arrived) && IdInvariant(s, arrived, place)
    requires Placed(ArrivedAt(e), place)
    ensures IdInvariant(Step(s, e).state, arrived + ArrivedAt(e), place)
  {
    hide AfterIngest, Prune, Freed;
    match e
    case Forget(max) =>
      PruneShrinks(s.delivered, s.order, max);
      PruneKeepsRecent(s.delivered, s.order, max);
      assert arrived + {} == arrived;
    case Arrive(m) =>
      assert m in ArrivedAt(e);
      if Accepts(s, m) {
        IngestAccepted(s, m);
        SoundStep(s, arrived, m, place);
      } else {
        IngestCases(s, m);
      }
  }

  // ----- whole runs

  lemma {:induction false} RunKeeps(s: State, log: seq<Message>, arrived: set<Message>, events: seq<Event>)
    requires Invariant(s, log, arrived)
    ensures Invariant(Run(s, events).state, log + Run(s, events).log, arrived + Arrivals(events))
    decreases |events|
  {
    hide Step, Invariant;
    if events == [] {
      assert log + [] == log && arrived + Arrivals(events) == arrived;
    } else {
      var first := Step(s, events[0]);
      var rest := Run(first.state, events[1..]);
      InvariantStep(s, log, arrived, events[0]);
      RunKeeps(first.state, log + first.log, arrived + ArrivedAt(events[0]), events[1..]);
      assert (log + first.log) + rest.log == log + (first.log + rest.log);
      assert arrived + ArrivedAt(events[0]) + Arrivals(events[1..]) == arrived + Arrivals(events);
    }
  }

  lemma {:induction false} RunKeepsIds(s: State, log: seq<Message>, arrived: set<Message>, events: seq<Event>,
                                       place: string -> Place)
    requires Invariant(s, log, arrived) && IdInvariant(s, arrived, place)
    requires Placed(Arrivals(events), place)
    ensures IdInvariant(Run(s, events).state, arrived + Arrivals(events), place)
    decreases |events|
  {
    hide Step, Invariant, IdInvariant;
    if events == [] {
      assert arrived + Arrivals(events) == arrived;
    } else {
      var first := Step(s, events[0]);
      var arrived' := arrived + ArrivedAt(events[0]);
      assert arrived' + Arrivals(events[1..]) == arrived + Arrivals(events);
      assert ArrivedAt(events[0]) <= Arrivals(events);
      InvariantStep(s, log, arrived, events[0]);
      IdStep(s, log, arrived, events[0], place);
      RunKeepsIds(first.state, log + first.log, arrived', events[1..], place);
    }
  }

  lemma InitialInvariant()
    ensures Invariant(INITIAL, [], {})
    ensures forall place: string -> Place :: IdInvariant(INITIAL, {}, place)
  {
  }

  /** In every run, whatever the ids: the messages delivered for a source carry the numbers 0, 1, 2, ...
      without gap or repeat, each of them did arrive, and the next one expected is their count. */
  lemma InOrderDelivery(events: seq<Event>, source: string)
    ensures var o := Run(INITIAL, events);
            && Numbered(OfSource(o.log, source), source, Arrivals(events))
            && |OfSource(o.log, source)| == Expected(o.state, source)
  {
    InitialInvariant();
    RunKeeps(INITIAL, [], {}, events);
    assert {} + Arrivals(events) == Arrivals(events);
    assert [] + Run(INITIAL, events).log == Run(INITIAL, events).log;
  }

  // ----- when nothing is held back

  /** A message is due when all the earlier numbers of its source are among the arrivals. */
  ghost predicate Due(all: set<Message>, m: Message) {
    m in all && forall k :: 0 <= k < m.sequence ==> Occupied(all, m.source, k)
  }

  ghost predicate Occupied(all: set<Message>, source: string, k: nat) {
    exists m :: m in all && PlaceOf(m) == (source, k)
  }

  ghost predicate DueIdsDiffer(all: set<Message>) {
    forall m, m' :: Due(all, m) && Due(all, m') && m.id == m'.id ==> m == m'
  }

  /** The delivered messages of every source are the longest gap-free run of numbers that arrived:
      the next number did not arrive. (That there is no gap holds always, by `InOrderDelivery`.) */
  ghost predicate DeliversAllDue(events: seq<Event>) {
    forall c :: !Occupied(Arrivals(events), c, |OfSource(Run(INITIAL, events).log, c)|)
  }

  /** Ids in the replay memory are those of due messages already delivered. */
  ghost predicate MemoryDue(s: State, all: set<Message>) {
    forall id :: id in s.delivered ==> exists m :: Remembers(s, all, id, m)
  }

  ghost predicate Remembers(s: State, all: set<Message>, id: string, m: Message) {
    Due(all, m) && m.id == id && m.sequence < Expected(s, m.source)
  }

  /** No due arrival has been lost: it is delivered or buffered. */
  ghost predicate DueKept(s: State, arrived: set<Message>, all: set<Message>) {
    forall m :: m in arrived && Due(all, m) && m.sequence >= Expected(s, m.source) ==>
      PlaceOf(m) in s.pending && s.pending[PlaceOf(m)] == m
  }

  lemma FreedAreDue(s: State, log: seq<Message>, arrived: set<Message>, m: Message, all: set<Message>, k: nat)
    requires Invariant(s, log, arrived) && Accepts(s, m) && arrived + {m} <= all
    requires k < |Freed(s, m).out|
    ensures Due(all, Freed(s, m).out[k])
  {
    hide Freed, OfSource;
    var (e, out) := (Expected(s, m.source), Freed(s, m).out);
    FreedMessages(s, m, arrived);
    assert PlaceOf(out[k]) == (m.source, e + k);
    var d := OfSource(log, m.source);
    assert Numbered(d, m.source, arrived);
    forall j | 0 <= j < out[k].sequence ensures Occupied(all, out[k].source, j) {
      if j < e {
        assert d[j] in all && PlaceOf(d[j]) == (m.source, j);
      } else {
        assert out[j - e] in all && PlaceOf(out[j - e]) == (m.source, j);
      }
    }
  }

  lemma MemoryStep(s: State, log: seq<Message>, arrived: set<Message>, m: Message, all: set<Message>)
    requires Invariant(s, log, arrived) && Accepts(s, m) && arrived + {m} <= all && MemoryDue(s, all)
    ensures MemoryDue(Accepted(s, m, Freed(s, m)), all)
  {
    hide Freed, Due, LogInvariant, BufferInvariant;
    var out := Freed(s, m).out;
    var s' := Accepted(s, m, Freed(s, m));
    forall id | id in s'.delivered ensures exists m' :: Remembers(s', all, id, m') {
      if id in s.delivered {
        var m' :| Remembers(s, all, id, m');
        assert Remembers(s', all, id, m');
      } else {
        var k :| 0 <= k < |out| && Ids(out)[k] == id;
        FreedAreDue(s, log, arrived, m, all, k);
        FreedMessages(s, m, arrived);
        assert PlaceOf(out[k]) == (m.source, Expected(s, m.source) + k);
        assert Remembers(s', all, id, out[k]);
      }
    }
  }

  lemma DueKeptStep(s: State, arrived: set<Message>, m: Message, all: set<Message>)
    requires Accepts(s, m) && DueKept(s, arrived, all)
    requires arrived + {m} <= all && OnePerPlace(all)
    ensures DueKept(Accepted(s, m, Freed(s, m)), arrived + {m}, all)
  {
    hide Drain, Due;
    LeavesSpec(s.pending[PlaceOf(m) := m], m.source, Expected(s, m.source));
  }

  lemma DueStep(s: State, log: seq<Message>, arrived: set<Message>, e: Event, all: set<Message>)
    requires Invariant(s, log, arrived) && MemoryDue(s, all) && DueKept(s, arrived, all)
    requires arrived + ArrivedAt(e) <= all && OnePerPlace(all) && DueIdsDiffer(all)
    ensures MemoryDue(Step(s, e).state, all) && DueKept(Step(s, e).state, arrived + ArrivedAt(e), all)
  {
    hide AfterIngest, Prune, Freed, Due, OnePerPlace, LogInvariant, BufferInvariant;
    match e
    case Forget(max) =>
      PruneShrinks(s.delivered, s.order, max);
      var s' := Step(s, e).state;
      forall id | id in s'.delivered ensures exists m :: Remembers(s', all, id, m) {
        var m :| Remembers(s, all, id, m);
        assert Remembers(s', all, id, m);
      }
    case Arrive(m) =>
      if Accepts(s, m) {
        IngestAccepted(s, m);
        MemoryStep(s, log, arrived, m, all);
        DueKeptStep(s, arrived, m, all);
      } else {
        IngestCases(s, m);
        if m.id in s.delivered && Due(all, m) {
          var m' :| Remembers(s, all, m.id, m');
          assert m == m';
        }
      }
  }

  lemma {:induction false} RunKeepsDue(s: State, log: seq<Message>, arrived: set<Message>, events: seq<Event>,
                                       all: set<Message>)
    requires Invariant(s, log, arrived) && MemoryDue(s, all) && DueKept(s, arrived, all)
    requires arrived + Arrivals(events) <= all && OnePerPlace(all) && DueIdsDiffer(all)
    ensures DueKept(Run(s, events).state, arrived + Arrivals(events), all)
    decreases |events|
  {
    hide Step, Invariant, MemoryDue, DueKept, OnePerPlace, DueIdsDiffer;
    if events == [] {
      assert arrived + Arrivals(events) == arrived;
    } else {
      var first := Step(s, events[0]);
      var arrived' := arrived + ArrivedAt(events[0]);
      assert arrived' + Arrivals(events[1..]) == arrived + Arrivals(events);
      InvariantStep(s, log, arrived, events[0]);
      DueStep(s, log, arrived, events[0], all);
      RunKeepsDue(first.state, log + first.log, arrived', events[1..], all);
    }
  }

  lemma AllDueDelivered(events: seq<Event>)
    requires OnePerPlace(Arrivals(events)) && DueIdsDiffer(Arrivals(events))
    ensures DeliversAllDue(events)
  {
    hide Run, OfSource, Arrivals, DueIdsDiffer;
    var all := Arrivals(events);
    var o := Run(INITIAL, events);
    InitialInvariant();
    RunKeeps(INITIAL, [], {}, events);
    RunKeepsDue(INITIAL, [], {}, events, all);
    assert {} + all == all && [] + o.log == o.log;
    forall c ensures !Occupied(all, c, |OfSource(o.log, c)|) {
      assert Numbered(OfSource(o.log, c), c, all);
      NextNotOccupied(o.state, OfSource(o.log, c), all, c);
    }
  }

  lemma NextNotOccupied(s: State, d: seq<Message>, all: set<Message>, c: string)
    requires Numbered(d, c, all) && |d| == Expected(s, c)
    requires BufferInvariant(s, all) && DueKept(s, all, all)
    ensures !Occupied(all, c, |d|)
  {
    forall m | m in all && PlaceOf(m) == (c, |d|) ensures false {
      forall k | 0 <= k < m.sequence ensures Occupied(all, m.source, k) {
        assert d[k] in all && PlaceOf(d[k]) == (c, k);
      }
      assert Due(all, m);
    }
  }

  // ----- and only then: two due messages with one id can always be made to collide

  lemma {:induction false} Listing(all: set<Message>) returns (events: seq<Event>)
    ensures forall e :: e in events ==> e.Arrive?
    ensures Arrivals(events) == all
  {
    events := [];
    if all != {} {
      var m :| m in all;
      var rest := Listing(all - {m});
      events := [Arrive(m)] + rest;
      assert Arrivals(events) == {m} + Arrivals(rest);
    }
  }

  lemma {:induction false} RunConcat(s: State, a: seq<Event>, b: seq<Event>)
    ensures var first := Run(s, a);
            var second := Run(first.state, b);
            Run(s, a + b) == Outcome(second.state, first.log + second.log)
    decreases |a|
  {
    hide Step;
    if a == [] {
      assert a + b == b;
    } else {
      assert (a + b)[1..] == a[1..] + b;
      RunConcat(Step(s, a[0]).state, a[1..], b);
    }
  }

  /** Without prunes every delivered id stays in the memory. */
  lemma {:induction false} DeliveredStayKnown(s: State, events: seq<Event>)
    requires forall e :: e in events ==> e.Arrive?
    ensures s.delivered <= Run(s, events).state.delivered
    ensures forall m :: m in Run(s, events).log ==> m.id in Run(s, events).state.delivered
    decreases |events|
  {
    hide AfterIngest, Drain;
    if events != [] {
      var m := events[0].message;
      IngestCases(s, m);
      var first := Step(s, events[0]);
      forall m' | m' in first.log ensures m'.id in first.state.delivered {
        var k :| 0 <= k < |first.log| && first.log[k] == m';
        assert Ids(first.log)[k] == m'.id;
      }
      DeliveredStayKnown(first.state, events[1..]);
    }
  }

  lemma {:induction false} InSource(log: seq<Message>, source: string, m: Message)
    ensures m in OfSource(log, source) <==> m in log && m.source == source
  {
    if log != [] {
      InSource(log[1..], source, m);
    }
  }

  /** A run that delivers all that is due delivers every due message. */
  lemma DueDelivered(events: seq<Event>, m: Message)
    requires DeliversAllDue(events) && OnePerPlace(Arrivals(events)) && Due(Arrivals(events), m)
    ensures m in Run(INITIAL, events).log
  {
    hide Run, OfSource;
    var log := Run(INITIAL, events).log;
    var d := OfSource(log, m.source);
    InOrderDelivery(events, m.source);
    assert !Occupied(Arrivals(events), m.source, |d|);
    assert Occupied(Arrivals(events), m.source, m.sequence);
    assert m.sequence < |d|;
    assert PlaceOf(d[m.sequence]) == PlaceOf(m);
    assert d[m.sequence] == m;
    InSource(log, m.source, m);
  }

  /** Feed everything but `m'` first: `m` is then delivered before `m'` comes, and `m'` is refused. */
  lemma Collision(all: set<Message>, m: Message, m': Message) returns (events: seq<Event>)
    requires OnePerPlace(all) && Due(all, m) && Due(all, m') && m.id == m'.id
    requires m.source != m'.source || m.sequence < m'.sequence
    ensures Arrivals(events) == all && !DeliversAllDue(events)
  {
    hide Run, OfSource, Step;
    var before := Listing(all - {m'});
    events := before + [Arrive(m')];
    assert Arrivals(events) == Arrivals(before) + {m'} == all;
    RunConcat(INITIAL, before, [Arrive(m')]);
    var o := Run(INITIAL, before);
    SingleStep(o.state, m');
    if DeliversAllDue(events) {
      DueDelivered(events, m);
      DueDelivered(events, m');
      InitialInvariant();
      RunKeeps(INITIAL, [], {}, before);
      LastStepDelivers(o.state, [] + o.log, all - {m'}, m', m);
      DeliveredStayKnown(INITIAL, before);
      IngestCases(o.state, m');
      InOrderDelivery(before, m'.source);
      InSource(o.log, m'.source, m');
    }
  }

  lemma SingleStep(s: State, m: Message)
    ensures Run(s, [Arrive(m)]).log == AfterIngest(s, m).1
  {
    hide AfterIngest;
    assert [Arrive(m)][1..] == [];
    assert Run(AfterIngest(s, m).0, []).log == [];
  }

  /** What an arrival sets free comes from its own source and does not precede it. */
  lemma LastStepDelivers(s: State, log: seq<Message>, arrived: set<Message>, m': Message, m: Message)
    requires BufferInvariant(s, arrived)
    requires m.source != m'.source || m.sequence < m'.sequence
    ensures m !in AfterIngest(s, m').1
  {
    hide AfterIngest, Drain;
    IngestCases(s, m');
    if Accepts(s, m') {
      var e := Expected(s, m'.source);
      FreedMessages(s, m', arrived);
      DrainsOutSpec(s.pending[PlaceOf(m') := m'], m'.source, e);
      var out := Freed(s, m').out;
      if out != [] {
        assert At(s.pending[PlaceOf(m') := m'], m'.source, e + 0, out[0]);
        assert (m'.source, e) !in s.pending;
      }
    }
  }

  /** Over all runs with the same arrivals, everything due is delivered in every one of them exactly
      when no two due messages share an id. */
  lemma DeliveryExactlyWhenIdsDiffer(all: set<Message>)
    requires OnePerPlace(all)
    ensures (forall events :: Arrivals(events) == all ==> DeliversAllDue(events)) <==> DueIdsDiffer(all)
  {
    hide Run, DeliversAllDue;
    if DueIdsDiffer(all) {
      forall events | Arrivals(events) == all ensures DeliversAllDue(events) {
        AllDueDelivered(events);
      }
    } else {
      var m, m' :| Due(all, m) && Due(all, m') && m.id == m'.id && m != m';
      if m.source != m'.source || m.sequence < m'.sequence {
        var events := Collision(all, m, m');
      } else {
        var events := Collision(all, m', m);
      }
    }
  }

  /** So then neither the order of arrival, nor repetition, nor pruning matters. */
  lemma SameArrivalsSameDeliveries(events: seq<Event>, events': seq<Event>, source: string)
    requires Arrivals(events) == Arrivals(events')
    requires OnePerPlace(Arrivals(events)) && DueIdsDiffer(Arrivals(events))
    ensures OfSource(Run(INITIAL, events).log, source) == OfSource(Run(INITIAL, events').log, source)
  {
    hide Run, OfSource, Arrivals;
    var d := OfSource(Run(INITIAL, events).log, source);
    var d' := OfSource(Run(INITIAL, events').log, source);
    AllDueDelivered(events);
    AllDueDelivered(events');
    InOrderDelivery(events, source);
    InOrderDelivery(events', source);
    NotLonger(d, d', source, Arrivals(events));
    NotLonger(d', d, source, Arrivals(events));
    forall k | 0 <= k < |d| ensures d[k] == d'[k] {
      assert PlaceOf(d[k]) == PlaceOf(d'[k]);
    }
  }

  lemma NotLonger(d: seq<Message>, d': seq<Message>, source: string, arrived: set<Message>)
    requires Numbered(d', source, arrived) && !Occupied(arrived, source, |d|)
    ensures |d'| <= |d|
  {
    forall k: nat | k < |d'| ensures Occupied(arrived, source, k) {
      assert d'[k] in arrived && PlaceOf(d'[k]) == (source, k);
    }
  }

  // ----- pruning is invisible

  function WithoutForget(events: seq<Event>): seq<Event> {
    if events == [] then []
    else (if events[0].Arrive? then [events[0]] else []) + WithoutForget(events[1..])
  }

  /** Two states that differ at most in what they remember of delivered ids. */
  ghost predicate SameButMemory(s: State, t: State) {
    s.next == t.next && s.pending == t.pending
  }

  lemma SameStep(s: State, t: State, m: Message, place: string -> Place)
    requires SameButMemory(s, t) && Sound(s, place) && Sound(t, place) && place(m.id) == PlaceOf(m)
    ensures SameButMemory(AfterIngest(s, m).0, AfterIngest(t, m).0)
    ensures AfterIngest(s, m).1 == AfterIngest(t, m).1
  {
    hide AfterIngest, Drain;
    IngestCases(s, m);
    IngestCases(t, m);
  }

  lemma {:induction false} PruningInvisible(s: State, t: State, log: seq<Message>, log': seq<Message>,
                                            arrived: set<Message>, events: seq<Event>, place: string -> Place)
    requires SameButMemory(s, t)
    requires Invariant(s, log, arrived) && IdInvariant(s, arrived, place)
    requires Invariant(t, log', arrived) && IdInvariant(t, arrived, place)
    requires Placed(Arrivals(events), place)
    ensures Run(s, events).log == Run(t, WithoutForget(events)).log
    decreases |events|
  {
    hide Invariant, AfterIngest, Prune;
    if events != [] {
      var e := events[0];
      var first := Step(s, e);
      var arrived' := arrived + ArrivedAt(e);
      assert ArrivedAt(e) <= Arrivals(events);
      assert Arrivals(events[1..]) <= Arrivals(events);
      InvariantStep(s, log, arrived, e);
      IdStep(s, log, arrived, e, place);
      match e
      case Forget(max) =>
        assert arrived' == arrived;
        assert WithoutForget(events) == WithoutForget(events[1..]);
        assert first.log == [];
        PruningInvisible(first.state, t, log + first.log, log', arrived, events[1..], place);
      case Arrive(m) =>
        var second := Step(t, e);
        assert m in ArrivedAt(e);
        SameStep(s, t, m, place);
        InvariantStep(t, log', arrived, e);
        IdStep(t, log', arrived, e, place);
        assert WithoutForget(events)[0] == e && WithoutForget(events)[1..] == WithoutForget(events[1..]);
        PruningInvisible(first.state, second.state, log + first.log, log' + second.log, arrived', events[1..], place);
    }
  }

  /** A run with prunes anywhere delivers exactly what the same run without them delivers. */
  lemma PrunesChangeNothing(events: seq<Event>, place: string -> Place)
    requires Placed(Arrivals(events), place)
    ensures Run(INITIAL, events).log == Run(INITIAL, WithoutForget(events)).log
  {
    InitialInvariant();
    PruningInvisible(INITIAL, INITIAL, [], [], {}, events, place);
  }

  /** After any run in which ids name their place, pruning keeps exactly the most recent ids. */
  lemma PruneAfterRun(events: seq<Event>, place: string -> Place, max: nat)
    requires Placed(Arrivals(events), place)
    ensures var s := Run(INITIAL, events).state;
            var kept := if |s.order| <= max then s.order else s.order[|s.order| - max..];
            AfterPrune(s, max) == s.(delivered := Elements(kept), order := kept)
  {
    hide Run, Prune, Arrivals;
    InitialInvariant();
    RunKeepsIds(INITIAL, [], {}, events, place);
    var s := Run(INITIAL, events).state;
    PruneKeepsRecent(s.delivered, s.order, max);
  }

  /** A prune comes to find its queue empty with ids still to forget, and clears them all. */
  predicate ReachesClear(delivered: set<string>, order: seq<string>, max: nat)
    decreases |order|
  {
    |delivered| > max && (order == [] || ReachesClear(delivered - {order[0]}, order[1..], max))
  }

  lemma {:induction false} QueueLastsOut(delivered: set<string>, order: seq<string>, max: nat)
    requires delivered <= Elements(order)
    ensures !ReachesClear(delivered, order, max)
    decreases |order|
  {
    if |delivered| > max {
      SomeQueued(delivered, order);
      assert delivered - {order[0]} <= Elements(order[1..]);
      QueueLastsOut(delivered - {order[0]}, order[1..], max);
    }
  }

  /** In no run does a prune reach the branch that clears the memory: it leaves `max` ids or all there
      were. */
  lemma PruneAfterAnyRun(events: seq<Event>, max: nat)
    ensures var s := Run(INITIAL, events).state;
            && !ReachesClear(s.delivered, s.order, max)
            && |AfterPrune(s, max).delivered| == if |s.delivered| <= max then |s.delivered| else max
  {
    hide Run;
    InitialInvariant();
    RunKeeps(INITIAL, [], {}, events);
    var s := Run(INITIAL, events).state;
    PruneNeverClears(s.delivered, s.order, max);
    QueueLastsOut(s.delivered, s.order, max);
  }

  // ----- what is remembered

  ghost predicate EndsWith(all: seq<string>, end: seq<string>) {
    |end| <= |all| && all[|all| - |end|..] == end
  }

  lemma {:induction false} PruneDropsFront(delivered: set<string>, order: seq<string>, max: nat)
    ensures EndsWith(order, Prune(delivered, order, max).1)
    decreases |order|
  {
    if |delivered| > max && order != [] { PruneDropsFront(delivered - {order[0]}, order[1..], max); }
  }

  lemma {:induction false} OrderEndsLog(s: State, ids: seq<string>, events: seq<Event>)
    requires EndsWith(ids, s.order)
    ensures EndsWith(ids + Ids(Run(s, events).log), Run(s, events).state.order)
    decreases |events|
  {
    hide AfterIngest, Prune, Drain;
    if events == [] {
      assert ids + Ids(Run(s, events).log) == ids;
    } else {
      var first := Step(s, events[0]);
      OrderStep(s, ids, events[0]);
      OrderEndsLog(first.state, ids + Ids(first.log), events[1..]);
      var rest := Run(first.state, events[1..]).log;
      assert Ids(first.log + rest) == Ids(first.log) + Ids(rest);
      assert ids + Ids(first.log) + Ids(rest) == ids + Ids(first.log + rest);
    }
  }

  lemma OrderStep(s: State, ids: seq<string>, e: Event)
    requires EndsWith(ids, s.order)
    ensures EndsWith(ids + Ids(Step(s, e).log), Step(s, e).state.order)
  {
    hide AfterIngest, Prune, Drain;
    match e
    case Arrive(m) =>
      IngestCases(s, m);
      var out := Step(s, e).log;
      assert Ids([]) == [];
      assert ids + [] == ids;
      assert Step(s, e).state.order == s.order + Ids(out);
      var all := ids + Ids(out);
      assert all[|all| - |s.order + Ids(out)|..] == ids[|ids| - |s.order|..] + Ids(out);
    case Forget(max) =>
      PruneDropsFront(s.delivered, s.order, max);
      assert Ids([]) == [] && ids + [] == ids;
  }

  /** In every run the memory is of the last ids delivered, in the order of their delivery. */
  lemma MemoryIsOfTheLastDelivered(events: seq<Event>)
    ensures EndsWith(Ids(Run(INITIAL, events).log), Run(INITIAL, events).state.order)
  {
    hide Run;
    OrderEndsLog(INITIAL, [], events);
    assert [] + Ids(Run(INITIAL, events).log) == Ids(Run(INITIAL, events).log);
  }

  // ----- outbound numbers

  function Count(dests: seq<string>, dest: string): nat {
    if dests == [] then 0
    else Count(dests[..|dests| - 1], dest) + if dests[|dests| - 1] == dest then 1 else 0
  }

  function AfterSending(s: State, dests: seq<string>): State {
    if dests == [] then s else AfterOutbound(AfterSending(s, dests[..|dests| - 1]), dests[|dests| - 1]).0
  }

  /** From the start, the number of the next message to a destination is how many went there before; numbering
      touches nothing else. */
  lemma {:induction false} OutboundNumbersCountUp(dests: seq<string>, dest: string)
    ensures AfterOutbound(AfterSending(INITIAL, dests), dest).1 == Count(dests, dest)
    ensures AfterSending(INITIAL, dests) == INITIAL.(outbound := AfterSending(INITIAL, dests).outbound)
    decreases |dests|
  {
    if dests != [] {
      var n := |dests| - 1;
      OutboundNumbersCountUp(dests[..n], dest);
      OutboundNumbersCountUp(dests[..n], dests[n]);
    }
  }
}
