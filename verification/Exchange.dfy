/** Logins in flight: hosts, the fabric, the manager's own login, and any number of
    processor threads, all interleaved. A request is always in exactly one place; a step
    moves it on. Threads act on frames and on the table only: the request that travels with
    them is the specification's own bookkeeping. */
module Exchange {
  import opened Bytes
  import opened RequestMap
  import opened LoginFrames
  import opened Wrappers

  datatype Origin =
    | Host(flogi: seq<byte>, mac: seq<byte>, flags: nat, vhbaMac: seq<byte>)
    | Manager(flogi: seq<byte>, localMac: seq<byte>)

  /** `id` numbers the requests; no step looks at it. */
  datatype Request = Request(id: nat, origin: Origin)

  datatype Place =
    | Queued                                               // FLOGI in the task queue
    | Adding(thread: nat)                                  // taken, not yet in the table
    | Sending(thread: nat, generated: nat)                 // in the table, not yet sent
    | OnWire(frame: seq<byte>)                             // request on its way to the fabric
    | Answered(frame: seq<byte>)                           // reply in the task queue
    | Looking(thread: nat, frame: seq<byte>)               // reply taken, entry not yet looked up
    | Holding(thread: nat, frame: seq<byte>, entry: Entry) // entry looked up, host not yet answered
    | Freeing(thread: nat, frame: seq<byte>)               // host answered, slot not yet freed

  datatype Item = Item(req: Request, at: Place)

  /** A table slot; `owner` is again bookkeeping. */
  datatype Slot = Slot(entry: Entry, owner: Request)

  /** One response sent to a host, with the reply it was made from. */
  datatype Delivery = Delivery(req: Request, reply: seq<byte>, mac: seq<byte>, flags: nat, desc: seq<byte>)

  /** A request whose exchange is over, with the reply that ended it. */
  datatype Closed = Closed(req: Request, reply: seq<byte>)

  datatype State = State(
    items: set<Item>,
    table: MapState<Slot>,
    gatewayId: nat,
    delivered: seq<Delivery>,
    bypassed: set<Request>,   // history: replies routed past the table
    closed: set<Closed>,      // history: slots freed
    nextId: nat,
    halted: bool)

  datatype Step =
    | HostLogin(origin: Origin)              // a host's FLOGI arrives
    | ManagerLogin(thread: nat, flogi: seq<byte>, localMac: seq<byte>)
    | Take(item: Item, thread: nat)          // an idle thread takes a task
    | AddSlot(item: Item)
    | Send(item: Item)
    | Reply(item: Item, frame: seq<byte>)    // the fabric answers a request
    | LookUp(item: Item)
    | Answer(item: Item)
    | Free(item: Item)

  // ---- what each step does ----

  function EntryFor(o: Origin): Entry
    requires |o.flogi| == FLOGI_BYTES
  {
    match o
    case Host(flogi, mac, flags, vhbaMac) => Entry(OxidBytes(flogi), mac, flags, vhbaMac, FROM_HOST)
    case Manager(flogi, mac) => Entry(OxidBytes(flogi), mac, 0, mac, FROM_VFM)
  }

  function Outgoing(o: Origin, generated: nat): (r: seq<byte>)
    requires |o.flogi| == FLOGI_BYTES && generated < LEN
    ensures |r| == FLOGI_BYTES
  {
    if o.Host? then FdiscFrame(o.flogi, generated) else WithOxid(o.flogi, Be16(generated))
  }

  predicate OnThread(p: Place) {
    p.Adding? || p.Sending? || p.Looking? || p.Holding? || p.Freeing?
  }

  predicate Idle(s: State, thread: nat) {
    forall i :: i in s.items && OnThread(i.at) ==> i.at.thread != thread
  }

  /** A reply has the exchange identifier of its request, and is long enough for its kind. */
  predicate AnswersTo(reply: seq<byte>, request: seq<byte>)
    requires |request| == FLOGI_BYTES
  {
    && |reply| >= REJECT_BYTES
    && OxidBytes(reply) == OxidBytes(request)
    && (reply[LS_COMMAND] == LS_ACC ==> |reply| >= FLOGI_BYTES)
  }

  predicate Enabled(s: State, step: Step) {
    && !s.halted
    && match step
       case HostLogin(o) => o.Host? && |o.flogi| == FLOGI_BYTES
       case ManagerLogin(t, flogi, _) => Idle(s, t) && |flogi| == FLOGI_BYTES
       case Take(i, t) => i in s.items && Idle(s, t) && (i.at.Queued? || i.at.Answered?)
       case AddSlot(i) => i in s.items && i.at.Adding? && s.table.Valid() && |i.req.origin.flogi| == FLOGI_BYTES
       case Send(i) => i in s.items && i.at.Sending? && i.at.generated < LEN && |i.req.origin.flogi| == FLOGI_BYTES
       case Reply(i, frame) => i in s.items && i.at.OnWire? && |i.at.frame| == FLOGI_BYTES
                               && AnswersTo(frame, i.at.frame)
       case LookUp(i) => i in s.items && i.at.Looking? && |i.at.frame| >= REJECT_BYTES
                         && (PastTable(s.gatewayId, i.at.frame) || EntryPresent(s, i.at.frame))
       case Answer(i) => i in s.items && i.at.Holding? && |i.at.frame| >= REJECT_BYTES && |i.at.entry.oxid| == 2
                         && (i.at.frame[LS_COMMAND] == LS_ACC ==> |i.at.frame| >= FLOGI_BYTES)
       case Free(i) => i in s.items && i.at.Freeing? && |i.at.frame| >= REJECT_BYTES
                       && OxidOf(i.at.frame) < LEN && s.table.Valid()
  }

  predicate EntryPresent(s: State, frame: seq<byte>)
    requires |frame| >= REJECT_BYTES
  {
    OxidOf(frame) < LEN && s.table.Valid() && s.table.slots[OxidOf(frame)] != None
  }

  function Move(s: State, i: Item, at: Place): State {
    s.(items := s.items - {i} + {Item(i.req, at)})
  }

  function Do(s: State, step: Step): State
    requires Enabled(s, step)
  {
    match step
    case HostLogin(o) =>
      s.(items := s.items + {Item(Request(s.nextId, o), Queued)}, nextId := s.nextId + 1)
    case ManagerLogin(t, flogi, mac) =>
      s.(items := s.items + {Item(Request(s.nextId, Manager(flogi, mac)), Adding(t))}, nextId := s.nextId + 1)
    case Take(i, t) =>
      Move(s, i, if i.at.Queued? then Adding(t) else Looking(t, i.at.frame))
    case AddSlot(i) =>
      Move(s, i, Sending(i.at.thread, Pick(s.table)))
        .(table := Added(s.table, Slot(EntryFor(i.req.origin), i.req)))
    case Send(i) =>
      Move(s, i, OnWire(Outgoing(i.req.origin, i.at.generated)))
    case Reply(i, frame) =>
      Move(s, i, Answered(frame))
    case LookUp(i) =>
      if PastTable(s.gatewayId, i.at.frame) then s.(items := s.items - {i}, bypassed := s.bypassed + {i.req})
      else Move(s, i, Holding(i.at.thread, i.at.frame, s.table.slots[OxidOf(i.at.frame)].value.entry))
    case Answer(i) =>
      AnswerHost(s, i)
    case Free(i) =>
      s.(items := s.items - {i}, table := Removed(s.table, OxidOf(i.at.frame)),
         closed := s.closed + {Closed(i.req, i.at.frame)})
  }

  /** The manager keeps its address or stops; a host gets its response, if the reply is an
      acceptance or a rejection. */
  function AnswerHost(s: State, i: Item): State
    requires i.at.Holding? && |i.at.frame| >= REJECT_BYTES && |i.at.entry.oxid| == 2
    requires i.at.frame[LS_COMMAND] == LS_ACC ==> |i.at.frame| >= FLOGI_BYTES
  {
    var frame, e := i.at.frame, i.at.entry;
    var next := Move(s, i, Freeing(i.at.thread, frame));
    if e.flag == FROM_VFM then
      if frame[LS_COMMAND] == LS_RJT then s.(halted := true)
      else next.(gatewayId := FromBe24(DestBytes(frame)))
    else if frame[LS_COMMAND] == LS_ACC || frame[LS_COMMAND] == LS_RJT then
      var desc := ResponseDesc(frame, e.oxid, frame[LS_COMMAND] == LS_ACC);
      next.(delivered := s.delivered + [Delivery(i.req, frame, e.mac, SetF(e.ctrlFlags), desc)])
    else next
  }

  function Initial(): State {
    State({}, MapState(seq(LEN, _ => None), 1), 0, [], {}, {}, 0, false)
  }

  // ---- runs ----

  /** Each step of the run is enabled, and no add meets a full table. */
  predicate Legal(s: State, steps: seq<Step>)
    decreases |steps|
  {
    steps == []
    || (Enabled(s, steps[0]) && (steps[0].AddSlot? ==> s.table.HasFree())
        && Legal(Do(s, steps[0]), steps[1..]))
  }

  function After(s: State, steps: seq<Step>): State
    requires Legal(s, steps)
    decreases |steps|
  {
    if steps == [] then s else After(Do(s, steps[0]), steps[1..])
  }

  lemma StepFirst(s: State, step: Step, rest: seq<Step>)
    requires Enabled(s, step) && (step.AddSlot? ==> s.table.HasFree()) && Legal(Do(s, step), rest)
    ensures Legal(s, [step] + rest) && After(s, [step] + rest) == After(Do(s, step), rest)
  {
    assert ([step] + rest)[1..] == rest;
  }

  lemma {:induction false} StepLast(s: State, steps: seq<Step>, step: Step)
    requires Legal(s, steps) && Enabled(After(s, steps), step)
    requires step.AddSlot? ==> After(s, steps).table.HasFree()
    ensures Legal(s, steps + [step]) && After(s, steps + [step]) == Do(After(s, steps), step)
    decreases |steps|
  {
    if steps == [] {
      StepFirst(s, step, []);
      assert [] + [step] == [step] + [];
    } else {
      StepLast(Do(s, steps[0]), steps[1..], step);
      StepFirst(s, steps[0], steps[1..] + [step]);
      assert steps + [step] == [steps[0]] + (steps[1..] + [step]);
    }
  }

  // ---- the invariant ----

  /** The identifier under which a request is outstanding, if it is. */
  predicate Outstanding(p: Place) {
    !p.Queued? && !p.Adding?
  }

  predicate WellFormed(i: Item) {
    && |i.req.origin.flogi| == FLOGI_BYTES
    && (i.at.Sending? ==> i.at.generated < LEN)
    && (i.at.OnWire? ==> |i.at.frame| == FLOGI_BYTES)
    && (i.at.Answered? || i.at.Looking? || i.at.Holding? || i.at.Freeing? ==>
          && |i.at.frame| >= REJECT_BYTES
          && (i.at.frame[LS_COMMAND] == LS_ACC ==> |i.at.frame| >= FLOGI_BYTES))
    && (i.at.Holding? ==> i.at.entry == EntryFor(i.req.origin))
  }

  function Generated(p: Place): nat
    requires Outstanding(p) && (p.Sending? || |p.frame| >= REJECT_BYTES)
  {
    if p.Sending? then p.generated else OxidOf(p.frame)
  }

  /** The item's slot holds its own entry. */
  predicate OwnsSlot(table: MapState<Slot>, i: Item) {
    && WellFormed(i)
    && (Outstanding(i.at) ==>
          && 1 <= Generated(i.at) < |table.slots|
          && table.slots[Generated(i.at)] == Some(Slot(EntryFor(i.req.origin), i.req)))
  }

  /** A response went where it should: to the host that asked, under the identifier it
      used, carrying the rest of the fabric's reply. */
  predicate Faithful(d: Delivery) {
    && d.req.origin.Host? && |d.req.origin.flogi| == FLOGI_BYTES
    && |d.reply| >= REJECT_BYTES
    && (d.reply[LS_COMMAND] == LS_ACC || d.reply[LS_COMMAND] == LS_RJT)
    && (d.reply[LS_COMMAND] == LS_ACC ==> |d.reply| >= FLOGI_BYTES)
    && d.mac == d.req.origin.mac
    && d.flags == SetF(d.req.origin.flags)
    && d.desc == ResponseDesc(d.reply, OxidBytes(d.req.origin.flogi), d.reply[LS_COMMAND] == LS_ACC)
  }

  /** Some item in flight is using slot k for this request. */
  ghost predicate UsedBy(items: set<Item>, k: nat, req: Request) {
    exists i :: i in items && i.req == req && Uses(i, k)
  }

  predicate Uses(i: Item, k: nat) {
    WellFormed(i) && Outstanding(i.at) && Generated(i.at) == k
  }

  /** Each item owns the slot of its identifier, and each occupied slot is used by an item in
      flight or was left behind by a reply that went past the table. */
  ghost predicate TableInv(items: set<Item>, table: MapState<Slot>, bypassed: set<Request>) {
    && table.Valid()
    && (forall i :: i in items ==> OwnsSlot(table, i))
    && (forall k :: 0 <= k < LEN && table.slots[k].Some? ==>
          table.slots[k].value.owner in bypassed || UsedBy(items, k, table.slots[k].value.owner))
  }

  /** The request with this number is in flight, went past the table, or is over. */
  ghost predicate Placed(items: set<Item>, bypassed: set<Request>, closed: set<Closed>, id: nat) {
    || (exists i :: i in items && i.req.id == id)
    || (exists r :: r in bypassed && r.id == id)
    || (exists c :: c in closed && c.req.id == id)
  }

  ghost predicate AllPlaced(items: set<Item>, bypassed: set<Request>, closed: set<Closed>, nextId: nat) {
    forall id :: 0 <= id < nextId ==> Placed(items, bypassed, closed, id)
  }

  ghost predicate PlacedOnce(items: set<Item>, bypassed: set<Request>, closed: set<Closed>, nextId: nat) {
    && (forall i :: i in items ==> i.req.id < nextId)
    && (forall r :: r in bypassed ==> r.id < nextId)
    && (forall c :: c in closed ==> c.req.id < nextId)
    && (forall i, j :: i in items && j in items && i.req.id == j.req.id ==> i == j)
    && (forall r, q :: r in bypassed && q in bypassed && r.id == q.id ==> r == q)
    && (forall c, e :: c in closed && e in closed && c.req.id == e.req.id ==> c == e)
    && (forall i, r :: i in items && r in bypassed ==> i.req.id != r.id)
    && (forall i, c :: i in items && c in closed ==> i.req.id != c.req.id)
    && (forall r, c :: r in bypassed && c in closed ==> r.id != c.req.id)
  }

  /** Every request is in exactly one of the three, and there once. */
  ghost predicate IdInv(items: set<Item>, bypassed: set<Request>, closed: set<Closed>, nextId: nat) {
    AllPlaced(items, bypassed, closed, nextId) && PlacedOnce(items, bypassed, closed, nextId)
  }

  /** A host's request whose reply accepts or rejects it. */
  predicate NeedsResponse(req: Request, reply: seq<byte>) {
    && req.origin.Host? && |reply| >= REJECT_BYTES
    && (reply[LS_COMMAND] == LS_ACC || reply[LS_COMMAND] == LS_RJT)
  }

  ghost predicate Responded(delivered: seq<Delivery>, req: Request, reply: seq<byte>) {
    exists d :: d in delivered && d.req == req && d.reply == reply
  }

  /** Each response is right and belongs to a request that was looked up, no request gets two,
      and a host's accepted or rejected request is not let go before it has its response. */
  ghost predicate DeliveryInv(items: set<Item>, bypassed: set<Request>, closed: set<Closed>,
                              delivered: seq<Delivery>, nextId: nat) {
    && (forall d :: d in delivered ==> Faithful(d) && d.req.id < nextId)
    && (forall k, l :: 0 <= k < l < |delivered| ==> delivered[k].req.id != delivered[l].req.id)
    && (forall d, i :: d in delivered && i in items && i.req.id == d.req.id ==>
          i.at.Freeing? && d.req == i.req && d.reply == i.at.frame)
    && (forall d, r :: d in delivered && r in bypassed ==> d.req.id != r.id)
    && (forall d, c :: d in delivered && c in closed && c.req.id == d.req.id ==>
          d.req == c.req && d.reply == c.reply)
    && (forall i :: i in items && i.at.Freeing? && NeedsResponse(i.req, i.at.frame) ==>
          Responded(delivered, i.req, i.at.frame))
    && (forall c :: c in closed && NeedsResponse(c.req, c.reply) ==> Responded(delivered, c.req, c.reply))
  }

  ghost predicate Inv(s: State) {
    && TableInv(s.items, s.table, s.bypassed)
    && IdInv(s.items, s.bypassed, s.closed, s.nextId)
    && DeliveryInv(s.items, s.bypassed, s.closed, s.delivered, s.nextId)
  }

  // ---- where requests are ----

  lemma ArrivalKeepsAllPlaced(s: State, req: Request, at: Place)
    requires AllPlaced(s.items, s.bypassed, s.closed, s.nextId) && req.id == s.nextId
    ensures AllPlaced(s.items + {Item(req, at)}, s.bypassed, s.closed, s.nextId + 1)
  {
    var items := s.items + {Item(req, at)};
    forall id | 0 <= id < s.nextId + 1 ensures Placed(items, s.bypassed, s.closed, id) {
      if id == s.nextId {
        assert Item(req, at) in items;
      } else {
        assert Placed(s.items, s.bypassed, s.closed, id);
        if i :| i in s.items && i.req.id == id {
          assert i in items;
        }
      }
    }
  }

  lemma ArrivalKeepsIds(s: State, req: Request, at: Place)
    requires IdInv(s.items, s.bypassed, s.closed, s.nextId) && req.id == s.nextId
    ensures IdInv(s.items + {Item(req, at)}, s.bypassed, s.closed, s.nextId + 1)
  {
    hide AllPlaced;
    ArrivalKeepsAllPlaced(s, req, at);
  }

  lemma MoveKeepsAllPlaced(s: State, i: Item, at: Place)
    requires AllPlaced(s.items, s.bypassed, s.closed, s.nextId) && i in s.items
    ensures AllPlaced(s.items - {i} + {Item(i.req, at)}, s.bypassed, s.closed, s.nextId)
  {
    var items := s.items - {i} + {Item(i.req, at)};
    forall id | 0 <= id < s.nextId ensures Placed(items, s.bypassed, s.closed, id) {
      assert Placed(s.items, s.bypassed, s.closed, id);
      if u :| u in s.items && u.req.id == id {
        assert (if u == i then Item(i.req, at) else u) in items;
      }
    }
  }

  lemma MoveKeepsIds(s: State, i: Item, at: Place)
    requires IdInv(s.items, s.bypassed, s.closed, s.nextId) && i in s.items
    ensures IdInv(s.items - {i} + {Item(i.req, at)}, s.bypassed, s.closed, s.nextId)
  {
    hide AllPlaced;
    MoveKeepsAllPlaced(s, i, at);
  }

  lemma BypassKeepsAllPlaced(s: State, i: Item)
    requires AllPlaced(s.items, s.bypassed, s.closed, s.nextId) && i in s.items
    ensures AllPlaced(s.items - {i}, s.bypassed + {i.req}, s.closed, s.nextId)
  {
    var items, bypassed := s.items - {i}, s.bypassed + {i.req};
    forall id | 0 <= id < s.nextId ensures Placed(items, bypassed, s.closed, id) {
      assert Placed(s.items, s.bypassed, s.closed, id);
      if u :| u in s.items && u.req.id == id {
        assert u == i || u in items;
        assert i.req in bypassed;
      } else if r :| r in s.bypassed && r.id == id {
        assert r in bypassed;
      }
    }
  }

  lemma BypassKeepsIds(s: State, i: Item)
    requires IdInv(s.items, s.bypassed, s.closed, s.nextId) && i in s.items
    ensures IdInv(s.items - {i}, s.bypassed + {i.req}, s.closed, s.nextId)
  {
    hide AllPlaced;
    BypassKeepsAllPlaced(s, i);
  }

  lemma FreeKeepsAllPlaced(s: State, i: Item, reply: seq<byte>)
    requires AllPlaced(s.items, s.bypassed, s.closed, s.nextId) && i in s.items
    ensures AllPlaced(s.items - {i}, s.bypassed, s.closed + {Closed(i.req, reply)}, s.nextId)
  {
    var items, closed := s.items - {i}, s.closed + {Closed(i.req, reply)};
    forall id | 0 <= id < s.nextId ensures Placed(items, s.bypassed, closed, id) {
      assert Placed(s.items, s.bypassed, s.closed, id);
      if u :| u in s.items && u.req.id == id {
        assert u == i || u in items;
        assert Closed(i.req, reply) in closed;
      } else if c :| c in s.closed && c.req.id == id {
        assert c in closed;
      }
    }
  }

  lemma FreeKeepsIds(s: State, i: Item, reply: seq<byte>)
    requires IdInv(s.items, s.bypassed, s.closed, s.nextId) && i in s.items
    ensures IdInv(s.items - {i}, s.bypassed, s.closed + {Closed(i.req, reply)}, s.nextId)
  {
    hide AllPlaced;
    FreeKeepsAllPlaced(s, i, reply);
  }

  // ---- who has been answered ----

  lemma ArrivalKeepsDeliveries(s: State, req: Request, at: Place)
    requires DeliveryInv(s.items, s.bypassed, s.closed, s.delivered, s.nextId)
    requires req.id == s.nextId && !at.Freeing?
    ensures DeliveryInv(s.items + {Item(req, at)}, s.bypassed, s.closed, s.delivered, s.nextId + 1)
  {}

  /** A request that is not done moves on, and its host has no response yet. */
  lemma MoveKeepsDeliveries(s: State, i: Item, at: Place)
    requires DeliveryInv(s.items, s.bypassed, s.closed, s.delivered, s.nextId)
    requires i in s.items && !i.at.Freeing?
    requires at.Freeing? ==> !NeedsResponse(i.req, at.frame)
    ensures DeliveryInv(s.items - {i} + {Item(i.req, at)}, s.bypassed, s.closed, s.delivered, s.nextId)
  {}

  /** A request is done and its host gets its response, in one step. */
  lemma ResponseKeepsDeliveries(s: State, i: Item, at: Place, d: Delivery)
    requires DeliveryInv(s.items, s.bypassed, s.closed, s.delivered, s.nextId)
    requires IdInv(s.items, s.bypassed, s.closed, s.nextId)
    requires i in s.items && !i.at.Freeing? && at.Freeing?
    requires Faithful(d) && d.req == i.req && d.reply == at.frame
    ensures DeliveryInv(s.items - {i} + {Item(i.req, at)}, s.bypassed, s.closed, s.delivered + [d], s.nextId)
  {
    hide Faithful, NeedsResponse, AllPlaced;
    var items, delivered := s.items - {i} + {Item(i.req, at)}, s.delivered + [d];
    forall k | 0 <= k < |s.delivered| ensures s.delivered[k].req.id != d.req.id {
      assert s.delivered[k] in s.delivered;
    }
    forall req, reply | Responded(s.delivered, req, reply) ensures Responded(delivered, req, reply) {
      var e :| e in s.delivered && e.req == req && e.reply == reply;
      assert e in delivered;
    }
    assert d in delivered && Responded(delivered, i.req, at.frame);
  }

  lemma BypassKeepsDeliveries(s: State, i: Item)
    requires DeliveryInv(s.items, s.bypassed, s.closed, s.delivered, s.nextId)
    requires i in s.items && !i.at.Freeing?
    ensures DeliveryInv(s.items - {i}, s.bypassed + {i.req}, s.closed, s.delivered, s.nextId)
  {}

  lemma FreeKeepsDeliveries(s: State, i: Item)
    requires DeliveryInv(s.items, s.bypassed, s.closed, s.delivered, s.nextId)
    requires i in s.items && i.at.Freeing?
    ensures DeliveryInv(s.items - {i}, s.bypassed, s.closed + {Closed(i.req, i.at.frame)}, s.delivered, s.nextId)
  {}

  // ---- one step ----

  lemma ArrivalKeepsInv(s: State, o: Origin, at: Place)
    requires Inv(s) && |o.flogi| == FLOGI_BYTES && (at.Queued? || at.Adding?)
    ensures Inv(s.(items := s.items + {Item(Request(s.nextId, o), at)}, nextId := s.nextId + 1))
  {
    var req := Request(s.nextId, o);
    hide TableInv, IdInv, DeliveryInv;
    ArrivalKeepsIds(s, req, at);
    ArrivalKeepsTable(s, req, at);
    ArrivalKeepsDeliveries(s, req, at);
  }

  lemma ArrivalKeepsTable(s: State, req: Request, at: Place)
    requires TableInv(s.items, s.table, s.bypassed)
    requires |req.origin.flogi| == FLOGI_BYTES && (at.Queued? || at.Adding?)
    ensures TableInv(s.items + {Item(req, at)}, s.table, s.bypassed)
  {
    var items := s.items + {Item(req, at)};
    forall k | 0 <= k < LEN && s.table.slots[k].Some? && s.table.slots[k].value.owner !in s.bypassed
      ensures UsedBy(items, k, s.table.slots[k].value.owner)
    {
      var i :| i in s.items && i.req == s.table.slots[k].value.owner && Uses(i, k);
      assert i in items;
    }
  }

  /** A request moves to its next place without touching the table. */
  lemma MoveKeepsTable(s: State, i: Item, at: Place)
    requires TableInv(s.items, s.table, s.bypassed) && i in s.items
    requires OwnsSlot(s.table, Item(i.req, at))
    requires Outstanding(i.at) ==> Outstanding(at) && Generated(at) == Generated(i.at)
    ensures TableInv(s.items - {i} + {Item(i.req, at)}, s.table, s.bypassed)
  {
    var items, j := s.items - {i} + {Item(i.req, at)}, Item(i.req, at);
    forall k | 0 <= k < LEN && s.table.slots[k].Some? && s.table.slots[k].value.owner !in s.bypassed
      ensures UsedBy(items, k, s.table.slots[k].value.owner)
    {
      var u :| u in s.items && u.req == s.table.slots[k].value.owner && Uses(u, k);
      if u == i {
        assert j in items && Uses(j, k);
      } else {
        assert u in items;
      }
    }
  }

  lemma MoveKeepsInv(s: State, i: Item, at: Place)
    requires Inv(s) && i in s.items && !i.at.Freeing?
    requires OwnsSlot(s.table, Item(i.req, at))
    requires Outstanding(i.at) ==> Outstanding(at) && Generated(at) == Generated(i.at)
    requires at.Freeing? ==> !NeedsResponse(i.req, at.frame)
    ensures Inv(Move(s, i, at))
  {
    hide TableInv, IdInv, DeliveryInv;
    MoveKeepsTable(s, i, at);
    MoveKeepsIds(s, i, at);
    MoveKeepsDeliveries(s, i, at);
  }

  /** A request enters the table on a free slot, so it takes nobody else's. */
  lemma AddSlotKeepsTable(s: State, i: Item)
    requires TableInv(s.items, s.table, s.bypassed) && Enabled(s, AddSlot(i)) && s.table.HasFree()
    ensures var r := Do(s, AddSlot(i)); TableInv(r.items, r.table, r.bypassed)
  {
    PickIsFreeIff(s.table);
    var r, j := Do(s, AddSlot(i)), Item(i.req, Sending(i.at.thread, Pick(s.table)));
    forall u | u in r.items ensures OwnsSlot(r.table, u) {
      assert u == j || u in s.items;
    }
    forall k | 0 <= k < LEN && r.table.slots[k].Some? && r.table.slots[k].value.owner !in r.bypassed
      ensures UsedBy(r.items, k, r.table.slots[k].value.owner)
    {
      if k == Pick(s.table) {
        assert j in r.items && Uses(j, k);
      } else {
        var u :| u in s.items && u.req == s.table.slots[k].value.owner && Uses(u, k);
        assert u in r.items;
      }
    }
  }

  lemma AddSlotKeepsInv(s: State, i: Item)
    requires Inv(s) && Enabled(s, AddSlot(i)) && s.table.HasFree()
    ensures Inv(Do(s, AddSlot(i)))
  {
    hide TableInv, IdInv, DeliveryInv;
    AddSlotKeepsTable(s, i);
    MoveKeepsIds(s, i, Sending(i.at.thread, Pick(s.table)));
    MoveKeepsDeliveries(s, i, Sending(i.at.thread, Pick(s.table)));
  }

  /** Items leave, and slots only if they were theirs. */
  lemma LeaveKeepsTable(s: State, i: Item, table: MapState<Slot>, bypassed: set<Request>)
    requires Inv(s) && i in s.items && table.Valid() && s.bypassed <= bypassed
    requires Outstanding(i.at)
    requires if i.req in bypassed then table == s.table
             else table.slots == s.table.slots[Generated(i.at) := None]
    ensures TableInv(s.items - {i}, table, bypassed)
  {
    hide DeliveryInv;
    var items := s.items - {i};
    assert OwnsSlot(s.table, i);
    forall u | u in items ensures OwnsSlot(table, u) {
      assert u.req.id != i.req.id && OwnsSlot(s.table, u);
    }
    forall k | 0 <= k < LEN && table.slots[k].Some? && table.slots[k].value.owner !in bypassed
      ensures UsedBy(items, k, table.slots[k].value.owner)
    {
      var u :| u in s.items && u.req == s.table.slots[k].value.owner && Uses(u, k);
      assert u in items;
    }
  }

  /** The reply is answered past the table: its slot is never freed. */
  lemma BypassKeepsInv(s: State, i: Item)
    requires Inv(s) && Enabled(s, LookUp(i)) && PastTable(s.gatewayId, i.at.frame)
    ensures Inv(Do(s, LookUp(i)))
  {
    assert s.table.Valid();
    assert OwnsSlot(s.table, i);
    hide TableInv, IdInv, DeliveryInv;
    LeaveKeepsTable(s, i, s.table, s.bypassed + {i.req});
    BypassKeepsIds(s, i);
    BypassKeepsDeliveries(s, i);
  }

  /** The response made of the entry a thread holds. */
  function ResponseTo(i: Item): Delivery
    requires i.at.Holding? && |i.at.entry.oxid| == 2 && |i.at.frame| >= REJECT_BYTES
    requires i.at.frame[LS_COMMAND] == LS_ACC ==> |i.at.frame| >= FLOGI_BYTES
  {
    var e, frame := i.at.entry, i.at.frame;
    Delivery(i.req, frame, e.mac, SetF(e.ctrlFlags), ResponseDesc(frame, e.oxid, frame[LS_COMMAND] == LS_ACC))
  }

  /** Answering, for a request whose own entry is held. */
  lemma AnswerIs(s: State, i: Item)
    requires Enabled(s, Answer(i)) && |i.req.origin.flogi| == FLOGI_BYTES && i.at.entry == EntryFor(i.req.origin)
    ensures var t, n := Do(s, Answer(i)), Move(s, i, Freeing(i.at.thread, i.at.frame));
      if NeedsResponse(i.req, i.at.frame) then
        t == n.(delivered := s.delivered + [ResponseTo(i)]) && Faithful(ResponseTo(i))
      else
        t == s.(halted := true) || t == n.(gatewayId := t.gatewayId)
  {}

  lemma AnswerKeepsInv(s: State, i: Item)
    requires Inv(s) && Enabled(s, Answer(i))
    ensures Inv(Do(s, Answer(i)))
  {
    var at := Freeing(i.at.thread, i.at.frame);
    assert OwnsSlot(s.table, i) && OwnsSlot(s.table, Item(i.req, at)) && i.at.entry == EntryFor(i.req.origin);
    hide TableInv, IdInv, DeliveryInv, OwnsSlot, Do, EntryFor, Faithful;
    AnswerIs(s, i);
    if NeedsResponse(i.req, i.at.frame) {
      MoveKeepsTable(s, i, at);
      MoveKeepsIds(s, i, at);
      ResponseKeepsDeliveries(s, i, at, ResponseTo(i));
    } else {
      MoveKeepsInv(s, i, at);
    }
  }

  /** Only the request's own slot is freed. */
  lemma FreeKeepsInv(s: State, i: Item)
    requires Inv(s) && Enabled(s, Free(i))
    ensures Inv(Do(s, Free(i)))
  {
    assert OwnsSlot(s.table, i);
    AddedAndRemovedKeepValid(s.table, Slot(EntryFor(i.req.origin), i.req), OxidOf(i.at.frame));
    assert i.req !in s.bypassed;
    hide TableInv, IdInv, DeliveryInv;
    LeaveKeepsTable(s, i, Removed(s.table, OxidOf(i.at.frame)), s.bypassed);
    FreeKeepsIds(s, i, i.at.frame);
    FreeKeepsDeliveries(s, i);
  }

  lemma TakeKeepsInv(s: State, i: Item, thread: nat)
    requires Inv(s) && Enabled(s, Take(i, thread))
    ensures Inv(Do(s, Take(i, thread)))
  {
    assert OwnsSlot(s.table, i);
    hide Inv, TableInv, IdInv, DeliveryInv;
    MoveKeepsInv(s, i, if i.at.Queued? then Adding(thread) else Looking(thread, i.at.frame));
  }

  lemma SendKeepsInv(s: State, i: Item)
    requires Inv(s) && Enabled(s, Send(i))
    ensures Inv(Do(s, Send(i)))
  {
    assert OwnsSlot(s.table, i);
    hide Inv, TableInv, IdInv, DeliveryInv, FdiscFrame;
    GeneratedOxid(i.req.origin.flogi, i.at.generated);
    MoveKeepsInv(s, i, OnWire(Outgoing(i.req.origin, i.at.generated)));
  }

  lemma ReplyKeepsInv(s: State, i: Item, frame: seq<byte>)
    requires Inv(s) && Enabled(s, Reply(i, frame))
    ensures Inv(Do(s, Reply(i, frame)))
  {
    assert OwnsSlot(s.table, i);
    hide Inv, TableInv, IdInv, DeliveryInv;
    MoveKeepsInv(s, i, Answered(frame));
  }

  lemma LookUpKeepsInv(s: State, i: Item)
    requires Inv(s) && Enabled(s, LookUp(i))
    ensures Inv(Do(s, LookUp(i)))
  {
    assert OwnsSlot(s.table, i);
    hide Inv, TableInv, IdInv, DeliveryInv;
    if PastTable(s.gatewayId, i.at.frame) {
      BypassKeepsInv(s, i);
    } else {
      MoveKeepsInv(s, i, Holding(i.at.thread, i.at.frame, EntryFor(i.req.origin)));
    }
  }

  lemma LoginKeepsInv(s: State, step: Step)
    requires Inv(s) && Enabled(s, step) && (step.HostLogin? || step.ManagerLogin?)
    ensures Inv(Do(s, step))
  {
    match step
    case HostLogin(o) => ArrivalKeepsInv(s, o, Queued);
    case ManagerLogin(t, flogi, mac) => ArrivalKeepsInv(s, Manager(flogi, mac), Adding(t));
  }

  lemma StepKeepsInv(s: State, step: Step)
    requires Inv(s) && Enabled(s, step) && (step.AddSlot? ==> s.table.HasFree())
    ensures Inv(Do(s, step))
  {
    hide Inv, Enabled, Do;
    match step
    case HostLogin(_) => LoginKeepsInv(s, step);
    case ManagerLogin(_, _, _) => LoginKeepsInv(s, step);
    case AddSlot(i) => AddSlotKeepsInv(s, i);
    case LookUp(i) => LookUpKeepsInv(s, i);
    case Answer(i) => AnswerKeepsInv(s, i);
    case Free(i) => FreeKeepsInv(s, i);
    case Take(i, thread) => TakeKeepsInv(s, i, thread);
    case Send(i) => SendKeepsInv(s, i);
    case Reply(i, frame) => ReplyKeepsInv(s, i, frame);
  }
}
