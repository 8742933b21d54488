/** What holds after every run of hosts, fabric and processor threads in which no add meets a
    full table; and what exactly a full table breaks. */
module ExchangeLaws {
  import opened Bytes
  import opened RequestMap
  import opened LoginFrames
  import opened Exchange
  import opened Wrappers

  ghost predicate Reachable(s: State) {
    exists steps :: Legal(Initial(), steps) && After(Initial(), steps) == s
  }

  lemma {:induction false} RunsKeepInv(s: State, steps: seq<Step>)
    requires Inv(s) && Legal(s, steps)
    ensures Inv(After(s, steps))
    decreases |steps|
  {
    if steps != [] {
      StepKeepsInv(s, steps[0]);
      RunsKeepInv(Do(s, steps[0]), steps[1..]);
    }
  }

  lemma ReachableIsSafe(s: State)
    requires Reachable(s)
    ensures Inv(s)
  {
    var steps :| Legal(Initial(), steps) && After(Initial(), steps) == s;
    RunsKeepInv(Initial(), steps);
  }

  lemma StepStaysReachable(s: State, step: Step)
    requires Reachable(s) && Enabled(s, step) && (step.AddSlot? ==> s.table.HasFree())
    ensures Reachable(Do(s, step))
  {
    var steps :| Legal(Initial(), steps) && After(Initial(), steps) == s;
    StepLast(Initial(), steps, step);
  }

  // ---- identifiers ----

  ghost predicate DistinctOxids(s: State) {
    forall i, j :: i in s.items && j in s.items && i != j
      && WellFormed(i) && WellFormed(j) && Outstanding(i.at) && Outstanding(j.at)
      ==> Generated(i.at) != Generated(j.at)
  }

  /** Any two requests outstanding at the fabric have different exchange identifiers. */
  lemma OxidsAreDistinct(s: State)
    requires Reachable(s)
    ensures DistinctOxids(s)
    ensures forall i :: i in s.items && Outstanding(i.at) ==>
      WellFormed(i) && 1 <= Generated(i.at) < |s.table.slots| == LEN && s.table.slots[Generated(i.at)] != None
  {
    hide DeliveryInv, AllPlaced;
    ReachableIsSafe(s);
    forall i, j | i in s.items && j in s.items && i != j
      && WellFormed(i) && WellFormed(j) && Outstanding(i.at) && Outstanding(j.at)
      ensures Generated(i.at) != Generated(j.at)
    {
      assert OwnsSlot(s.table, i) && OwnsSlot(s.table, j);
    }
  }

  /** What a full table does: the add that takes slot 1 makes two outstanding requests share
      an identifier, unless slot 1 was only waiting for a reply that went past the table.
      That a slot is free is what a caller could check; whose slot 1 is, and that its reply
      went past the table, is history that nobody keeps. */
  lemma AddKeepsOxidsDistinctIff(s: State, i: Item)
    requires Reachable(s) && Enabled(s, AddSlot(i))
    ensures DistinctOxids(Do(s, AddSlot(i)))
        <==> s.table.HasFree() || s.table.slots[1].value.owner in s.bypassed
  {
    hide DeliveryInv, AllPlaced;
    ReachableIsSafe(s);
    PickIsFreeIff(s.table);
    var r, j := Do(s, AddSlot(i)), Item(i.req, Sending(i.at.thread, Pick(s.table)));
    assert OwnsSlot(s.table, i) && j in r.items && Uses(j, Pick(s.table));
    hide TableInv, IdInv, DistinctOxids;
    if s.table.HasFree() {
      StepStaysReachable(s, AddSlot(i));
      OxidsAreDistinct(r);
    } else {
      FullTableReusesSlotOne(s.table, Slot(EntryFor(i.req.origin), i.req));
      FullAddDistinctIff(s, i, r, j);
    }
  }

  lemma FullAddDistinctIff(s: State, i: Item, r: State, j: Item)
    requires Inv(s) && i in s.items && i.at.Adding? && s.table.slots[1].Some?
    requires j.req == i.req && Uses(j, 1) && r.items == s.items - {i} + {j}
    ensures DistinctOxids(r) <==> s.table.slots[1].value.owner in s.bypassed
  {}

  /** Slots 1 to n are taken by logins the fabric has not answered; nothing else goes on. */
  predicate FilledTo(s: State, n: nat) {
    && !s.halted && s.bypassed == {} && s.table.Valid() && s.table.hint == n + 1 <= LEN
    && (forall k :: 1 <= k <= n ==> s.table.slots[k].Some?)
    && (forall k :: n < k < LEN ==> s.table.slots[k].None?)
    && (forall i :: i in s.items ==> i.at.OnWire?)
  }

  /** A login arrives and a thread takes it up. */
  lemma ArriveAndTake(s: State, o: Origin) returns (t: State, i: Item)
    requires Reachable(s) && !s.halted && o.Host? && |o.flogi| == FLOGI_BYTES
    requires forall j :: j in s.items ==> j.at.OnWire?
    ensures Reachable(t) && i in t.items && i.at == Adding(0) && i.req.origin == o
    ensures t.items == s.items + {i}
    ensures t == s.(items := t.items, nextId := t.nextId)
  {
    hide DeliveryInv, AllPlaced;
    ReachableIsSafe(s);
    var a, q := Do(s, HostLogin(o)), Item(Request(s.nextId, o), Queued);
    StepStaysReachable(s, HostLogin(o));
    StepStaysReachable(a, Take(q, 0));
    t, i := Do(a, Take(q, 0)), Item(q.req, Adding(0));
    assert q !in s.items;
  }

  lemma {:induction false} FillTable(n: nat, o: Origin) returns (s: State)
    requires n < LEN && o.Host? && |o.flogi| == FLOGI_BYTES
    ensures Reachable(s) && FilledTo(s, n)
    decreases n
  {
    if n == 0 {
      s := Initial();
      assert Legal(s, []) && After(s, []) == s;
    } else {
      var r := FillTable(n - 1, o);
      var t, i := ArriveAndTake(r, o);
      s := AddAndSend(t, i, n);
    }
  }

  /** The next slot is taken and the request goes out. */
  lemma AddAndSend(t: State, i: Item, n: nat) returns (s: State)
    requires Reachable(t) && i in t.items && i.at == Adding(0) && |i.req.origin.flogi| == FLOGI_BYTES
    requires 1 <= n < LEN && FilledTo(t.(items := t.items - {i}), n - 1)
    ensures Reachable(s) && FilledTo(s, n)
  {
    assert t.table.slots[n].None?;
    StepStaysReachable(t, AddSlot(i));
    var a, j := Do(t, AddSlot(i)), Item(i.req, Sending(0, n));
    StepStaysReachable(a, Send(j));
    s := Do(a, Send(j));
  }

  /** A full table does come about, and then the next login breaks what an exchange identifier
      is for: 1023 unanswered logins, and one more. */
  lemma FullTableIsReachable(o: Origin) returns (s: State, i: Item)
    requires o.Host? && |o.flogi| == FLOGI_BYTES
    ensures Reachable(s) && !s.table.HasFree() && s.bypassed == {}
    ensures Enabled(s, AddSlot(i)) && !DistinctOxids(Do(s, AddSlot(i)))
  {
    var r := FillTable(LEN - 1, o);
    s, i := ArriveAndTake(r, o);
    AddKeepsOxidsDistinctIff(s, i);
  }

  // ---- slots ----

  /** The item a step moves, if it moves one. */
  predicate Moves(step: Step, i: Item) {
    match step
    case HostLogin(_) => false
    case ManagerLogin(_, _, _) => false
    case _ => step.item == i
  }

  /** Slot ownership between threads: whatever the others do, an outstanding request stays
      where it is and its slot keeps its entry. In particular the entry a thread has looked
      up is still the slot's entry when it comes to use it. */
  lemma SlotIsOwned(s: State, step: Step, i: Item)
    requires Reachable(s) && Enabled(s, step) && (step.AddSlot? ==> s.table.HasFree())
    requires i in s.items && Outstanding(i.at) && !Moves(step, i)
    ensures i in Do(s, step).items && WellFormed(i)
    ensures Generated(i.at) < |s.table.slots| == |Do(s, step).table.slots|
    ensures Do(s, step).table.slots[Generated(i.at)] == s.table.slots[Generated(i.at)]
        == Some(Slot(EntryFor(i.req.origin), i.req))
    ensures i.at.Holding? ==> i.at.entry == EntryFor(i.req.origin)
  {
    hide DeliveryInv, IdInv;
    ReachableIsSafe(s);
    StepKeepsInv(s, step);
    assert OwnsSlot(s.table, i);
    assert i in Do(s, step).items;
    assert OwnsSlot(Do(s, step).table, i);
  }

  /** An occupied slot is in use by a request in flight, or was left behind by a reply that
      went past the table: there is no third case, and no slot is both. */
  lemma SlotsAreAccountedFor(s: State, k: nat)
    requires Reachable(s) && k < LEN
    ensures |s.table.slots| == LEN
    ensures s.table.slots[k].Some? ==>
      UsedBy(s.items, k, s.table.slots[k].value.owner) != (s.table.slots[k].value.owner in s.bypassed)
    ensures s.table.slots[k].None? ==> forall req :: !UsedBy(s.items, k, req)
  {
    hide DeliveryInv, AllPlaced;
    ReachableIsSafe(s);
    forall i | i in s.items && Uses(i, k)
      ensures s.table.slots[k] == Some(Slot(EntryFor(i.req.origin), i.req)) && i.req !in s.bypassed
    {
      assert OwnsSlot(s.table, i);
    }
  }

  /** A slot left behind stays occupied for ever, as long as no add meets a full table. */
  lemma {:induction false} LeakedForEver(s: State, steps: seq<Step>, k: nat)
    requires Inv(s) && Legal(s, steps) && k < LEN
    requires s.table.slots[k].Some? && s.table.slots[k].value.owner in s.bypassed
    ensures After(s, steps).table.Valid()
    ensures After(s, steps).table.slots[k] == s.table.slots[k]
    decreases |steps|
  {
    if steps != [] {
      StepKeepsInv(s, steps[0]);
      LeakSurvives(s, steps[0], k);
      LeakedForEver(Do(s, steps[0]), steps[1..], k);
    }
  }

  lemma LeakSurvives(s: State, step: Step, k: nat)
    requires Inv(s) && Enabled(s, step) && (step.AddSlot? ==> s.table.HasFree()) && k < LEN
    requires s.table.slots[k].Some? && s.table.slots[k].value.owner in s.bypassed
    ensures Do(s, step).table.slots[k] == s.table.slots[k]
    ensures s.table.slots[k].value.owner in Do(s, step).bypassed
  {
    hide DeliveryInv, AllPlaced;
    match step
    case AddSlot(_) => PickIsFreeIff(s.table);
    case Free(i) => assert OwnsSlot(s.table, i);
    case _ =>
  }

  /** A rejection of a login as the fabric sends it: from the login server, to no address,
      since none was assigned. */
  function Rejection(request: seq<byte>): (r: seq<byte>)
    requires |request| == FLOGI_BYTES
    ensures |r| == FLOGI_BYTES
  {
    request[..1] + [0, 0, 0] + request[4..5] + [0xff, 0xff, 0xfe] + request[8..LS_COMMAND] + [LS_RJT]
    + request[LS_COMMAND + 1..]
  }

  lemma RejectionReads(request: seq<byte>)
    requires |request| == FLOGI_BYTES
    ensures FromBe24(DestBytes(Rejection(request))) == 0
    ensures FromBe24(SourceBytes(Rejection(request))) == LOGIN_SERVER
    ensures Rejection(request)[LS_COMMAND] == LS_RJT && AnswersTo(Rejection(request), request)
  {
    var r := Rejection(request);
    assert DestBytes(r) == [0, 0, 0] && SourceBytes(r) == [0xff, 0xff, 0xfe];
    assert OxidBytes(r) == [r[16], r[17]] == [request[16], request[17]] == OxidBytes(request);
  }

  /** Slots 1 to n are left behind, and nothing is going on. */
  predicate LeakedTo(s: State, n: nat) {
    && !s.halted && s.items == {} && s.gatewayId == 0 && s.table.Valid() && s.table.hint == n + 1 <= LEN
    && (forall k :: 1 <= k <= n ==> s.table.slots[k].Some? && s.table.slots[k].value.owner in s.bypassed)
    && (forall k :: n < k < LEN ==> s.table.slots[k].None?)
  }

  /** Until its own login is accepted the manager's address is 0, so a host's login, rejected, is
      taken for a request from the fabric. Its slot stays taken and the host is never
      answered. */
  lemma LeakOneMore(start: State, o: Origin, n: nat) returns (s: State, r: Request)
    requires Reachable(start) && 1 <= n < LEN && LeakedTo(start, n - 1)
    requires o.Host? && |o.flogi| == FLOGI_BYTES
    ensures Reachable(s) && LeakedTo(s, n)
    ensures r in s.bypassed && r.origin == o && Unanswered(s, r)
    ensures s.table.slots[n] == Some(Slot(EntryFor(o), r))
  {
    var a, i := ArriveAndTake(start, o);
    r := i.req;
    var b, j := SentOnSlot(a, i, n);
    RejectionReads(j.at.frame);
    s := AnsweredPastTheTable(b, j, Rejection(j.at.frame));
  }

  lemma NothingLeakedYet()
    ensures Reachable(Initial()) && LeakedTo(Initial(), 0)
  {
    assert Legal(Initial(), []) && After(Initial(), []) == Initial();
  }

  /** Slots do get left behind, by the first host's login if it is rejected. */
  lemma LeakIsReachable(o: Origin) returns (s: State, r: Request)
    requires o.Host? && |o.flogi| == FLOGI_BYTES
    ensures Reachable(s) && s.items == {} && !s.halted
    ensures r in s.bypassed && r.origin == o && Unanswered(s, r)
    ensures s.table.Valid() && s.table.slots[1] == Some(Slot(EntryFor(o), r))
  {
    NothingLeakedYet();
    s, r := LeakOneMore(Initial(), o, 1);
  }

  lemma {:induction false} LeakSlots(n: nat, o: Origin) returns (s: State)
    requires n < LEN && o.Host? && |o.flogi| == FLOGI_BYTES
    ensures Reachable(s) && LeakedTo(s, n)
    decreases n
  {
    if n == 0 {
      NothingLeakedYet();
      s := Initial();
    } else {
      var start := LeakSlots(n - 1, o);
      var r;
      s, r := LeakOneMore(start, o, n);
    }
  }

  /** 1023 rejected logins leave the table full although nobody waits for anything. */
  lemma LeaksFillTheTable(o: Origin) returns (s: State)
    requires o.Host? && |o.flogi| == FLOGI_BYTES
    ensures Reachable(s) && s.items == {} && s.table.Valid() && !s.table.HasFree()
  {
    s := LeakSlots(LEN - 1, o);
  }

  /** Into the next free slot and out to the fabric. */
  lemma SentOnSlot(a: State, i: Item, n: nat) returns (b: State, j: Item)
    requires Reachable(a) && a.items == {i} && i.at == Adding(0) && !a.halted
    requires a.table.Valid() && 1 <= n == a.table.hint < LEN && a.table.slots[n] == None
    requires |i.req.origin.flogi| == FLOGI_BYTES
    ensures Reachable(b) && j == Item(i.req, OnWire(Outgoing(i.req.origin, n))) && b.items == {j}
    ensures b == a.(items := {j}, table := Added(a.table, Slot(EntryFor(i.req.origin), i.req)))
    ensures Pick(a.table) == n
  {
    StepStaysReachable(a, AddSlot(i));
    var c, k := Do(a, AddSlot(i)), Item(i.req, Sending(0, n));
    assert c.items == {k};
    StepStaysReachable(c, Send(k));
    b, j := Do(c, Send(k)), Item(i.req, OnWire(Outgoing(i.req.origin, n)));
    assert b.items == {j};
  }

  lemma AnsweredPastTheTable(b: State, j: Item, reply: seq<byte>) returns (s: State)
    requires Reachable(b) && b.items == {j} && j.at.OnWire? && !b.halted
    requires |j.at.frame| == FLOGI_BYTES && AnswersTo(reply, j.at.frame) && PastTable(b.gatewayId, reply)
    ensures Reachable(s) && s == b.(items := {}, bypassed := b.bypassed + {j.req})
    ensures Unanswered(s, j.req)
  {
    ReachableIsSafe(b);
    StepStaysReachable(b, Reply(j, reply));
    var c, k := Do(b, Reply(j, reply)), Item(j.req, Answered(reply));
    assert c.items == {k};
    StepStaysReachable(c, Take(k, 0));
    var d, l := Do(c, Take(k, 0)), Item(j.req, Looking(0, reply));
    assert d.items == {l};
    StepStaysReachable(d, LookUp(l));
    s := Do(d, LookUp(l));
  }

  // ---- replies ----

  /** A reply's exchange is taken up exactly when the reply is not to the manager's own
      address and comes from the login server. */
  lemma ReplyRouting(s: State, i: Item)
    requires Reachable(s) && Enabled(s, LookUp(i))
    ensures (exists j :: j in Do(s, LookUp(i)).items && j.req == i.req && j.at.Holding?)
        <==> FromBe24(DestBytes(i.at.frame)) != s.gatewayId
             && FromBe24(SourceBytes(i.at.frame)) == LOGIN_SERVER
    ensures Do(s, LookUp(i)).table == s.table
  {
    ReachableIsSafe(s);
    var r := Do(s, LookUp(i));
    if !PastTable(s.gatewayId, i.at.frame) {
      var e := s.table.slots[OxidOf(i.at.frame)].value.entry;
      assert Item(i.req, Holding(i.at.thread, i.at.frame, e)) in r.items;
    }
  }

  /** The step the thread of this item takes next. */
  function NextStep(i: Item): Step
    requires OnThread(i.at)
  {
    match i.at
    case Adding(_) => AddSlot(i)
    case Sending(_, _) => Send(i)
    case Looking(_, _) => LookUp(i)
    case Holding(_, _, _) => Answer(i)
    case Freeing(_, _) => Free(i)
  }

  /** No thread ever sticks: the entry it looks up is there (the source remarks that it must
      not be null), its index is inside the table, and the frame is long enough. */
  lemma ThreadsNeverStick(s: State, i: Item)
    requires Reachable(s) && !s.halted && i in s.items && OnThread(i.at)
    ensures Enabled(s, NextStep(i))
    ensures i.at.Looking? ==> EntryPresent(s, i.at.frame)
  {
    hide DeliveryInv, AllPlaced;
    ReachableIsSafe(s);
    assert OwnsSlot(s.table, i);
  }

  /** The response in bytes: sent to the host that asked, holding the fabric's reply with
      only the exchange identifier changed back to the host's own, and ending in the address
      made of the FC map and the identifier the fabric assigned. */
  predicate ReachesHost(d: Delivery) {
    && d.req.origin.Host? && |d.req.origin.flogi| == FLOGI_BYTES
    && d.mac == d.req.origin.mac
    && |d.reply| >= REJECT_BYTES
    && (var n := CopyLength(d.reply[LS_COMMAND] == LS_ACC);
        && |d.desc| == n + 12 && |d.reply| >= n
        && d.desc[4..][..OXID] == d.reply[..OXID]
        && d.desc[4..][OXID..OXID + 2] == OxidBytes(d.req.origin.flogi)
        && d.desc[4..][OXID + 2..n] == d.reply[OXID + 2..n]
        && d.desc[n + 6..] == FC_MAP + DestBytes(d.reply))
  }

  lemma WithOxidParts(frame: seq<byte>, oxid: seq<byte>, n: nat)
    requires OXID + 2 <= n <= |frame| && |oxid| == 2
    ensures WithOxid(frame, oxid)[..n] == frame[..OXID] + oxid + frame[OXID + 2..n]
  {}

  /** Taking a response apart again. */
  lemma ResponseParts(head: seq<byte>, a: seq<byte>, b: seq<byte>, c: seq<byte>, m: seq<byte>, t: seq<byte>,
                      u: seq<byte>)
    ensures var s := head + (a + b + c) + m + t + u;
      && s[|head|..][..|a|] == a
      && s[|head|..][|a|..|a| + |b|] == b
      && s[|head|..][|a| + |b|..|a| + |b| + |c|] == c
      && s[|head| + |a| + |b| + |c| + |m|..] == t + u
  {}

  lemma FaithfulReachesHost(d: Delivery)
    requires Faithful(d)
    ensures ReachesHost(d)
  {
    var accept := d.reply[LS_COMMAND] == LS_ACC;
    var n, oxid := CopyLength(accept), OxidBytes(d.req.origin.flogi);
    var a, c := d.reply[..OXID], d.reply[OXID + 2..n];
    var head: seq<byte> := [7, if accept then 36 else 9, 0, 0];
    WithOxidParts(d.reply, oxid, n);
    ResponseParts(head, a, oxid, c, [2, 2], FC_MAP, DestBytes(d.reply));
    assert |a| == OXID && |c| == n - OXID - 2;
  }

  /** Every response in every run is right, and no request is answered twice. */
  lemma ResponsesReachTheirHosts(s: State)
    requires Reachable(s)
    ensures forall d :: d in s.delivered ==> ReachesHost(d)
    ensures forall k, l :: 0 <= k < l < |s.delivered| ==> s.delivered[k].req.id != s.delivered[l].req.id
  {
    ReachableIsSafe(s);
    forall d | d in s.delivered ensures ReachesHost(d) {
      FaithfulReachesHost(d);
    }
  }

  /** Whatever other threads do between a host's answer and the removal of its entry: when the
      entry comes to be removed the host has its response, and that slot alone becomes free. */
  lemma AnsweredBeforeFreed(s: State, i: Item)
    requires Reachable(s) && !s.halted && i in s.items && i.at.Freeing? && NeedsResponse(i.req, i.at.frame)
    ensures exists d :: d in s.delivered && d.req == i.req && d.reply == i.at.frame && ReachesHost(d)
    ensures Enabled(s, Free(i))
    ensures Do(s, Free(i)).table.slots == s.table.slots[OxidOf(i.at.frame) := None]
  {
    hide IdInv;
    ReachableIsSafe(s);
    assert OwnsSlot(s.table, i);
    assert Responded(s.delivered, i.req, i.at.frame);
    var d :| d in s.delivered && d.req == i.req && d.reply == i.at.frame;
    FaithfulReachesHost(d);
  }

  /** From the moment a host's accepted or rejected request is looked up, its thread answers
      the host and then frees the request's slot and no other. */
  lemma ReplyIsDelivered(s: State, i: Item)
    requires Reachable(s) && !s.halted && i in s.items && i.at.Holding? && i.req.origin.Host?
    requires |i.at.frame| >= REJECT_BYTES && i.at.frame[LS_COMMAND] in {LS_ACC, LS_RJT}
    ensures var f := Item(i.req, Freeing(i.at.thread, i.at.frame));
      && Enabled(s, Answer(i))
      && (var t := Do(s, Answer(i));
          && |t.delivered| == |s.delivered| + 1 && t.delivered[..|s.delivered|] == s.delivered
          && t.delivered[|s.delivered|].req == i.req && t.delivered[|s.delivered|].reply == i.at.frame
          && ReachesHost(t.delivered[|s.delivered|])
          && Enabled(t, Free(f))
          && Do(t, Free(f)).table.slots == s.table.slots[OxidOf(i.at.frame) := None])
  {
    hide IdInv;
    ReachableIsSafe(s);
    assert OwnsSlot(s.table, i);
    hide Inv, TableInv, DeliveryInv;
    var f := Item(i.req, Freeing(i.at.thread, i.at.frame));
    var t := Do(s, Answer(i));
    StepStaysReachable(s, Answer(i));
    ResponsesReachTheirHosts(t);
    assert t.delivered[|s.delivered|] in t.delivered;
    AnsweredBeforeFreed(t, f);
  }

  // ---- requests that are over ----

  ghost predicate AnsweredOnce(s: State, req: Request, reply: seq<byte>) {
    exists k :: 0 <= k < |s.delivered|
      && s.delivered[k].req == req && s.delivered[k].reply == reply && ReachesHost(s.delivered[k])
      && forall l :: 0 <= l < |s.delivered| && l != k ==> s.delivered[l].req.id != req.id
  }

  predicate Unanswered(s: State, req: Request) {
    forall d :: d in s.delivered ==> d.req.id != req.id
  }

  /** A host whose exchange is over has had exactly one response if the fabric accepted or
      rejected it, and none otherwise. */
  lemma ClosedIsAnswered(s: State, c: Closed)
    requires Reachable(s) && c in s.closed
    ensures if NeedsResponse(c.req, c.reply) then AnsweredOnce(s, c.req, c.reply) else Unanswered(s, c.req)
  {
    hide TableInv, IdInv;
    ReachableIsSafe(s);
    if NeedsResponse(c.req, c.reply) {
      assert Responded(s.delivered, c.req, c.reply);
      var d :| d in s.delivered && d.req == c.req && d.reply == c.reply;
      var k :| 0 <= k < |s.delivered| && s.delivered[k] == d;
      FaithfulReachesHost(d);
      forall l | 0 <= l < |s.delivered| && l != k ensures s.delivered[l].req.id != c.req.id {
        if l < k {
          assert s.delivered[l].req.id != s.delivered[k].req.id;
        } else {
          assert s.delivered[k].req.id != s.delivered[l].req.id;
        }
      }
    }
  }

  /** The request is still somewhere. */
  ghost predicate Known(s: State, req: Request) {
    || (exists i :: i in s.items && i.req == req)
    || req in s.bypassed
    || (exists c :: c in s.closed && c.req == req)
  }

  lemma StepKeepsKnown(s: State, step: Step, req: Request)
    requires Enabled(s, step) && Known(s, req)
    ensures Known(Do(s, step), req)
  {
    var t := Do(s, step);
    if i :| i in s.items && i.req == req {
      if Moves(step, i) {
        StepKeepsMoved(s, step, i);
      } else {
        assert i in t.items;
      }
    } else if c :| c in s.closed && c.req == req {
      assert c in t.closed;
    }
  }

  lemma StepKeepsMoved(s: State, step: Step, i: Item)
    requires Enabled(s, step) && Moves(step, i)
    ensures Known(Do(s, step), i.req)
  {
    var t := Do(s, step);
    match step
    case Take(_, thread) =>
      assert Item(i.req, if i.at.Queued? then Adding(thread) else Looking(thread, i.at.frame)) in t.items;
    case AddSlot(_) => assert Item(i.req, Sending(i.at.thread, Pick(s.table))) in t.items;
    case Send(_) => assert Item(i.req, OnWire(Outgoing(i.req.origin, i.at.generated))) in t.items;
    case Reply(_, frame) => assert Item(i.req, Answered(frame)) in t.items;
    case LookUp(_) =>
      if i.req !in t.bypassed {
        var e := s.table.slots[OxidOf(i.at.frame)].value.entry;
        assert Item(i.req, Holding(i.at.thread, i.at.frame, e)) in t.items;
      }
    case Answer(_) => assert (if t.halted then i else Item(i.req, Freeing(i.at.thread, i.at.frame))) in t.items;
    case Free(_) => assert Closed(i.req, i.at.frame) in t.closed;
  }

  lemma {:induction false} RunKeepsKnown(s: State, steps: seq<Step>, req: Request)
    requires Legal(s, steps) && Known(s, req)
    ensures Known(After(s, steps), req)
    decreases |steps|
  {
    if steps != [] {
      StepKeepsKnown(s, steps[0], req);
      RunKeepsKnown(Do(s, steps[0]), steps[1..], req);
    }
  }

  /** The end of every login, over every run: a request that is no longer in flight either had
      its reply go past the table, and then its host hears nothing, or its exchange is over,
      and then its host has had exactly one response if the reply accepted or rejected it. */
  lemma EveryLoginIsSettled(s: State, steps: seq<Step>, i: Item)
    requires Reachable(s) && i in s.items && Legal(s, steps)
    requires forall j :: j in After(s, steps).items ==> j.req.id != i.req.id
    ensures var t := After(s, steps);
      || (i.req in t.bypassed && Unanswered(t, i.req))
      || (exists c :: c in t.closed && c.req == i.req
            && if NeedsResponse(c.req, c.reply) then AnsweredOnce(t, c.req, c.reply) else Unanswered(t, c.req))
  {
    var t := After(s, steps);
    RunStaysReachable(s, steps);
    RunKeepsKnown(s, steps, i.req);
    ReachableIsSafe(t);
    if i.req !in t.bypassed {
      var c :| c in t.closed && c.req == i.req;
      ClosedIsAnswered(t, c);
    }
  }

  lemma {:induction false} RunStaysReachable(s: State, steps: seq<Step>)
    requires Reachable(s) && Legal(s, steps)
    ensures Reachable(After(s, steps))
    decreases |steps|
  {
    if steps != [] {
      StepStaysReachable(s, steps[0]);
      RunStaysReachable(Do(s, steps[0]), steps[1..]);
    }
  }
}
