/** The handler of frames from the fabric, and the three steps of the interleaved model it is
    made of. */
module FcResponse {
  import opened Bytes
  import opened RequestMap
  import opened LoginFrames
  import opened Exchange
  import opened ExchangeLaws
  import opened Wrappers
  import Fip = FipFrames
  import FrameCheck

  datatype Outcome =
    | Rejected(reject: seq<byte>)   // a request from the fabric, and the answer to it
    | Forwarded(els: seq<bv8>, tunnelLength: nat, tunnelPort: bv8)   // passed on to the host side
    | Stopped                       // the manager's own login was turned down
    | Associated                    // the manager's own login was accepted
    | Silent                        // neither accepted nor rejected
    | Responded(mac: seq<byte>, ctrl: Fip.CtrlHdr, desc: seq<byte>)

  /** The fabric's address for the manager, learned from its login. */
  class Gateway {
    var srcId: nat
  }

  /** What forwarding also needs: the bridge's address, the encapsulation in use, and the port in
      the tunnel header the frame came in. */
  datatype Route = Route(bridgeMac: seq<bv8>, t11: bool, port: bv8) {
    predicate Valid() {
      |bridgeMac| == 6
    }
  }

  /** The same bytes, for the checksum. */
  function AsBits(s: seq<byte>): (r: seq<bv8>)
    ensures |r| == |s|
  {
    seq(|s|, i requires 0 <= i < |s| => s[i] as bv8)
  }

  /** The frame a host gets when the received frame is passed on. */
  function ForwardedFrame(frame: seq<byte>, route: Route): (o: Outcome)
    requires |frame| >= LS_COMMAND && route.Valid()
    ensures o.Forwarded?
  {
    var els := FrameCheck.ElsFrame(AsBits(FC_MAP), route.bridgeMac, AsBits(frame[..LS_COMMAND]),
                                   AsBits(frame[LS_COMMAND..]), route.t11);
    Forwarded(els, (|els| + 24) / 4 % 256, FrameCheck.InternalPort(route.port))
  }

  predicate Handleable(t: MapState<Entry>, gatewayId: nat, frame: seq<byte>) {
    && t.Valid() && |frame| >= REJECT_BYTES
    && (frame[LS_COMMAND] == LS_ACC ==> |frame| >= FLOGI_BYTES)
    && (!PastTable(gatewayId, frame) ==>
          && OxidOf(frame) < LEN && t.slots[OxidOf(frame)].Some?
          && |t.slots[OxidOf(frame)].value.oxid| == 2)
  }

  /** The table, the manager's address and the outcome afterwards. */
  function Handle(t: MapState<Entry>, gatewayId: nat, frame: seq<byte>, route: Route)
    : (MapState<Entry>, nat, Outcome)
    requires Handleable(t, gatewayId, frame) && route.Valid()
  {
    if FromBe24(DestBytes(frame)) == gatewayId then (t, gatewayId, Rejected(RejectFrame(frame)))
    else if PastTable(gatewayId, frame) then (t, gatewayId, ForwardedFrame(frame, route))
    else
      var e, command := t.slots[OxidOf(frame)].value, frame[LS_COMMAND];
      var freed := Removed(t, OxidOf(frame));
      if e.flag == FROM_VFM then
        if command == LS_RJT then (t, gatewayId, Stopped)
        else (freed, FromBe24(DestBytes(frame)), Associated)
      else if command == LS_ACC || command == LS_RJT then
        (freed, gatewayId,
         Responded(e.mac, ResponseCtrl(e.ctrlFlags, command == LS_ACC), ResponseDesc(frame, e.oxid, command == LS_ACC)))
      else (freed, gatewayId, Silent)
  }

  method ProcessFcElsRes(frame: seq<byte>, route: Route) returns (o: Outcome)
    requires |frame| >= LS_COMMAND && route.Valid()
    ensures o == ForwardedFrame(frame, route)
  {
    hide FrameCheck.ElsFrame, FrameCheck.InternalPort;
    var buff, length, port := FrameCheck.BuildElsFrame(
      route.port, AsBits(FC_MAP), route.bridgeMac, AsBits(frame[..LS_COMMAND]), AsBits(frame[LS_COMMAND..]), route.t11);
    o := Forwarded(buff[..], length, port);
  }

  method ProcessFcResponse(table: RequestTable<Entry>, gateway: Gateway, buff: array<byte>, at: nat, route: Route)
    returns (o: Outcome)
    requires route.Valid() && table.Valid() && at <= buff.Length && Handleable(table.State(), gateway.srcId, buff[at..])
    modifies table`hint, table.slots, gateway, buff
    ensures table.Valid()
    ensures (table.State(), gateway.srcId, o)
         == Handle(old(table.State()), old(gateway.srcId), old(buff[at..]), route)
  {
    ghost var frame := buff[at..];
    assert buff[at + 1..at + 4] == DestBytes(frame) && buff[at + 5..at + 8] == SourceBytes(frame);
    assert buff[at + OXID..at + OXID + 2] == OxidBytes(frame);
    var destId, srcId := FromBe24(buff[at + 1..at + 4]), FromBe24(buff[at + 5..at + 8]);
    if gateway.srcId == destId {
      var reject, tunnel := CreateRejectEls(buff[at..]);
      return Rejected(reject[..]);
    }
    if srcId != LOGIN_SERVER {
      o := ProcessFcElsRes(buff[at..], route);
      return;
    }
    var oxid := FromBe16(buff[at + OXID..at + OXID + 2]);
    var found := table.GetEntry(oxid);
    var entry := found.value;
    var command := buff[at + LS_COMMAND];
    if entry.flag == FROM_VFM {
      if command == LS_RJT {
        return Stopped;
      }
      gateway.srcId := destId;
      table.RemoveEntry(oxid);
      return Associated;
    }
    o := Silent;
    if command == LS_ACC || command == LS_RJT {
      var mac, ctrl, tunnel, desc := PrepareFdiscRes(buff, at, entry, command == LS_ACC);
      o := Responded(mac, ctrl, desc);
    }
    table.RemoveEntry(oxid);
  }

  // ---- the handler and the steps ----

  function EntryOf(slot: Option<Slot>): Option<Entry> {
    if slot.None? then None else Some(slot.value.entry)
  }

  /** The table without the bookkeeping of who owns a slot. */
  function Entries(t: MapState<Slot>): (r: MapState<Entry>)
    ensures |r.slots| == |t.slots| && r.hint == t.hint
    ensures forall k :: 0 <= k < |t.slots| ==> r.slots[k] == EntryOf(t.slots[k])
  {
    MapState(seq(|t.slots|, k requires 0 <= k < |t.slots| => EntryOf(t.slots[k])), t.hint)
  }

  lemma EntriesRemoved(t: MapState<Slot>, k: nat)
    requires t.Valid() && k < LEN
    ensures Entries(t).Valid() && Entries(Removed(t, k)) == Removed(Entries(t), k)
  {}

  /** What a run of the handler leaves behind, in the terms of the interleaved model. */
  predicate Matches(s: State, i: Item, t: State, r: (MapState<Entry>, nat, Outcome))
    requires i.at.Looking? || i.at.Holding?
  {
    && Entries(t.table) == r.0 && t.gatewayId == r.1
    && (t.halted <==> r.2.Stopped?)
    && (!t.halted ==> t.items == s.items - {i})
    && (if r.2.Responded? then
          t.delivered == s.delivered + [Delivery(i.req, i.at.frame, r.2.mac, r.2.ctrl.flags, r.2.desc)]
        else t.delivered == s.delivered)
  }

  /** A thread that is not interrupted between its look-up and its removal does exactly what
      the handler does. */
  lemma HandlerIsThreeSteps(s: State, i: Item, route: Route) returns (steps: seq<Step>)
    requires route.Valid() && Reachable(s) && !s.halted && i in s.items && i.at.Looking?
    requires |i.at.frame| >= REJECT_BYTES
    ensures Handleable(Entries(s.table), s.gatewayId, i.at.frame)
    ensures Legal(s, steps) && |steps| <= 3
    ensures Matches(s, i, After(s, steps), Handle(Entries(s.table), s.gatewayId, i.at.frame, route))
  {
    hide ForwardedFrame, Inv;
    ReachableIsSafe(s);
    ThreadsNeverStick(s, i);
    ReplyIsHandleable(s, i);
    if PastTable(s.gatewayId, i.at.frame) {
      steps := [LookUp(i)] + [];
      StepFirst(s, LookUp(i), []);
      BypassMatches(s, i, route);
    } else {
      LookedUp(s, i);
      var a, h := Do(s, LookUp(i)), Item(i.req, Holding(i.at.thread, i.at.frame, EntryFor(i.req.origin)));
      StepKeepsInv(s, LookUp(i));
      var rest := AnswerAndFree(a, h, route);
      steps := [LookUp(i)] + rest;
      StepFirst(s, LookUp(i), rest);
    }
  }

  /** The handler can be given any reply a thread has in hand. */
  lemma ReplyIsHandleable(s: State, i: Item)
    requires Inv(s) && i in s.items && (i.at.Looking? || i.at.Holding?) && |i.at.frame| >= REJECT_BYTES
    ensures Handleable(Entries(s.table), s.gatewayId, i.at.frame)
  {
    hide IdInv, DeliveryInv;
    assert OwnsSlot(s.table, i);
  }

  lemma BypassMatches(s: State, i: Item, route: Route)
    requires route.Valid() && i.at.Looking? && Enabled(s, LookUp(i)) && PastTable(s.gatewayId, i.at.frame)
    requires Handleable(Entries(s.table), s.gatewayId, i.at.frame)
    ensures Matches(s, i, Do(s, LookUp(i)), Handle(Entries(s.table), s.gatewayId, i.at.frame, route))
  {
    hide ForwardedFrame, Entries;
  }

  /** The request, looked up, is the one item the step changes. */
  lemma LookedUp(s: State, i: Item)
    requires Inv(s) && Enabled(s, LookUp(i)) && !PastTable(s.gatewayId, i.at.frame)
    ensures |i.req.origin.flogi| == FLOGI_BYTES
    ensures var h := Item(i.req, Holding(i.at.thread, i.at.frame, EntryFor(i.req.origin)));
      && Do(s, LookUp(i)) == Move(s, i, h.at) && h in Do(s, LookUp(i)).items
      && Do(s, LookUp(i)).items - {h} == s.items - {i}
  {
    hide DeliveryInv, AllPlaced;
    assert OwnsSlot(s.table, i);
    var h := Item(i.req, Holding(i.at.thread, i.at.frame, EntryFor(i.req.origin)));
    assert h !in s.items;
  }

  lemma AnswerAndFree(s: State, h: Item, route: Route) returns (steps: seq<Step>)
    requires route.Valid() && Inv(s) && !s.halted && h in s.items && h.at.Holding? && |h.at.frame| >= REJECT_BYTES
    requires !PastTable(s.gatewayId, h.at.frame)
    ensures Handleable(Entries(s.table), s.gatewayId, h.at.frame)
    ensures Legal(s, steps) && |steps| <= 2
    ensures Matches(s, h, After(s, steps), Handle(Entries(s.table), s.gatewayId, h.at.frame, route))
  {
    hide Handle, AnswerHost, Inv;
    ReplyIsHandleable(s, h);
    AnswerMatches(s, h, route);
    var b := Do(s, Answer(h));
    if b.halted {
      steps := [Answer(h)] + [];
      StepFirst(s, Answer(h), []);
    } else {
      var f := Item(h.req, Freeing(h.at.thread, h.at.frame));
      StepFirst(b, Free(f), []);
      StepFirst(s, Answer(h), [Free(f)] + []);
      steps := [Answer(h)] + ([Free(f)] + []);
    }
  }

  lemma AnswerMatches(s: State, h: Item, route: Route)
    requires route.Valid() && Inv(s) && !s.halted && h in s.items && h.at.Holding?
    requires |h.at.frame| >= REJECT_BYTES && !PastTable(s.gatewayId, h.at.frame)
    requires Handleable(Entries(s.table), s.gatewayId, h.at.frame)
    ensures Enabled(s, Answer(h))
    ensures var b, f := Do(s, Answer(h)), Item(h.req, Freeing(h.at.thread, h.at.frame));
      && (!b.halted ==> Enabled(b, Free(f)))
      && Matches(s, h, if b.halted then b else Do(b, Free(f)),
                 Handle(Entries(s.table), s.gatewayId, h.at.frame, route))
  {
    hide DeliveryInv, AllPlaced, ResponseDesc;
    assert OwnsSlot(s.table, h);
    EntriesRemoved(s.table, OxidOf(h.at.frame));
    var b := Do(s, Answer(h));
    if !b.halted {
      var f := Item(h.req, Freeing(h.at.thread, h.at.frame));
      assert f !in s.items;
      assert b.items - {f} == s.items - {h};
    }
  }
}
