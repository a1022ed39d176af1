// The per-process coordination engine DIMEX_Module: a Lamport clock, the
// Ricart-Agrawala mutual-exclusion state machine with its deferral vector and
// response counter, the (timestamp, id) priority order, and a Chandy-Lamport
// style marker handler that copies the live state into snapshot records.
//
// Every handler is one sequential step of the event loop. Sending on the
// point-to-point link appends (address, text) to `outbox`; the grant signal on
// the application channel increments `grants`.

module Dimex {
  import opened Text
  import opened Wire

  /** Process state; the source numbers them 0, 1, 2 in this order. */
  datatype State = NoMX | WantMX | InMX

  /** A request from the application on the request channel. */
  datatype Request = Enter | Exit | TakeSnapshot

  /** One message handed to the point-to-point link. */
  datatype Send = Send(to: string, text: string)

  /**
   * SnapshotState: the live state copied when a marker arrives, the
   * per-channel marker flags (the source calls them Waiting: entry j is true
   * once the marker from process j has been seen) and the messages recorded
   * while a channel was still open.
   */
  datatype SnapshotRecord = SnapshotRecord(
    processState: State,
    lcl: int,
    reqTs: int,
    waiting: seq<bool>,
    nbrResps: int,
    recorded: bool,
    messages: seq<string>)

  /** The marker-flag vector of a snapshot record has this fixed length. */
  const SnapshotSlots: nat := 3

  // ---------------------------------------------------------------------------
  // Clock and priority
  // ---------------------------------------------------------------------------

  function Max(x: int, y: int): (r: int)
    ensures r >= x && r >= y
    ensures r == x || r == y
  {
    if x > y then x else y
  }

  /**
   * The respOK clock update: with the stamp the source's parseMessage reads
   * (always 0) the new clock need not pass the sender's clock; with the
   * intended field parse it always does.
   */
  lemma RespOkClockAsWritten(lcl: int, sender: int, ts: int)
    requires 0 <= lcl < ts
    ensures Max(lcl, GetTimestampAsWritten(Format(RespOk(sender, ts)))) + 1 <= ts
    ensures Max(lcl, GetTimestamp(Format(RespOk(sender, ts)))) + 1 > ts
  {
    ParseMessageFormat(RespOk(sender, ts));
  }

  /** Request (oneId, oneTs) has priority over request (othId, othTs). */
  predicate Before(oneId: int, oneTs: int, othId: int, othTs: int) {
    if oneTs < othTs then true
    else if oneTs > othTs then false
    else oneId < othId
  }

  /** Before is the lexicographic order on (timestamp, id). */
  lemma BeforeIsLexicographic(a: int, t: int, b: int, u: int)
    ensures Before(a, t, b, u) <==> t < u || (t == u && a < b)
  {
  }

  lemma BeforeIrreflexive(a: int, t: int)
    ensures !Before(a, t, a, t)
  {
  }

  lemma BeforeTransitive(a: int, t: int, b: int, u: int, c: int, v: int)
    requires Before(a, t, b, u) && Before(b, u, c, v)
    ensures Before(a, t, c, v)
  {
  }

  /** Of two distinct requests exactly one has priority. */
  lemma BeforeTotal(a: int, t: int, b: int, u: int)
    requires (a, t) != (b, u)
    ensures Before(a, t, b, u) != Before(b, u, a, t)
  {
  }

  /**
   * The branch handleUponDeliverReqEntry takes to defer a request instead of
   * answering it: only while wanting the resource, and only for a request
   * without priority over our own. In particular a request that arrives while
   * this process is inside the critical section is answered at once.
   */
  predicate Defers(st: State, senderId: int, senderTs: int, self: int, reqTs: int) {
    st == WantMX && !Before(senderId, senderTs, self, reqTs)
  }

  /**
   * Two processes that both want the resource, with distinct requests:
   * exactly one of them defers the other's request.
   */
  lemma ExactlyOneDefers(p: int, tp: int, q: int, tq: int)
    requires (p, tp) != (q, tq)
    ensures Defers(WantMX, q, tq, p, tp) != Defers(WantMX, p, tp, q, tq)
  {
    BeforeTotal(p, tp, q, tq);
  }

  // ---------------------------------------------------------------------------
  // Send lists
  // ---------------------------------------------------------------------------

  /** The positions of `w` that hold true, in increasing order. */
  function Indices(w: seq<bool>): (r: seq<nat>)
    ensures forall k :: 0 <= k < |r| ==> r[k] < |w| && w[r[k]]
  {
    if w == [] then []
    else Indices(w[..|w| - 1]) + (if w[|w| - 1] then [|w| - 1] else [])
  }

  /** Each true position is listed once: the list is strictly increasing. */
  lemma {:induction false} IndicesIncreasing(w: seq<bool>)
    ensures forall k, l :: 0 <= k < l < |Indices(w)| ==> Indices(w)[k] < Indices(w)[l]
  {
    if w != [] {
      IndicesIncreasing(w[..|w| - 1]);
    }
  }

  lemma {:induction false} IndicesSnoc(w: seq<bool>, b: bool)
    ensures Indices(w + [b]) == Indices(w) + (if b then [|w|] else [])
  {
    assert (w + [b])[..|w|] == w;
  }

  /** Every true position of `w` is listed. */
  lemma {:induction false} IndicesComplete(w: seq<bool>, i: int)
    requires 0 <= i < |w| && w[i]
    ensures i in Indices(w)
  {
    if i < |w| - 1 {
      IndicesComplete(w[..|w| - 1], i);
    }
  }

  /** The flag vector "every index but `self`" over `n` processes. */
  function AllBut(n: nat, self: int): (w: seq<bool>)
    ensures |w| == n
  {
    seq(n, i => i != self)
  }

  /** One message with `text` to the address of each listed index, in order. */
  function SendAll(addresses: seq<string>, idx: seq<nat>, text: string): (r: seq<Send>)
    requires forall k :: 0 <= k < |idx| ==> idx[k] < |addresses|
    ensures |r| == |idx|
  {
    if idx == [] then []
    else SendAll(addresses, idx[..|idx| - 1], text) + [Send(addresses[idx[|idx| - 1]], text)]
  }

  /** The k-th message goes to the address of the k-th listed index. */
  lemma {:induction false} SendAllAt(addresses: seq<string>, idx: seq<nat>, text: string, k: nat)
    requires forall j :: 0 <= j < |idx| ==> idx[j] < |addresses|
    requires k < |idx|
    ensures SendAll(addresses, idx, text)[k] == Send(addresses[idx[k]], text)
  {
    if k < |idx| - 1 {
      SendAllAt(addresses, idx[..|idx| - 1], text, k);
    }
  }

  /**
   * The messages a loop over the flag vector `w` sends: `text` to the address
   * of each position that holds true, position by position.
   */
  function Outgoing(addresses: seq<string>, w: seq<bool>, text: string): (r: seq<Send>)
    requires |w| <= |addresses|
    ensures |r| <= |w|
  {
    if w == [] then []
    else Outgoing(addresses, w[..|w| - 1], text) + (if w[|w| - 1] then [Send(addresses[|w| - 1], text)] else [])
  }

  /** One more position of the flag vector adds at most one message, at the end. */
  lemma {:induction false} OutgoingStep(addresses: seq<string>, w: seq<bool>, i: nat, text: string)
    requires i < |w| <= |addresses|
    ensures Outgoing(addresses, w[..i + 1], text)
         == Outgoing(addresses, w[..i], text) + (if w[i] then [Send(addresses[i], text)] else [])
  {
    assert w[..i + 1][..i] == w[..i];
  }

  /** The loop sends exactly one message per true position, in increasing order. */
  lemma {:induction false} OutgoingIsSendAll(addresses: seq<string>, w: seq<bool>, text: string)
    requires |w| <= |addresses|
    ensures Outgoing(addresses, w, text) == SendAll(addresses, Indices(w), text)
  {
    if w != [] {
      var v := w[..|w| - 1];
      OutgoingIsSendAll(addresses, v, text);
      assert w == v + [w[|w| - 1]];
      IndicesSnoc(v, w[|w| - 1]);
      var idx := Indices(v);
      if w[|w| - 1] {
        assert (idx + [|v|])[..|idx|] == idx;
      } else {
        assert idx + [] == idx;
      }
    }
  }

  /**
   * The broadcast to the peers of process `self` among the first `n`
   * addresses: one message to each other address, in index order.
   */
  lemma {:induction false} BroadcastToPeers(addresses: seq<string>, n: nat, self: int, text: string)
    requires n <= |addresses| && 0 <= self
    ensures |Outgoing(addresses, AllBut(n, self), text)| == if self < n then n - 1 else n
    ensures forall k :: 0 <= k < |Outgoing(addresses, AllBut(n, self), text)| ==>
              Outgoing(addresses, AllBut(n, self), text)[k] == Send(addresses[if k < self then k else k + 1], text)
  {
    if n > 0 {
      BroadcastToPeers(addresses, n - 1, self, text);
      var w := AllBut(n, self);
      assert w[..n - 1] == AllBut(n - 1, self);
    }
  }

  // ---------------------------------------------------------------------------
  // Snapshot records
  // ---------------------------------------------------------------------------

  /** The marker flags of a record created by a marker from `sender` at `self`. */
  function MarkerFlags(self: int, sender: int): (f: seq<bool>)
    requires 0 <= self < SnapshotSlots && 0 <= sender < SnapshotSlots
    ensures |f| == SnapshotSlots
    ensures forall i :: 0 <= i < SnapshotSlots ==> f[i] == (i == self || i == sender)
  {
    [false, false, false][self := true][sender := true]
  }

  predicate AllTrue(f: seq<bool>) {
    forall i :: 0 <= i < |f| ==> f[i]
  }

  /**
   * A record created by one marker has at most two of its three channels
   * closed, so the completion test that the source computes and then
   * overrides would not have held at that point.
   */
  lemma {:induction false} MarkerFlagsIncomplete(self: int, sender: int)
    requires 0 <= self < SnapshotSlots && 0 <= sender < SnapshotSlots
    ensures !AllTrue(MarkerFlags(self, sender))
  {
    var f := MarkerFlags(self, sender);
    var free := if self != 0 && sender != 0 then 0 else if self != 1 && sender != 1 then 1 else 2;
    assert !f[free];
  }

  /**
   * messageInterceptor's effect on the snapshot map: with a snapshot active,
   * `text` is appended to the messages of exactly those records whose flag
   * for `sender` is still false; nothing else changes.
   */
  ghost predicate Intercepted(before: map<int, SnapshotRecord>, after: map<int, SnapshotRecord>,
                              active: bool, sender: int, text: string)
  {
    && after.Keys == before.Keys
    && forall k :: k in before ==>
         if active && 0 <= sender < |before[k].waiting| && !before[k].waiting[sender]
         then after[k] == before[k].(messages := before[k].messages + [text])
         else after[k] == before[k]
  }

  /** With no snapshot active the interceptor leaves the map as it was. */
  lemma {:induction false} InterceptQuiet(before: map<int, SnapshotRecord>, after: map<int, SnapshotRecord>,
                                          sender: int, text: string)
    requires Intercepted(before, after, false, sender, text)
    ensures after == before
  {
    assert forall k :: k in after ==> k in before && after[k] == before[k];
  }

  /** A non-empty key set has a member. */
  lemma {:induction false} HasMember(keys: set<int>)
    requires keys != {}
    ensures exists k :: k in keys
  {
    if forall k :: k !in keys {
      assert false;
    }
  }

  /**
   * The interceptor's loop over the snapshot map: `text` is appended to the
   * messages of every record whose flag for `sender` is still false.
   */
  method RecordInOpen(snaps: map<int, SnapshotRecord>, sender: int, text: string)
    returns (r: map<int, SnapshotRecord>)
    requires forall k :: k in snaps ==> 0 <= sender < |snaps[k].waiting|
    ensures Intercepted(snaps, r, true, sender, text)
  {
    r := snaps;
    var todo := snaps.Keys;
    while todo != {}
      invariant todo <= r.Keys == snaps.Keys
      invariant forall k :: k in todo ==> r[k] == snaps[k]
      invariant forall k :: k in snaps && k !in todo ==>
                  r[k] == if snaps[k].waiting[sender] then snaps[k]
                          else snaps[k].(messages := snaps[k].messages + [text])
      decreases todo
    {
      HasMember(todo);
      var key :| key in todo;
      var rec := r[key];
      if !rec.waiting[sender] {
        r := r[key := rec.(messages := rec.messages + [text])];
      }
      todo := todo - {key};
    }
  }

  // ---------------------------------------------------------------------------
  // The module
  // ---------------------------------------------------------------------------

  class Module {
    const addresses: seq<string>
    const id: int
    /** Entry j is true while this process defers its answer to process j. */
    const waiting: array<bool>
    var st: State
    var lcl: int
    var reqTs: int
    var nbrResps: int
    var idSnapShot: int
    var snapshots: map<int, SnapshotRecord>
    var activeSnapshot: bool
    /** What was handed to the link, oldest first. */
    var outbox: seq<Send>
    /** How many grant signals were sent to the application. */
    var grants: nat

    ghost predicate Valid()
      reads this
    {
      && 0 <= id < |addresses|
      && waiting.Length == |addresses|
      && forall k :: k in snapshots ==> |snapshots[k].waiting| == SnapshotSlots
    }

    /** The interceptor can index the flag of `sender` in every record it visits. */
    ghost predicate CanIntercept(sender: int)
      reads this
    {
      !activeSnapshot || forall k :: k in snapshots ==> 0 <= sender < |snapshots[k].waiting|
    }

    /** The messages a broadcast of `text` to every other process hands to the link. */
    ghost function ToPeers(text: string): seq<Send>
      reads this
      requires Valid()
    {
      Outgoing(addresses, AllBut(|addresses|, id), text)
    }

    /** NewDIMEX */
    constructor (addresses: seq<string>, id: int)
      requires 0 <= id < |addresses|
      ensures Valid() && fresh(waiting)
      ensures this.addresses == addresses && this.id == id
      ensures st == NoMX && lcl == 0 && reqTs == 0 && nbrResps == 0
      ensures forall i :: 0 <= i < waiting.Length ==> !waiting[i]
      ensures idSnapShot == 0 && snapshots == map[] && !activeSnapshot
      ensures outbox == [] && grants == 0
    {
      this.addresses := addresses;
      this.id := id;
      st := NoMX;
      waiting := new bool[|addresses|](i => false);
      lcl := 0;
      reqTs := 0;
      nbrResps := 0;
      snapshots := map[];
      activeSnapshot := false;
      idSnapShot := 0;
      outbox := [];
      grants := 0;
    }

    /** sendToLink */
    method SendToLink(address: string, text: string)
      modifies this`outbox
      ensures outbox == old(outbox) + [Send(address, text)]
    {
      outbox := outbox + [Send(address, text)];
    }

    /** The loop over addresses that sends `text` to every index but `id`. */
    method SendToPeers(text: string)
      requires Valid()
      modifies this`outbox
      ensures outbox == old(outbox) + ToPeers(text)
    {
      var n := |addresses|;
      ghost var peers := AllBut(n, id);
      var i := 0;
      while i < n
        invariant 0 <= i <= n
        invariant outbox == old(outbox) + Outgoing(addresses, peers[..i], text)
      {
        OutgoingStep(addresses, peers, i, text);
        ghost var sent := Outgoing(addresses, peers[..i], text);
        if i != id {
          SendToLink(addresses[i], text);
          assert outbox == old(outbox) + (sent + [Send(addresses[i], text)]);
        }
        i := i + 1;
      }
      assert peers[..n] == peers;
    }

    /** handleUponReqEntry: ENTER from the application. */
    method RequestEntry()
      requires Valid()
      modifies this`lcl, this`reqTs, this`nbrResps, this`outbox, this`st
      ensures Valid()
      ensures lcl == old(lcl) + 1 && reqTs == lcl && nbrResps == 0 && st == WantMX
      ensures outbox == old(outbox) + ToPeers(Format(ReqEntry(id, reqTs)))
    {
      lcl := lcl + 1;
      reqTs := lcl;
      nbrResps := 0;
      SendToPeers(Format(ReqEntry(id, reqTs)));
      st := WantMX;
    }

    /** handleUponReqExit: EXIT from the application. */
    method RequestExit()
      requires Valid()
      modifies this`st, this`nbrResps, this`outbox, waiting
      ensures Valid()
      ensures st == NoMX && nbrResps == 0 && lcl == old(lcl)
      ensures outbox == old(outbox) + Outgoing(addresses, old(waiting[..]), Format(RespOk(id, lcl)))
      ensures forall i :: 0 <= i < waiting.Length ==> !waiting[i]
    {
      var text := Format(RespOk(id, lcl));
      ghost var flags := waiting[..];
      ghost var start := outbox;
      var i := 0;
      while i < waiting.Length
        invariant 0 <= i <= waiting.Length
        invariant Valid()
        invariant forall j :: 0 <= j < waiting.Length ==> waiting[j] == (i <= j && flags[j])
        invariant outbox == start + Outgoing(addresses, flags[..i], text)
      {
        ghost var sent := Outgoing(addresses, flags[..i], text);
        if waiting[i] {
          SendToLink(addresses[i], text);
          assert outbox == start + (sent + [Send(addresses[i], text)]);
          waiting[i] := false;
        }
        OutgoingStep(addresses, flags, i, text);
        i := i + 1;
      }
      assert flags[..waiting.Length] == flags;
      st := NoMX;
      nbrResps := 0;
    }

    /** messageInterceptor */
    method Intercept(sender: int, text: string)
      requires Valid() && CanIntercept(sender)
      modifies this`snapshots
      ensures Valid()
      ensures Intercepted(old(snapshots), snapshots, activeSnapshot, sender, text)
    {
      if activeSnapshot {
        snapshots := RecordInOpen(snapshots, sender, text);
      }
    }

    /** handleUponDeliverReqEntry, with the fields the Sscanf read. */
    method DeliverReqEntry(senderId: int, senderTs: int, text: string)
      requires Valid() && 0 <= senderId < |addresses| && CanIntercept(senderId)
      modifies this`snapshots, this`lcl, this`outbox, waiting
      ensures Valid()
      ensures Intercepted(old(snapshots), snapshots, activeSnapshot, senderId, text)
      ensures lcl == Max(old(lcl), senderTs) + 1
      ensures lcl > old(lcl) && lcl > senderTs
      ensures Defers(st, senderId, senderTs, id, reqTs) ==>
                waiting[..] == old(waiting[..])[senderId := true] && outbox == old(outbox)
      ensures !Defers(st, senderId, senderTs, id, reqTs) ==>
                waiting[..] == old(waiting[..])
                && outbox == old(outbox) + [Send(addresses[senderId], Format(RespOk(id, lcl)))]
    {
      Intercept(senderId, text);
      lcl := Max(lcl, senderTs) + 1;
      if st == InMX {
        SendToLink(addresses[senderId], Format(RespOk(id, lcl)));
      } else if st == NoMX || (st == WantMX && Before(senderId, senderTs, id, reqTs)) {
        SendToLink(addresses[senderId], Format(RespOk(id, lcl)));
      } else {
        waiting[senderId] := true;
      }
    }

    /** handleUponDeliverRespOk, with the sender the Sscanf read and the stamp getTimestamp read. */
    method DeliverRespOk(senderId: int, senderTs: int, text: string)
      requires Valid() && CanIntercept(senderId)
      modifies this`snapshots, this`lcl, this`nbrResps, this`grants, this`st
      ensures Valid()
      ensures Intercepted(old(snapshots), snapshots, activeSnapshot, senderId, text)
      ensures lcl == Max(old(lcl), senderTs) + 1
      ensures lcl > old(lcl) && lcl > senderTs
      ensures nbrResps == old(nbrResps) + 1
      ensures nbrResps == |addresses| - 1 ==> grants == old(grants) + 1 && st == InMX
      ensures nbrResps != |addresses| - 1 ==> grants == old(grants) && st == old(st)
    {
      Intercept(senderId, text);
      lcl := Max(lcl, senderTs) + 1;
      nbrResps := nbrResps + 1;
      if nbrResps == |addresses| - 1 {
        grants := grants + 1;
        st := InMX;
      }
    }

    /** startSnapshot: SNAPSHOT from the application. */
    method StartSnapshot()
      requires Valid()
      modifies this`outbox
      ensures activeSnapshot ==> outbox == old(outbox)
      ensures !activeSnapshot ==>
                outbox == old(outbox) + [Send(addresses[id], Format(Marker(id, idSnapShot + 1)))]
    {
      if activeSnapshot {
        return;
      }
      var snapshotId := idSnapShot + 1;
      SendToLink(addresses[id], Format(Marker(id, snapshotId)));
    }

    /** recordState */
    method RecordState(snapshotId: int)
      requires Valid() && id < SnapshotSlots
      modifies this`snapshots
      ensures Valid()
      ensures snapshots == old(snapshots)[snapshotId :=
                SnapshotRecord(st, lcl, reqTs, [false, false, false][id := true], nbrResps, true, [])]
    {
      var flags := [false, false, false][id := true];
      snapshots := snapshots[snapshotId := SnapshotRecord(st, lcl, reqTs, flags, nbrResps, true, [])];
    }

    /**
     * handleSnapshot. The source's test for an already known snapshot id is
     * overwritten with false before use, and its test that every channel is
     * closed is overwritten with true, so every marker takes the first-marker
     * path and then ends the snapshot.
     */
    method HandleSnapshot(text: string)
      requires Valid() && id < SnapshotSlots
      requires |Split(text, ":")| >= 3
      requires 0 <= ParseMarkerMessage(text).0 < SnapshotSlots
      modifies this`idSnapShot, this`activeSnapshot, this`snapshots, this`outbox
      ensures Valid() && !activeSnapshot
      ensures var (sender, k) := ParseMarkerMessage(text);
        && idSnapShot == k
        && snapshots == old(snapshots)[k := SnapshotRecord(st, lcl, reqTs, MarkerFlags(id, sender), nbrResps, true, [])]
        && outbox == old(outbox) + ToPeers(Format(Marker(id, k)))
    {
      var (senderId, snapshotId) := ParseMarkerMessage(text);
      idSnapShot := snapshotId;
      activeSnapshot := true;
      RecordState(snapshotId);
      var rec := snapshots[snapshotId];
      snapshots := snapshots[snapshotId := rec.(waiting := rec.waiting[senderId := true])];
      SendToPeers(Format(Marker(id, snapshotId)));
      activeSnapshot := false;
    }

    // -------------------------------------------------------------------------
    // The event loop's dispatch, one event at a time
    // -------------------------------------------------------------------------

    /** An application request, as the Req case of Start's select routes it. */
    method Step(r: Request)
      requires Valid()
      modifies this`lcl, this`reqTs, this`nbrResps, this`outbox, this`st, waiting
      ensures Valid()
      ensures r == Enter ==>
                && st == WantMX && lcl == old(lcl) + 1 && reqTs == lcl && nbrResps == 0
                && waiting[..] == old(waiting[..])
                && outbox == old(outbox) + ToPeers(Format(ReqEntry(id, reqTs)))
      ensures r == Exit ==>
                && st == NoMX && nbrResps == 0 && lcl == old(lcl) && reqTs == old(reqTs)
                && outbox == old(outbox) + Outgoing(addresses, old(waiting[..]), Format(RespOk(id, lcl)))
                && forall i :: 0 <= i < waiting.Length ==> !waiting[i]
      ensures r == TakeSnapshot ==>
                && st == old(st) && lcl == old(lcl) && waiting[..] == old(waiting[..])
                && reqTs == old(reqTs) && nbrResps == old(nbrResps)
                && outbox == old(outbox) + (if activeSnapshot then [] else [Send(addresses[id], Format(Marker(id, idSnapShot + 1)))])
    {
      match r
      case Enter => RequestEntry();
      case Exit => RequestExit();
      case TakeSnapshot => StartSnapshot();
    }

    /** What a delivered text needs from the state so that its handler does not fail. */
    ghost predicate DeliverAllowed(text: string)
      reads this
    {
      match Classify(text)
      case Some(RespOkKind) => CanIntercept(Scan(text, "respOK").0)
      case Some(ReqEntryKind) =>
        var s := Scan(text, "reqEntry").0;
        0 <= s < |addresses| && CanIntercept(s)
      case Some(MarkerKind) =>
        id < SnapshotSlots && |Split(text, ":")| >= 3 && 0 <= ParseMarkerMessage(text).0 < SnapshotSlots
      case None => true
    }

    /** A peer message, as the link case of Start's select routes it. */
    method Deliver(text: string)
      requires Valid() && DeliverAllowed(text)
      modifies this`snapshots, this`lcl, this`nbrResps, this`grants, this`st, this`outbox, waiting,
               this`idSnapShot, this`activeSnapshot
      ensures Valid()
      ensures activeSnapshot ==> old(activeSnapshot)
      ensures Classify(text) == None ==> unchanged(this) && unchanged(waiting)
      ensures Classify(text) == Some(RespOkKind) ==>
                var sender := Scan(text, "respOK").0;
                && Intercepted(old(snapshots), snapshots, activeSnapshot, sender, text)
                && lcl == Max(old(lcl), GetTimestamp(text)) + 1
                && nbrResps == old(nbrResps) + 1
                && (nbrResps == |addresses| - 1 ==> grants == old(grants) + 1 && st == InMX)
                && (nbrResps != |addresses| - 1 ==> grants == old(grants) && st == old(st))
                && outbox == old(outbox) && waiting[..] == old(waiting[..])
                && idSnapShot == old(idSnapShot) && activeSnapshot == old(activeSnapshot)
      ensures Classify(text) == Some(ReqEntryKind) ==>
                var (sender, ts) := Scan(text, "reqEntry");
                && Intercepted(old(snapshots), snapshots, activeSnapshot, sender, text)
                && lcl == Max(old(lcl), ts) + 1
                && nbrResps == old(nbrResps) && st == old(st) && grants == old(grants)
                && idSnapShot == old(idSnapShot) && activeSnapshot == old(activeSnapshot)
                && (Defers(st, sender, ts, id, reqTs) ==>
                      waiting[..] == old(waiting[..])[sender := true] && outbox == old(outbox))
                && (!Defers(st, sender, ts, id, reqTs) ==>
                      waiting[..] == old(waiting[..])
                      && outbox == old(outbox) + [Send(addresses[sender], Format(RespOk(id, lcl)))])
      ensures Classify(text) == Some(MarkerKind) ==>
                var (sender, k) := ParseMarkerMessage(text);
                && idSnapShot == k && !activeSnapshot
                && snapshots == old(snapshots)[k := SnapshotRecord(st, lcl, reqTs, MarkerFlags(id, sender), nbrResps, true, [])]
                && outbox == old(outbox) + ToPeers(Format(Marker(id, k)))
                && lcl == old(lcl) && st == old(st) && reqTs == old(reqTs) && nbrResps == old(nbrResps)
                && grants == old(grants) && waiting[..] == old(waiting[..])
    {
      if Contains(text, "respOK") {
        var (senderId, _) := Scan(text, "respOK");
        DeliverRespOk(senderId, GetTimestamp(text), text);
      } else if Contains(text, "reqEntry") {
        var (senderId, senderTs) := Scan(text, "reqEntry");
        DeliverReqEntry(senderId, senderTs, text);
      } else if Contains(text, "TAKE_SNAPSHOT") {
        HandleSnapshot(text);
      }
    }
  }
}
