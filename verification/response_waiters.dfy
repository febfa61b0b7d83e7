/** The table of response waiters of `request.go`, at the granularity of its lock: `receiveResponse` takes the waiter
    out of the table under the lock and sends to it afterwards, so other steps can come in between. */
module ResponseWaiters {
  import opened Bytes

  type Id = Bytes
  type Node = Bytes

  /** A channel with room for one node, and how many nodes were ever sent to it. */
  datatype Channel = Channel(open: bool, buffer: Option<Node>, sends: nat)

  /** The waiters by request ID, all channels ever made, and the channels taken by a receiver that has not sent yet. */
  datatype Table = Table(waiters: map<Id, nat>, channels: seq<Channel>, inFlight: map<nat, Node>)

  datatype Step =
    | Wait(id: Id)
    | Cancel(id: Id, ch: nat)
    | Take(id: Id, node: Node)
    | Send(ch: nat, abandoned: bool)
    | Clear(node: Node)
    | Read(ch: nat)

  const EMPTY: Table := Table(map[], [], map[])

  /** Go's send with a default branch that closes; sending to or closing a closed channel panics. */
  function Offer(c: Channel, node: Node): Channel
    requires c.open
  {
    if c.buffer.None? then Channel(true, Some(node), c.sends + 1) else c.(open := false)
  }

  function Sent(c: Channel, node: Node): Channel { c.(buffer := Some(node), sends := c.sends + 1) }

  // ----- Steps and runs -----

  /** The step panics: it closes a closed channel or sends to one. */
  predicate Panics(t: Table, s: Step) {
    match s
    case Cancel(_, ch) => ch < |t.channels| && !t.channels[ch].open
    case Send(ch, abandoned) => ch < |t.channels| && !t.channels[ch].open && !abandoned
    case Clear(_) => exists id :: id in t.waiters && t.waiters[id] < |t.channels| && !t.channels[t.waiters[id]].open
    case _ => false
  }

  function Advance(t: Table, s: Step): Table {
    match s
    case Wait(id) =>
      t.(waiters := t.waiters[id := |t.channels|], channels := t.channels + [Channel(true, None, 0)])
    case Cancel(id, ch) =>
      if ch >= |t.channels| then t
      else t.(channels := t.channels[ch := t.channels[ch].(open := false)], waiters := t.waiters - {id})
    case Take(id, node) =>
      if id !in t.waiters then t
      else t.(waiters := t.waiters - {id}, inFlight := t.inFlight[t.waiters[id] := node])
    case Send(ch, abandoned) =>
      if ch !in t.inFlight then t
      else
        var t' := t.(inFlight := t.inFlight - {ch});
        if abandoned || ch >= |t.channels| || !t.channels[ch].open || t.channels[ch].buffer.Some? then t'
        else t'.(channels := t.channels[ch := Sent(t.channels[ch], t.inFlight[ch])])
    case Clear(node) => t.(waiters := map[], channels := Cleared(t, node))
    case Read(ch) =>
      if ch >= |t.channels| then t else t.(channels := t.channels[ch := t.channels[ch].(buffer := None)])
  }

  function Cleared(t: Table, node: Node): (channels: seq<Channel>)
    ensures |channels| == |t.channels|
  {
    seq(|t.channels|, ch requires 0 <= ch < |t.channels| =>
      if ch in t.waiters.Values && t.channels[ch].open then Offer(t.channels[ch], node) else t.channels[ch])
  }

  function Run(steps: seq<Step>): Table {
    if steps == [] then EMPTY else Advance(Run(steps[..|steps| - 1]), steps[|steps| - 1])
  }

  // ----- How the callers behave, told from their own history -----

  /** The request IDs waited for, in order; channel number n was returned by the n-th wait. */
  function Issued(steps: seq<Step>): seq<Id> {
    if steps == [] then []
    else
      var last := steps[|steps| - 1];
      Issued(steps[..|steps| - 1]) + if last.Wait? then [last.id] else []
  }

  function Cancelled(steps: seq<Step>): set<nat> {
    set i | 0 <= i < |steps| && steps[i].Cancel? :: steps[i].ch
  }

  function Received(steps: seq<Step>): set<nat> {
    set i | 0 <= i < |steps| && steps[i].Read? :: steps[i].ch
  }

  /** What callers do after a history.  A caller waits for an ID again only when each earlier wait for it was answered
      or cancelled.  It cancels a channel under the ID it got it for, once.  It receives from a channel of its own
      when there is a node.  Only a receiver that has taken a channel sends to it. */
  ghost predicate Proper(past: seq<Step>, s: Step) {
    match s
    case Wait(id) =>
      forall ch :: 0 <= ch < |Issued(past)| && Issued(past)[ch] == id ==> ch in Cancelled(past) || ch in Received(past)
    case Cancel(id, ch) => ch < |Issued(past)| && Issued(past)[ch] == id && ch !in Cancelled(past)
    case Read(ch) => ch < |Run(past).channels| && Run(past).channels[ch].buffer.Some?
    case Send(ch, _) => ch in Run(past).inFlight
    case _ => true
  }

  ghost predicate AllProper(steps: seq<Step>) {
    forall i :: 0 <= i < |steps| ==> Proper(steps[..i], steps[i])
  }

  // ----- What every proper run keeps -----

  /** The waiter's channel is open, empty, never used, nobody else's, and the one that was issued for its ID. */
  ghost predicate Ready(past: seq<Step>, t: Table, id: Id) {
    id in t.waiters ==>
      && t.waiters[id] < |t.channels| && t.channels[t.waiters[id]] == Channel(true, None, 0)
      && t.waiters[id] !in t.inFlight
      && t.waiters[id] < |Issued(past)| && Issued(past)[t.waiters[id]] == id
  }

  /** A channel gets at most one node, none while it is in flight or before it was received from, and it is closed
      exactly when it was cancelled. */
  ghost predicate Orderly(past: seq<Step>, t: Table, ch: nat) {
    ch < |t.channels| ==>
      && t.channels[ch].sends <= 1
      && (t.channels[ch].buffer.Some? || ch in Received(past) ==> t.channels[ch].sends == 1)
      && (ch in t.inFlight ==> t.channels[ch].sends == 0)
      && (t.channels[ch].open <==> ch !in Cancelled(past))
  }

  ghost predicate Valid(past: seq<Step>, t: Table) {
    && |Issued(past)| == |t.channels|
    && (forall ch :: ch in t.inFlight || ch in Cancelled(past) || ch in Received(past) ==> ch < |t.channels|)
    && (forall id :: Ready(past, t, id))
    && (forall ch :: Orderly(past, t, ch))
  }

  lemma PastGrows(past: seq<Step>, s: Step)
    ensures Issued(past + [s]) == Issued(past) + if s.Wait? then [s.id] else []
    ensures Cancelled(past + [s]) == Cancelled(past) + if s.Cancel? then {s.ch} else {}
    ensures Received(past + [s]) == Received(past) + if s.Read? then {s.ch} else {}
  {
    var all := past + [s];
    assert all[..|all| - 1] == past;
    assert forall i :: 0 <= i < |past| ==> all[i] == past[i];
    assert all[|past|] == s;
  }

  /** A wait that is proper is for an ID that is not in the table. */
  lemma ProperWaitIsFresh(past: seq<Step>, t: Table, id: Id)
    requires Valid(past, t) && t == Run(past) && Proper(past, Wait(id))
    ensures id !in t.waiters
  {
    hide Run, Issued, Cancelled, Received;
    assert Ready(past, t, id);
    assert id in t.waiters ==> Orderly(past, t, t.waiters[id]);
  }

  /** Every proper step keeps all this, and the only one that can panic is a send to a channel that was cancelled. */
  lemma StepKeeps(past: seq<Step>, s: Step)
    requires Valid(past, Run(past)) && Proper(past, s)
    ensures Valid(past + [s], Advance(Run(past), s))
    ensures Panics(Run(past), s) <==> s.Send? && !s.abandoned && s.ch in Cancelled(past)
  {
    hide Run, Issued, Cancelled, Received;
    var t := Run(past);
    PastGrows(past, s);
    if s.Wait? {
      ProperWaitIsFresh(past, t, s.id);
    }
    if s.Clear? {
      ClearDelivers(past, t, s.node);
    }
    forall id ensures Ready(past + [s], Advance(t, s), id) {
      ReadyAgain(past, s, id);
    }
    forall ch: nat ensures Orderly(past + [s], Advance(t, s), ch) {
      OrderlyAgain(past, s, ch);
    }
    if s.Cancel? || s.Send? {
      assert Orderly(past, t, s.ch);
    } else if s.Take? {
      assert Ready(past, t, s.id);
    }
  }

  lemma ReadyAgain(past: seq<Step>, s: Step, id: Id)
    requires Valid(past, Run(past)) && Proper(past, s)
    ensures Ready(past + [s], Advance(Run(past), s), id)
  {
    hide Run, Issued, Cancelled, Received, Cleared;
    var t := Run(past);
    PastGrows(past, s);
    assert Ready(past, t, id);
    match s
    case Take(other, _) => assert Ready(past, t, other);
    case Read(ch) => assert id in t.waiters ==> t.waiters[id] != ch;
    case _ =>
  }

  lemma OrderlyAgain(past: seq<Step>, s: Step, ch: nat)
    requires Valid(past, Run(past)) && Proper(past, s)
    ensures Orderly(past + [s], Advance(Run(past), s), ch)
  {
    hide Run, Issued, Cancelled, Received;
    var t := Run(past);
    PastGrows(past, s);
    assert Orderly(past, t, ch);
    match s
    case Take(id, _) => assert Ready(past, t, id);
    case Clear(_) =>
      if ch < |t.channels| && ch in t.waiters.Values {
        var id :| id in t.waiters && t.waiters[id] == ch;
        assert Ready(past, t, id);
      }
    case _ =>
  }

  /** Clearing the table hands the node to every waiter and closes no channel. */
  lemma ClearDelivers(past: seq<Step>, t: Table, node: Node)
    requires Valid(past, t)
    ensures !Panics(t, Clear(node))
    ensures forall id :: id in t.waiters ==>
      Ready(past, t, id) && Advance(t, Clear(node)).channels[t.waiters[id]] == Channel(true, Some(node), 1)
    ensures forall ch :: 0 <= ch < |t.channels| ==>
      Advance(t, Clear(node)).channels[ch].open == t.channels[ch].open
  {
    var t' := Advance(t, Clear(node));
    forall id | id in t.waiters
      ensures Ready(past, t, id) && t'.channels[t.waiters[id]] == Channel(true, Some(node), 1)
    {
      assert Ready(past, t, id) && t.waiters[id] in t.waiters.Values;
    }
    forall ch | 0 <= ch < |t.channels| ensures t'.channels[ch].open == t.channels[ch].open {
      if ch in t.waiters.Values {
        var id :| id in t.waiters && t.waiters[id] == ch;
        assert Ready(past, t, id);
      }
    }
  }

  lemma {:induction false} EveryRunIsValid(steps: seq<Step>)
    requires AllProper(steps)
    ensures Valid(steps, Run(steps))
  {
    if steps == [] {
      NothingYet();
    } else {
      var n := |steps| - 1;
      assert forall i :: 0 <= i <= n ==> steps[..n][..i] == steps[..i];
      EveryRunIsValid(steps[..n]);
      assert Proper(steps[..n], steps[n]);
      StepKeeps(steps[..n], steps[n]);
      assert steps[..n] + [steps[n]] == steps;
    }
  }

  lemma NothingYet()
    ensures Valid([], EMPTY)
  {
  }

  lemma PrefixIsProper(steps: seq<Step>, n: nat)
    requires AllProper(steps) && n <= |steps|
    ensures AllProper(steps[..n]) && Valid(steps[..n], Run(steps[..n]))
  {
    hide Proper, Valid;
    assert forall i :: 0 <= i <= n ==> steps[..n][..i] == steps[..i];
    EveryRunIsValid(steps[..n]);
  }

  // ----- Exactly when a run panics -----

  ghost predicate NeverPanics(steps: seq<Step>) {
    forall k :: 0 <= k < |steps| ==> !Panics(Run(steps[..k]), steps[k])
  }

  /** Step i takes channel ch out of the table. */
  predicate Takes(steps: seq<Step>, i: nat, ch: nat)
    requires i < |steps|
  {
    steps[i].Take? && steps[i].id in Run(steps[..i]).waiters && Run(steps[..i]).waiters[steps[i].id] == ch
  }

  /** A channel is cancelled after a receiver has taken it and before that receiver sends to it. */
  ghost predicate CancelledInBetween(steps: seq<Step>, i: nat, j: nat, k: nat) {
    && i < j < k < |steps| && steps[k].Send? && !steps[k].abandoned
    && steps[j].Cancel? && steps[j].ch == steps[k].ch && Takes(steps, i, steps[k].ch)
  }

  lemma {:induction false} InFlightWasTaken(steps: seq<Step>, ch: nat) returns (i: nat)
    requires ch in Run(steps).inFlight
    ensures i < |steps| && Takes(steps, i, ch)
  {
    var n := |steps| - 1;
    if ch in Run(steps[..n]).inFlight {
      i := InFlightWasTaken(steps[..n], ch);
      assert steps[..n][..i] == steps[..i];
    } else {
      i := n;
    }
  }

  lemma PanicNeedsCancel(steps: seq<Step>, k: nat) returns (i: nat, j: nat)
    requires AllProper(steps) && k < |steps| && Panics(Run(steps[..k]), steps[k])
    ensures CancelledInBetween(steps, i, j, k)
  {
    hide Run, Valid, Issued, Received, Panics;
    PrefixIsProper(steps, k);
    assert Proper(steps[..k], steps[k]);
    StepKeeps(steps[..k], steps[k]);
    var ch := steps[k].ch;
    assert ch in Cancelled(steps[..k]);
    j :| 0 <= j < k && steps[..k][j].Cancel? && steps[..k][j].ch == ch;
    i := InFlightWasTaken(steps[..k], ch);
    assert steps[..k][..i] == steps[..i];
    TakenWasOpen(steps, i, ch);
  }

  /** A channel that is taken was not cancelled before. */
  lemma TakenWasOpen(steps: seq<Step>, i: nat, ch: nat)
    requires AllProper(steps) && i < |steps| && Takes(steps, i, ch)
    ensures ch !in Cancelled(steps[..i])
    ensures forall j :: 0 <= j < i && steps[j].Cancel? ==> steps[j].ch != ch
  {
    hide Run, Issued, Received;
    PrefixIsProper(steps, i);
    assert forall j :: 0 <= j < i ==> steps[..i][j] == steps[j];
    assert Ready(steps[..i], Run(steps[..i]), steps[i].id);
    assert Orderly(steps[..i], Run(steps[..i]), ch);
  }

  /** In a proper run no channel is closed twice, clearing closes none, and no node is sent to a closed channel, if and
      only if no channel is cancelled between being taken and being sent to. */
  lemma PanicsExactly(steps: seq<Step>)
    requires AllProper(steps)
    ensures NeverPanics(steps) <==> forall i: nat, j: nat, k: nat :: !CancelledInBetween(steps, i, j, k)
  {
    hide Run, Valid, Issued, Received, Panics, Proper, Takes;
    if k :| 0 <= k < |steps| && Panics(Run(steps[..k]), steps[k]) {
      var i, j := PanicNeedsCancel(steps, k);
    }
    if i: nat, j: nat, k: nat :| CancelledInBetween(steps, i, j, k) {
      PrefixIsProper(steps, k);
      assert Proper(steps[..k], steps[k]);
      StepKeeps(steps[..k], steps[k]);
      assert steps[..k][j] == steps[j];
    }
  }

  /** Step i takes some channel out of the table. */
  predicate TakesOne(steps: seq<Step>, i: nat)
    requires i < |steps|
  {
    steps[i].Take? && steps[i].id in Run(steps[..i]).waiters
  }

  /** A receiver that takes a channel sends to it at once. */
  ghost predicate AtOnce(steps: seq<Step>) {
    forall i :: 0 <= i && i + 1 < |steps| && TakesOne(steps, i) ==> steps[i + 1].Send?
  }

  /** Then at most one channel is in flight, and only right after it was taken. */
  lemma {:induction false} OneInFlight(steps: seq<Step>)
    requires AllProper(steps) && AtOnce(steps)
    ensures Run(steps).inFlight.Keys ==
      if steps != [] && TakesOne(steps, |steps| - 1)
      then {Run(steps[..|steps| - 1]).waiters[steps[|steps| - 1].id]} else {}
  {
    hide Proper;
    if steps != [] {
      var n := |steps| - 1;
      var front := steps[..n];
      assert forall i :: 0 <= i <= n ==> front[..i] == steps[..i];
      PrefixAtOnce(steps);
      OneInFlight(front);
      assert Proper(steps[..n], steps[n]);
      OneInFlightStep(steps);
    }
  }

  lemma PrefixAtOnce(steps: seq<Step>)
    requires AllProper(steps) && AtOnce(steps) && steps != []
    ensures AllProper(steps[..|steps| - 1]) && AtOnce(steps[..|steps| - 1])
  {
    hide Proper, Run;
    var front := steps[..|steps| - 1];
    assert forall i :: 0 <= i < |steps| ==> front[..i] == steps[..i];
    forall i | 0 <= i && i + 1 < |front| && TakesOne(front, i) ensures front[i + 1].Send? {
      assert TakesOne(steps, i);
    }
  }

  lemma OneInFlightStep(steps: seq<Step>)
    requires AllProper(steps) && AtOnce(steps) && steps != []
    requires var front := steps[..|steps| - 1];
      Run(front).inFlight.Keys ==
      if front != [] && TakesOne(front, |front| - 1)
      then {Run(front[..|front| - 1]).waiters[front[|front| - 1].id]} else {}
    ensures Run(steps).inFlight.Keys ==
      if TakesOne(steps, |steps| - 1)
      then {Run(steps[..|steps| - 1]).waiters[steps[|steps| - 1].id]} else {}
  {
    var n := |steps| - 1;
    var front := steps[..n];
    assert Proper(front, steps[n]);
    if n > 0 && TakesOne(front, n - 1) {
      assert front[..n - 1] == steps[..n - 1];
      assert TakesOne(steps, n - 1);
      assert steps[n].Send?;
    }
  }

  /** If a response is always sent as soon as its channel was taken, no proper run panics. */
  lemma ReceivingAtOnceNeverPanics(steps: seq<Step>)
    requires AllProper(steps) && AtOnce(steps)
    ensures NeverPanics(steps)
  {
    hide Run, Panics, Proper, AtOnce, Valid, Issued, Received;
    forall k | 0 <= k < |steps| ensures !Panics(Run(steps[..k]), steps[k]) {
      PrefixIsProper(steps, k);
      assert Proper(steps[..k], steps[k]);
      StepKeeps(steps[..k], steps[k]);
      if steps[k].Send? {
        PrefixAtOnceAny(steps, k);
        OneInFlight(steps[..k]);
        SendIsInFlight(steps[..k], steps[k]);
        assert steps[..k][..k - 1] == steps[..k - 1] && steps[..k][k - 1] == steps[k - 1];
        TakenWasOpen(steps, k - 1, steps[k].ch);
        assert steps[..k] == steps[..k - 1] + [steps[k - 1]];
        PastGrows(steps[..k - 1], steps[k - 1]);
      }
    }
  }

  lemma SendIsInFlight(past: seq<Step>, s: Step)
    requires Proper(past, s) && s.Send?
    ensures s.ch in Run(past).inFlight
  {
  }

  lemma {:induction false} PrefixAtOnceAny(steps: seq<Step>, k: nat)
    requires AllProper(steps) && AtOnce(steps) && k <= |steps|
    ensures AtOnce(steps[..k])
    decreases |steps|
  {
    hide AllProper, AtOnce;
    if k == |steps| {
      assert steps[..k] == steps;
    } else {
      PrefixAtOnce(steps);
      PrefixAtOnceAny(steps[..|steps| - 1], k);
      assert steps[..|steps| - 1][..k] == steps[..k];
    }
  }

  lemma AfterWait(id: Id)
    ensures Run([Wait(id)]) == Table(map[id := 0], [Channel(true, None, 0)], map[]) && Issued([Wait(id)]) == [id]
  {
    assert [Wait(id)][..0] == [];
  }

  lemma AfterTake(id: Id, node: Node)
    ensures var past := [Wait(id), Take(id, node)];
      && Run(past) == Table(map[], [Channel(true, None, 0)], map[0 := node])
      && Issued(past) == [id] && Cancelled(past) == {}
  {
    hide Run, Issued;
    var past := [Wait(id), Take(id, node)];
    AfterWait(id);
    RunOne([Wait(id)], Take(id, node));
    PastGrows([Wait(id)], Take(id, node));
    assert past == [Wait(id)] + [Take(id, node)];
  }

  lemma RunOne(past: seq<Step>, s: Step)
    ensures Run(past + [s]) == Advance(Run(past), s)
  {
    hide Advance;
    assert (past + [s])[..|past + [s]| - 1] == past;
  }

  lemma AfterCancel(id: Id, node: Node)
    ensures Run([Wait(id), Take(id, node), Cancel(id, 0)]) == Table(map[], [Channel(false, None, 0)], map[0 := node])
  {
    hide Run;
    AfterTake(id, node);
    RunOne([Wait(id), Take(id, node)], Cancel(id, 0));
    assert [Wait(id), Take(id, node), Cancel(id, 0)] == [Wait(id), Take(id, node)] + [Cancel(id, 0)];
  }

  /** As written, a cancellation between the two makes the receiver send to a closed channel, in a proper run. */
  lemma CancelledWhileReceivingPanics(id: Id, node: Node)
    ensures var steps := [Wait(id), Take(id, node), Cancel(id, 0), Send(0, false)];
      AllProper(steps) && Panics(Run(steps[..3]), steps[3])
  {
    hide Run, Issued, Cancelled;
    var steps := [Wait(id), Take(id, node), Cancel(id, 0), Send(0, false)];
    assert steps[..0] == [] && steps[..1] == [Wait(id)] && steps[..2] == [Wait(id), Take(id, node)];
    assert steps[..3] == [Wait(id), Take(id, node), Cancel(id, 0)];
    assert Issued([]) == [] by { NothingIssued(); }
    AfterTake(id, node);
    AfterCancel(id, node);
    forall i | 0 <= i < 4 ensures Proper(steps[..i], steps[i]) {
    }
  }

  lemma NothingIssued()
    ensures Issued([]) == []
  {
  }

  // ----- The methods -----

  lemma ProperStep(past: seq<Step>, s: Step)
    requires AllProper(past) && Proper(past, s)
    ensures AllProper(past + [s])
  {
    hide Proper;
    var all := past + [s];
    assert all[..|past|] == past;
    assert forall i :: 0 <= i < |past| ==> all[..i] == past[..i] && all[i] == past[i];
  }

  lemma RunStep(past: seq<Step>, s: Step)
    requires AllProper(past) && Proper(past, s)
    ensures AllProper(past + [s]) && Run(past + [s]) == Advance(Run(past), s)
    ensures Valid(past, Run(past)) && Valid(past + [s], Run(past + [s]))
    ensures Panics(Run(past), s) <==> s.Send? && !s.abandoned && s.ch in Cancelled(past)
  {
    hide AllProper, Proper, Valid, Issued, Cancelled, Received, Advance, Panics;
    assert (past + [s])[..|past + [s]| - 1] == past;
    ProperStep(past, s);
    EveryRunIsValid(past);
    StepKeeps(past, s);
  }

  class Client {
    var waiters: map<Id, nat>
    var channels: seq<Channel>
    var inFlight: map<nat, Node>
    ghost var past: seq<Step>

    constructor ()
      ensures past == [] && Inv()
    {
      waiters, channels, inFlight, past := map[], [], map[], [];
    }

    ghost function View(): Table
      reads this
    {
      Table(waiters, channels, inFlight)
    }

    /** The fields are what the callers' history, all of it proper, has led to. */
    ghost predicate Inv()
      reads this
    {
      AllProper(past) && View() == Run(past)
    }

    method WaitResponse(id: Id) returns (ch: nat)
      requires Inv() && Proper(past, Wait(id))
      modifies this
      ensures Inv() && past == old(past) + [Wait(id)]
      ensures ch == |old(channels)| && waiters[id] == ch && channels[ch] == Channel(true, None, 0)
    {
      hide Run, AllProper, Valid;
      RunStep(past, Wait(id));
      ch := |channels|;
      channels := channels + [Channel(true, None, 0)];
      waiters := waiters[id := ch];
      past := past + [Wait(id)];
    }

    /** Closing the channel: it is open, because the caller has not cancelled it before. */
    method CancelResponse(id: Id, ch: nat)
      requires Inv() && Proper(past, Cancel(id, ch))
      modifies this
      ensures Inv() && past == old(past) + [Cancel(id, ch)]
      ensures ch < |old(channels)| && old(channels)[ch].open && !channels[ch].open
    {
      hide Run, AllProper;
      RunStep(past, Cancel(id, ch));
      assert Orderly(past, View(), ch);
      channels := channels[ch := channels[ch].(open := false)];
      waiters := waiters - {id};
      past := past + [Cancel(id, ch)];
    }

    /** The locked half of `receiveResponse`. */
    method TakeWaiter(id: Option<Id>, tag: Bytes, node: Node) returns (waiter: Option<nat>)
      requires Inv()
      modifies this
      ensures Inv()
      ensures waiter == if id.Some? && (tag == Ascii("iq") || tag == Ascii("ack")) && id.value in old(waiters)
                        then Some(old(waiters)[id.value]) else None
      ensures past == if waiter.Some? then old(past) + [Take(id.value, node)] else old(past)
      ensures waiter.Some? ==> waiter.value in inFlight && waiter.value < |channels| && channels[waiter.value].open
    {
      hide Run, AllProper;
      if id.None? || (tag != Ascii("iq") && tag != Ascii("ack")) {
        return None;
      }
      if id.value !in waiters {
        return None;
      }
      RunStep(past, Take(id.value, node));
      assert Ready(past, View(), id.value);
      waiter := Some(waiters[id.value]);
      waiters, inFlight := waiters - {id.value}, inFlight[waiter.value := node];
      past := past + [Take(id.value, node)];
    }

    /** The unlocked half: the send, or the end of the context.  The send panics exactly when the channel has been
        cancelled. */
    method SendResponse(ch: nat, abandoned: bool) returns (panics: bool)
      requires Inv() && Proper(past, Send(ch, abandoned))
      modifies this
      ensures Inv() && past == old(past) + [Send(ch, abandoned)]
      ensures panics <==> !abandoned && ch in Cancelled(old(past))
      ensures ch < |old(channels)| && ch in old(inFlight) && inFlight == old(inFlight) - {ch}
      ensures !abandoned && !panics ==>
        channels == old(channels)[ch := Channel(true, Some(old(inFlight)[ch]), 1)]
      ensures abandoned || panics ==> channels == old(channels)
    {
      hide Run, AllProper, Issued, Cancelled, Received;
      RunStep(past, Send(ch, abandoned));
      assert Orderly(past, View(), ch);
      var node := inFlight[ch];
      inFlight := inFlight - {ch};
      panics := !abandoned && !channels[ch].open;
      if !abandoned && !panics {
        channels := channels[ch := Sent(channels[ch], node)];
      }
      past := past + [Send(ch, abandoned)];
    }

    /** The table walk: the closing branch is never taken. */
    method ClearResponseWaiters(node: Node)
      requires Inv()
      modifies this
      ensures Inv() && past == old(past) + [Clear(node)] && waiters == map[]
      ensures forall id :: id in old(waiters) ==>
        old(waiters)[id] < |channels| && channels[old(waiters)[id]] == Channel(true, Some(node), 1)
    {
      hide Run, AllProper, Issued, Cancelled, Received, Valid, Cleared;
      RunStep(past, Clear(node));
      ReadyChannels(past, View());
      var todo := waiters.Keys;
      ghost var start := View();
      while todo != {}
        invariant todo <= waiters.Keys && waiters == start.waiters && inFlight == start.inFlight && past == old(past)
        invariant |channels| == |start.channels|
        invariant forall id :: id in waiters ==> waiters[id] < |channels|
        invariant forall id :: id in waiters ==>
          channels[waiters[id]] == if id in todo then Channel(true, None, 0) else Channel(true, Some(node), 1)
        invariant forall ch :: 0 <= ch < |channels| && ch !in waiters.Values ==> channels[ch] == start.channels[ch]
      {
        var id :| id in todo;
        todo := todo - {id};
        var ch := waiters[id];
        assert ch in waiters.Values;
        channels := channels[ch := Offer(channels[ch], node)];
      }
      ClearedIs(start, channels, node);
      waiters := map[];
      past := past + [Clear(node)];
    }
  }

  /** Every request waits on an open, empty channel of its own. */
  lemma ReadyChannels(past: seq<Step>, t: Table)
    requires Valid(past, t)
    ensures forall id :: id in t.waiters ==>
      t.waiters[id] < |t.channels| && t.channels[t.waiters[id]] == Channel(true, None, 0)
    ensures forall i, j :: i in t.waiters && j in t.waiters && i != j ==> t.waiters[i] != t.waiters[j]
  {
    hide Issued, Cancelled, Received;
    forall id | id in t.waiters
      ensures t.waiters[id] < |t.channels| && t.channels[t.waiters[id]] == Channel(true, None, 0)
      ensures t.waiters[id] < |Issued(past)| && Issued(past)[t.waiters[id]] == id
    {
      assert Ready(past, t, id);
    }
  }

  /** The table walk has offered the node to every waiter. */
  lemma ClearedIs(t: Table, channels: seq<Channel>, node: Node)
    requires |channels| == |t.channels|
    requires forall id :: id in t.waiters ==>
      t.waiters[id] < |channels| && t.channels[t.waiters[id]] == Channel(true, None, 0)
    requires forall id :: id in t.waiters ==> channels[t.waiters[id]] == Channel(true, Some(node), 1)
    requires forall ch :: 0 <= ch < |channels| && ch !in t.waiters.Values ==> channels[ch] == t.channels[ch]
    ensures channels == Cleared(t, node)
  {
    forall ch | 0 <= ch < |channels| ensures channels[ch] == Cleared(t, node)[ch] {
      if ch in t.waiters.Values {
        var id :| id in t.waiters && t.waiters[id] == ch;
      }
    }
  }
}
