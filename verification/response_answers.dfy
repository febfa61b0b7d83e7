/** Who gets which answer: a waiter gets a node that came for its own request ID, or the one that the table was cleared
    with, and a node that was taken for it arrives. */
module ResponseAnswers {
  import opened Bytes
  import opened ResponseWaiters

  lemma LastStep(steps: seq<Step>)
    requires steps != [] && AllProper(steps)
    ensures var n := |steps| - 1;
      && AllProper(steps[..n]) && Proper(steps[..n], steps[n]) && Valid(steps[..n], Run(steps[..n]))
      && Run(steps) == Advance(Run(steps[..n]), steps[n]) && Issued(steps[..n]) <= Issued(steps)
      && |Issued(steps[..n])| == |Run(steps[..n]).channels|
  {
    hide Proper, Advance;
    var n := |steps| - 1;
    PrefixIsProper(steps, n);
    assert Proper(steps[..n], steps[n]);
  }

  /** A node in flight was taken for the ID that its channel was issued for. */
  lemma {:induction false} InFlightFrom(steps: seq<Step>, ch: nat) returns (i: nat)
    requires AllProper(steps) && ch in Run(steps).inFlight
    ensures ch < |Issued(steps)| && i < |steps| && steps[i] == Take(Issued(steps)[ch], Run(steps).inFlight[ch])
  {
    hide Run, Issued, Proper, AllProper, Cancelled, Received;
    NothingInFlight(steps);
    LastStep(steps);
    var n := |steps| - 1;
    var before, s := Run(steps[..n]), steps[n];
    if s.Take? && s.id in before.waiters && before.waiters[s.id] == ch {
      assert Ready(steps[..n], before, s.id);
      i := n;
    } else {
      i := InFlightFrom(steps[..n], ch);
    }
  }

  lemma NothingInFlight(steps: seq<Step>)
    requires Run(steps).inFlight != map[]
    ensures steps != []
  {
  }

  lemma NothingBuffered(steps: seq<Step>, ch: nat)
    requires ch < |Run(steps).channels|
    ensures steps != []
  {
  }

  /** What a waiter finds in its channel was put there by clearing the table, or was taken for its own ID and then
      sent. */
  lemma {:induction false} AnswerIsItsOwn(steps: seq<Step>, ch: nat) returns (i: nat, k: nat)
    requires AllProper(steps) && ch < |Run(steps).channels| && Run(steps).channels[ch].buffer.Some?
    ensures ch < |Issued(steps)| && k < |steps|
    ensures var node := Run(steps).channels[ch].buffer.value;
      || steps[k] == Clear(node)
      || (i < k && steps[i] == Take(Issued(steps)[ch], node) && steps[k] == Send(ch, false))
  {
    hide Run, Issued, Proper, AllProper, Cancelled, Received, Valid;
    NothingBuffered(steps, ch);
    LastStep(steps);
    var n := |steps| - 1;
    var before, s := Run(steps[..n]), steps[n];
    if s.Clear? && ch < |before.channels| && before.channels[ch].buffer.None? {
      i, k := 0, n;
    } else if s.Send? && s.ch == ch && before.channels[ch].buffer.None? {
      i := InFlightFrom(steps[..n], ch);
      k := n;
    } else {
      i, k := AnswerIsItsOwn(steps[..n], ch);
    }
  }

  /** Nothing interferes with the channel: it is not cancelled, and nobody else sends to it. */
  predicate LeftAlone(steps: seq<Step>, ch: nat) {
    forall i :: 0 <= i < |steps| ==> !(steps[i].Cancel? && steps[i].ch == ch) && !(steps[i].Send? && steps[i].ch == ch)
  }

  ghost predicate OnItsWay(t: Table, ch: nat, node: Node) {
    && ch in t.inFlight && t.inFlight[ch] == node
    && ch < |t.channels| && t.channels[ch] == Channel(true, None, 0)
  }

  lemma {:induction false} StaysOnItsWay(past: seq<Step>, ch: nat, node: Node, between: seq<Step>)
    requires AllProper(past + between) && OnItsWay(Run(past), ch, node) && LeftAlone(between, ch)
    ensures OnItsWay(Run(past + between), ch, node)
  {
    hide Run, Issued, Proper, AllProper, Cancelled, Received, OnItsWay;
    if between == [] {
      assert past + between == past;
    } else {
      var n := |between| - 1;
      var all := past + between;
      assert all[..|all| - 1] == past + between[..n] && all[|all| - 1] == between[n];
      LastStep(all);
      StaysOnItsWay(past, ch, node, between[..n]);
      OneMoreStep(past + between[..n], ch, node, between[n]);
    }
  }

  lemma OneMoreStep(past: seq<Step>, ch: nat, node: Node, s: Step)
    requires Valid(past, Run(past)) && Proper(past, s) && OnItsWay(Run(past), ch, node) && LeftAlone([s], ch)
    ensures OnItsWay(Advance(Run(past), s), ch, node)
  {
    hide Run, Issued, Cancelled, Received;
    var t := Run(past);
    assert [s][0] == s;
    match s
    case Take(id, _) => assert Ready(past, t, id);
    case Clear(_) => NotWaiting(past, t, ch);
    case _ =>
  }

  lemma NotWaiting(past: seq<Step>, t: Table, ch: nat)
    requires Valid(past, t) && ch in t.inFlight
    ensures ch !in t.waiters.Values
  {
    hide Issued, Cancelled, Received;
    forall id | id in t.waiters ensures t.waiters[id] != ch {
      assert Ready(past, t, id);
    }
  }

  /** A node that comes for a request ID somebody waits for reaches that waiter's channel, whatever else happens
      before the receiver sends it, unless the waiter cancels. */
  lemma TakenNodeArrives(past: seq<Step>, id: Id, node: Node, between: seq<Step>)
    requires id in Run(past).waiters && LeftAlone(between, Run(past).waiters[id])
    requires AllProper(past + [Take(id, node)] + between + [Send(Run(past).waiters[id], false)])
    ensures var ch := Run(past).waiters[id];
      var after := Run(past + [Take(id, node)] + between + [Send(ch, false)]);
      ch < |after.channels| && after.channels[ch] == Channel(true, Some(node), 1) && ch !in after.inFlight
  {
    hide Run, Issued, Proper, AllProper, Cancelled, Received, LeftAlone;
    var ch := Run(past).waiters[id];
    var taken := past + [Take(id, node)];
    var all := taken + between + [Send(ch, false)];
    assert all[..|all| - 1] == taken + between && all[..|taken|] == taken && taken[..|past|] == past;
    LastStep(all);
    PrefixIsProper(all, |taken|);
    LastStep(taken);
    assert Ready(past, Run(past), id);
    assert OnItsWay(Run(taken), ch, node);
    StaysOnItsWay(taken, ch, node, between);
  }

  // ----- An answer is received once -----

  /** Once a channel was received from it stays empty. */
  lemma {:induction false} EmptyOnceReceived(steps: seq<Step>, ch: nat)
    requires AllProper(steps) && ch in Received(steps)
    ensures ch < |Run(steps).channels| && Run(steps).channels[ch].buffer.None? && Run(steps).channels[ch].sends == 1
    decreases |steps|
  {
    hide Run, Issued, Proper, AllProper, Cancelled, Received, Valid;
    NothingReceived(steps);
    LastStep(steps);
    var n := |steps| - 1;
    var front, s := steps[..n], steps[n];
    assert front + [s] == steps;
    PastGrows(front, s);
    if ch in Received(front) {
      EmptyOnceReceived(front, ch);
      StaysEmpty(front, s, ch);
    } else {
      ReadEmpties(front, ch);
    }
  }

  lemma NothingReceived(steps: seq<Step>)
    requires Received(steps) != {}
    ensures steps != []
  {
  }

  lemma StaysEmpty(past: seq<Step>, s: Step, ch: nat)
    requires Valid(past, Run(past)) && Proper(past, s) && ch < |Run(past).channels|
    requires Run(past).channels[ch].buffer.None? && Run(past).channels[ch].sends == 1
    ensures var t := Advance(Run(past), s);
      ch < |t.channels| && t.channels[ch].buffer.None? && t.channels[ch].sends == 1
  {
    hide Run, Issued, Cancelled, Received;
    var t := Run(past);
    assert Orderly(past, t, ch);
    if s.Clear? {
      forall id | id in t.waiters ensures t.waiters[id] != ch {
        assert Ready(past, t, id);
      }
    }
  }

  lemma ReadEmpties(past: seq<Step>, ch: nat)
    requires Valid(past, Run(past)) && Proper(past, Read(ch))
    ensures var t, t' := Run(past), Advance(Run(past), Read(ch));
      && ch < |t.channels| == |t'.channels| && t.channels[ch].buffer.Some? && t'.channels[ch].buffer.None?
      && t'.channels[ch].sends == 1 && t'.channels[ch].open == t.channels[ch].open
  {
    hide Run, Issued, Cancelled, Received;
    assert Orderly(past, Run(past), ch);
  }

  /** No channel is received from twice in a proper run: each request gets one answer. */
  lemma ReceivedOnce(steps: seq<Step>, i: nat, j: nat)
    requires AllProper(steps) && i < j < |steps| && steps[i].Read? && steps[j].Read?
    ensures steps[i].ch != steps[j].ch
  {
    hide Run, Issued, AllProper, Cancelled;
    PrefixIsProper(steps, j);
    assert ProperAt(steps, j) by { ProperEverywhere(steps, j); }
    assert steps[..j][i] == steps[i];
    assert steps[i].ch in Received(steps[..j]);
    EmptyOnceReceived(steps[..j], steps[i].ch);
  }

  ghost predicate ProperAt(steps: seq<Step>, j: nat)
    requires j < |steps|
  {
    Proper(steps[..j], steps[j])
  }

  lemma ProperEverywhere(steps: seq<Step>, j: nat)
    requires AllProper(steps) && j < |steps|
    ensures ProperAt(steps, j)
  {
  }
}
