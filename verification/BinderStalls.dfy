/** A frame or a message that cannot be read: the exception leaves its session connected, and the session is never read from
    again. */
module BinderStalls {
  import opened BinderSpec
  import opened Bytes
  import opened Options
  import opened BinderInvariants
  import opened BinderRuns
  import opened BinderReplies
  import opened BinderObjects

  /** The session is connected, and its next message will never be asked for. */
  ghost predicate Stalled<S>(y: Sys<S>, s: S) {
    Live(y, s) && !y.sessions[s].reading
  }

  /** What s holds in y it still holds in y'. */
  ghost predicate Holds<S>(y: Sys<S>, y': Sys<S>, s: S) {
    && (y.contextMgr == Some(s) ==> y'.contextMgr == Some(s))
    && (y.monitor == Some(s) ==> y'.monitor == Some(s))
    && (forall c :: c in Pending(y, s) ==> c in Pending(y', s))
  }

  /** Session s sends what makes a reader throw: a frame that holds no message, or a reference or death message that is too
      short. */
  predicate Throws<S(==)>(e: Event<S>, s: S) {
    e.s == s && ((e.Corrupt? && !Unpackable(e.frame)) || (e.Receive? && !Readable(e.m)))
  }

  /** The frame of a message with this body: type, destination and cookie, the length, and the body up to a whole word. */
  ghost predicate Packs(frame: seq<Byte>, head: seq<Byte>, body: seq<Byte>, padding: seq<Byte>) {
    && |head| == 4 + 8 + 8 && |padding| < 4 && (|body| + |padding|) % 4 == 0
    && frame == head + LittleEndian(|body|, 4) + body + padding
  }

  /** A frame unpacks; and nothing shorter unpacks in its place exactly when the length fits the one byte the reader takes. */
  lemma {:induction false} OnlyTheWholeUnpacks(frame: seq<Byte>, head: seq<Byte>, body: seq<Byte>, padding: seq<Byte>)
    requires Packs(frame, head, body, padding)
    ensures Unpackable(frame)
    ensures (forall k :: 0 <= k < |frame| ==> !Unpackable(frame[..k])) <==> |body| < 256
  {
    LittleEndianAt(|body|, 4, 0);
    var n: nat := frame[20];
    assert n == LittleEndian(|body|, 4)[0] == |body| % 256;
    assert forall k :: 20 < k <= |frame| ==> frame[..k][20] == frame[20];
    if |body| >= 256 {
      var k := 24 + (n + 3) / 4 * 4;
      assert k < |frame| && Unpackable(frame[..k]);
    }
  }

  /** A session stalls exactly when it sends what makes a reader throw. */
  lemma {:induction false} StallsExactly<S>(y: Sys<S>, e: Event<S>, s: S)
    requires Inv(y) && Live(y, s) && y.sessions[s].reading
    ensures Stalled(Step(y, e), s) <==> Throws(e, s)
  {
    hide Inv;
    StepReading(y, e, s);
    StepKeepsOpen(y, e, s);
  }

  lemma {:induction false} StepReading<S>(y: Sys<S>, e: Event<S>, s: S)
    requires Inv(y) && s in y.sessions
    ensures s in Step(y, e).sessions
    ensures Step(y, e).sessions[s].reading ==
      (y.sessions[s].reading && !(Enabled(y, e) && Throws(e, s)))
  {
    hide Inv;
    StepKeepsOpen(y, e, s);
    if Enabled(y, e) {
      match e {
        case Connect(_) =>
        case Receive(t, m) =>
          hide Process, Tables;
          TablesReading(y, t, m, s);
          ProcessIsQuiet(y, t, m);
          assert SameButOut(Tables(y, t, m).sessions[s], Process(y, t, m).sessions[s]);
        case Disconnect(t, order) =>
          hide Terminate;
          TerminateIsLeft(y, t, order);
          assert SameButOut(Left(y, t).sessions[s], Terminate(y, t, order).sessions[s]);
        case Corrupt(_, _) =>
      }
    }
  }

  lemma {:induction false} TablesReading<S>(y: Sys<S>, t: S, m: Message, s: S)
    requires Inv(y) && t in y.sessions && s in y.sessions
    ensures s in Tables(y, t, m).sessions
    ensures Tables(y, t, m).sessions[s].reading == (y.sessions[s].reading && (t == s ==> Readable(m)))
  {
    hide Inv, DeliverTables, AddReference, RemoveReference;
    ReferenceFrame(y, t, m.body);
    if m.kind == Transaction {
      DeliverReading(y, t, m, s);
    }
  }

  lemma {:induction false} DeliverReading<S>(y: Sys<S>, t: S, m: Message, s: S)
    requires Inv(y) && t in y.sessions && s in y.sessions
    ensures var y' := DeliverTables(y, t, m).0; s in y'.sessions && y'.sessions[s].reading == y.sessions[s].reading
  {
    hide Inv, Accept, Translate;
    if m.body.Call? {
      var (y1, os, _) := Translate(y, t, m.body.objects);
      TranslateFrame(y, t, m.body.objects, s);
      var r := FindSession(y1, m.destination);
      if r.Some? && r.value in y1.sessions {
        TranslateFrame(y, t, m.body.objects, r.value);
        CookieIsFresh(y, r.value);
        AcceptFrame(y1, r.value, Record(t, m.cookie), m.destination, os, s);
      }
    }
  }

  /** Nothing takes a stalled session's slots or answers what it has pending. */
  lemma {:induction false} StepHolds<S>(y: Sys<S>, e: Event<S>, s: S)
    requires Inv(y) && Stalled(y, s)
    ensures Stalled(Step(y, e), s) && Holds(y, Step(y, e), s)
  {
    hide Inv, Posted, Step;
    StepReading(y, e, s);
    StepKeepsOpen(y, e, s);
    StepPending(y, e, s);
    StepSlots(y, e);
    NobodyElseLeaves(y, e, s);
  }

  lemma NobodyElseLeaves<S>(y: Sys<S>, e: Event<S>, s: S)
    requires Stalled(y, s)
    ensures e.Disconnect? && e.s == s ==> !Enabled(y, e)
  {
  }

  /** After that, and whatever else happens in the run: the session stays, every handle it owned leads to it, nobody is told
      of the death of one, it keeps its slots, and what it had pending is never answered. */
  lemma {:induction false} NeverLeaves<S>(es: seq<Event<S>>, s: S, e: Event<S>, more: seq<Event<S>>, r: S, h: nat, id: nat)
    requires Enabled(Run(es), e) && Throws(e, s) && h in Run(es).sessions[s].objects
    ensures var y := Run(es + [e] + more);
      Stalled(y, s) && Holds(Run(es), y, s) && FindSession(y, h) == Some(s) && Copies(y, r, Notice(h, id)) == 0
  {
    hide Inv, Step, Copies, Enabled, Throws;
    var mid := es + [e];
    assert mid[..|es|] == es;
    RunKeepsInv(es);
    StallStep(es, s, e);
    StaysStalled(mid, more, s);
    RunKeepsInv(mid + more);
    RunKeepsObjects(mid, more, s, h);
    OwnedIsFound(Run(mid + more), s, h);
    BeforeRemoval(mid + more, r, h, id);
  }

  lemma {:induction false} StallStep<S>(es: seq<Event<S>>, s: S, e: Event<S>)
    requires Enabled(Run(es), e) && Throws(e, s)
    ensures var y := Run(es + [e]);
      Stalled(y, s) && Holds(Run(es), y, s) && y.sessions[s].objects == Run(es).sessions[s].objects
  {
    var mid := es + [e];
    assert mid[..|mid| - 1] == es;
    assert Run(mid) == Stall(Run(es), s);
  }

  lemma {:induction false} OwnedIsFound<S>(y: Sys<S>, s: S, h: nat)
    requires Inv(y) && Live(y, s) && h in y.sessions[s].objects
    ensures h > 0 && FindSession(y, h) == Some(s) && !Removed(y, h)
  {
    assert h in y.handles && y.handles[h] == s;
  }

  lemma {:induction false} StaysStalled<S>(es: seq<Event<S>>, more: seq<Event<S>>, s: S)
    requires Stalled(Run(es), s)
    ensures Stalled(Run(es + more), s) && Holds(Run(es), Run(es + more), s)
    decreases |more|
  {
    hide Inv, Step, Stalled;
    var all := es + more;
    if more == [] {
      assert all == es;
    } else {
      assert all[..|all| - 1] == es + more[..|more| - 1];
      StaysStalled(es, more[..|more| - 1], s);
      RunKeepsInv(all[..|all| - 1]);
      StepHolds(Run(all[..|all| - 1]), all[|all| - 1], s);
    }
  }
}
