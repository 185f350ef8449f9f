/** Transactions and their replies over whole runs of the binder server. */
module BinderReplies {
  import opened BinderSpec
  import opened Options
  import opened BinderInvariants
  import opened BinderRuns

  ghost function Pending<S>(y: Sys<S>, t: S): map<nat, Record<S>> {
    if t in y.sessions then y.sessions[t].pending else map[]
  }

  /** The transaction this step posts, if it posts one. */
  ghost function Posted<S>(y: Sys<S>, e: Event<S>): Option<Posting<S>> {
    if Enabled(y, e) && e.Receive? && e.m.kind == Transaction then DeliverTables(y, e.s, e.m).1 else None
  }

  ghost predicate IsReply(m: Message) {
    m.kind == Status || m.kind == TransactionReply
  }

  /** Session t answers, in this step, the transaction it has pending under cookie c. */
  ghost predicate Answers<S>(y: Sys<S>, e: Event<S>, t: S, c: nat) {
    Enabled(y, e) && e.Receive? && e.s == t && IsReply(e.m) && e.m.cookie == c && c in Pending(y, t)
  }

  /** A transaction is posted exactly when its sender is told OK. */
  lemma {:induction false} PostedMeansOk<S>(y: Sys<S>, s: S, m: Message)
    requires s in y.sessions
    ensures DeliverTables(y, s, m).1.Some? <==> Deliver(y, s, m).1 == OK
  {
  }

  /** One step posts at most one transaction and answers at most one; no other pending table changes. */
  lemma {:induction false} StepPending<S>(y: Sys<S>, e: Event<S>, t: S)
    requires Inv(y)
    ensures var p := Posted(y, e);
            var pending := Pending(y, t);
            Pending(Step(y, e), t) ==
              if p.Some? && p.value.target == t then pending[p.value.cookie := p.value.record]
              else if e.Receive? && Answers(y, e, t, e.m.cookie) then pending - {e.m.cookie}
              else pending
  {
    if Enabled(y, e) {
      match e {
        case Connect(_) =>
        case Receive(s, m) => hide Process, Inv; ReceivePending(y, s, m, t);
        case Disconnect(s, order) =>
          hide Terminate, Inv;
          TerminateIsLeft(y, s, order);
          if t in y.sessions { assert SameButOut(Left(y, s).sessions[t], Terminate(y, s, order).sessions[t]); }
        case Corrupt(_, _) =>
      }
    }
  }

  lemma {:induction false} ReceivePending<S>(y: Sys<S>, s: S, m: Message, t: S)
    requires Inv(y) && Live(y, s)
    ensures var p := if m.kind == Transaction then DeliverTables(y, s, m).1 else None;
            Pending(Process(y, s, m), t) ==
              if p.Some? && p.value.target == t then Pending(y, t)[p.value.cookie := p.value.record]
              else if IsReply(m) && s == t && m.cookie in Pending(y, t) then Pending(y, t) - {m.cookie}
              else Pending(y, t)
  {
    hide Process, DeliverTables, Inv, Tables;
    ProcessIsQuiet(y, s, m);
    TablesPending(y, s, m, t);
    if t in y.sessions { assert SameButOut(Tables(y, s, m).sessions[t], Process(y, s, m).sessions[t]); }
  }

  lemma {:induction false} TablesPending<S>(y: Sys<S>, s: S, m: Message, t: S)
    requires Inv(y) && Live(y, s)
    ensures Tables(y, s, m).sessions.Keys == y.sessions.Keys
    ensures var p := if m.kind == Transaction then DeliverTables(y, s, m).1 else None;
            Pending(Tables(y, s, m), t) ==
              if p.Some? && p.value.target == t then Pending(y, t)[p.value.cookie := p.value.record]
              else if IsReply(m) && s == t && m.cookie in Pending(y, t) then Pending(y, t) - {m.cookie}
              else Pending(y, t)
  {
    hide DeliverTables, Inv, Tables;
    TablesFrame(y, s, m, s);
    if m.kind != Transaction {
      OthersPending(y, s, m, t);
    } else {
      assert Tables(y, s, m) == DeliverTables(y, s, m).0 by { TransactionTables(y, s, m); }
      PostedToKnown(y, s, m);
      if t in y.sessions {
        DeliverFrame(y, s, m, t);
      }
    }
  }

  lemma TransactionTables<S>(y: Sys<S>, s: S, m: Message)
    requires s in y.sessions && m.kind == Transaction
    ensures Tables(y, s, m) == DeliverTables(y, s, m).0
  {
  }

  /** Of all other messages only a reply touches a pending table, the one of the session that sends it. */
  lemma {:induction false} OthersPending<S>(y: Sys<S>, s: S, m: Message, t: S)
    requires s in y.sessions && m.kind != Transaction
    ensures Pending(Tables(y, s, m), t) == if IsReply(m) && s == t then Pending(y, t) - {m.cookie} else Pending(y, t)
    ensures m.cookie !in Pending(y, t) ==> Pending(y, t) - {m.cookie} == Pending(y, t)
  {
    hide AddReference, RemoveReference;
    ReferenceFrame(y, s, m.body);
    MissingKey(Pending(y, t), m.cookie);
  }

  lemma {:induction false} MissingKey<T>(m: map<nat, T>, k: nat)
    ensures k !in m ==> m - {k} == m
  {
  }

  lemma {:induction false} PostedToKnown<S>(y: Sys<S>, s: S, m: Message)
    requires s in y.sessions
    ensures var p := DeliverTables(y, s, m).1; p.Some? ==> p.value.target in y.sessions
  {
  }

  /** The transactions posted to session t in a run and not answered yet, by cookie. */
  ghost function Outstanding<S>(es: seq<Event<S>>, t: S): map<nat, Record<S>>
    decreases |es|
  {
    if es == [] then map[]
    else
      var y := Run(es[..|es| - 1]);
      var e := es[|es| - 1];
      var before := Outstanding(es[..|es| - 1], t);
      var p := Posted(y, e);
      if p.Some? && p.value.target == t then before[p.value.cookie := p.value.record]
      else if e.Receive? && Answers(y, e, t, e.m.cookie) then before - {e.m.cookie}
      else before
  }

  /** What a session has pending is exactly what was posted to it and not answered. */
  lemma {:induction false} PendingIsOutstanding<S>(es: seq<Event<S>>, t: S)
    ensures Pending(Run(es), t) == Outstanding(es, t)
    decreases |es|
  {
    if es != [] {
      hide Step, Inv, Posted, Answers;
      PendingIsOutstanding(es[..|es| - 1], t);
      RunKeepsInv(es[..|es| - 1]);
      StepPending(Run(es[..|es| - 1]), es[|es| - 1], t);
    }
  }

  // ----- every reply answers one transaction -----

  ghost function PostCount<S>(es: seq<Event<S>>, t: S, c: nat): nat
    decreases |es|
  {
    if es == [] then 0
    else
      var p := Posted(Run(es[..|es| - 1]), es[|es| - 1]);
      PostCount(es[..|es| - 1], t, c) + if p.Some? && p.value.target == t && p.value.cookie == c then 1 else 0
  }

  ghost function AnswerCount<S>(es: seq<Event<S>>, t: S, c: nat): nat
    decreases |es|
  {
    if es == [] then 0
    else AnswerCount(es[..|es| - 1], t, c) + if Answers(Run(es[..|es| - 1]), es[|es| - 1], t, c) then 1 else 0
  }

  ghost function NextCookie<S>(y: Sys<S>, t: S): nat {
    if t in y.sessions then y.sessions[t].nextCookie else 0
  }

  /** A session's cookies are handed out in order. */
  lemma {:induction false} StepCookies<S>(y: Sys<S>, e: Event<S>, t: S)
    requires Inv(y)
    ensures NextCookie(Step(y, e), t) >= NextCookie(y, t)
    ensures var p := Posted(y, e);
            p.Some? && p.value.target == t ==> p.value.cookie == NextCookie(y, t) < NextCookie(Step(y, e), t)
  {
    if Enabled(y, e) {
      match e {
        case Connect(_) =>
        case Receive(s, m) =>
          hide Process, DeliverTables, Inv;
          ProcessIsQuiet(y, s, m);
          if t in y.sessions {
            TablesFrame(y, s, m, t);
            if m.kind == Transaction { DeliverFrame(y, s, m, t); }
            assert SameButOut(Tables(y, s, m).sessions[t], Process(y, s, m).sessions[t]);
          } else if m.kind == Transaction {
            PostedToKnown(y, s, m);
          }
        case Disconnect(s, order) =>
          hide Terminate, Inv;
          TerminateIsLeft(y, s, order);
          if t in y.sessions { assert SameButOut(Left(y, s).sessions[t], Terminate(y, s, order).sessions[t]); }
        case Corrupt(_, _) =>
      }
    }
  }

  /** A cookie names one transaction: it is posted at most once and answered at most once, and it is pending in between. */
  lemma {:induction false} AnsweredAtMostOnce<S>(es: seq<Event<S>>, t: S, c: nat)
    ensures PostCount(es, t, c) <= 1
    ensures PostCount(es, t, c) == AnswerCount(es, t, c) + if c in Pending(Run(es), t) then 1 else 0
    ensures c >= NextCookie(Run(es), t) ==> PostCount(es, t, c) == 0
    decreases |es|
  {
    if es != [] {
      hide Step, Inv, Posted;
      var y := Run(es[..|es| - 1]);
      AnsweredAtMostOnce(es[..|es| - 1], t, c);
      RunKeepsInv(es[..|es| - 1]);
      StepPending(y, es[|es| - 1], t);
      StepCookies(y, es[|es| - 1], t);
      PostsOrAnswers(y, es[|es| - 1], t, c);
    }
  }

  lemma {:induction false} PostsOrAnswers<S>(y: Sys<S>, e: Event<S>, t: S, c: nat)
    ensures Posted(y, e).Some? ==> !Answers(y, e, t, c)
  {
  }

  // ----- where a reply goes -----

  /** The step in which a pending transaction was posted: its record holds the sender and the sender's cookie. */
  lemma {:induction false} PostedBy<S>(es: seq<Event<S>>, t: S, c: nat) returns (i: nat)
    requires c in Pending(Run(es), t)
    ensures i < |es| && es[i].Receive? && es[i].m.kind == Transaction
    ensures Posted(Run(es[..i]), es[i]) == Some(Posting(t, c, Record(es[i].s, es[i].m.cookie)))
    ensures Pending(Run(es), t)[c] == Record(es[i].s, es[i].m.cookie)
    decreases |es|
  {
    var before := es[..|es| - 1];
    var y := Run(before);
    var e := es[|es| - 1];
    RunKeepsInv(before);
    StepPending(y, e, t);
    var p := Posted(y, e);
    if p.Some? && p.value.target == t && p.value.cookie == c {
      i := |es| - 1;
      hide DeliverTables, Inv, Step;
      PostedToKnown(y, e.s, e.m);
      DeliverFrame(y, e.s, e.m, t);
    } else {
      hide Step, Posted, Inv;
      i := PostedBy(before, t, c);
      assert es[..i] == before[..i] && es[i] == before[i];
    }
  }

  /** A reply to a pending transaction goes to the session that sent the transaction, under the cookie that session gave
      it; beside it only the monitor is written to. A reply under any other cookie is dropped. */
  lemma {:induction false} ReplyReachesCaller<S>(es: seq<Event<S>>, t: S, m: Message)
    requires Live(Run(es), t) && Run(es).sessions[t].reading && IsReply(m)
    ensures var y := Run(es);
            var y' := Step(y, Receive(t, m));
            if m.cookie !in Pending(y, t) then y' == y
            else exists i ::
              && 0 <= i < |es| && es[i].Receive? && es[i].m.kind == Transaction
              && Posted(Run(es[..i]), es[i]) == Some(Posting(t, m.cookie, Record(es[i].s, es[i].m.cookie)))
              && es[i].s in y.sessions && es[i].s in y'.sessions
              && y.sessions[es[i].s].out + [m.(cookie := es[i].m.cookie)] <= y'.sessions[es[i].s].out
              && forall r :: r in y.sessions && r != es[i].s && y.monitor != Some(r) ==>
                   r in y'.sessions && y'.sessions[r].out == y.sessions[r].out
  {
    var y := Run(es);
    hide Run, Posted, Inv;
    ReplyIsWritten(y, t, m);
    if m.cookie in Pending(y, t) {
      hide Step;
      var i := PostedBy(es, t, m.cookie);
      RunKeepsInv(es);
      CallersAreKnown(y, t, m.cookie);
    }
  }

  lemma {:induction false} ReplyIsWritten<S>(y: Sys<S>, t: S, m: Message)
    requires Live(y, t) && y.sessions[t].reading && IsReply(m)
    ensures var y' := Step(y, Receive(t, m));
            if m.cookie !in Pending(y, t) then y' == y
            else
              var record := Pending(y, t)[m.cookie];
              && y'.sessions.Keys == y.sessions.Keys
              && (record.caller in y.sessions ==>
                    y.sessions[record.caller].out + [m.(cookie := record.replyCookie)] <= y'.sessions[record.caller].out)
              && forall r :: r in y.sessions && r != record.caller && y.monitor != Some(r) ==>
                   y'.sessions[r].out == y.sessions[r].out
  {
    hide Write;
    assert Step(y, Receive(t, m)) == OnReply(y, t, m);
    if m.cookie in Pending(y, t) {
      var record := Pending(y, t)[m.cookie];
      WriteOuts(y.(sessions := y.sessions[t := Answered(y.sessions[t], m.cookie)]), record.caller, m.(cookie := record.replyCookie));
    }
  }

  /** What is written: one message to its addressee, and a copy of it to the monitor. */
  lemma {:induction false} WriteOuts<S>(y: Sys<S>, s: S, m: Message)
    ensures var y' := Write(y, s, m);
      && y'.sessions.Keys == y.sessions.Keys
      && (s in y.sessions ==> y.sessions[s].out + [m] <= y'.sessions[s].out)
      && forall r :: r in y.sessions && r != s && y.monitor != Some(r) ==> y'.sessions[r].out == y.sessions[r].out
  {
  }

  lemma {:induction false} CallersAreKnown<S>(y: Sys<S>, t: S, c: nat)
    requires Inv(y) && c in Pending(y, t)
    ensures Pending(y, t)[c].caller in y.sessions
  {
  }
}
