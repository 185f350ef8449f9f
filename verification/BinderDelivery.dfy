/** What the binder server writes, to whom and in which order; and the way of a transaction and its reply. */
module BinderDelivery {
  import opened BinderSpec
  import opened Options
  import opened BinderInvariants
  import opened BinderRuns
  import opened BinderReplies
  import opened BinderObjects

  // ----- one write -----

  ghost function Copied<S>(monitor: Option<S>, m: Message, r: S): seq<Message> {
    if monitor == Some(r) then [Message(LogEntry, 0, 0, Logged(m))] else []
  }

  /** What session r gets of a message to session s: the message if it is s, and then a log entry if it is the monitor. */
  ghost function Written<S>(monitor: Option<S>, s: S, m: Message, r: S): seq<Message> {
    (if r == s then [m] else []) + Copied(monitor, m, r)
  }

  /** On the way from y to y' session r is sent these messages and no others. */
  ghost predicate Adds<S>(y: Sys<S>, y': Sys<S>, r: S, ms: seq<Message>) {
    r in y.sessions && r in y'.sessions && y'.sessions[r].out == y.sessions[r].out + ms
  }

  lemma {:induction false} WriteAdds<S>(y: Sys<S>, s: S, m: Message, r: S)
    requires r in y.sessions
    ensures Adds(y, Write(y, s, m), r, Written(y.monitor, s, m, r))
    ensures Adds(y, ForwardToMonitor(y, m), r, Copied(y.monitor, m, r))
  {
  }

  lemma {:induction false} AddsTwice<S>(x: Sys<S>, y: Sys<S>, z: Sys<S>, r: S, a: seq<Message>, b: seq<Message>)
    requires Adds(x, y, r, a) && Adds(y, z, r, b)
    ensures Adds(x, z, r, a + b)
  {
  }

  lemma {:induction false} WriteLater<S>(x: Sys<S>, y: Sys<S>, r: S, a: seq<Message>, s: S, m: Message)
    requires Adds(x, y, r, a)
    ensures Adds(x, Write(y, s, m), r, a + Written(y.monitor, s, m, r))
  {
    hide Write, Written, Adds;
    assert r in y.sessions by { AddsIn(x, y, r, a); }
    WriteAdds(y, s, m, r);
    AddsTwice(x, y, Write(y, s, m), r, a, Written(y.monitor, s, m, r));
  }

  lemma AddsIn<S>(x: Sys<S>, y: Sys<S>, r: S, a: seq<Message>)
    requires Adds(x, y, r, a)
    ensures r in y.sessions
  {
  }

  // ----- which transactions are delivered -----

  /** No object is of a type the server does not know. */
  ghost predicate AllKnown(os: seq<Flat>) {
    forall i :: 0 <= i < |os| ==> os[i].kind != Other
  }

  lemma {:induction false} TranslateKeepsKnown<S>(y: Sys<S>, s: S, os: seq<Flat>)
    requires s in y.sessions
    ensures AllKnown(Translate(y, s, os).1) <==> AllKnown(os)
    ensures Translate(y, s, os).2 == if AllKnown(os) then OK else InvalidOperation
    decreases |os|
  {
    if os != [] && os[0].kind != Other {
      var (y', o) := TranslateOne(y, s, os[0]);
      TranslateKeepsKnown(y', s, os[1..]);
      KnownTail(os);
      KnownTail(Translate(y, s, os).1);
      assert Translate(y, s, os).1[1..] == Translate(y', s, os[1..]).1;
    }
  }

  lemma {:induction false} KnownTail(os: seq<Flat>)
    requires os != []
    ensures AllKnown(os) <==> os[0].kind != Other && AllKnown(os[1..])
  {
    assert forall i :: 1 <= i < |os| ==> os[i] == os[1..][i - 1];
  }

  /** The binders among the objects in front of the first of an unknown type: those that get handles. */
  ghost function Exported(os: seq<Flat>): nat
    decreases |os|
  {
    if os == [] || os[0].kind == Other then 0
    else (if os[0].kind == Binder then 1 else 0) + Exported(os[1..])
  }

  /** Handles are given out one after the other. */
  lemma {:induction false} HandlesInOrder<S>(y: Sys<S>, s: S, os: seq<Flat>, h: nat)
    requires Inv(y) && Live(y, s)
    ensures var y' := Translate(y, s, os).0;
      && y'.next == y.next + Exported(os)
      && FindSession(y', h) == if h > 0 && y.next <= h < y'.next then Some(s) else FindSession(y, h)
    decreases |os|
  {
    hide Inv;
    NextIsFresh(y, s);
    if os != [] && os[0].kind != Other {
      TranslateOneKeepsInv(y, s, os[0]);
      HandlesInOrder(TranslateOne(y, s, os[0]).0, s, os[1..], h);
    }
  }

  /** The k-th binder of a message gets the k-th handle. */
  lemma {:induction false} HandleInOrder<S>(y: Sys<S>, s: S, os: seq<Flat>, i: nat)
    requires s in y.sessions && i < |os| && AllKnown(os[..i]) && os[i].kind == Binder
    ensures Translate(y, s, os).1[i] == Flat(Handle, (y.next + Exported(os[..i])) % HANDLE_LIMIT, 0)
    decreases |os|
  {
    if i > 0 {
      assert os[..i][0] == os[0] && os[..i][1..] == os[1..][..i - 1];
      KnownTail(os[..i]);
      HandleInOrder(TranslateOne(y, s, os[0]).0, s, os[1..], i - 1);
    }
  }

  /** The session a transaction of session s to this handle reaches: the one that the handle leads to, or s itself if the
      handle is one that the message is about to get. */
  lemma {:induction false} TargetIs<S>(y: Sys<S>, s: S, m: Message)
    requires Inv(y) && Live(y, s) && m.body.Call?
    ensures Target(y, s, m) ==
      if m.destination == 0 then y.contextMgr
      else if m.destination in y.handles then Some(y.handles[m.destination])
      else if y.next <= m.destination < y.next + Exported(m.body.objects) then Some(s)
      else None
    ensures Reaches(y, s, m) <==> Target(y, s, m).Some?
  {
    HandlesInOrder(y, s, m.body.objects, m.destination);
    TranslateKeepsInv(y, s, m.body.objects);
    TranslateGrows(y, s, m.body.objects);
    FoundIsLive(Translate(y, s, m.body.objects).0, m.destination);
    OldHandles(y);
  }

  lemma OldHandles<S>(y: Sys<S>)
    requires Inv(y)
    ensures y.next > 0 && forall h :: h in y.handles ==> 0 < h < y.next
  {
  }

  // ----- what a transaction brings its target -----

  /** The message for the target: the sender's but for the cookie, which is the target's next, and for what the objects are
      translated to; with the target's object under the destination. */
  ghost function Carried<S>(y: Sys<S>, s: S, m: Message): Message
    requires Reaches(y, s, m)
  {
    var y1 := Translate(y, s, m.body.objects).0;
    var objects := y1.sessions[Target(y, s, m).value].objects;
    var b := if m.destination in objects then objects[m.destination] else BinderObject(0, 0);
    Message(Transaction, m.destination, y.sessions[Target(y, s, m).value].nextCookie,
            Call(b.binder, b.cookie, m.body.code, Handed(y, s, m)))
  }

  /** A readable transaction is delivered exactly when its target is found and every object is of a known type. */
  lemma {:induction false} DeliveredExactly<S>(y: Sys<S>, s: S, m: Message)
    requires Inv(y) && Live(y, s)
    ensures Deliver(y, s, m).1 ==
      if !m.body.Call? then BadValue
      else if !Reaches(y, s, m) then NameNotFound
      else if AllKnown(m.body.objects) then OK
      else InvalidOperation
  {
    hide Inv, Translate, AllKnown;
    if m.body.Call? {
      TargetIs(y, s, m);
      var (y1, os, _) := Translate(y, s, m.body.objects);
      TranslateKeepsInv(y, s, m.body.objects);
      TranslateKeepsKnown(y, s, m.body.objects);
      FoundIsLive(y1, m.destination);
      var t := Target(y, s, m);
      if t.Some? { TranslateKeepsKnown(TakeCookie(y1, t.value), t.value, os); }
    }
  }

  lemma {:induction false} DeliverAdds<S>(y: Sys<S>, s: S, m: Message, r: S)
    requires Inv(y) && Live(y, s) && r in y.sessions
    ensures var (y', status) := Deliver(y, s, m);
      && (status == OK ==> Reaches(y, s, m))
      && y'.monitor == y.monitor
      && Adds(y, y', r, if status == OK then Written(y.monitor, Target(y, s, m).value, Carried(y, s, m), r) else [])
  {
    DeliveredExactly(y, s, m);
    hide Inv, Translate, Accept, Write, Written, Adds, TranslateOne;
    SelfAdds(y, r);
    if m.body.Call? {
      var (y1, os, _) := Translate(y, s, m.body.objects);
      TranslateGrows(y, s, m.body.objects);
      GrewAdds(y, y1, s, r);
      var t := FindSession(y1, m.destination);
      if t.Some? && t.value in y1.sessions {
        var (y2, os', status) := Accept(y1, t.value, Record(s, m.cookie), m.destination, os);
        AcceptAdds(y1, t.value, Record(s, m.cookie), m.destination, os, r);
        AddsTwice(y, y1, y2, r, [], []);
        if status == OK {
          assert Delivered(y1, t.value, m, os') == Carried(y, s, m);
          WriteLater(y, y2, r, [], t.value, Carried(y, s, m));
        }
      }
    }
  }

  lemma SelfAdds<S>(y: Sys<S>, r: S)
    requires r in y.sessions
    ensures Adds(y, y, r, [])
  {
  }

  lemma {:induction false} GrewAdds<S>(y: Sys<S>, y': Sys<S>, s: S, r: S)
    requires s in y.sessions && r in y.sessions && Grew(y, y', s)
    ensures Adds(y, y', r, []) && y'.monitor == y.monitor
    ensures y'.sessions[r].nextCookie == y.sessions[r].nextCookie
  {
  }

  lemma {:induction false} AcceptAdds<S>(y: Sys<S>, t: S, record: Record<S>, destination: nat, os: seq<Flat>, r: S)
    requires t in y.sessions && r in y.sessions
    ensures var y' := Accept(y, t, record, destination, os).0; Adds(y, y', r, []) && y'.monitor == y.monitor
  {
    hide Translate;
    TranslateGrows(TakeCookie(y, t), t, os);
  }

  // ----- what is given out -----

  /** In this step session t is asked to take a transaction, and so takes a cookie for it. */
  ghost predicate Tries<S>(y: Sys<S>, e: Event<S>, t: S) {
    && Enabled(y, e) && e.Receive? && e.m.kind == Transaction && e.m.body.Call?
    && Target(y, e.s, e.m) == Some(t)
  }

  ghost function TryCount<S>(es: seq<Event<S>>, t: S): nat
    decreases |es|
  {
    if es == [] then 0
    else TryCount(es[..|es| - 1], t) + if Tries(Run(es[..|es| - 1]), es[|es| - 1], t) then 1 else 0
  }

  /** A session that connects is read from, and nothing has been sent to it, promised or kept for it. */
  lemma {:induction false} Connecting<S>(y: Sys<S>, s: S)
    requires s !in y.sessions
    ensures var y' := Step(y, Connect(s));
      && Live(y', s) && y'.sessions[s].reading && y'.sessions[s].out == []
      && Pending(y', s) == map[] && NextCookie(y', s) == 0
      && y'.sessions[s].objects == map[] && y'.sessions[s].deaths == map[]
      && y'.sessions - {s} == y.sessions && y'.(sessions := y.sessions) == y
  {
  }

  /** The binders that the transactions of a run bring to the server. */
  ghost function ExportCount<S>(es: seq<Event<S>>): nat
    decreases |es|
  {
    if es == [] then 0
    else
      var e := es[|es| - 1];
      ExportCount(es[..|es| - 1])
      + if Enabled(Run(es[..|es| - 1]), e) && e.Receive? && e.m.kind == Transaction && e.m.body.Call? then Exported(e.m.body.objects) else 0
  }

  /** Cookies count from 0 and handles from 1: the next cookie of a session is the number of transactions it was asked to take
      so far, and the next handle is one more than the number of binders that were exported. */
  lemma {:induction false} GivenOutInOrder<S>(es: seq<Event<S>>, t: S)
    ensures NextCookie(Run(es), t) == TryCount(es, t)
    ensures Run(es).next == 1 + ExportCount(es)
    decreases |es|
  {
    hide Inv, Step, Tries, Enabled, Exported;
    if es != [] {
      GivenOutInOrder(es[..|es| - 1], t);
      RunKeepsInv(es[..|es| - 1]);
      StepGivesOut(Run(es[..|es| - 1]), es[|es| - 1], t);
    }
  }

  lemma {:induction false} StepGivesOut<S>(y: Sys<S>, e: Event<S>, t: S)
    requires Inv(y)
    ensures NextCookie(Step(y, e), t) == NextCookie(y, t) + if Tries(y, e, t) then 1 else 0
    ensures Step(y, e).next == y.next
      + if Enabled(y, e) && e.Receive? && e.m.kind == Transaction && e.m.body.Call? then Exported(e.m.body.objects) else 0
  {
    if Enabled(y, e) {
      match e {
        case Connect(_) =>
        case Receive(s, m) =>
          hide Process, Inv, Tables, Target, Exported;
          ProcessIsQuiet(y, s, m);
          TablesGiveOut(y, s, m, t);
          if t in y.sessions { assert SameButOut(Tables(y, s, m).sessions[t], Process(y, s, m).sessions[t]); }
        case Disconnect(s, order) =>
          hide Terminate, Inv;
          TerminateIsLeft(y, s, order);
          if t in y.sessions { assert SameButOut(Left(y, s).sessions[t], Terminate(y, s, order).sessions[t]); }
        case Corrupt(_, _) =>
      }
    }
  }

  lemma {:induction false} TablesGiveOut<S>(y: Sys<S>, s: S, m: Message, t: S)
    requires Inv(y) && Live(y, s) && y.sessions[s].reading
    ensures Tables(y, s, m).sessions.Keys == y.sessions.Keys
    ensures NextCookie(Tables(y, s, m), t) == NextCookie(y, t) + if Tries(y, Receive(s, m), t) then 1 else 0
    ensures Tables(y, s, m).next == y.next + if m.kind == Transaction && m.body.Call? then Exported(m.body.objects) else 0
  {
    hide Inv, DeliverTables, AddReference, RemoveReference, Target, Exported;
    ReferenceFrame(y, s, m.body);
    if m.kind == Transaction { DeliverGivesOut(y, s, m, t); }
  }

  lemma {:induction false} DeliverGivesOut<S>(y: Sys<S>, s: S, m: Message, t: S)
    requires Inv(y) && Live(y, s)
    ensures var y' := DeliverTables(y, s, m).0;
      && y'.sessions.Keys == y.sessions.Keys
      && NextCookie(y', t) == NextCookie(y, t) + (if m.body.Call? && Target(y, s, m) == Some(t) then 1 else 0)
      && y'.next == y.next + if m.body.Call? then Exported(m.body.objects) else 0
  {
    hide Inv, Translate, Exported, Accept;
    if m.body.Call? {
      var (y1, os, _) := Translate(y, s, m.body.objects);
      TargetIs(y, s, m);
      HandlesInOrder(y, s, m.body.objects, 0);
      TranslateKeepsInv(y, s, m.body.objects);
      TranslateGrows(y, s, m.body.objects);
      var r := Target(y, s, m);
      if r.Some? {
        FoundIsLive(y1, m.destination);
        ExportedOnce(y, s, m.body.objects);
        AcceptGivesOut(y1, r.value, Record(s, m.cookie), m.destination, os, t);
      }
    }
  }

  lemma {:induction false} AcceptGivesOut<S>(y: Sys<S>, r: S, record: Record<S>, destination: nat, os: seq<Flat>, t: S)
    requires Inv(y) && Live(y, r) && Exported(os) == 0
    ensures var y' := Accept(y, r, record, destination, os).0;
      && y'.next == y.next
      && NextCookie(y', t) == NextCookie(y, t) + if r == t then 1 else 0
  {
    hide Inv, Translate, Exported;
    TakeCookieKeepsInv(y, r);
    HandlesInOrder(TakeCookie(y, r), r, os, 0);
    TranslateGrows(TakeCookie(y, r), r, os);
  }

  /** What one pass leaves has no binder that the next would export. */
  lemma {:induction false} ExportedOnce<S>(y: Sys<S>, s: S, os: seq<Flat>)
    requires s in y.sessions
    ensures Exported(Translate(y, s, os).1) == 0
    decreases |os|
  {
    if os != [] && os[0].kind != Other {
      var (y', o) := TranslateOne(y, s, os[0]);
      ExportedOnce(y', s, os[1..]);
      assert Translate(y, s, os).1[1..] == Translate(y', s, os[1..]).1;
    }
  }

  // ----- what a message brings each session -----

  /** The status the sender of a message is told; a reply is told none. */
  ghost function Answer<S>(y: Sys<S>, s: S, m: Message): StatusCode
    requires s in y.sessions && Readable(m)
  {
    match m.kind
    case SetContextMgr => if y.contextMgr == None then OK else AlreadyExists
    case SetMonitor => if y.monitor == None then OK else AlreadyExists
    case Acquire => if m.body.handle in y.handles then OK else DeadObject
    case Release =>
      if m.body.handle !in y.handles then DeadObject else if RefCount(y, m.body.handle, s) > 0 then OK else BadValue
    case RequestDeathNotification => if m.body.handle in y.sessions[s].deaths then AlreadyExists else OK
    case ClearDeathNotification => if m.body.handle in y.sessions[s].deaths then OK else BadValue
    case Transaction =>
      if !m.body.Call? then BadValue
      else if !Reaches(y, s, m) then NameNotFound
      else if AllKnown(m.body.objects) then OK
      else InvalidOperation
    case _ => InvalidOperation
  }

  /** What is written before the status: a transaction to its target, and the request to be the context manager to the
      monitor. */
  ghost function Passed<S>(y: Sys<S>, s: S, m: Message, r: S): seq<Message>
    requires s in y.sessions && Readable(m)
  {
    if m.kind == SetContextMgr then Copied(y.monitor, m, r)
    else if m.kind == Transaction && Answer(y, s, m) == OK then
      Written(y.monitor, Target(y, s, m).value, Carried(y, s, m), r)
    else []
  }

  /** Everything session r is sent because session s sends m. A reply is written to the caller it is for, under the caller's
      cookie; every other message that can be read is answered by one status under the sender's cookie. */
  ghost function Sent<S>(y: Sys<S>, s: S, m: Message, r: S): seq<Message>
    requires s in y.sessions
  {
    if !Readable(m) then []
    else if IsReply(m) then
      if m.cookie !in Pending(y, s) then []
      else
        var record := Pending(y, s)[m.cookie];
        Written(y.monitor, record.caller, m.(cookie := record.replyCookie), r)
    else
      Passed(y, s, m, r)
      + Written(if m.kind == SetMonitor && y.monitor == None then Some(s) else y.monitor,
                s, Message(Status, 0, m.cookie, Code(Answer(y, s, m))), r)
  }

  lemma {:induction false} MessageSends<S>(y: Sys<S>, s: S, m: Message, r: S)
    requires Inv(y) && Live(y, s) && r in y.sessions
    ensures Adds(y, Process(y, s, m), r, Sent(y, s, m, r))
  {
    hide Inv, Write, Written, Deliver, AddReference, RemoveReference, AllKnown, Reaches, Target, Carried;
    if Readable(m) && m.kind == Transaction {
      DeliveredExactly(y, s, m);
      DeliverAdds(y, s, m, r);
      StatusLater(y, Deliver(y, s, m).0, r, Passed(y, s, m, r), s, m, Answer(y, s, m));
    } else if Readable(m) && IsReply(m) {
      ReplyAdds(y, s, m, r);
    } else if Readable(m) && m.kind in {Acquire, Release} {
      ReferenceFrame(y, s, m.body);
      AcquireRefs(y, s, m.body.handle, s, m.body.handle);
      ReleaseRefs(y, s, m.body.handle, s, m.body.handle);
      var y' := if m.kind == Acquire then AddReference(y, s, m.body.handle).0 else RemoveReference(y, s, m.body.handle).0;
      StatusLater(y, y', r, [], s, m, Answer(y, s, m));
    } else {
      OtherSends(y, s, m, r);
    }
  }

  lemma {:induction false} StatusLater<S>(x: Sys<S>, y: Sys<S>, r: S, a: seq<Message>, s: S, m: Message, status: StatusCode)
    requires Adds(x, y, r, a)
    ensures Adds(x, SendStatus(y, s, m, status), r, a + Written(y.monitor, s, Message(Status, 0, m.cookie, Code(status)), r))
  {
    hide Written, Write;
    WriteLater(x, y, r, a, s, Message(Status, 0, m.cookie, Code(status)));
  }

  lemma {:induction false} ReplyAdds<S>(y: Sys<S>, s: S, m: Message, r: S)
    requires s in y.sessions && r in y.sessions && IsReply(m)
    ensures Adds(y, Process(y, s, m), r, Sent(y, s, m, r))
  {
    hide Written, Write;
    if m.cookie in Pending(y, s) {
      var record := Pending(y, s)[m.cookie];
      WriteLater(y, y.(sessions := y.sessions[s := Answered(y.sessions[s], m.cookie)]), r, [], record.caller, m.(cookie := record.replyCookie));
      assert [] + Sent(y, s, m, r) == Sent(y, s, m, r);
    }
  }

  lemma {:induction false} OtherSends<S>(y: Sys<S>, s: S, m: Message, r: S)
    requires s in y.sessions && r in y.sessions
    requires Readable(m) ==> !IsReply(m) && m.kind !in {Transaction, Acquire, Release}
    ensures Adds(y, Process(y, s, m), r, Sent(y, s, m, r))
  {
    hide Written, SendStatus, Copied, ForwardToMonitor, Write;
    SelfAdds(y, r);
    if Readable(m) {
      WriteAdds(y, s, m, r);
      SameOuts(y, s, m, r);
      assert m.body.Death? && m.body.handle !in y.sessions[s].deaths ==> y.sessions[s].deaths - {m.body.handle} == y.sessions[s].deaths;
      StatusLater(y, Before(y, s, m), r, Passed(y, s, m, r), s, m, Answer(y, s, m));
    }
  }

  /** The state in which the status is written. */
  ghost function Before<S>(y: Sys<S>, s: S, m: Message): Sys<S>
    requires s in y.sessions && Readable(m)
  {
    if m.kind == SetContextMgr then
      var y' := ForwardToMonitor(y, m); if y.contextMgr == None then y'.(contextMgr := Some(s)) else y'
    else Tables(y, s, m)
  }

  lemma {:induction false} SameOuts<S>(y: Sys<S>, s: S, m: Message, r: S)
    requires s in y.sessions && r in y.sessions && Readable(m)
    requires !IsReply(m) && m.kind !in {Transaction, Acquire, Release}
    ensures Adds(y, Before(y, s, m), r, Passed(y, s, m, r))
    ensures Before(y, s, m).monitor == if m.kind == SetMonitor && y.monitor == None then Some(s) else y.monitor
  {
    WriteAdds(y, s, m, r);
  }

  // ----- the way of a transaction and its reply -----

  /** The target of a posted transaction is sent it at once: under the cookie it is pending under, with the target's own object
      for the destination. */
  lemma {:induction false} PostedIsSent<S>(y: Sys<S>, e: Event<S>) returns (sent: Message)
    requires Inv(y) && Posted(y, e).Some?
    ensures Reaches(y, e.s, e.m) && Target(y, e.s, e.m) == Some(Posted(y, e).value.target)
    ensures sent.kind == Transaction && sent.destination == e.m.destination && sent.cookie == Posted(y, e).value.cookie
    ensures sent.body.Call? && sent.body.code == e.m.body.code && sent.body.objects == Handed(y, e.s, e.m)
    ensures var t := Posted(y, e).value.target;
      var y1 := Translate(y, e.s, e.m.body.objects).0;
      && t in y1.sessions && t in y.sessions && t in Step(y, e).sessions
      && (if e.m.destination == 0 then y.contextMgr == Some(t) && sent.body.binder == 0 && sent.body.cookie == 0
          else
            && e.m.destination in y1.sessions[t].objects
            && y1.sessions[t].objects[e.m.destination] == BinderObject(sent.body.binder, sent.body.cookie))
      && y.sessions[t].out + [sent] <= Step(y, e).sessions[t].out
  {
    hide Translate, Accept, Inv, Process, Adds;
    var s, m := e.s, e.m;
    PostedMeansOk(y, s, m);
    DeliveredExactly(y, s, m);
    TargetIs(y, s, m);
    var y1 := Translate(y, s, m.body.objects).0;
    TranslateKeepsInv(y, s, m.body.objects);
    TranslateGrows(y, s, m.body.objects);
    FoundIsLive(y1, m.destination);
    sent := Carried(y, s, m);
    var t := Target(y, s, m).value;
    GrewAdds(y, y1, s, t);
    MessageSends(y, s, m, t);
    ZeroIsNoObject(y1, t);
    SentStarts(y, s, m, t);
  }

  lemma ZeroIsNoObject<S>(y: Sys<S>, t: S)
    requires Inv(y) && Live(y, t)
    ensures 0 !in y.sessions[t].objects
  {
    assert 0 in y.sessions[t].objects ==> 0 in y.handles;
  }

  lemma {:induction false} SentStarts<S>(y: Sys<S>, s: S, m: Message, t: S)
    requires Inv(y) && Live(y, s) && m.kind == Transaction && t in y.sessions
    requires Adds(y, Process(y, s, m), t, Sent(y, s, m, t))
    requires Reaches(y, s, m) && Answer(y, s, m) == OK && Target(y, s, m) == Some(t)
    ensures t in Process(y, s, m).sessions
    ensures y.sessions[t].out + [Carried(y, s, m)] <= Process(y, s, m).sessions[t].out
  {
    hide Carried, Answer, Process, Inv, Reaches;
    assert Sent(y, s, m, t)[..1] == [Carried(y, s, m)];
  }

  /** What is pending under a cookie that has been given out is what was posted then, until it is answered. */
  lemma {:induction false} RecordStays<S>(es: seq<Event<S>>, e: Event<S>, more: seq<Event<S>>)
    requires Posted(Run(es), e).Some?
    ensures var p := Posted(Run(es), e).value;
      var y := Run(es + [e] + more);
      && NextCookie(y, p.target) > p.cookie
      && (p.cookie in Pending(y, p.target) ==> Pending(y, p.target)[p.cookie] == p.record)
    decreases |more|
  {
    hide Step, Inv, Posted, Answers;
    var p := Posted(Run(es), e).value;
    var all := es + [e] + more;
    var before := all[..|all| - 1];
    RunKeepsInv(before);
    StepPending(Run(before), all[|all| - 1], p.target);
    StepCookies(Run(before), all[|all| - 1], p.target);
    if more == [] {
      assert before == es;
    } else {
      assert before == es + [e] + more[..|more| - 1];
      RecordStays(es, e, more[..|more| - 1]);
    }
  }

  lemma {:induction false} PostsAreCounted<S>(es: seq<Event<S>>, e: Event<S>, more: seq<Event<S>>)
    requires Posted(Run(es), e).Some?
    ensures var p := Posted(Run(es), e).value; PostCount(es + [e] + more, p.target, p.cookie) > 0
    decreases |more|
  {
    hide Posted, Run;
    var all := es + [e] + more;
    if more == [] {
      assert all[..|all| - 1] == es;
    } else {
      assert all[..|all| - 1] == es + [e] + more[..|more| - 1];
      PostsAreCounted(es, e, more[..|more| - 1]);
    }
  }

  /** There and back: a session that answers, under the cookie of the message it was sent and for the first time, reaches the
      session that sent the transaction, under the cookie which that gave it, whatever happens in between. */
  lemma {:induction false} ReplyComesBack<S>(es: seq<Event<S>>, e: Event<S>, more: seq<Event<S>>, reply: Message)
    returns (sent: Message)
    requires Posted(Run(es), e).Some? && reply.cookie == Posted(Run(es), e).value.cookie && IsReply(reply)
    requires var t := Posted(Run(es), e).value.target;
      && AnswerCount(es + [e] + more, t, reply.cookie) == 0
      && Enabled(Run(es + [e] + more), Receive(t, reply))
    ensures var t := Posted(Run(es), e).value.target;
      var (x, y) := (Run(es), Run(es + [e] + more));
      && t in x.sessions && t in Step(x, e).sessions
      && sent.kind == Transaction && sent.cookie == reply.cookie && x.sessions[t].out + [sent] <= Step(x, e).sessions[t].out
      && e.s in y.sessions
      && forall r :: r in y.sessions ==>
           Adds(y, Step(y, Receive(t, reply)), r, Written(y.monitor, e.s, reply.(cookie := e.m.cookie), r))
  {
    var t := Posted(Run(es), e).value.target;
    var y := Run(es + [e] + more);
    RunKeepsInv(es);
    RunKeepsInv(es + [e] + more);
    sent := PostedIsSent(Run(es), e);
    RecordIsSenders(Run(es), e);
    hide Inv, Posted, Step, Written, Adds;
    RecordStays(es, e, more);
    PostsAreCounted(es, e, more);
    AnsweredAtMostOnce(es + [e] + more, t, reply.cookie);
    CallersAreKnown(y, t, reply.cookie);
    assert Readable(reply);
    assert Step(y, Receive(t, reply)) == Process(y, t, reply) by { Received(y, t, reply); }
    forall r | r in y.sessions
      ensures Adds(y, Step(y, Receive(t, reply)), r, Written(y.monitor, e.s, reply.(cookie := e.m.cookie), r))
    {
      MessageSends(y, t, reply, r);
    }
  }

  lemma Received<S>(y: Sys<S>, s: S, m: Message)
    requires Enabled(y, Receive(s, m))
    ensures Live(y, s) && Step(y, Receive(s, m)) == Process(y, s, m)
  {
  }

  lemma {:induction false} RecordIsSenders<S>(y: Sys<S>, e: Event<S>)
    requires Posted(y, e).Some?
    ensures Posted(y, e).value.record == Record(e.s, e.m.cookie)
  {
  }

  // ----- what the leaving of a session brings the others -----

  /** What session r is sent when the listed holders of a handle are told of its death: each that asked for it, in order. */
  ghost function Notices<S>(y: Sys<S>, list: seq<S>, handle: nat, r: S): seq<Message>
    decreases |list|
  {
    if list == [] then []
    else
      var asked := Registration(y, list[0], handle);
      (if asked.Some? then Written(y.monitor, list[0], Notice(handle, asked.value), r) else [])
      + Notices(y, list[1..], handle, r)
  }

  lemma {:induction false} NotifyAdds<S>(y: Sys<S>, list: seq<S>, handle: nat, r: S)
    requires r in y.sessions
    ensures Adds(y, NotifyAll(y, list, handle), r, Notices(y, list, handle, r))
    decreases |list|
  {
    hide OnlyWrote, Written, Write, Adds, Registration;
    if list == [] {
      SelfAdds(y, r);
    } else {
      var y' := SendDeath(y, list[0], handle);
      var asked := Registration(y, list[0], handle);
      var first := if asked.Some? then Written(y.monitor, list[0], Notice(handle, asked.value), r) else [];
      DeathAdds(y, list[0], handle, r);
      SendDeathOnlyWrites(y, list[0], handle);
      AddsIn(y, y', r, first);
      NotifyAdds(y', list[1..], handle, r);
      SameNotices(y, y', list[1..], handle, r);
      AddsTwice(y, y', NotifyAll(y, list, handle), r, first, Notices(y, list[1..], handle, r));
    }
  }

  lemma {:induction false} DeathAdds<S>(y: Sys<S>, s: S, handle: nat, r: S)
    requires r in y.sessions
    ensures var asked := Registration(y, s, handle);
      Adds(y, SendDeath(y, s, handle), r, if asked.Some? then Written(y.monitor, s, Notice(handle, asked.value), r) else [])
  {
    hide Written, Write;
    if s in y.sessions && handle in y.sessions[s].deaths { WriteAdds(y, s, Notice(handle, y.sessions[s].deaths[handle]), r); }
  }

  lemma {:induction false} SameNotices<S>(y: Sys<S>, y': Sys<S>, list: seq<S>, handle: nat, r: S)
    requires OnlyWrote(y, y')
    ensures Notices(y', list, handle, r) == Notices(y, list, handle, r)
    decreases |list|
  {
    if list != [] {
      SameRegistration(y, y', list[0], handle);
      hide OnlyWrote, Registration;
      SameNotices(y, y', list[1..], handle, r);
    }
  }

  lemma {:induction false} SameRegistration<S>(y: Sys<S>, y': Sys<S>, s: S, handle: nat)
    requires OnlyWrote(y, y')
    ensures Registration(y', s, handle) == Registration(y, s, handle) && y'.monitor == y.monitor
  {
    if s in y.sessions { assert SameButOut(y.sessions[s], y'.sessions[s]); }
  }

  /** The same for the objects of a session that leaves, in the order in which they are walked. */
  ghost function AllNotices<S>(y: Sys<S>, order: seq<nat>, r: S): seq<Message>
    decreases |order|
  {
    if order == [] then [] else Notices(y, RefList(y, order[0]), order[0], r) + AllNotices(y, order[1..], r)
  }

  /** When a session leaves, the others are sent these notices, with the copies for the monitor, and nothing else. */
  lemma {:induction false} LeavingSends<S>(y: Sys<S>, s: S, order: seq<nat>, r: S)
    requires Inv(y) && Live(y, s) && Enumerates(order, y.sessions[s].objects.Keys) && r in y.sessions
    ensures Adds(y, Terminate(y, s, order), r, AllNotices(y, order, r))
  {
    ReferencesAreKnown(y);
    hide Inv, RemoveAll, AllNotices;
    RemoveAllAdds(y, order, r);
  }

  lemma {:induction false} RemoveAllAdds<S>(y: Sys<S>, order: seq<nat>, r: S)
    requires y.references.Keys <= y.handles.Keys && r in y.sessions
    requires forall i, j :: 0 <= i < j < |order| ==> order[i] != order[j]
    ensures Adds(y, RemoveAll(y, order), r, AllNotices(y, order, r))
    decreases |order|
  {
    hide Adds, Notices, RemoveHandle, RefList;
    if order == [] {
      SelfAdds(y, r);
    } else {
      var y' := RemoveHandle(y, order[0]);
      RemoveAdds(y, order[0], r);
      AddsIn(y, y', r, Notices(y, RefList(y, order[0]), order[0], r));
      RemoveDrops(y, order[0]);
      DroppedTables(y, y', order[0]);
      RemoveAllAdds(y', order[1..], r);
      SameAllNotices(y, y', order[0], order[1..], r);
      AddsTwice(y, y', RemoveAll(y, order), r, Notices(y, RefList(y, order[0]), order[0], r), AllNotices(y, order[1..], r));
    }
  }

  lemma {:induction false} RemoveAdds<S>(y: Sys<S>, handle: nat, r: S)
    requires y.references.Keys <= y.handles.Keys && r in y.sessions
    ensures Adds(y, RemoveHandle(y, handle), r, Notices(y, RefList(y, handle), handle, r))
  {
    hide NotifyAll;
    if handle in y.handles { NotifyAdds(y, RefList(y, handle), handle, r); }
  }

  lemma {:induction false} DroppedTables<S>(y: Sys<S>, y': Sys<S>, handle: nat)
    requires Dropped(y, y', {handle})
    ensures y'.handles == y.handles - {handle} && y'.references == y.references - {handle}
  {
  }

  lemma {:induction false} SameAllNotices<S>(y: Sys<S>, y': Sys<S>, handle: nat, order: seq<nat>, r: S)
    requires Dropped(y, y', {handle}) && handle !in order
    ensures AllNotices(y', order, r) == AllNotices(y, order, r)
    decreases |order|
  {
    if order != [] {
      DroppedTables(y, y', handle);
      var x := y.(handles := y.handles - {handle}, references := y.references - {handle});
      assert RefList(y', order[0]) == RefList(y, order[0]);
      SameNotices(x, y', RefList(y, order[0]), order[0], r);
      TablesOnly(y, x, RefList(y, order[0]), order[0], r);
      hide Dropped, Notices, RefList;
      SameAllNotices(y, y', handle, order[1..], r);
    }
  }

  lemma {:induction false} TablesOnly<S>(y: Sys<S>, x: Sys<S>, list: seq<S>, handle: nat, r: S)
    requires x.sessions == y.sessions && x.monitor == y.monitor
    ensures Notices(x, list, handle, r) == Notices(y, list, handle, r)
    decreases |list|
  {
    if list != [] { TablesOnly(y, x, list[1..], handle, r); }
  }
}
