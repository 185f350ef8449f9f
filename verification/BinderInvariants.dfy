/** What every step of the binder server keeps. */
module BinderInvariants {
  import opened BinderSpec
  import opened Options

  // ----- writing changes nothing but what was written -----

  ghost predicate SameButOut<S>(a: Session<S>, b: Session<S>) {
    a.(out := b.out) == b
  }

  /** y' differs from y in what its sessions have written, and in nothing else. */
  ghost predicate OnlyWrote<S>(y: Sys<S>, y': Sys<S>) {
    && y'.(sessions := y.sessions) == y
    && y'.sessions.Keys == y.sessions.Keys
    && forall s :: s in y.sessions ==> SameButOut(y.sessions[s], y'.sessions[s])
  }

  lemma {:induction false} WriteOnlyWrites<S>(y: Sys<S>, s: S, m: Message)
    ensures OnlyWrote(y, Write(y, s, m)) && OnlyWrote(y, ForwardToMonitor(y, m))
  {
  }

  lemma {:induction false} NotifyOnlyWrites<S>(y: Sys<S>, list: seq<S>, handle: nat)
    ensures OnlyWrote(y, NotifyAll(y, list, handle))
    decreases |list|
  {
    hide OnlyWrote, SendDeath;
    if list == [] {
      SelfOnlyWrote(y);
    } else {
      var y' := SendDeath(y, list[0], handle);
      SendDeathOnlyWrites(y, list[0], handle);
      NotifyOnlyWrites(y', list[1..], handle);
      OnlyWroteTwice(y, y', NotifyAll(y, list, handle));
    }
  }

  lemma {:induction false} SendDeathOnlyWrites<S>(y: Sys<S>, s: S, handle: nat)
    ensures OnlyWrote(y, SendDeath(y, s, handle))
  {
    hide OnlyWrote, Write;
    SelfOnlyWrote(y);
    if s in y.sessions && handle in y.sessions[s].deaths {
      WriteOnlyWrites(y, s, Message(DeadBinder, 0, 0, Death(handle, y.sessions[s].deaths[handle])));
    }
  }

  lemma SelfOnlyWrote<S>(y: Sys<S>)
    ensures OnlyWrote(y, y)
  {
  }

  lemma {:induction false} OnlyWroteTwice<S>(x: Sys<S>, y: Sys<S>, z: Sys<S>)
    requires OnlyWrote(x, y) && OnlyWrote(y, z)
    ensures OnlyWrote(x, z)
  {
    forall s | s in x.sessions ensures SameButOut(x.sessions[s], z.sessions[s]) {
      assert SameButOut(x.sessions[s], y.sessions[s]) && SameButOut(y.sessions[s], z.sessions[s]);
    }
  }

  // ----- the invariant -----

  /** A session that is still connected. */
  ghost predicate Live<S>(y: Sys<S>, s: S) {
    s in y.sessions && y.sessions[s].open
  }

  /** The registry and the object maps of the live sessions name the same handles. */
  ghost predicate Registered<S>(y: Sys<S>) {
    && y.next >= 1
    && (forall h :: h in y.handles ==> 0 < h < y.next && Live(y, y.handles[h]) && h in y.sessions[y.handles[h]].objects)
    && (forall s, h :: s in y.sessions && y.sessions[s].open && h in y.sessions[s].objects ==> h in y.handles && y.handles[h] == s)
  }

  ghost predicate Slots<S>(y: Sys<S>) {
    && (y.contextMgr.Some? ==> Live(y, y.contextMgr.value))
    && (y.monitor.Some? ==> Live(y, y.monitor.value))
  }

  ghost predicate References<S>(y: Sys<S>) {
    && y.references.Keys <= y.handles.Keys
    && (forall h :: h in y.references ==> forall s :: s in y.references[h] ==> s in y.sessions)
  }

  ghost predicate Cookies<S>(y: Sys<S>) {
    forall s, c :: s in y.sessions && c in y.sessions[s].pending ==>
      c < y.sessions[s].nextCookie && y.sessions[s].pending[c].caller in y.sessions
  }

  ghost predicate Inv<S>(y: Sys<S>) {
    Registered(y) && Slots(y) && References(y) && Cookies(y)
  }

  lemma {:induction false} WroteKeepsInv<S>(y: Sys<S>, y': Sys<S>)
    requires Inv(y) && OnlyWrote(y, y')
    ensures Inv(y')
  {
    assert forall s :: s in y.sessions ==> SameButOut(y.sessions[s], y'.sessions[s]);
    forall s | s in y.sessions
      ensures Live(y, s) <==> Live(y', s)
      ensures y'.sessions[s].objects == y.sessions[s].objects && y'.sessions[s].pending == y.sessions[s].pending
      ensures y'.sessions[s].nextCookie == y.sessions[s].nextCookie
    {
      assert SameButOut(y.sessions[s], y'.sessions[s]);
    }
  }

  // ----- transactions -----

  lemma {:induction false} NewHandleKeepsInv<S>(y: Sys<S>, s: S, b: BinderObject)
    requires Inv(y) && Live(y, s)
    ensures y.next !in y.handles && y.next !in y.sessions[s].objects
    ensures Inv(y.(next := y.next + 1, handles := y.handles[y.next := s],
                   sessions := y.sessions[s := y.sessions[s].(objects := y.sessions[s].objects[y.next := b])]))
  {
    assert y.next !in y.sessions[s].objects;
  }

  lemma {:induction false} TranslateOneKeepsInv<S>(y: Sys<S>, s: S, o: Flat)
    requires Inv(y) && Live(y, s)
    ensures Inv(TranslateOne(y, s, o).0) && Live(TranslateOne(y, s, o).0, s)
  {
    if o.kind == Binder { NewHandleKeepsInv(y, s, BinderObject(o.word, o.cookie)); }
  }

  lemma {:induction false} TranslateKeepsInv<S>(y: Sys<S>, s: S, os: seq<Flat>)
    requires Inv(y) && Live(y, s)
    ensures Inv(Translate(y, s, os).0) && Live(Translate(y, s, os).0, s)
    decreases |os|
  {
    if os != [] && os[0].kind != Other {
      TranslateOneKeepsInv(y, s, os[0]);
      TranslateKeepsInv(TranslateOne(y, s, os[0]).0, s, os[1..]);
    }
  }

  /** Translating in session s adds handles and grows the object map of s; all else stays. */
  ghost predicate Grew<S>(y: Sys<S>, y': Sys<S>, s: S)
    requires s in y.sessions
  {
    && y.next <= y'.next
    && y'.(next := y.next, handles := y.handles, sessions := y.sessions) == y
    && (forall h :: h in y.handles ==> h in y'.handles && y'.handles[h] == y.handles[h])
    && (forall h :: h in y'.handles ==> h in y.handles || y.next <= h)
    && s in y'.sessions
    && y'.sessions == y.sessions[s := y.sessions[s].(objects := y'.sessions[s].objects)]
    && (forall h :: h in y.sessions[s].objects ==> h in y'.sessions[s].objects && y'.sessions[s].objects[h] == y.sessions[s].objects[h])
  }

  lemma {:induction false} TranslateGrows<S>(y: Sys<S>, s: S, os: seq<Flat>)
    requires s in y.sessions
    ensures Grew(y, Translate(y, s, os).0, s)
    decreases |os|
  {
    hide Grew, TranslateOne;
    SelfGrew(y, s);
    if os != [] && os[0].kind != Other {
      var y' := TranslateOne(y, s, os[0]).0;
      TranslateOneGrows(y, s, os[0]);
      TranslateGrows(y', s, os[1..]);
      GrewTwice(y, y', Translate(y, s, os).0, s);
    }
  }

  lemma {:induction false} SelfGrew<S>(y: Sys<S>, s: S)
    requires s in y.sessions
    ensures Grew(y, y, s)
  {
    assert y.sessions == y.sessions[s := y.sessions[s]];
  }

  lemma {:induction false} TranslateOneGrows<S>(y: Sys<S>, s: S, o: Flat)
    requires s in y.sessions
    ensures s in TranslateOne(y, s, o).0.sessions && Grew(y, TranslateOne(y, s, o).0, s)
  {
  }

  lemma {:induction false} GrewTwice<S>(x: Sys<S>, y: Sys<S>, z: Sys<S>, s: S)
    requires s in x.sessions && s in y.sessions && Grew(x, y, s) && Grew(y, z, s)
    ensures Grew(x, z, s)
  {
  }

  lemma {:induction false} AwaitKeepsInv<S>(y: Sys<S>, t: S, cookie: nat, record: Record<S>)
    requires Inv(y) && t in y.sessions && cookie < y.sessions[t].nextCookie && record.caller in y.sessions
    ensures Inv(y.(sessions := y.sessions[t := y.sessions[t].(pending := y.sessions[t].pending[cookie := record])]))
  {
  }

  lemma {:induction false} AcceptKeepsInv<S>(y: Sys<S>, t: S, record: Record<S>, destination: nat, os: seq<Flat>)
    requires Inv(y) && Live(y, t) && record.caller in y.sessions
    ensures Inv(Accept(y, t, record, destination, os).0)
  {
    hide Inv;
    TakeCookieKeepsInv(y, t);
    TranslateKeepsInv(TakeCookie(y, t), t, os);
    TranslateGrows(TakeCookie(y, t), t, os);
    CookieIsFresh(y, t);
    AwaitKeepsInv(Translate(TakeCookie(y, t), t, os).0, t, y.sessions[t].nextCookie, record);
  }

  lemma {:induction false} TakeCookieKeepsInv<S>(y: Sys<S>, t: S)
    requires Inv(y) && t in y.sessions
    ensures Inv(TakeCookie(y, t)) && (Live(y, t) ==> Live(TakeCookie(y, t), t))
  {
  }

  lemma {:induction false} CookieIsFresh<S>(y: Sys<S>, t: S)
    requires Inv(y) && t in y.sessions
    ensures y.sessions[t].nextCookie !in y.sessions[t].pending
  {
  }

  /** A handle leads to a live session that holds the object, so a transaction found its target. */
  lemma {:induction false} FoundIsLive<S>(y: Sys<S>, handle: nat)
    requires Inv(y)
    ensures var t := FindSession(y, handle);
            t.Some? ==> Live(y, t.value) && (handle == 0 || handle in y.sessions[t.value].objects)
  {
  }

  // ----- the registry -----

  lemma {:induction false} ListKeepsInv<S>(y: Sys<S>, handle: nat, list: seq<S>)
    requires Inv(y) && handle in y.handles && forall s :: s in list ==> s in y.sessions
    ensures Inv(y.(references := y.references[handle := list]))
  {
  }

  lemma {:induction false} ReferenceKeepsInv<S>(y: Sys<S>, s: S, handle: nat)
    requires Inv(y) && s in y.sessions
    ensures Inv(AddReference(y, s, handle).0) && Inv(RemoveReference(y, s, handle).0)
  {
    hide Inv;
    if handle in y.handles {
      var list := RefList(y, handle);
      ReferrersKnown(y, handle);
      EraseFirstShrinks(list, s);
      ListKeepsInv(y, handle, list + [s]);
      ListKeepsInv(y, handle, EraseFirst(list, s));
    }
  }

  lemma {:induction false} ReferrersKnown<S>(y: Sys<S>, handle: nat)
    requires Inv(y)
    ensures forall r :: r in RefList(y, handle) ==> r in y.sessions
  {
  }

  lemma {:induction false} EraseFirstShrinks<S>(list: seq<S>, s: S)
    ensures multiset(EraseFirst(list, s)) == multiset(list) - multiset{s}
    ensures forall x :: x in EraseFirst(list, s) ==> x in list
    decreases |list|
  {
    if list != [] {
      assert list == [list[0]] + list[1..];
      EraseFirstShrinks(list[1..], s);
    }
  }

  /** Removing handles takes them out of both tables; beyond that, only death notices are written. */
  ghost predicate Dropped<S>(y: Sys<S>, y': Sys<S>, handles: set<nat>) {
    OnlyWrote(y.(handles := y.handles - handles, references := y.references - handles), y')
  }

  lemma {:induction false} RemoveDrops<S>(y: Sys<S>, handle: nat)
    requires y.references.Keys <= y.handles.Keys
    ensures Dropped(y, RemoveHandle(y, handle), {handle})
  {
    if handle in y.handles {
      NotifyOnlyWrites(y, RefList(y, handle), handle);
    } else {
      assert y.handles - {handle} == y.handles && y.references - {handle} == y.references;
    }
  }

  lemma {:induction false} RemoveAllDrops<S>(y: Sys<S>, handles: seq<nat>, all: set<nat>)
    requires y.references.Keys <= y.handles.Keys && forall h :: h in all <==> h in handles
    ensures Dropped(y, RemoveAll(y, handles), all)
    decreases |handles|
  {
    if handles == [] {
      assert y.handles - all == y.handles && y.references - all == y.references;
    } else {
      assert handles == [handles[0]] + handles[1..];
      var rest := set h | h in handles[1..];
      RemoveDrops(y, handles[0]);
      var y' := RemoveHandle(y, handles[0]);
      RemoveAllDrops(y', handles[1..], rest);
      assert y'.handles - rest == y.handles - all && y'.references - rest == y.references - all;
    }
  }

  /** What leaving does to the tables: s is closed, its handles are gone and it holds no slot. */
  ghost function Left<S>(y: Sys<S>, s: S): Sys<S>
    requires s in y.sessions
  {
    var gone := y.sessions[s].objects.Keys;
    Close(y.(handles := y.handles - gone, references := y.references - gone), s)
  }

  lemma {:induction false} LeftKeepsInv<S>(y: Sys<S>, s: S)
    requires Inv(y) && Live(y, s)
    ensures Inv(Left(y, s))
  {
    var z := Left(y, s);
    forall r, h | r in z.sessions && z.sessions[r].open && h in z.sessions[r].objects
      ensures h in z.handles && z.handles[h] == r
    {
      assert h in y.handles && y.handles[h] == r != s;
      assert h !in y.sessions[s].objects;
    }
  }

  lemma {:induction false} CloseWrote<S>(x: Sys<S>, y: Sys<S>, s: S)
    requires OnlyWrote(x, y) && s in x.sessions
    ensures OnlyWrote(Close(x, s), Close(y, s))
  {
    assert SameButOut(x.sessions[s], y.sessions[s]);
  }

  /** Leaving closes the session, clears what it held and writes death notices; nothing else changes. */
  lemma {:induction false} TerminateIsLeft<S>(y: Sys<S>, s: S, order: seq<nat>)
    requires Inv(y) && Live(y, s) && Enumerates(order, y.sessions[s].objects.Keys)
    ensures OnlyWrote(Left(y, s), Terminate(y, s, order))
  {
    hide RemoveAll, OnlyWrote, Close;
    var gone := y.sessions[s].objects.Keys;
    RemoveAllDrops(y, order, gone);
    CloseWrote(y.(handles := y.handles - gone, references := y.references - gone), RemoveAll(y, order), s);
  }

  lemma {:induction false} TerminateKeepsInv<S>(y: Sys<S>, s: S, order: seq<nat>)
    requires Inv(y) && Live(y, s) && Enumerates(order, y.sessions[s].objects.Keys)
    ensures Inv(Terminate(y, s, order)) && !Live(Terminate(y, s, order), s)
  {
    hide Terminate, Inv;
    TerminateIsLeft(y, s, order);
    LeftKeepsInv(y, s);
    WroteKeepsInv(Left(y, s), Terminate(y, s, order));
    assert SameButOut(Left(y, s).sessions[s], Terminate(y, s, order).sessions[s]);
  }

  // ----- every step -----

  /** How often message m was written to session s. */
  ghost function Copies<S>(y: Sys<S>, s: S, m: Message): nat {
    if s in y.sessions then multiset(y.sessions[s].out)[m] else 0
  }

  /** y' differs from y in what was written, and no death notice is among that. */
  ghost predicate Quiet<S>(y: Sys<S>, y': Sys<S>) {
    OnlyWrote(y, y') && forall s, m: Message :: s in y.sessions && m.kind == DeadBinder ==> Copies(y', s, m) == Copies(y, s, m)
  }

  lemma {:induction false} SendCopies<S>(y: Sys<S>, t: S, x: Message, s: S, m: Message)
    ensures Copies(Send(y, t, x), s, m) == Copies(y, s, m) + (if t == s && s in y.sessions && x == m then 1 else 0)
  {
  }

  /** A death notice is copied to a monitor only inside a log entry. */
  lemma {:induction false} WriteCopies<S>(y: Sys<S>, t: S, x: Message, s: S, m: Message)
    requires m.kind == DeadBinder
    ensures Copies(Write(y, t, x), s, m) == Copies(y, s, m) + (if t == s && s in y.sessions && x == m then 1 else 0)
    ensures Copies(ForwardToMonitor(y, x), s, m) == Copies(y, s, m)
  {
    hide Copies;
    var log := Message(LogEntry, 0, 0, Logged(x));
    SendCopies(y, t, x, s, m);
    if y.monitor.Some? {
      SendCopies(Send(y, t, x), y.monitor.value, log, s, m);
      SendCopies(y, y.monitor.value, log, s, m);
    }
  }

  lemma {:induction false} WriteIsQuiet<S>(y: Sys<S>, s: S, m: Message)
    requires m.kind != DeadBinder
    ensures Quiet(y, Write(y, s, m)) && Quiet(y, ForwardToMonitor(y, m))
  {
    WriteOnlyWrites(y, s, m);
    hide Write, ForwardToMonitor, Copies, OnlyWrote;
    forall r, n: Message | r in y.sessions && n.kind == DeadBinder
      ensures Copies(Write(y, s, m), r, n) == Copies(y, r, n) && Copies(ForwardToMonitor(y, m), r, n) == Copies(y, r, n)
    {
      WriteCopies(y, s, m, r, n);
    }
  }

  /** What a message does to the tables, without what is written. */
  ghost function Tables<S>(y: Sys<S>, s: S, m: Message): Sys<S>
    requires s in y.sessions
  {
    if !Readable(m) then Stall(y, s) else
    match m.kind
    case SetContextMgr => if y.contextMgr == None then y.(contextMgr := Some(s)) else y
    case SetMonitor => if y.monitor == None then y.(monitor := Some(s)) else y
    case Transaction => DeliverTables(y, s, m).0
    case Status => y.(sessions := y.sessions[s := Answered(y.sessions[s], m.cookie)])
    case TransactionReply => y.(sessions := y.sessions[s := Answered(y.sessions[s], m.cookie)])
    case Acquire => AddReference(y, s, m.body.handle).0
    case Release => RemoveReference(y, s, m.body.handle).0
    case RequestDeathNotification => y.(sessions := y.sessions[s := Requested(y.sessions[s], m.body.handle, m.body.objectId)])
    case ClearDeathNotification => y.(sessions := y.sessions[s := Cleared(y.sessions[s], m.body.handle)])
    case _ => y
  }

  ghost function Answered<S>(session: Session<S>, cookie: nat): Session<S> {
    session.(pending := session.pending - {cookie})
  }

  ghost function Requested<S>(session: Session<S>, handle: nat, objectId: nat): Session<S> {
    session.(deaths := if handle in session.deaths then session.deaths else session.deaths[handle := objectId])
  }

  ghost function Cleared<S>(session: Session<S>, handle: nat): Session<S> {
    session.(deaths := session.deaths - {handle})
  }

  /** A transaction that was accepted: by which session, under which cookie, to be answered to whom. */
  datatype Posting<S> = Posting(target: S, cookie: nat, record: Record<S>)

  ghost function DeliverTables<S>(y: Sys<S>, s: S, m: Message): (Sys<S>, Option<Posting<S>>)
    requires s in y.sessions
  {
    if !m.body.Call? then (y, None)
    else
      var (y1, os, _) := Translate(y, s, m.body.objects);
      var t := FindSession(y1, m.destination);
      if t.Some? && t.value in y1.sessions then
        var (y2, _, status) := Accept(y1, t.value, Record(s, m.cookie), m.destination, os);
        (y2, if status == OK then Some(Posting(t.value, y1.sessions[t.value].nextCookie, Record(s, m.cookie))) else None)
      else (y1, None)
  }

  lemma {:induction false} QuietThenQuiet<S>(x: Sys<S>, y: Sys<S>, z: Sys<S>)
    requires Quiet(x, y) && Quiet(y, z)
    ensures Quiet(x, z)
  {
    forall s | s in x.sessions ensures SameButOut(x.sessions[s], z.sessions[s]) {
      assert SameButOut(x.sessions[s], y.sessions[s]) && SameButOut(y.sessions[s], z.sessions[s]);
    }
    forall s, m: Message | s in x.sessions && m.kind == DeadBinder ensures Copies(z, s, m) == Copies(x, s, m) {
      assert Copies(z, s, m) == Copies(y, s, m) == Copies(x, s, m);
    }
  }

  lemma {:induction false} StatusIsQuiet<S>(x: Sys<S>, y: Sys<S>, s: S, m: Message, status: StatusCode)
    requires Quiet(x, y)
    ensures Quiet(x, SendStatus(y, s, m, status))
  {
    hide Write, Quiet;
    var reply := Message(Status, 0, m.cookie, Code(status));
    WriteIsQuiet(y, s, reply);
    QuietThenQuiet(x, y, Write(y, s, reply));
  }

  lemma {:induction false} SelfQuiet<S>(y: Sys<S>)
    ensures Quiet(y, y)
  {
  }

  lemma {:induction false} ContextManagerIsQuiet<S>(y: Sys<S>, s: S, m: Message)
    requires m.kind == SetContextMgr
    ensures Quiet(if y.contextMgr == None then y.(contextMgr := Some(s)) else y, OnSetContextManager(y, s, m))
  {
    WriteIsQuiet(y, s, m);
    var y' := ForwardToMonitor(y, m);
    var x := y.(contextMgr := Some(s));
    assert Quiet(x, y'.(contextMgr := Some(s))) by {
      forall r, n: Message | r in y.sessions && n.kind == DeadBinder
        ensures Copies(y'.(contextMgr := Some(s)), r, n) == Copies(x, r, n)
      {
        assert Copies(y', r, n) == Copies(y, r, n);
      }
    }
    hide Quiet, ForwardToMonitor, SendStatus;
    StatusIsQuiet(y, y', s, m, AlreadyExists);
    StatusIsQuiet(x, y'.(contextMgr := Some(s)), s, m, OK);
  }

  lemma {:induction false} TransactionIsQuiet<S>(y: Sys<S>, s: S, m: Message)
    requires s in y.sessions
    ensures Quiet(DeliverTables(y, s, m).0, OnTransaction(y, s, m))
  {
    hide Quiet, SendStatus, Accept, Write;
    var (y', status) := Deliver(y, s, m);
    var x := DeliverTables(y, s, m).0;
    assert Quiet(x, y') by {
      SelfQuiet(x);
      if m.body.Call? {
        var (y1, os, _) := Translate(y, s, m.body.objects);
        var t := FindSession(y1, m.destination);
        if t.Some? && t.value in y1.sessions {
          var (_, os', _) := Accept(y1, t.value, Record(s, m.cookie), m.destination, os);
          WriteIsQuiet(x, t.value, Delivered(y1, t.value, m, os'));
        }
      }
    }
    StatusIsQuiet(x, y', s, m, status);
  }

  lemma {:induction false} ReplyIsQuiet<S>(y: Sys<S>, s: S, m: Message)
    requires s in y.sessions && m.kind != DeadBinder
    ensures Quiet(y.(sessions := y.sessions[s := Answered(y.sessions[s], m.cookie)]), OnReply(y, s, m))
  {
    var pending := y.sessions[s].pending;
    var x := y.(sessions := y.sessions[s := Answered(y.sessions[s], m.cookie)]);
    if m.cookie in pending {
      WriteIsQuiet(x, pending[m.cookie].caller, m.(cookie := pending[m.cookie].replyCookie));
    } else {
      assert x.sessions[s].pending == pending;
      assert x.sessions == y.sessions;
      SelfQuiet(y);
    }
  }

  lemma {:induction false} DeathNotificationIsQuiet<S>(y: Sys<S>, s: S, m: Message)
    requires s in y.sessions && m.kind in {RequestDeathNotification, ClearDeathNotification} && Readable(m)
    ensures Quiet(Tables(y, s, m), OnDeathNotification(y, s, m, m.body.handle, m.body.objectId))
  {
    hide Quiet, SendStatus;
    var x := Tables(y, s, m);
    var deaths := y.sessions[s].deaths;
    assert m.body.handle !in deaths ==> deaths - {m.body.handle} == deaths;
    SelfQuiet(x);
    forall status ensures Quiet(x, SendStatus(x, s, m, status)) { StatusIsQuiet(x, x, s, m, status); }
  }

  /** Beyond its tables a message only causes writes, and never a death notice. */
  lemma {:induction false} ProcessIsQuiet<S>(y: Sys<S>, s: S, m: Message)
    requires s in y.sessions
    ensures Quiet(Tables(y, s, m), Process(y, s, m))
  {
    hide Quiet, SendStatus, OnTransaction, DeliverTables, OnReply, OnDeathNotification, OnSetContextManager;
    var x := Tables(y, s, m);
    SelfQuiet(x);
    forall status ensures Quiet(x, SendStatus(x, s, m, status)) { StatusIsQuiet(x, x, s, m, status); }
    if !Readable(m) {
      return;
    }
    match m.kind {
      case SetContextMgr => ContextManagerIsQuiet(y, s, m);
      case Transaction => TransactionIsQuiet(y, s, m);
      case Status => ReplyIsQuiet(y, s, m);
      case TransactionReply => ReplyIsQuiet(y, s, m);
      case RequestDeathNotification => DeathNotificationIsQuiet(y, s, m);
      case ClearDeathNotification => DeathNotificationIsQuiet(y, s, m);
      case _ =>
    }
  }

  lemma {:induction false} DeliverTablesKeepInv<S>(y: Sys<S>, s: S, m: Message)
    requires Inv(y) && Live(y, s)
    ensures Inv(DeliverTables(y, s, m).0)
  {
    hide Inv, Accept;
    if m.body.Call? {
      TranslateKeepsInv(y, s, m.body.objects);
      var (y1, os, _) := Translate(y, s, m.body.objects);
      FoundIsLive(y1, m.destination);
      var t := FindSession(y1, m.destination);
      if t.Some? { AcceptKeepsInv(y1, t.value, Record(s, m.cookie), m.destination, os); }
    }
  }

  lemma {:induction false} TakeSlotKeepsInv<S>(y: Sys<S>, s: S)
    requires Inv(y) && Live(y, s)
    ensures Inv(y.(contextMgr := Some(s))) && Inv(y.(monitor := Some(s)))
  {
  }

  lemma {:induction false} SessionKeepsInv<S>(y: Sys<S>, s: S, session: Session<S>)
    requires Inv(y) && s in y.sessions
    requires session == y.sessions[s].(pending := session.pending, deaths := session.deaths, reading := session.reading)
    requires forall c :: c in session.pending ==> c in y.sessions[s].pending && session.pending[c] == y.sessions[s].pending[c]
    ensures Inv(y.(sessions := y.sessions[s := session]))
  {
  }

  lemma {:induction false} TablesKeepInv<S>(y: Sys<S>, s: S, m: Message)
    requires Inv(y) && Live(y, s)
    ensures Inv(Tables(y, s, m))
  {
    hide Inv, DeliverTables, AddReference, RemoveReference;
    if !Readable(m) {
      SessionKeepsInv(y, s, y.sessions[s].(reading := false));
      return;
    }
    match m.kind {
      case Transaction => DeliverTablesKeepInv(y, s, m);
      case SetContextMgr => TakeSlotKeepsInv(y, s);
      case SetMonitor => TakeSlotKeepsInv(y, s);
      case Status => SessionKeepsInv(y, s, Answered(y.sessions[s], m.cookie));
      case TransactionReply => SessionKeepsInv(y, s, Answered(y.sessions[s], m.cookie));
      case Acquire => ReferenceKeepsInv(y, s, m.body.handle);
      case Release => ReferenceKeepsInv(y, s, m.body.handle);
      case RequestDeathNotification => SessionKeepsInv(y, s, Requested(y.sessions[s], m.body.handle, m.body.objectId));
      case ClearDeathNotification => SessionKeepsInv(y, s, Cleared(y.sessions[s], m.body.handle));
      case _ =>
    }
  }

  lemma {:induction false} ProcessKeepsInv<S>(y: Sys<S>, s: S, m: Message)
    requires Inv(y) && Live(y, s)
    ensures Inv(Process(y, s, m))
  {
    hide Inv, Process, Tables;
    TablesKeepInv(y, s, m);
    ProcessIsQuiet(y, s, m);
    WroteKeepsInv(Tables(y, s, m), Process(y, s, m));
  }

  lemma {:induction false} StepKeepsInv<S>(y: Sys<S>, e: Event<S>)
    requires Inv(y)
    ensures Inv(Step(y, e))
  {
    if Enabled(y, e) {
      match e {
        case Connect(s) =>
        case Receive(s, m) => hide Inv, Process; ProcessKeepsInv(y, s, m);
        case Disconnect(s, order) => hide Inv, Terminate; TerminateKeepsInv(y, s, order);
        case Corrupt(s, _) => hide Inv; SessionKeepsInv(y, s, y.sessions[s].(reading := false));
      }
    }
  }

  /** The invariant holds in every reachable state. */
  lemma {:induction false} RunKeepsInv<S>(es: seq<Event<S>>)
    ensures Inv(Run(es))
    decreases |es|
  {
    if es != [] {
      RunKeepsInv(es[..|es| - 1]);
      StepKeepsInv(Run(es[..|es| - 1]), es[|es| - 1]);
    }
  }
}
