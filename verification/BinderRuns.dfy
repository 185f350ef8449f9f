/** Whole runs of the binder server: which lookups can succeed, which death notices and which replies are sent. */
module BinderRuns {
  import opened BinderSpec
  import opened Options
  import opened BinderInvariants

  // ----- lookups -----

  /** In a reachable state a transaction that finds a session also finds the object there: the branch of
      `PostTransaction` for a handle without an object cannot be reached from `OnTransaction`. */
  lemma {:induction false} TargetKnowsObject<S>(es: seq<Event<S>>, s: S, m: Message)
    requires Live(Run(es), s) && m.body.Call?
    ensures var y := Translate(Run(es), s, m.body.objects).0;
            var t := FindSession(y, m.destination);
            t.Some? ==> Live(y, t.value) && (m.destination in y.sessions[t.value].objects || m.destination == 0)
  {
    RunKeepsInv(es);
    TranslateKeepsInv(Run(es), s, m.body.objects);
    FoundIsLive(Translate(Run(es), s, m.body.objects).0, m.destination);
  }

  // ----- what a message leaves alone -----

  /** No handle is lost, and those that are new were never given out before. */
  ghost predicate KeepsHandles<S>(y: Sys<S>, y': Sys<S>) {
    && y.next <= y'.next
    && (forall h :: h in y.handles ==> h in y'.handles)
    && (forall h :: h in y'.handles ==> h in y.handles || y.next <= h)
  }

  lemma {:induction false} HandlesKeptTwice<S>(x: Sys<S>, y: Sys<S>, z: Sys<S>)
    requires KeepsHandles(x, y) && KeepsHandles(y, z)
    ensures KeepsHandles(x, z)
  {
  }

  lemma {:induction false} TranslateFrame<S>(y: Sys<S>, s: S, os: seq<Flat>, r: S)
    requires s in y.sessions && r in y.sessions
    ensures var y' := Translate(y, s, os).0;
            && KeepsHandles(y, y') && y'.references == y.references && y'.sessions.Keys == y.sessions.Keys
            && y'.sessions[r] == y.sessions[r].(objects := y'.sessions[r].objects)
  {
    TranslateGrows(y, s, os);
  }

  /** Accepting a transaction adds handles, takes a cookie of the target and may add to what it has pending. */
  lemma {:induction false} AcceptFrame<S>(y: Sys<S>, t: S, record: Record<S>, destination: nat, os: seq<Flat>, r: S)
    requires t in y.sessions && r in y.sessions && y.sessions[t].nextCookie !in y.sessions[t].pending
    ensures var (y', _, status) := Accept(y, t, record, destination, os);
            var cookie := y.sessions[t].nextCookie;
            && KeepsHandles(y, y') && y'.references == y.references && y'.sessions.Keys == y.sessions.Keys
            && y'.sessions[r] == y.sessions[r].(
                  objects := y'.sessions[r].objects,
                  nextCookie := if r == t then cookie + 1 else y.sessions[r].nextCookie,
                  pending := if r == t && status == OK then y.sessions[r].pending[cookie := record] else y.sessions[r].pending)
  {
    hide Translate;
    TranslateFrame(TakeCookie(y, t), t, os, r);
    TranslateFrame(TakeCookie(y, t), t, os, t);
  }

  /** A transaction touches no reference list and no death registration, and at most one session's pending table. */
  lemma {:induction false} DeliverFrame<S>(y: Sys<S>, s: S, m: Message, r: S)
    requires Inv(y) && s in y.sessions && r in y.sessions
    ensures var (y', p) := DeliverTables(y, s, m);
            && y'.references == y.references
            && KeepsHandles(y, y')
            && y'.sessions.Keys == y.sessions.Keys
            && y'.sessions[r].open == y.sessions[r].open && y'.sessions[r].deaths == y.sessions[r].deaths
            && y'.sessions[r].out == y.sessions[r].out
            && y'.sessions[r].nextCookie >= y.sessions[r].nextCookie
            && (p.Some? && p.value.target == r ==>
                  p.value.cookie == y.sessions[r].nextCookie < y'.sessions[r].nextCookie && p.value.record == Record(s, m.cookie))
            && y'.sessions[r].pending == (if p.Some? && p.value.target == r
                                          then y.sessions[r].pending[p.value.cookie := p.value.record]
                                          else y.sessions[r].pending)
  {
    if m.body.Call? {
      hide KeepsHandles, Accept, Translate, Inv, FindSession;
      var (y1, os, _) := Translate(y, s, m.body.objects);
      TranslateFrame(y, s, m.body.objects, r);
      var t := FindSession(y1, m.destination);
      if t.Some? && t.value in y1.sessions {
        TranslateFrame(y, s, m.body.objects, t.value);
        CookieIsFresh(y, t.value);
        AcceptFrame(y1, t.value, Record(s, m.cookie), m.destination, os, r);
        HandlesKeptTwice(y, y1, DeliverTables(y, s, m).0);
      }
    } else {
      assert KeepsHandles(y, y);
    }
  }

  lemma {:induction false} TablesFrame<S>(y: Sys<S>, s: S, m: Message, r: S)
    requires Inv(y) && s in y.sessions && r in y.sessions
    ensures var y' := Tables(y, s, m);
            && KeepsHandles(y, y')
            && y'.sessions.Keys == y.sessions.Keys
            && y'.sessions[r].open == y.sessions[r].open
            && y'.sessions[r].out == y.sessions[r].out
            && y'.sessions[r].nextCookie >= y.sessions[r].nextCookie
  {
    hide DeliverTables, AddReference, RemoveReference, KeepsHandles, Inv;
    SameHandles(y, Tables(y, s, m));
    match m.kind {
      case Transaction => DeliverFrame(y, s, m, r);
      case Acquire => ReferenceFrame(y, s, m.body);
      case Release => ReferenceFrame(y, s, m.body);
      case _ =>
    }
  }

  lemma {:induction false} SameHandles<S>(y: Sys<S>, y': Sys<S>)
    ensures y'.next == y.next && y'.handles == y.handles ==> KeepsHandles(y, y')
  {
  }

  lemma {:induction false} ReferenceFrame<S>(y: Sys<S>, s: S, body: Body)
    ensures body.Death? ==>
      && AddReference(y, s, body.handle).0 == y.(references := AddReference(y, s, body.handle).0.references)
      && RemoveReference(y, s, body.handle).0 == y.(references := RemoveReference(y, s, body.handle).0.references)
  {
  }

  // ----- sessions that have left -----

  lemma {:induction false} StepKeepsOpen<S>(y: Sys<S>, e: Event<S>, s: S)
    requires Inv(y) && s in y.sessions
    ensures s in Step(y, e).sessions
    ensures Step(y, e).sessions[s].open == (y.sessions[s].open && !(e.Disconnect? && e.s == s && Enabled(y, e)))
  {
    if Enabled(y, e) {
      match e {
        case Connect(_) =>
        case Receive(t, m) =>
          hide Process, Tables, Inv;
          TablesFrame(y, t, m, s);
          ProcessIsQuiet(y, t, m);
          assert SameButOut(Tables(y, t, m).sessions[s], Process(y, t, m).sessions[s]);
        case Disconnect(t, order) =>
          hide Terminate, Inv;
          TerminateIsLeft(y, t, order);
          assert SameButOut(Left(y, t).sessions[s], Terminate(y, t, order).sessions[s]);
        case Corrupt(_, _) =>
      }
    }
  }

  ghost predicate Closed<S>(y: Sys<S>, s: S) {
    s in y.sessions && !y.sessions[s].open
  }

  /** After a session has left, no handle, context-manager or monitor lookup ever returns it again. */
  lemma {:induction false} GoneForever<S>(es: seq<Event<S>>, order: seq<nat>, s: S, more: seq<Event<S>>)
    requires Enabled(Run(es), Disconnect(s, order))
    ensures var y := Run(es + [Disconnect(s, order)] + more);
            Closed(y, s) && y.contextMgr != Some(s) && y.monitor != Some(s) && forall h :: FindSession(y, h) != Some(s)
    decreases |more|
  {
    hide Step, Enabled;
    var all := es + [Disconnect(s, order)] + more;
    var before := all[..|all| - 1];
    if more == [] {
      assert before == es;
      assert s in Run(es).sessions by { assert Enabled(Run(es), Disconnect(s, order)); WhoLeavesIsThere(Run(es), s, order); }
    } else {
      assert before == es + [Disconnect(s, order)] + more[..|more| - 1];
      GoneForever(es, order, s, more[..|more| - 1]);
    }
    RunKeepsInv(before);
    StepKeepsOpen(Run(before), all[|all| - 1], s);
    RunKeepsInv(all);
    forall h ensures FindSession(Run(all), h) != Some(s) { FoundIsLive(Run(all), h); }
  }

  lemma {:induction false} WhoLeavesIsThere<S>(y: Sys<S>, s: S, order: seq<nat>)
    requires Enabled(y, Disconnect(s, order))
    ensures s in y.sessions
  {
  }

  // ----- the slots -----

  /** The context manager or the monitor after event e, as `kind` says: who asks first has the slot until it leaves. */
  ghost function Holder<S>(y: Sys<S>, e: Event<S>, kind: MessageType, was: Option<S>): Option<S> {
    if !Enabled(y, e) then was
    else if was == None && e.Receive? && e.m.kind == kind then Some(e.s)
    else if e.Disconnect? && was == Some(e.s) then None
    else was
  }

  lemma {:induction false} StepSlots<S>(y: Sys<S>, e: Event<S>)
    requires Inv(y)
    ensures Step(y, e).contextMgr == Holder(y, e, SetContextMgr, y.contextMgr)
    ensures Step(y, e).monitor == Holder(y, e, SetMonitor, y.monitor)
  {
    hide Inv;
    if Enabled(y, e) {
      match e {
        case Connect(_) =>
        case Receive(t, m) =>
          hide Process, Tables;
          TablesSlots(y, t, m);
          ProcessIsQuiet(y, t, m);
        case Disconnect(t, order) =>
          hide Terminate;
          TerminateIsLeft(y, t, order);
        case Corrupt(_, _) =>
      }
    }
  }

  lemma {:induction false} TablesSlots<S>(y: Sys<S>, t: S, m: Message)
    requires t in y.sessions
    ensures Tables(y, t, m).contextMgr == (if y.contextMgr == None && m.kind == SetContextMgr then Some(t) else y.contextMgr)
    ensures Tables(y, t, m).monitor == (if y.monitor == None && m.kind == SetMonitor then Some(t) else y.monitor)
  {
    hide Translate, Accept, AddReference, RemoveReference;
    ReferenceFrame(y, t, m.body);
    if m.kind == Transaction && m.body.Call? {
      var (y1, os, _) := Translate(y, t, m.body.objects);
      TranslateGrows(y, t, m.body.objects);
      var r := FindSession(y1, m.destination);
      if r.Some? && r.value in y1.sessions {
        AcceptSlots(y1, r.value, Record(t, m.cookie), m.destination, os);
      }
    }
  }

  lemma {:induction false} AcceptSlots<S>(y: Sys<S>, t: S, record: Record<S>, destination: nat, os: seq<Flat>)
    requires t in y.sessions
    ensures var y' := Accept(y, t, record, destination, os).0; y'.contextMgr == y.contextMgr && y'.monitor == y.monitor
  {
    hide Translate;
    TranslateGrows(TakeCookie(y, t), t, os);
  }

  /** The slot after a run, by what was asked for in it. */
  ghost function Held<S>(es: seq<Event<S>>, kind: MessageType): Option<S>
    decreases |es|
  {
    if es == [] then None else Holder(Run(es[..|es| - 1]), es[|es| - 1], kind, Held(es[..|es| - 1], kind))
  }

  /** A slot belongs to the first session that asked for it since its last holder left. */
  lemma {:induction false} SlotsAreHeld<S>(es: seq<Event<S>>)
    ensures Run(es).contextMgr == Held(es, SetContextMgr) && Run(es).monitor == Held(es, SetMonitor)
    decreases |es|
  {
    hide Step, Inv, Holder;
    if es != [] {
      SlotsAreHeld(es[..|es| - 1]);
      RunKeepsInv(es[..|es| - 1]);
      StepSlots(Run(es[..|es| - 1]), es[|es| - 1]);
    }
  }

  /** Which lookups succeed: that of handle 0 for the context manager, that of another handle for the live session that has
      an object under it. */
  lemma {:induction false} FindsExactly<S>(y: Sys<S>, s: S, h: nat)
    requires Inv(y)
    ensures FindSession(y, 0) == y.contextMgr
    ensures h > 0 ==> (FindSession(y, h) == Some(s) <==> Live(y, s) && h in y.sessions[s].objects)
  {
  }

  // ----- death notices -----

  ghost function Notice(handle: nat, objectId: nat): Message {
    Message(DeadBinder, 0, 0, Death(handle, objectId))
  }

  /** Session s has asked to be told of the death of this handle, under this object id. */
  ghost predicate Watches<S>(y: Sys<S>, s: S, handle: nat, objectId: nat) {
    s in y.sessions && handle in y.sessions[s].deaths && y.sessions[s].deaths[handle] == objectId
  }

  /** How many references to the handle session s holds. */
  ghost function RefCount<S>(y: Sys<S>, handle: nat, s: S): nat {
    multiset(RefList(y, handle))[s]
  }

  /** What the death registrations say after event e of whether s is to be told of the death of handle h, and under which
      object id: a request counts if there is none, a clear ends it. */
  ghost function Wish<S>(y: Sys<S>, e: Event<S>, s: S, h: nat, was: Option<nat>): Option<nat> {
    if !Enabled(y, e) || !e.Receive? || e.s != s || !e.m.body.Death? || e.m.body.handle != h then was
    else if e.m.kind == RequestDeathNotification && was == None then Some(e.m.body.objectId)
    else if e.m.kind == ClearDeathNotification then None
    else was
  }

  /** The request of session s for a notice of the death of handle h that it has not cleared, by its object id. */
  ghost function Asked<S>(es: seq<Event<S>>, s: S, h: nat): Option<nat>
    decreases |es|
  {
    if es == [] then None else Wish(Run(es[..|es| - 1]), es[|es| - 1], s, h, Asked(es[..|es| - 1], s, h))
  }

  ghost function Registration<S>(y: Sys<S>, s: S, h: nat): Option<nat> {
    if s in y.sessions && h in y.sessions[s].deaths then Some(y.sessions[s].deaths[h]) else None
  }

  lemma {:induction false} StepRegistration<S>(y: Sys<S>, e: Event<S>, s: S, h: nat)
    requires Inv(y)
    ensures Registration(Step(y, e), s, h) == Wish(y, e, s, h, Registration(y, s, h))
  {
    if Enabled(y, e) {
      match e {
        case Connect(_) =>
        case Receive(t, m) =>
          hide Process, Inv, Tables;
          ProcessIsQuiet(y, t, m);
          TablesRegistration(y, t, m, s, h);
          if s in y.sessions { assert SameButOut(Tables(y, t, m).sessions[s], Process(y, t, m).sessions[s]); }
        case Disconnect(t, order) =>
          hide Terminate, Inv;
          TerminateIsLeft(y, t, order);
          if s in y.sessions { assert SameButOut(Left(y, t).sessions[s], Terminate(y, t, order).sessions[s]); }
        case Corrupt(_, _) =>
      }
    }
  }

  lemma {:induction false} TablesRegistration<S>(y: Sys<S>, t: S, m: Message, s: S, h: nat)
    requires Inv(y) && Live(y, t) && y.sessions[t].reading
    ensures Tables(y, t, m).sessions.Keys == y.sessions.Keys
    ensures Registration(Tables(y, t, m), s, h) == Wish(y, Receive(t, m), s, h, Registration(y, s, h))
  {
    hide DeliverTables, Inv, AddReference, RemoveReference;
    ReferenceFrame(y, t, m.body);
    if m.kind == Transaction {
      DeliverFrame(y, t, m, t);
      if s in y.sessions { DeliverFrame(y, t, m, s); }
    }
  }

  /** A session watches a handle exactly while a request of its own for that stands, under the object id of the request. */
  lemma {:induction false} WatchesIfAsked<S>(es: seq<Event<S>>, s: S, h: nat, id: nat)
    ensures Watches(Run(es), s, h, id) <==> Asked(es, s, h) == Some(id)
  {
    hide Run, Asked;
    RegistrationIsAsked(es, s, h);
  }

  lemma {:induction false} RegistrationIsAsked<S>(es: seq<Event<S>>, s: S, h: nat)
    ensures Registration(Run(es), s, h) == Asked(es, s, h)
    decreases |es|
  {
    if es != [] {
      hide Step, Inv, Wish, Registration;
      RegistrationIsAsked(es[..|es| - 1], s, h);
      RunKeepsInv(es[..|es| - 1]);
      StepRegistration(Run(es[..|es| - 1]), es[|es| - 1], s, h);
    } else {
      assert Registration(Initial<S>(), s, h) == None;
    }
  }

  lemma {:induction false} SendDeathCopies<S>(y: Sys<S>, t: S, handle: nat, s: S, h: nat, id: nat)
    ensures Copies(SendDeath(y, t, handle), s, Notice(h, id))
         == Copies(y, s, Notice(h, id)) + (if t == s && h == handle && Watches(y, s, h, id) then 1 else 0)
  {
    hide Copies, Write;
    if t in y.sessions && handle in y.sessions[t].deaths {
      WriteCopies(y, t, Notice(handle, y.sessions[t].deaths[handle]), s, Notice(h, id));
    }
  }

  lemma {:induction false} WroteKeepsWatch<S>(y: Sys<S>, y': Sys<S>, s: S, h: nat, id: nat)
    requires OnlyWrote(y, y')
    ensures Watches(y', s, h, id) == Watches(y, s, h, id)
  {
    if s in y.sessions { assert SameButOut(y.sessions[s], y'.sessions[s]); }
  }

  /** Every entry of the reference list that belongs to a watching session gets one notice. */
  lemma {:induction false} NotifyCopies<S>(y: Sys<S>, list: seq<S>, handle: nat, s: S, h: nat, id: nat)
    ensures Copies(NotifyAll(y, list, handle), s, Notice(h, id))
         == Copies(y, s, Notice(h, id)) + (if h == handle && Watches(y, s, h, id) then multiset(list)[s] else 0)
    decreases |list|
  {
    hide Copies, SendDeath, Watches;
    if list != [] {
      assert list == [list[0]] + list[1..];
      var y' := SendDeath(y, list[0], handle);
      SendDeathCopies(y, list[0], handle, s, h, id);
      NotifyOnlyWrites(y, [list[0]], handle);
      assert NotifyAll(y, [list[0]], handle) == y';
      WroteKeepsWatch(y, y', s, h, id);
      NotifyCopies(y', list[1..], handle, s, h, id);
    }
  }

  /** Removing a handle notifies its references and only them. */
  lemma {:induction false} RemoveHandleEffect<S>(y: Sys<S>, handle: nat, s: S, h: nat, id: nat)
    requires y.references.Keys <= y.handles.Keys
    ensures var y' := RemoveHandle(y, handle);
            && Copies(y', s, Notice(h, id))
               == Copies(y, s, Notice(h, id)) + (if h == handle && h in y.handles && Watches(y, s, h, id) then RefCount(y, h, s) else 0)
            && Watches(y', s, h, id) == Watches(y, s, h, id)
            && (h != handle ==> RefCount(y', h, s) == RefCount(y, h, s))
            && y'.handles == y.handles - {handle} && y'.references == y.references - {handle}
  {
    hide NotifyAll, OnlyWrote;
    var list := RefList(y, handle);
    RemoveDrops(y, handle);
    assert OnlyWrote(y.(handles := y.handles - {handle}, references := y.references - {handle}), RemoveHandle(y, handle));
    WroteKeepsWatch(y.(handles := y.handles - {handle}, references := y.references - {handle}), RemoveHandle(y, handle), s, h, id);
    WroteTables(y.(handles := y.handles - {handle}, references := y.references - {handle}), RemoveHandle(y, handle));
    if handle in y.handles { NotifyCopies(y, list, handle, s, h, id); }
  }

  lemma {:induction false} WroteTables<S>(y: Sys<S>, y': Sys<S>)
    requires OnlyWrote(y, y')
    ensures y'.handles == y.handles && y'.references == y.references && y'.next == y.next
  {
  }

  lemma {:induction false} RemoveAllCopies<S>(y: Sys<S>, handles: seq<nat>, s: S, h: nat, id: nat)
    requires y.references.Keys <= y.handles.Keys
    requires forall i, j :: 0 <= i < j < |handles| ==> handles[i] != handles[j]
    ensures Copies(RemoveAll(y, handles), s, Notice(h, id))
         == Copies(y, s, Notice(h, id)) + (if h in handles && h in y.handles && Watches(y, s, h, id) then RefCount(y, h, s) else 0)
    decreases |handles|
  {
    hide Copies, RemoveHandle, Watches, RefCount;
    if handles != [] {
      assert handles == [handles[0]] + handles[1..];
      var y' := RemoveHandle(y, handles[0]);
      RemoveHandleEffect(y, handles[0], s, h, id);
      RemoveAllCopies(y', handles[1..], s, h, id);
    }
  }

  /** Session s takes (1) or gives back (-1) a reference in this step: it acquires a handle that is known, or releases one
      that is known and of which it holds a reference. */
  ghost function Delta<S>(y: Sys<S>, e: Event<S>, s: S, h: nat): int {
    if !Enabled(y, e) || !e.Receive? || e.s != s || !e.m.body.Death? || e.m.body.handle != h || h !in y.handles then 0
    else if e.m.kind == Acquire then 1
    else if e.m.kind == Release && RefCount(y, h, s) > 0 then -1
    else 0
  }

  /** Acquiring is refused exactly for a handle that is not known, and adds one reference otherwise. */
  lemma {:induction false} AcquireRefs<S>(y: Sys<S>, t: S, handle: nat, s: S, h: nat)
    ensures var (y', status) := AddReference(y, t, handle);
      && status == (if handle in y.handles then OK else DeadObject)
      && RefCount(y', h, s) == RefCount(y, h, s) + (if h == handle && t == s && handle in y.handles then 1 else 0)
  {
  }

  /** Releasing is refused exactly for a handle that is not known or not held, and takes one reference away otherwise. */
  lemma {:induction false} ReleaseRefs<S>(y: Sys<S>, t: S, handle: nat, s: S, h: nat)
    ensures var (y', status) := RemoveReference(y, t, handle);
      var held := handle in y.handles && RefCount(y, handle, t) > 0;
      && status == (if handle !in y.handles then DeadObject else if held then OK else BadValue)
      && RefCount(y', h, s) == RefCount(y, h, s) - (if h == handle && t == s && held then 1 else 0)
  {
    var list := RefList(y, handle);
    EraseFirstShrinks(list, t);
    assert t in list <==> multiset(list)[t] > 0;
  }

  /** The holders of a handle stand in the order in which they took their references: a new one goes to the end, and a
      release takes out the first of the session that releases. */
  lemma {:induction false} ReferencesInOrder<S>(y: Sys<S>, s: S, handle: nat) returns (i: nat)
    requires handle in y.handles
    ensures var list := RefList(y, handle);
      && RefList(AddReference(y, s, handle).0, handle) == list + [s]
      && (s in list ==>
            && i < |list| && list[i] == s && s !in list[..i]
            && RefList(RemoveReference(y, s, handle).0, handle) == list[..i] + list[i + 1..])
      && (s !in list ==> RefList(RemoveReference(y, s, handle).0, handle) == list)
  {
    i := ErasedAt(RefList(y, handle), s);
  }

  lemma {:induction false} ErasedAt<S>(list: seq<S>, s: S) returns (i: nat)
    ensures s in list ==> i < |list| && list[i] == s && s !in list[..i] && EraseFirst(list, s) == list[..i] + list[i + 1..]
    decreases |list|
  {
    if list == [] || list[0] == s {
      i := 0;
    } else {
      i := ErasedAt(list[1..], s);
      i := i + 1;
      if s in list {
        assert list[..i] == [list[0]] + list[1..][..i - 1];
        assert list[i + 1..] == list[1..][i..];
      }
    }
  }

  lemma {:induction false} TablesRefs<S>(y: Sys<S>, t: S, m: Message, s: S, h: nat)
    requires Inv(y) && Live(y, t) && y.sessions[t].reading
    ensures RefCount(Tables(y, t, m), h, s) == RefCount(y, h, s) + Delta(y, Receive(t, m), s, h)
  {
    hide DeliverTables, Inv, AddReference, RemoveReference;
    if !Readable(m) {
      return;
    }
    match m.kind {
      case Transaction => DeliverFrame(y, t, m, t);
      case Acquire => AcquireRefs(y, t, m.body.handle, s, h);
      case Release => ReleaseRefs(y, t, m.body.handle, s, h);
      case _ =>
    }
  }

  /** A message keeps all handles, changes reference counts as its kind says and sends no death notice. */
  lemma {:induction false} ReceiveDeaths<S>(y: Sys<S>, t: S, m: Message, s: S, h: nat, id: nat)
    requires Inv(y) && Live(y, t) && y.sessions[t].reading
    ensures var y' := Process(y, t, m);
            && KeepsHandles(y, y')
            && RefCount(y', h, s) == RefCount(y, h, s) + Delta(y, Receive(t, m), s, h)
            && Copies(y', s, Notice(h, id)) == Copies(y, s, Notice(h, id))
  {
    hide Process, Tables, Inv, Delta, OnlyWrote;
    var x := Tables(y, t, m);
    TablesRefs(y, t, m, s, h);
    TablesFrame(y, t, m, t);
    ProcessIsQuiet(y, t, m);
    WroteTables(x, Process(y, t, m));
    if s in y.sessions {
      TablesFrame(y, t, m, s);
      assert Copies(Process(y, t, m), s, Notice(h, id)) == Copies(x, s, Notice(h, id));
    } else {
      WroteSessions(x, Process(y, t, m));
    }
  }

  lemma {:induction false} WroteSessions<S>(y: Sys<S>, y': Sys<S>)
    requires OnlyWrote(y, y')
    ensures y'.sessions.Keys == y.sessions.Keys
  {
  }

  /** Leaving removes exactly the handles of the session, and tells the watching holders of each of them. */
  lemma {:induction false} DisconnectDeaths<S>(y: Sys<S>, t: S, order: seq<nat>, s: S, h: nat, id: nat)
    requires Inv(y) && Enabled(y, Disconnect(t, order))
    ensures var y' := Terminate(y, t, order);
            && y'.next == y.next
            && y'.handles == y.handles - y.sessions[t].objects.Keys
            && (h in y'.handles ==> RefCount(y', h, s) == RefCount(y, h, s))
            && Copies(y', s, Notice(h, id))
               == Copies(y, s, Notice(h, id))
                  + (if h in y.handles && h !in y'.handles && Watches(y, s, h, id) then RefCount(y, h, s) else 0)
  {
    hide RemoveAll, OnlyWrote, Watches, Inv;
    TerminateIsLeft(y, t, order);
    WroteTables(Left(y, t), Terminate(y, t, order));
    assert y.references.Keys <= y.handles.Keys by { ReferencesAreKnown(y); }
    RemoveAllCopies(y, order, s, h, id);
  }

  lemma {:induction false} ReferencesAreKnown<S>(y: Sys<S>)
    requires Inv(y)
    ensures y.references.Keys <= y.handles.Keys
    ensures y.next >= 1 && forall h :: h in y.handles ==> 0 < h < y.next
  {
  }

  /** One step: what becomes of the references to a handle, and which death notices are sent. */
  lemma {:induction false} StepDeaths<S>(y: Sys<S>, e: Event<S>, s: S, h: nat, id: nat)
    requires Inv(y)
    ensures var y' := Step(y, e);
            && y'.next >= y.next
            && (h < y.next && h !in y.handles ==> h !in y'.handles)
            && (h in y'.handles ==> RefCount(y', h, s) == RefCount(y, h, s) + Delta(y, e, s, h))
            && Copies(y', s, Notice(h, id))
               == Copies(y, s, Notice(h, id))
                  + (if h in y.handles && h !in y'.handles && Watches(y, s, h, id) then RefCount(y, h, s) else 0)
  {
    if Enabled(y, e) {
      match e {
        case Connect(_) =>
        case Receive(t, m) =>
          hide Process, Inv, Watches, RefCount, Copies, Delta;
          ReceiveDeaths(y, t, m, s, h, id);
        case Disconnect(t, order) =>
          hide Terminate, Inv, Watches, RefCount, Copies;
          DisconnectDeaths(y, t, order, s, h, id);
        case Corrupt(_, _) =>
      }
    }
  }

  /** Acquires of the known handle minus releases of what was held of it, by session s in a run. */
  ghost function Net<S>(es: seq<Event<S>>, s: S, h: nat): int
    decreases |es|
  {
    if es == [] then 0
    else Net(es[..|es| - 1], s, h) + Delta(Run(es[..|es| - 1]), es[|es| - 1], s, h)
  }

  /** The handle has been given out and removed again. */
  ghost predicate Removed<S>(y: Sys<S>, h: nat) {
    h < y.next && h !in y.handles
  }

  /** As long as a handle has not been removed its reference list is the balance of the run, and no session
      has been told of its death. */
  lemma {:induction false} BeforeRemoval<S>(es: seq<Event<S>>, s: S, h: nat, id: nat)
    requires h > 0 && !Removed(Run(es), h)
    ensures RefCount(Run(es), h, s) == Net(es, s, h)
    ensures Copies(Run(es), s, Notice(h, id)) == 0
    decreases |es|
  {
    hide Step, Delta, Inv;
    if es != [] {
      var y := Run(es[..|es| - 1]);
      RunKeepsInv(es[..|es| - 1]);
      RunKeepsInv(es);
      StepDeaths(y, es[|es| - 1], s, h, id);
      ReferencesAreKnown(y);
      ReferencesAreKnown(Run(es));
      BeforeRemoval(es[..|es| - 1], s, h, id);
      if h !in Run(es).handles { NoDelta(y, es[|es| - 1], s, h); }
    }
  }

  lemma {:induction false} NoDelta<S>(y: Sys<S>, e: Event<S>, s: S, h: nat)
    requires h !in y.handles
    ensures Delta(y, e, s, h) == 0
  {
  }

  /** The death of a handle over a whole run: if event e removes it, then for good, and in every later state each
      session has been sent its death notice once for every acquire it had not released, if it had asked for the notice
      and not cleared that by then, and not at all otherwise. */
  lemma {:induction false} DeathNotices<S>(es: seq<Event<S>>, e: Event<S>, more: seq<Event<S>>, s: S, h: nat, id: nat)
    requires h in Run(es).handles && h !in Step(Run(es), e).handles
    ensures h !in Run(es + [e] + more).handles
    ensures Copies(Run(es + [e] + more), s, Notice(h, id)) == if Asked(es, s, h) == Some(id) then Net(es, s, h) else 0
    decreases |more|
  {
    hide Step, Inv, Watches, Copies, RefCount, Asked;
    var all := es + [e] + more;
    var before := all[..|all| - 1];
    RunKeepsInv(es);
    ReferencesAreKnown(Run(es));
    RunKeepsInv(before);
    StepDeaths(Run(before), all[|all| - 1], s, h, id);
    if more == [] {
      assert before == es;
      BeforeRemoval(es, s, h, id);
      WatchesIfAsked(es, s, h, id);
    } else {
      assert before == es + [e] + more[..|more| - 1];
      DeathNotices(es, e, more[..|more| - 1], s, h, id);
      NextGrows(es, [e] + more[..|more| - 1]);
      assert es + ([e] + more[..|more| - 1]) == before;
    }
  }

  lemma {:induction false} NextGrows<S>(es: seq<Event<S>>, more: seq<Event<S>>)
    ensures Run(es).next <= Run(es + more).next
    decreases |more|
  {
    hide Step, Inv;
    if more == [] {
      assert es + more == es;
    } else {
      var all := es + more;
      assert all[..|all| - 1] == es + more[..|more| - 1];
      NextGrows(es, more[..|more| - 1]);
      RunKeepsInv(all[..|all| - 1]);
      StepKeepsNext(Run(all[..|all| - 1]), all[|all| - 1]);
    }
  }

  lemma {:induction false} StepKeepsNext<S>(y: Sys<S>, e: Event<S>)
    requires Inv(y)
    ensures Step(y, e).next >= y.next
  {
    hide Step, Inv;
    StepDeaths(y, e, e.s, 0, 0);
  }
}
