/** The registry and the sessions of the binder server as the objects they are (registry.cpp, server_session.cpp).
    Every method is tied to the function of BinderSpec that says what it does to the whole server. */
module BinderServer {
  import opened Bytes
  import opened BinderSpec
  import opened Options

  /** A message as it arrives. The objects of a transaction are rewritten in place while it is passed on. */
  class Packet {
    const kind: MessageType
    const destination: nat
    var cookie: nat
    /** The body of any message but a readable transaction. */
    const plain: Body
    const code: nat
    const binder: nat
    const target: nat
    const objects: array?<Flat>

    constructor (m: Message)
      ensures Valid() && View() == m && (objects != null ==> fresh(objects))
    {
      kind, destination, cookie := m.kind, m.destination, m.cookie;
      match m.body {
        case Call(b, t, c, os) =>
          plain, binder, target, code := Opaque([]), b, t, c;
          objects := new Flat[|os|](i requires 0 <= i < |os| => os[i]);
        case _ =>
          plain, binder, target, code, objects := m.body, 0, 0, 0, null;
      }
      new;
      if m.body.Call? { assert objects[..] == m.body.objects; }
    }

    ghost predicate Valid() {
      objects == null ==> !plain.Call?
    }

    ghost function View(): Message
      reads this, objects
    {
      Message(kind, destination, cookie, if objects == null then plain else Call(binder, target, code, objects[..]))
    }

    method Pack() returns (m: Message)
      ensures m == View()
    {
      m := Message(kind, destination, cookie, if objects == null then plain else Call(binder, target, code, objects[..]));
    }
  }

  ghost function Slot(s: ServerSession?): Option<ServerSession> {
    if s == null then None else Some(s)
  }

  /** Every session the tables name is one of the sessions there have been. */
  ghost predicate Wired(y: Sys<ServerSession>) {
    && (y.contextMgr.Some? ==> y.contextMgr.value in y.sessions)
    && (y.monitor.Some? ==> y.monitor.value in y.sessions)
    && (forall h :: h in y.handles ==> y.handles[h] in y.sessions)
    && (forall h :: h in y.references ==> forall s :: s in y.references[h] ==> s in y.sessions)
    && (forall s, c :: s in y.sessions && c in y.sessions[s].pending ==> y.sessions[s].pending[c].caller in y.sessions)
  }

  lemma {:induction false} WiredUpdate(y: Sys<ServerSession>, s: ServerSession, session: Session<ServerSession>)
    requires Wired(y) && s in y.sessions
    requires forall c :: c in session.pending ==> session.pending[c].caller in y.sessions
    ensures Wired(y.(sessions := y.sessions[s := session]))
  {
  }

  lemma {:induction false} WiredRemove(y: Sys<ServerSession>, handle: nat)
    requires Wired(y)
    ensures Wired(y.(handles := y.handles - {handle}, references := y.references - {handle}))
  {
  }

  lemma {:induction false} WiredHandle(y: Sys<ServerSession>, handle: nat, s: ServerSession, b: BinderObject)
    requires Wired(y) && s in y.sessions
    ensures var objects := y.sessions[s].objects;
            Wired(y.(next := y.next + 1, handles := if handle in y.handles then y.handles else y.handles[handle := s],
                     sessions := y.sessions[s := y.sessions[s].(objects := if handle in objects then objects else objects[handle := b])]))
  {
  }

  lemma {:induction false} WiredReferences(y: Sys<ServerSession>, handle: nat, list: seq<ServerSession>)
    requires Wired(y) && forall s :: s in list ==> s in y.sessions
    ensures Wired(y.(references := y.references[handle := list]))
  {
  }

  lemma {:induction false} ReferencesKnown(y: Sys<ServerSession>, handle: nat)
    requires Wired(y)
    ensures forall s :: s in RefList(y, handle) ==> s in y.sessions
  {
  }

  lemma {:induction false} WiredClose(y: Sys<ServerSession>, s: ServerSession)
    requires Wired(y) && s in y.sessions
    ensures Wired(Close(y, s))
  {
  }

  lemma {:induction false} WiredSlot(y: Sys<ServerSession>, s: ServerSession)
    requires Wired(y) && s in y.sessions
    ensures Wired(y.(contextMgr := Some(s))) && Wired(y.(monitor := Some(s)))
  {
  }

  lemma {:induction false} CallersKnown(y: Sys<ServerSession>, s: ServerSession)
    requires Wired(y) && s in y.sessions
    ensures forall c :: c in y.sessions[s].pending ==> y.sessions[s].pending[c].caller in y.sessions
  {
  }

  /** The whole translation, from what is done and the translation of what is left. */
  ghost predicate Continues<S>(whole: (Sys<S>, seq<Flat>, StatusCode), done: seq<Flat>, rest: (Sys<S>, seq<Flat>, StatusCode)) {
    whole == (rest.0, done + rest.1, rest.2)
  }

  lemma {:induction false} FirstTranslated(whole: (Sys<ServerSession>, seq<Flat>, StatusCode), done: seq<Flat>,
      y: Sys<ServerSession>, s: ServerSession, os: seq<Flat>)
    requires s in y.sessions && os != [] && Continues(whole, done, Translate(y, s, os))
    ensures os[0].kind == Other ==> whole == (y, done + os, InvalidOperation)
    ensures os[0].kind != Other ==>
      var (y', o) := TranslateOne(y, s, os[0]);
      s in y'.sessions && Continues(whole, done + [o], Translate(y', s, os[1..]))
  {
    if os[0].kind != Other {
      var (y', o) := TranslateOne(y, s, os[0]);
      assert done + ([o] + Translate(y', s, os[1..]).1) == done + [o] + Translate(y', s, os[1..]).1;
    }
  }

  lemma {:induction false} NothingLeft(whole: (Sys<ServerSession>, seq<Flat>, StatusCode), done: seq<Flat>,
      y: Sys<ServerSession>, s: ServerSession)
    requires s in y.sessions && Continues(whole, done, Translate(y, s, []))
    ensures whole == (y, done, OK)
  {
    assert done + [] == done;
  }

  /** `Message::Unpack`: four numbers and as many bytes as the last one says, padded. Reading behind the end throws. */
  method Unpack(frame: seq<Byte>) returns (thrown: bool)
    ensures thrown <==> !Unpackable(frame)
  {
    var sizes := [4, 8, 8, 4];
    var pos, v := 0, 0;
    for i := 0 to 4
      invariant pos == [0, 4, 12, 20, 24][i] && pos <= |frame|
      invariant i == 4 ==> v == frame[BODY_LENGTH]
    {
      if pos + sizes[i] > |frame| {
        return true;
      }
      v := frame[pos];
      pos := pos + sizes[i];
    }
    return pos + PaddedSize(v) > |frame|;
  }

  class Registry {
    var contextMgr: ServerSession?
    var monitor: ServerSession?
    var nextObjectHandle: nat
    var handles: map<nat, ServerSession>
    var references: map<nat, seq<ServerSession>>
    /** All sessions there have been. */
    ghost var world: set<ServerSession>

    constructor ()
      ensures Valid() && Snap() == Initial()
    {
      contextMgr, monitor, nextObjectHandle := null, null, 1;
      handles, references, world := map[], map[], {};
    }

    /** The server as one value. */
    ghost function Snap(): (y: Sys<ServerSession>)
      reads this, world
      ensures y.sessions.Keys == world
    {
      Sys(Slot(contextMgr), Slot(monitor), nextObjectHandle, handles, references, map s | s in world :: s.View())
    }

    ghost predicate Valid()
      reads this, world
    {
      (forall s :: s in world ==> s.registry == this) && Wired(Snap())
    }

    /** Of the sessions only one has changed. */
    twostate lemma OneChanged(s: ServerSession)
      requires s in world && world == old(world) && forall x :: x in world && x != s ==> unchanged(x)
      ensures Snap() == Sys(Slot(contextMgr), Slot(monitor), nextObjectHandle, handles, references,
                            old(Snap()).sessions[s := s.View()])
    {
    }

    /** One session has changed and nothing else has. */
    twostate lemma SessionChanged(s: ServerSession)
      requires old(Valid()) && s in world && unchanged(this) && forall x :: x in world && x != s ==> unchanged(x)
      requires s.pendingTransactions == old(s.pendingTransactions)
        || forall c :: c in s.pendingTransactions ==> s.pendingTransactions[c].caller in world
      ensures Valid() && Snap() == old(Snap()).(sessions := old(Snap()).sessions[s := s.View()])
    {
      hide Wired;
      ghost var y := old(Snap());
      OneChanged(s);
      assert y.sessions[s].pending == old(s.pendingTransactions);
      CallersKnown(y, s);
      WiredUpdate(y, s, s.View());
    }

    /** No session has changed. */
    twostate lemma TablesChanged()
      requires world == old(world) && forall x :: x in world ==> unchanged(x)
      ensures Snap() == Sys(Slot(contextMgr), Slot(monitor), nextObjectHandle, handles, references, old(Snap()).sessions)
    {
    }

    lemma InTables()
      ensures var y := Snap();
        && y.contextMgr == Slot(contextMgr) && y.monitor == Slot(monitor) && y.next == nextObjectHandle
        && y.handles == handles && y.references == references
    {
    }

    lemma {:induction false} InSnap(s: ServerSession)
      requires s in world
      ensures Snap().sessions[s] == s.View()
    {
    }

    method FindSessionByHandle(handle: nat) returns (s: ServerSession?)
      ensures Slot(s) == FindSession(Snap(), handle)
      ensures Valid() && s != null ==> s in world
    {
      if handle == 0 {
        return contextMgr;
      }
      if handle !in handles {
        return null;
      }
      return handles[handle];
    }

    method NewObjectHandle(session: ServerSession) returns (handle: nat)
      modifies `nextObjectHandle, `handles
      ensures handle == old(nextObjectHandle) && nextObjectHandle == handle + 1
      ensures handles == if handle in old(handles) then old(handles) else old(handles)[handle := session]
    {
      handle := nextObjectHandle;
      nextObjectHandle := nextObjectHandle + 1;
      if handle !in handles {
        handles := handles[handle := session];
      }
    }

    method RemoveHandle(handle: nat)
      requires Valid()
      modifies this, world
      ensures Valid() && world == old(world)
      ensures Snap() == BinderSpec.RemoveHandle(old(Snap()), handle)
    {
      if handle !in handles {
        return;
      }
      hide Wired, SendDeath, Snap;
      InTables();
      ghost var y := NotifyAll(Snap(), RefList(Snap(), handle), handle);
      if handle in references {
        ReferencesKnown(Snap(), handle);
        NotifyReferences(handle, references[handle]);
      }
      assert Snap() == y;
      WiredRemove(y, handle);
      Forget(handle);
    }

    method Forget(handle: nat)
      requires Valid() && Wired(Snap().(handles := Snap().handles - {handle}, references := Snap().references - {handle}))
      modifies `handles, `references
      ensures Valid()
      ensures Snap() == old(Snap()).(handles := old(Snap()).handles - {handle}, references := old(Snap()).references - {handle})
    {
      hide Wired, Snap;
      InTables();
      if handle in references {
        references := references - {handle};
      }
      handles := handles - {handle};
      assert references == old(references) - {handle};
      TablesChanged();
    }

    /** Tell every entry of a reference list that the handle is dead. */
    method NotifyReferences(handle: nat, list: seq<ServerSession>)
      requires Valid() && forall s :: s in list ==> s in world
      modifies world`out
      ensures Valid() && Snap() == NotifyAll(old(Snap()), list, handle)
    {
      hide Wired, SendDeath;
      ghost var y0 := Snap();
      for i := 0 to |list|
        invariant Valid()
        invariant NotifyAll(y0, list, handle) == NotifyAll(Snap(), list[i..], handle)
      {
        assert list[i..][1..] == list[i + 1..];
        list[i].SendDeathNotification(handle);
      }
    }

    method SetReferences(handle: nat, list: seq<ServerSession>)
      requires Valid() && forall s :: s in list ==> s in world
      modifies `references
      ensures Valid()
      ensures Snap() == old(Snap()).(references := old(Snap()).references[handle := list])
    {
      hide Wired, Snap;
      InTables();
      WiredReferences(Snap(), handle, list);
      references := references[handle := list];
      TablesChanged();
    }

    method AddReferenceForHandle(session: ServerSession, handle: nat) returns (status: StatusCode)
      requires Valid() && session in world
      modifies `references
      ensures Valid() && Snap() == AddReference(old(Snap()), session, handle).0
      ensures status == AddReference(old(Snap()), session, handle).1
    {
      if handle !in handles {
        return DeadObject;
      }
      hide Wired;
      ReferencesKnown(Snap(), handle);
      if handle !in references {
        assert [session] == [] + [session];
        SetReferences(handle, [session]);
      } else {
        SetReferences(handle, references[handle] + [session]);
      }
      return OK;
    }

    method RemoveReferenceForHandle(session: ServerSession, handle: nat) returns (status: StatusCode)
      requires Valid()
      modifies `references
      ensures Valid() && Snap() == RemoveReference(old(Snap()), session, handle).0
      ensures status == RemoveReference(old(Snap()), session, handle).1
    {
      if handle !in handles {
        return DeadObject;
      }
      if handle !in references {
        return BadValue;
      }
      hide Wired, EraseFirst;
      ReferencesKnown(Snap(), handle);
      var list := references[handle];
      var i := FindIn(list, session);
      if i == |list| {
        return BadValue;
      }
      SetReferences(handle, list[..i] + list[i + 1..]);
      return OK;
    }

    /** `std::find`. */
    method FindIn(list: seq<ServerSession>, session: ServerSession) returns (i: nat)
      ensures i <= |list| && (i == |list| <==> session !in list)
      ensures i < |list| ==> EraseFirst(list, session) == list[..i] + list[i + 1..]
    {
      i := 0;
      while i < |list| && list[i] != session
        invariant 0 <= i <= |list| && session !in list[..i]
        invariant EraseFirst(list, session) == list[..i] + EraseFirst(list[i..], session)
      {
        i := i + 1;
      }
      if i < |list| {
        assert list[i..][1..] == list[i + 1..];
      }
    }
  }

  class ServerSession {
    const registry: Registry
    var nextTransactionCookie: nat
    var pendingTransactions: map<nat, Record<ServerSession>>
    var objects: map<nat, BinderObject>
    var deathNotifications: map<nat, nat>
    /** What has been written to the messenger. */
    var out: seq<Message>
    /** The messenger is open and the session is among the server's sessions. */
    var open: bool
    /** `ReadNextMessage` has been called since the last message. */
    var reading: bool

    /** A new connection. */
    constructor (registry: Registry)
      requires registry.Valid()
      modifies registry`world
      ensures this.registry == registry && registry.Valid() && registry.world == old(registry.world) + {this}
      ensures registry.Snap() == old(registry.Snap()).(sessions := old(registry.Snap()).sessions[this := NewSession()])
    {
      this.registry := registry;
      nextTransactionCookie, pendingTransactions, objects, deathNotifications := 0, map[], map[], map[];
      out, open, reading := [], true, true;
      new;
      registry.world := registry.world + {this};
      assert View() == NewSession();
      assert registry.Snap().sessions == old(registry.Snap()).sessions[this := View()];
    }

    ghost function View(): Session<ServerSession>
      reads this
    {
      Session(nextTransactionCookie, pendingTransactions, objects, deathNotifications, out, open, reading)
    }

    ghost predicate Ready()
      reads this, registry, registry.world
    {
      this in registry.world && registry.Valid()
    }

    method SendMessage(m: Message)
      requires Ready()
      modifies `out
      ensures Ready() && registry.Snap() == Send(old(registry.Snap()), this, m)
    {
      hide Wired, Registry.Snap;
      registry.InSnap(this);
      out := out + [m];
      registry.SessionChanged(this);
    }

    method ForwardToMonitor(m: Message)
      requires Ready()
      modifies registry.world`out
      ensures Ready() && registry.Snap() == BinderSpec.ForwardToMonitor(old(registry.Snap()), m)
    {
      var monitor := registry.monitor;
      if monitor == null {
        return;
      }
      monitor.SendMessage(Message(LogEntry, 0, 0, Logged(m)));
    }

    method WriteMessage(m: Message)
      requires Ready()
      modifies registry.world`out
      ensures Ready() && registry.Snap() == Write(old(registry.Snap()), this, m)
    {
      SendMessage(m);
      ForwardToMonitor(m);
    }

    method SendStatus(m: Packet, status: StatusCode)
      requires Ready()
      modifies registry.world`out
      ensures Ready() && registry.Snap() == BinderSpec.SendStatus(old(registry.Snap()), this, m.View(), status)
    {
      WriteMessage(Message(Status, 0, m.cookie, Code(status)));
    }

    method SendDeathNotification(handle: nat)
      requires Ready()
      modifies registry.world`out
      ensures Ready() && registry.Snap() == SendDeath(old(registry.Snap()), this, handle)
    {
      if handle !in deathNotifications {
        return;
      }
      WriteMessage(Message(DeadBinder, 0, 0, Death(handle, deathNotifications[handle])));
    }

    method Export(b: BinderObject) returns (handle: nat)
      requires Ready()
      modifies registry`nextObjectHandle, registry`handles, `objects
      ensures Ready()
      ensures var y := old(registry.Snap());
              handle == y.next && registry.Snap() == TranslateOne(y, this, Flat(Binder, b.binder, b.cookie)).0
    {
      hide Wired, Registry.Snap;
      registry.InTables();
      registry.InSnap(this);
      WiredHandle(registry.Snap(), registry.nextObjectHandle, this, b);
      handle := registry.NewObjectHandle(this);
      if handle !in objects {
        objects := objects[handle := b];
      }
      registry.OneChanged(this);
    }

    /** One turn of the loop of `TranslateObjects`. */
    method TranslateObject(o: Flat) returns (r: Flat)
      requires Ready()
      modifies registry`nextObjectHandle, registry`handles, `objects
      ensures Ready()
      ensures (registry.Snap(), r) == TranslateOne(old(registry.Snap()), this, o)
    {
      hide Wired;
      match o.kind {
        case Binder =>
          var handle := Export(BinderObject(o.word, o.cookie));
          r := Flat(Handle, handle % HANDLE_LIMIT, 0);
        case Handle =>
          var handle := o.word % HANDLE_LIMIT;
          if handle !in objects {
            return o;
          }
          var b := objects[handle];
          r := Flat(WeakBinder, HighHalf(b.binder), b.cookie);
        case _ =>
          r := o;
      }
    }

    method TranslateObjects(os: array<Flat>) returns (status: StatusCode)
      requires Ready()
      modifies os, registry`nextObjectHandle, registry`handles, `objects
      ensures Ready()
      ensures (registry.Snap(), os[..], status) == Translate(old(registry.Snap()), this, old(os[..]))
    {
      hide Translate, TranslateOne, Wired, Registry.Snap, Continues;
      ghost var whole := Translate(registry.Snap(), this, os[..]);
      Starts(whole);
      var i := 0;
      assert os[..0] == [] && os[0..] == os[..];
      while i < os.Length
        invariant 0 <= i <= os.Length && Ready()
        invariant Continues(whole, os[..i], Translate(registry.Snap(), this, os[i..]))
      {
        FirstTranslated(whole, os[..i], registry.Snap(), this, os[i..]);
        if os[i].kind == Other {
          assert os[..] == os[..i] + os[i..];
          return InvalidOperation;
        }
        ghost var done, left := os[..i], os[i..];
        var o := TranslateObject(os[i]);
        ghost var y := registry.Snap();
        os[i] := o;
        assert registry.Snap() == y;
        i := i + 1;
        assert os[..i] == done + [o] && os[i..] == left[1..];
      }
      assert os[..i] == os[..] && os[i..] == [];
      NothingLeft(whole, os[..], registry.Snap(), this);
      return OK;
    }

    lemma Starts(whole: (Sys<ServerSession>, seq<Flat>, StatusCode))
      ensures Continues(whole, [], whole)
    {
      assert [] + whole.1 == whole.1;
    }

    method TakeTransactionCookie() returns (cookie: nat)
      requires Ready()
      modifies `nextTransactionCookie
      ensures Ready() && cookie == old(nextTransactionCookie)
      ensures registry.Snap() == TakeCookie(old(registry.Snap()), this)
    {
      hide Wired, Registry.Snap;
      registry.InSnap(this);
      cookie := nextTransactionCookie;
      nextTransactionCookie := nextTransactionCookie + 1;
      registry.SessionChanged(this);
    }

    method SetPending(pending: map<nat, Record<ServerSession>>)
      requires Ready() && forall c :: c in pending ==> pending[c].caller in registry.world
      modifies `pendingTransactions
      ensures Ready()
      ensures var y := old(registry.Snap());
              registry.Snap() == y.(sessions := y.sessions[this := y.sessions[this].(pending := pending)])
    {
      hide Wired, Registry.Snap;
      registry.InSnap(this);
      pendingTransactions := pending;
      registry.SessionChanged(this);
    }

    method PostTransaction(record: Record<ServerSession>, m: Packet) returns (status: StatusCode)
      requires Ready() && record.caller in registry.world && m.objects != null
      modifies registry`nextObjectHandle, registry`handles, registry.world, m.objects
      ensures Ready() && registry.world == old(registry.world)
      ensures var (y, os, st) := Post(old(registry.Snap()), this, record, old(m.View()), old(m.objects[..]));
              registry.Snap() == y && m.objects[..] == os && status == st
    {
      hide Wired, Accept, Write, Registry.Snap, Delivered;
      var new_msg;
      status, new_msg := PrepareTransaction(record, m);
      if status == OK {
        WriteMessage(new_msg);
      }
    }

    /** All of `PostTransaction` but the writing. */
    method PrepareTransaction(record: Record<ServerSession>, m: Packet) returns (status: StatusCode, new_msg: Message)
      requires Ready() && record.caller in registry.world && m.objects != null
      modifies registry`nextObjectHandle, registry`handles, this, m.objects
      ensures Ready()
      ensures var (y, os, st) := Accept(old(registry.Snap()), this, record, m.destination, old(m.objects[..]));
              registry.Snap() == y && m.objects[..] == os && status == st
      ensures status == OK ==> new_msg == Delivered(old(registry.Snap()), this, old(m.View()), m.objects[..])
    {
      hide Wired, Translate;
      var cookie := TakeTransactionCookie();
      var binder, target := 0, 0;
      new_msg := Message(Transaction, m.destination, cookie, Opaque([]));
      if m.destination in objects {
        binder, target := objects[m.destination].binder, objects[m.destination].cookie;
      } else if m.destination != 0 {
        return InvalidOperation, new_msg;
      }
      status := TranslateObjects(m.objects);
      if status != OK {
        return;
      }
      new_msg := new_msg.(body := Call(binder, target, m.code, m.objects[..]));
      CallersKnown(registry.Snap(), this);
      SetPending(if cookie in pendingTransactions then pendingTransactions else pendingTransactions[cookie := record]);
    }

    method OnTransaction(m: Packet)
      requires Ready() && m.Valid()
      modifies registry`nextObjectHandle, registry`handles, registry.world, m.objects
      ensures Ready() && registry.world == old(registry.world)
      ensures registry.Snap() == BinderSpec.OnTransaction(old(registry.Snap()), this, old(m.View()))
    {
      hide Wired, Translate, Accept, Write, Registry.Snap;
      if m.objects == null {
        SendStatus(m, BadValue);
        return;
      }
      var _ := TranslateObjects(m.objects);
      var target := registry.FindSessionByHandle(m.destination);
      if target == null {
        SendStatus(m, NameNotFound);
        return;
      }
      var status := target.PostTransaction(Record(this, m.cookie), m);
      SendStatus(m, status);
    }

    method OnReply(m: Packet)
      requires Ready()
      modifies m`cookie, registry.world
      ensures Ready() && registry.world == old(registry.world)
      ensures registry.Snap() == BinderSpec.OnReply(old(registry.Snap()), this, old(m.View()))
    {
      hide Wired, Write, Registry.Snap;
      registry.InSnap(this);
      if m.cookie !in pendingTransactions {
        return;
      }
      var record := pendingTransactions[m.cookie];
      CallersKnown(registry.Snap(), this);
      SetPending(pendingTransactions - {m.cookie});
      record.caller.WriteReply(m, record.replyCookie);
    }

    method WriteReply(m: Packet, replyCookie: nat)
      requires Ready()
      modifies m`cookie, registry.world`out
      ensures Ready()
      ensures registry.Snap() == Write(old(registry.Snap()), this, old(m.View()).(cookie := replyCookie))
    {
      hide Wired, Write, Registry.Snap;
      m.cookie := replyCookie;
      var packed := m.Pack();
      WriteMessage(packed);
    }

    /** Throws when the handle cannot be read. */
    method OnReference(m: Packet) returns (thrown: bool)
      requires Ready() && m.Valid()
      modifies registry`references, registry.world`out
      ensures Ready() && (thrown <==> !m.View().body.Death?)
      ensures thrown ==> registry.Snap() == old(registry.Snap())
      ensures !thrown ==> registry.Snap() == BinderSpec.OnReference(old(registry.Snap()), this, m.View(), m.View().body.handle)
    {
      hide Wired, Write, Registry.Snap, AddReference, RemoveReference;
      thrown := m.objects != null || !m.plain.Death?;
      if thrown {
        return;
      }
      var status;
      if m.kind == Acquire {
        status := registry.AddReferenceForHandle(this, m.plain.handle);
      } else {
        status := registry.RemoveReferenceForHandle(this, m.plain.handle);
      }
      SendStatus(m, status);
    }

    /** Throws when the handle and the object id cannot be read. */
    method OnDeathNotification(m: Packet) returns (thrown: bool)
      requires Ready() && m.Valid()
      modifies `deathNotifications, registry.world`out
      ensures Ready() && (thrown <==> !m.View().body.Death?)
      ensures thrown ==> registry.Snap() == old(registry.Snap())
      ensures !thrown ==>
        var Death(handle, objectId) := m.View().body;
        registry.Snap() == BinderSpec.OnDeathNotification(old(registry.Snap()), this, m.View(), handle, objectId)
    {
      hide Wired, Write, Registry.Snap;
      thrown := m.objects != null || !m.plain.Death?;
      if thrown {
        return;
      }
      registry.InSnap(this);
      assert registry.Snap().sessions[this := View()] == registry.Snap().sessions;
      var handle := m.plain.handle;
      var status := OK;
      if m.kind == RequestDeathNotification {
        if handle in deathNotifications {
          status := AlreadyExists;
        } else {
          SetDeaths(deathNotifications[handle := m.plain.objectId]);
        }
      } else {
        if handle !in deathNotifications {
          status := BadValue;
        } else {
          SetDeaths(deathNotifications - {handle});
        }
      }
      SendStatus(m, status);
    }

    method SetDeaths(deaths: map<nat, nat>)
      requires Ready()
      modifies `deathNotifications
      ensures Ready()
      ensures var y := old(registry.Snap());
              registry.Snap() == y.(sessions := y.sessions[this := y.sessions[this].(deaths := deaths)])
    {
      hide Wired, Registry.Snap;
      registry.InSnap(this);
      deathNotifications := deaths;
      registry.SessionChanged(this);
    }

    /** The callback of `ReadNextMessage`, as far as it goes before a message is made of what is left of a frame. An empty
        frame is one for which there was no room: `realloc` to nothing gave null. */
    method TakeFrame(frame: seq<Byte>) returns (thrown: bool)
      requires Ready()
      modifies `reading
      ensures Ready() && (thrown <==> !Unpackable(frame))
      ensures registry.Snap() == if thrown then Stall(old(registry.Snap()), this) else old(registry.Snap())
    {
      hide Wired, Registry.Snap, Unpackable, Stall;
      thrown := Unpack(frame);
      if thrown {
        Abandon();
      }
    }

    /** An exception passes `ReadNextMessage` by, and the loop of the server logs it and goes on. */
    method Abandon()
      requires Ready()
      modifies `reading
      ensures Ready() && registry.Snap() == Stall(old(registry.Snap()), this)
    {
      hide Wired, Registry.Snap;
      registry.InSnap(this);
      reading := false;
      registry.SessionChanged(this);
    }

    method OnSetContextManager(m: Packet)
      requires Ready()
      modifies registry`contextMgr, registry.world`out
      ensures Ready()
      ensures registry.Snap() == BinderSpec.OnSetContextManager(old(registry.Snap()), this, m.View())
    {
      hide Wired, Write, BinderSpec.ForwardToMonitor, Registry.Snap;
      registry.InTables();
      var packed := m.Pack();
      ForwardToMonitor(packed);
      var status := AlreadyExists;
      if registry.contextMgr == null {
        BeContextManager();
        status := OK;
      }
      SendStatus(m, status);
    }

    method BeContextManager()
      requires Ready()
      modifies registry`contextMgr
      ensures Ready() && registry.Snap() == old(registry.Snap()).(contextMgr := Some(this))
    {
      hide Wired, Registry.Snap;
      registry.InTables();
      WiredSlot(registry.Snap(), this);
      registry.contextMgr := this;
      registry.TablesChanged();
    }

    method OnSetMonitor(m: Packet)
      requires Ready()
      modifies registry`monitor, registry.world`out
      ensures Ready()
      ensures registry.Snap() == BinderSpec.OnSetMonitor(old(registry.Snap()), this, m.View())
    {
      hide Wired, Write, Registry.Snap;
      registry.InTables();
      var status := AlreadyExists;
      if registry.monitor == null {
        WiredSlot(registry.Snap(), this);
        registry.monitor := this;
        registry.TablesChanged();
        status := OK;
      }
      SendStatus(m, status);
    }

    method ProcessMessage(m: Packet)
      requires Ready() && m.Valid()
      modifies registry, registry.world, m`cookie, m.objects
      ensures Ready() && registry.world == old(registry.world)
      ensures registry.Snap() == Process(old(registry.Snap()), this, old(m.View()))
    {
      hide Wired, Registry.Snap, Write, BinderSpec.OnTransaction, BinderSpec.OnReply, BinderSpec.OnReference,
        BinderSpec.OnDeathNotification, BinderSpec.OnSetContextManager, BinderSpec.OnSetMonitor, Stall;
      var thrown := false;
      match m.kind {
        case SetContextMgr => OnSetContextManager(m);
        case SetMonitor => OnSetMonitor(m);
        case Transaction => OnTransaction(m);
        case Status => OnReply(m);
        case TransactionReply => OnReply(m);
        case Acquire => thrown := OnReference(m);
        case Release => thrown := OnReference(m);
        case RequestDeathNotification => thrown := OnDeathNotification(m);
        case ClearDeathNotification => thrown := OnDeathNotification(m);
        case _ => SendStatus(m, InvalidOperation);
      }
      if thrown {
        Abandon();
      }
    }

    /** `order` is the order in which the object map is walked. */
    method Terminate(order: seq<nat>)
      requires Ready() && Enumerates(order, objects.Keys)
      modifies registry, registry.world
      ensures Ready() && registry.world == old(registry.world)
      ensures registry.Snap() == BinderSpec.Terminate(old(registry.Snap()), this, order)
    {
      hide Wired, Registry.Snap, Close, RemoveAll;
      RemoveObjects(order);
      Leave();
    }

    method RemoveObjects(order: seq<nat>)
      requires Ready()
      modifies registry, registry.world
      ensures Ready() && registry.world == old(registry.world)
      ensures registry.Snap() == RemoveAll(old(registry.Snap()), order)
    {
      hide Wired, RemoveHandle, Registry.Snap;
      ghost var y0 := registry.Snap();
      for i := 0 to |order|
        invariant Ready() && registry.world == old(registry.world)
        invariant RemoveAll(y0, order) == RemoveAll(registry.Snap(), order[i..])
      {
        assert order[i..][1..] == order[i + 1..];
        registry.RemoveHandle(order[i]);
      }
    }

    /** Give up the slots and the connection. */
    method Leave()
      requires Ready()
      modifies registry`contextMgr, registry`monitor, `open
      ensures Ready()
      ensures registry.Snap() == Close(old(registry.Snap()), this)
    {
      hide Wired, Registry.Snap;
      registry.InTables();
      registry.InSnap(this);
      WiredClose(registry.Snap(), this);
      GiveUpSlots();
      open := false;
      registry.OneChanged(this);
    }

    method GiveUpSlots()
      modifies registry`contextMgr, registry`monitor
      ensures registry.contextMgr == if old(registry.contextMgr) == this then null else old(registry.contextMgr)
      ensures registry.monitor == if old(registry.monitor) == this then null else old(registry.monitor)
    {
      if registry.contextMgr == this {
        registry.contextMgr := null;
      }
      if registry.monitor == this {
        registry.monitor := null;
      }
    }
  }
}
