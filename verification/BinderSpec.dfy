/** The binder server on values: the registry and all its sessions as one state, and what each step does
    to it (server_session.cpp, registry.cpp). `S` is whatever identifies a session. */
module BinderSpec {

  import opened Bytes
  import opened Options

  datatype StatusCode = OK | AlreadyExists | InvalidOperation | NameNotFound | BadValue | DeadObject

  // ----- messages -----

  datatype ObjectKind = Binder | Handle | WeakBinder | WeakHandle | Fd | Other

  /** A flat_binder_object. `word` is the 64-bit union of `binder` and `handle`; on a little-endian machine
      the 32-bit `handle` is its low half. */
  datatype Flat = Flat(kind: ObjectKind, word: nat, cookie: nat) {
    ghost function HandleField(): nat { word % HANDLE_LIMIT }
  }

  const HANDLE_LIMIT: nat := 0x1_0000_0000

  /** The word once its handle has been set to zero. */
  function HighHalf(word: nat): nat {
    word - word % HANDLE_LIMIT
  }

  datatype MessageType =
    | Transaction | TransactionReply | Acquire | Release | RequestDeathNotification
    | ClearDeathNotification | DeadBinder | SetContextMgr | SetMonitor | LogEntry | Status | Unsupported

  datatype Message = Message(kind: MessageType, destination: nat, cookie: nat, body: Body)

  datatype Body =
    | Opaque(bytes: seq<nat>)
    | Code(status: StatusCode)
    | Death(handle: nat, objectId: nat)
    | Call(binder: nat, cookie: nat, code: nat, objects: seq<Flat>)
    | Logged(msg: Message)

  // ----- state -----

  datatype Record<S> = Record(caller: S, replyCookie: nat)

  datatype BinderObject = BinderObject(binder: nat, cookie: nat)

  /** `out` is everything written to the session's messenger; `reading` says that its next message has been asked for. */
  datatype Session<S> = Session(
    nextCookie: nat,
    pending: map<nat, Record<S>>,
    objects: map<nat, BinderObject>,
    deaths: map<nat, nat>,
    out: seq<Message>,
    open: bool,
    reading: bool)

  datatype Sys<!S> = Sys(
    contextMgr: Option<S>,
    monitor: Option<S>,
    next: nat,
    handles: map<nat, S>,
    references: map<nat, seq<S>>,
    sessions: map<S, Session<S>>)

  ghost function Initial<S>(): Sys<S> {
    Sys(None, None, 1, map[], map[], map[])
  }

  ghost function NewSession<S>(): Session<S> {
    Session(0, map[], map[], map[], [], true, true)
  }

  // ----- writing -----

  ghost function Send<S>(y: Sys<S>, s: S, m: Message): Sys<S> {
    if s in y.sessions
    then y.(sessions := y.sessions[s := y.sessions[s].(out := y.sessions[s].out + [m])])
    else y
  }

  ghost function ForwardToMonitor<S>(y: Sys<S>, m: Message): Sys<S> {
    match y.monitor
    case None => y
    case Some(monitor) => Send(y, monitor, Message(LogEntry, 0, 0, Logged(m)))
  }

  ghost function Write<S>(y: Sys<S>, s: S, m: Message): Sys<S> {
    ForwardToMonitor(Send(y, s, m), m)
  }

  ghost function SendStatus<S>(y: Sys<S>, s: S, m: Message, status: StatusCode): Sys<S> {
    Write(y, s, Message(Status, 0, m.cookie, Code(status)))
  }

  // ----- registry -----

  ghost function FindSession<S>(y: Sys<S>, handle: nat): Option<S> {
    if handle == 0 then y.contextMgr else if handle in y.handles then Some(y.handles[handle]) else None
  }

  ghost function SendDeath<S>(y: Sys<S>, s: S, handle: nat): Sys<S> {
    if s in y.sessions && handle in y.sessions[s].deaths
    then Write(y, s, Message(DeadBinder, 0, 0, Death(handle, y.sessions[s].deaths[handle])))
    else y
  }

  ghost function NotifyAll<S>(y: Sys<S>, list: seq<S>, handle: nat): Sys<S>
    decreases |list|
  {
    if list == [] then y else NotifyAll(SendDeath(y, list[0], handle), list[1..], handle)
  }

  ghost function RefList<S>(y: Sys<S>, handle: nat): seq<S> {
    if handle in y.references then y.references[handle] else []
  }

  ghost function RemoveHandle<S>(y: Sys<S>, handle: nat): Sys<S> {
    if handle !in y.handles then y
    else
      var y' := NotifyAll(y, RefList(y, handle), handle);
      y'.(handles := y'.handles - {handle}, references := y'.references - {handle})
  }

  ghost function AddReference<S>(y: Sys<S>, s: S, handle: nat): (Sys<S>, StatusCode) {
    if handle !in y.handles then (y, DeadObject)
    else (y.(references := y.references[handle := RefList(y, handle) + [s]]), OK)
  }

  ghost function EraseFirst<S>(list: seq<S>, s: S): seq<S>
    decreases |list|
  {
    if list == [] then [] else if list[0] == s then list[1..] else [list[0]] + EraseFirst(list[1..], s)
  }

  ghost function RemoveReference<S>(y: Sys<S>, s: S, handle: nat): (Sys<S>, StatusCode) {
    if handle !in y.handles then (y, DeadObject)
    else if handle !in y.references || s !in y.references[handle] then (y, BadValue)
    else (y.(references := y.references[handle := EraseFirst(y.references[handle], s)]), OK)
  }

  // ----- transactions -----

  /** One turn of the loop of `TranslateObjects` in session s. */
  ghost function TranslateOne<S>(y: Sys<S>, s: S, o: Flat): (Sys<S>, Flat)
    requires s in y.sessions
  {
    match o.kind
    case Binder =>
      var h := y.next;
      var objects := y.sessions[s].objects;
      var objects' := if h in objects then objects else objects[h := BinderObject(o.word, o.cookie)];
      (y.(next := h + 1,
          handles := if h in y.handles then y.handles else y.handles[h := s],
          sessions := y.sessions[s := y.sessions[s].(objects := objects')]),
       Flat(Handle, h % HANDLE_LIMIT, 0))
    case Handle =>
      var objects := y.sessions[s].objects;
      if o.HandleField() in objects then
        var b := objects[o.HandleField()];
        (y, Flat(WeakBinder, HighHalf(b.binder), b.cookie))
      else (y, o)
    case _ => (y, o)
  }

  /** The objects from the first on, up to one of an unknown type. */
  ghost function Translate<S>(y: Sys<S>, s: S, os: seq<Flat>): (r: (Sys<S>, seq<Flat>, StatusCode))
    requires s in y.sessions
    ensures |r.1| == |os| && r.0.sessions.Keys == y.sessions.Keys
    decreases |os|
  {
    if os == [] then (y, [], OK)
    else if os[0].kind == Other then (y, os, InvalidOperation)
    else
      var (y', o) := TranslateOne(y, s, os[0]);
      var (y'', rest, status) := Translate(y', s, os[1..]);
      (y'', [o] + rest, status)
  }

  ghost function TakeCookie<S>(y: Sys<S>, t: S): Sys<S>
    requires t in y.sessions
  {
    y.(sessions := y.sessions[t := y.sessions[t].(nextCookie := y.sessions[t].nextCookie + 1)])
  }

  /** What `PostTransaction` does to the tables, on the objects the caller has already translated. */
  ghost function Accept<S>(y: Sys<S>, t: S, record: Record<S>, destination: nat, os: seq<Flat>)
    : (r: (Sys<S>, seq<Flat>, StatusCode))
    requires t in y.sessions
    ensures r.0.sessions.Keys == y.sessions.Keys && |r.1| == |os|
  {
    var cookie := y.sessions[t].nextCookie;
    var y1 := TakeCookie(y, t);
    if destination !in y.sessions[t].objects && destination != 0 then (y1, os, InvalidOperation)
    else
      var (y2, os', status) := Translate(y1, t, os);
      if status != OK then (y2, os', status)
      else
        var pending := y2.sessions[t].pending;
        var pending' := if cookie in pending then pending else pending[cookie := record];
        (y2.(sessions := y2.sessions[t := y2.sessions[t].(pending := pending')]), os', OK)
  }

  /** The message session t gets for a transaction posted to it in state y. */
  ghost function Delivered<S>(y: Sys<S>, t: S, m: Message, os: seq<Flat>): Message
    requires t in y.sessions && m.body.Call?
  {
    var objects := y.sessions[t].objects;
    var target := if m.destination in objects then objects[m.destination] else BinderObject(0, 0);
    Message(Transaction, m.destination, y.sessions[t].nextCookie, Call(target.binder, target.cookie, m.body.code, os))
  }

  /** `PostTransaction` in session t. */
  ghost function Post<S>(y: Sys<S>, t: S, record: Record<S>, m: Message, os: seq<Flat>): (Sys<S>, seq<Flat>, StatusCode)
    requires t in y.sessions && m.body.Call?
  {
    var (y', os', status) := Accept(y, t, record, m.destination, os);
    (if status == OK then Write(y', t, Delivered(y, t, m, os')) else y', os', status)
  }

  /** The state `OnTransaction` reaches and the status it sends back. A message that cannot be read gets BadValue. */
  ghost function Deliver<S>(y: Sys<S>, s: S, m: Message): (Sys<S>, StatusCode)
    requires s in y.sessions
  {
    if !m.body.Call? then (y, BadValue)
    else
      var (y1, os, _) := Translate(y, s, m.body.objects);
      var t := FindSession(y1, m.destination);
      if t.Some? && t.value in y1.sessions
      then var (y2, _, status) := Post(y1, t.value, Record(s, m.cookie), m, os); (y2, status)
      else (y1, NameNotFound)
  }

  // ----- the message handlers -----

  ghost function OnTransaction<S>(y: Sys<S>, s: S, m: Message): Sys<S>
    requires s in y.sessions
  {
    var (y', status) := Deliver(y, s, m);
    SendStatus(y', s, m, status)
  }

  ghost function OnReply<S>(y: Sys<S>, s: S, m: Message): Sys<S>
    requires s in y.sessions
  {
    var pending := y.sessions[s].pending;
    if m.cookie !in pending then y
    else
      var record := pending[m.cookie];
      var y' := y.(sessions := y.sessions[s := y.sessions[s].(pending := pending - {m.cookie})]);
      Write(y', record.caller, m.(cookie := record.replyCookie))
  }

  ghost function OnReference<S>(y: Sys<S>, s: S, m: Message, handle: nat): Sys<S> {
    var (y', status) :=
      if m.kind == Acquire then AddReference(y, s, handle) else RemoveReference(y, s, handle);
    SendStatus(y', s, m, status)
  }

  ghost function OnDeathNotification<S>(y: Sys<S>, s: S, m: Message, handle: nat, objectId: nat): Sys<S>
    requires s in y.sessions
  {
    var deaths := y.sessions[s].deaths;
    var (deaths', status) :=
      if m.kind == RequestDeathNotification then
        if handle in deaths then (deaths, AlreadyExists) else (deaths[handle := objectId], OK)
      else
        if handle !in deaths then (deaths, BadValue) else (deaths - {handle}, OK);
    SendStatus(y.(sessions := y.sessions[s := y.sessions[s].(deaths := deaths')]), s, m, status)
  }

  ghost function OnSetContextManager<S>(y: Sys<S>, s: S, m: Message): Sys<S> {
    var y' := ForwardToMonitor(y, m);
    if y.contextMgr == None then SendStatus(y'.(contextMgr := Some(s)), s, m, OK)
    else SendStatus(y', s, m, AlreadyExists)
  }

  ghost function OnSetMonitor<S>(y: Sys<S>, s: S, m: Message): Sys<S> {
    if y.monitor == None then SendStatus(y.(monitor := Some(s)), s, m, OK)
    else SendStatus(y, s, m, AlreadyExists)
  }

  /** Reference and death messages carry their handle; the reader of one that is too short throws. */
  predicate Readable(m: Message) {
    m.kind in {Acquire, Release, RequestDeathNotification, ClearDeathNotification} ==> m.body.Death?
  }

  /** The exception ends in the loop of the server: the session is never asked for a message again. */
  ghost function Stall<S>(y: Sys<S>, s: S): Sys<S>
    requires s in y.sessions
  {
    y.(sessions := y.sessions[s := y.sessions[s].(reading := false)])
  }

  ghost function Process<S>(y: Sys<S>, s: S, m: Message): Sys<S>
    requires s in y.sessions
  {
    if !Readable(m) then Stall(y, s) else
    match m.kind
    case SetContextMgr => OnSetContextManager(y, s, m)
    case SetMonitor => OnSetMonitor(y, s, m)
    case Transaction => OnTransaction(y, s, m)
    case Status => OnReply(y, s, m)
    case TransactionReply => OnReply(y, s, m)
    case Acquire => OnReference(y, s, m, m.body.handle)
    case Release => OnReference(y, s, m, m.body.handle)
    case RequestDeathNotification => OnDeathNotification(y, s, m, m.body.handle, m.body.objectId)
    case ClearDeathNotification => OnDeathNotification(y, s, m, m.body.handle, m.body.objectId)
    case _ => SendStatus(y, s, m, InvalidOperation)
  }

  // ----- connecting and leaving -----

  ghost function RemoveAll<S>(y: Sys<S>, handles: seq<nat>): Sys<S>
    decreases |handles|
  {
    if handles == [] then y else RemoveAll(RemoveHandle(y, handles[0]), handles[1..])
  }

  /** Session s gives up its slots and its connection. */
  ghost function Close<S>(y: Sys<S>, s: S): Sys<S> {
    y.(contextMgr := if y.contextMgr == Some(s) then None else y.contextMgr,
       monitor := if y.monitor == Some(s) then None else y.monitor,
       sessions := if s in y.sessions then y.sessions[s := y.sessions[s].(open := false)] else y.sessions)
  }

  /** `order` is the order in which the session's object map is walked. */
  ghost function Terminate<S>(y: Sys<S>, s: S, order: seq<nat>): Sys<S> {
    Close(RemoveAll(y, order), s)
  }

  ghost predicate Enumerates(order: seq<nat>, keys: set<nat>) {
    (forall x :: x in order <==> x in keys) && (forall i, j :: 0 <= i < j < |order| ==> order[i] != order[j])
  }

  const HEADER_SIZE: nat := 24 // type, destination, cookie and the length of the body
  const BODY_LENGTH: nat := 20 // where the length is; the reader takes a number from its first byte alone

  function PaddedSize(n: nat): nat {
    (n + 3) / 4 * 4
  }

  /** What is left of a frame holds a message: `Message::Unpack` does not throw. */
  predicate Unpackable(frame: seq<Byte>) {
    |frame| >= HEADER_SIZE && HEADER_SIZE + PaddedSize(frame[BODY_LENGTH]) <= |frame|
  }

  datatype Event<S> =
    | Connect(s: S)
    | Receive(s: S, m: Message)
    | Disconnect(s: S, order: seq<nat>)
    | Corrupt(s: S, frame: seq<Byte>) // an empty frame stands for one for which realloc returns null

  /** Which events can happen: a session connects once, and only an open session that is read from sends or leaves. */
  ghost predicate Enabled<S>(y: Sys<S>, e: Event<S>) {
    match e
    case Connect(s) => s !in y.sessions
    case Receive(s, m) => s in y.sessions && y.sessions[s].open && y.sessions[s].reading
    case Disconnect(s, order) =>
      s in y.sessions && y.sessions[s].open && y.sessions[s].reading && Enumerates(order, y.sessions[s].objects.Keys)
    case Corrupt(s, frame) => s in y.sessions && y.sessions[s].open && y.sessions[s].reading && !Unpackable(frame)
  }

  /** An event that cannot happen changes nothing, so every sequence of events is a run. */
  ghost function Step<S>(y: Sys<S>, e: Event<S>): Sys<S> {
    if !Enabled(y, e) then y
    else match e
      case Connect(s) => y.(sessions := y.sessions[s := NewSession()])
      case Receive(s, m) => Process(y, s, m)
      case Disconnect(s, order) => Terminate(y, s, order)
      case Corrupt(s, _) => Stall(y, s)
  }

  /** The state after a run of the server. */
  ghost function Run<S>(es: seq<Event<S>>): Sys<S>
    decreases |es|
  {
    if es == [] then Initial() else Step(Run(es[..|es| - 1]), es[|es| - 1])
  }
}
