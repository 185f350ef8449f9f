/** What happens to the objects inside a transaction, and how an object comes back to the session that owns it. */
module BinderObjects {
  import opened BinderSpec
  import opened Options
  import opened BinderInvariants
  import opened BinderRuns

  /** The session a transaction reaches and the objects it is handed. */
  ghost function Target<S>(y: Sys<S>, s: S, m: Message): Option<S>
    requires s in y.sessions && m.body.Call?
  {
    FindSession(Translate(y, s, m.body.objects).0, m.destination)
  }

  ghost predicate Reaches<S>(y: Sys<S>, s: S, m: Message) {
    s in y.sessions && m.body.Call? && Target(y, s, m).Some? && Target(y, s, m).value in y.sessions
  }

  ghost function Handed<S>(y: Sys<S>, s: S, m: Message): (os: seq<Flat>)
    requires Reaches(y, s, m)
    ensures |os| == |m.body.objects|
  {
    var (y1, os, _) := Translate(y, s, m.body.objects);
    Accept(y1, Target(y, s, m).value, Record(s, m.cookie), m.destination, os).1
  }

  /** In this delivery the target is handed r as object i. */
  ghost predicate Hands<S>(y: Sys<S>, s: S, m: Message, i: nat, r: Flat) {
    Reaches(y, s, m) && i < |m.body.objects| && Handed(y, s, m)[i] == r
  }

  /** Session s sends m to session t in state y, and it is delivered. */
  ghost predicate Sends<S>(y: Sys<S>, s: S, m: Message, t: S) {
    && Live(y, s) && y.sessions[s].reading && m.kind == Transaction
    && Reaches(y, s, m) && Target(y, s, m) == Some(t) && Deliver(y, s, m).1 == OK
  }

  // ----- one object -----

  /** Object i is translated in the state its predecessors leave. */
  lemma {:induction false} TranslateAt<S>(y: Sys<S>, s: S, os: seq<Flat>, i: nat) returns (y': Sys<S>)
    requires Inv(y) && Live(y, s) && i < |os| && Translate(y, s, os).2 == OK
    ensures Inv(y') && Live(y', s) && s in y'.sessions
    ensures Grew(y, y', s) && Grew(TranslateOne(y', s, os[i]).0, Translate(y, s, os).0, s)
    ensures y'.next <= y.next + i
    ensures Translate(y, s, os).1[i] == TranslateOne(y', s, os[i]).1
    decreases |os|
  {
    hide Inv, Grew, TranslateOne, Live;
    TranslateOneKeepsInv(y, s, os[0]);
    OneHandle(y, s, os[0]);
    var (z, o) := TranslateOne(y, s, os[0]);
    TranslateOneGrows(y, s, os[0]);
    if i == 0 {
      y' := y;
      SelfGrew(y, s);
      TranslateGrows(z, s, os[1..]);
    } else {
      y' := TranslateAt(z, s, os[1..], i - 1);
      GrewTwice(y, z, y', s);
    }
  }

  lemma OneHandle<S>(y: Sys<S>, s: S, o: Flat)
    requires Live(y, s)
    ensures s in y.sessions && TranslateOne(y, s, o).0.next <= y.next + 1
    ensures Live(TranslateOne(y, s, o).0, s) ==> s in TranslateOne(y, s, o).0.sessions
  {
  }

  /** r is a handle of session s that leads to the object o stands for. */
  ghost predicate LeadsTo<S>(y: Sys<S>, s: S, r: Flat, o: Flat) {
    var h := r.HandleField();
    && r == Flat(Handle, h, 0) && h < y.next
    && h in y.handles && y.handles[h] == s
    && s in y.sessions && h in y.sessions[s].objects && y.sessions[s].objects[h] == BinderObject(o.word, o.cookie)
  }

  /** A binder is exported: it becomes a handle that was never given out before and that leads back to it. */
  lemma {:induction false} BinderExported<S>(y: Sys<S>, s: S, os: seq<Flat>, i: nat)
    requires Inv(y) && Live(y, s) && i < |os| && Translate(y, s, os).2 == OK && os[i].kind == Binder
    requires y.next + |os| <= HANDLE_LIMIT
    ensures LeadsTo(Translate(y, s, os).0, s, Translate(y, s, os).1[i], os[i])
    ensures y.next <= Translate(y, s, os).1[i].HandleField()
  {
    var z := TranslateAt(y, s, os, i);
    NextIsFresh(z, s);
    hide Inv, Translate, TranslateOne, LeadsTo;
    ExportStep(z, s, os[i], Translate(y, s, os).0);
  }

  /** A handle has 64 bits and the handle field of an object 32: an export names its own handle exactly while that fits, and
      after that an older one. */
  lemma {:induction false} HandleIsCut<S>(y: Sys<S>, s: S, o: Flat)
    requires s in y.sessions && o.kind == Binder
    ensures var h := TranslateOne(y, s, o).1.HandleField();
      && (h == y.next <==> y.next < 0x1_0000_0000)
      && (y.next >= 0x1_0000_0000 ==> h < y.next)
  {
  }

  lemma {:induction false} ExportStep<S>(z: Sys<S>, s: S, o: Flat, y': Sys<S>)
    requires s in z.sessions && o.kind == Binder && z.next !in z.handles && z.next !in z.sessions[s].objects
    requires Grew(TranslateOne(z, s, o).0, y', s) && z.next < HANDLE_LIMIT
    ensures LeadsTo(y', s, TranslateOne(z, s, o).1, o) && TranslateOne(z, s, o).1.HandleField() == z.next
  {
    var y1 := TranslateOne(z, s, o).0;
    assert z.next in y1.handles && z.next in y1.sessions[s].objects;
  }

  lemma {:induction false} NextIsFresh<S>(y: Sys<S>, s: S)
    requires Inv(y) && Live(y, s)
    ensures y.next !in y.handles && y.next !in y.sessions[s].objects && y.next > 0
  {
    assert y.next in y.sessions[s].objects ==> y.next in y.handles;
  }

  // ----- a whole transaction -----

  /** Translation succeeds exactly when no object is of an unknown type, and it makes none of an unknown type. */
  lemma {:induction false} TranslateOk<S>(y: Sys<S>, s: S, os: seq<Flat>)
    requires s in y.sessions
    ensures Translate(y, s, os).2 == OK <==> forall i :: 0 <= i < |os| ==> os[i].kind != Other
    ensures (forall i :: 0 <= i < |os| ==> Translate(y, s, os).1[i].kind != Other) ==> Translate(y, s, os).2 == OK
    decreases |os|
  {
    if os != [] {
      if os[0].kind != Other {
        TranslateOk(TranslateOne(y, s, os[0]).0, s, os[1..]);
        var rest := Translate(TranslateOne(y, s, os[0]).0, s, os[1..]).1;
        assert forall i :: 1 <= i < |os| ==> os[i] == os[1..][i - 1];
        assert forall i :: 0 <= i < |rest| ==> os[1..][i] == os[i + 1] && rest[i] == Translate(y, s, os).1[i + 1];
      } else {
        assert Translate(y, s, os).1[0].kind == Other;
      }
    }
  }

  /** A delivered transaction is translated twice, first for its sender and then for its target. */
  lemma {:induction false} TwoPasses<S>(y: Sys<S>, s: S, m: Message, t: S)
    requires Inv(y) && Sends(y, s, m, t)
    ensures var (y1, os1, status1) := Translate(y, s, m.body.objects);
            && status1 == OK && Inv(y1) && Grew(y, y1, s) && Live(y1, t)
            && var z := TakeCookie(y1, t);
            && Inv(z) && Live(z, t) && Translate(z, t, os1).2 == OK
            && Handed(y, s, m) == Translate(z, t, os1).1
  {
    var os := m.body.objects;
    TranslateKeepsInv(y, s, os);
    TranslateGrows(y, s, os);
    var (y1, os1, _) := Translate(y, s, os);
    FoundIsLive(y1, m.destination);
    TakeCookieKeepsInv(y1, t);
    TranslateOk(TakeCookie(y1, t), t, os1);
    TranslateOk(y, s, os);
  }

  /** What a session is handed for an object of its own: the cookie and, because writing the 32-bit handle field of the union
      clears the other half, the high half of the binder word. */
  ghost function Home(b: BinderObject): Flat {
    Flat(WeakBinder, HighHalf(b.binder), b.cookie)
  }

  /** A handle that belongs to neither of the two is passed on as it is. One that belongs to the target arrives as the
      target's own object; but one that belongs to the sender arrives as the sender's, wherever it goes. */
  lemma {:induction false} HandleArrives<S>(y: Sys<S>, s: S, m: Message, t: S, i: nat)
    requires m.body.Call? && i < |m.body.objects| && m.body.objects[i].kind == Handle
    requires m.body.objects[i].HandleField() < y.next
    requires Inv(y) && Sends(y, s, m, t)
    ensures var o := m.body.objects[i];
            var h := o.HandleField();
            Hands(y, s, m, i,
              if s in y.sessions && h in y.sessions[s].objects then Home(y.sessions[s].objects[h])
              else if t in y.sessions && h in y.sessions[t].objects then Home(y.sessions[t].objects[h])
              else o)
  {
    var os := m.body.objects;
    TwoPasses(y, s, m, t);
    var (y1, os1, _) := Translate(y, s, os);
    var z := TakeCookie(y1, t);
    var h := os[i].HandleField();
    hide Inv, Handed, Sends, Translate, HighHalf;
    PassHandle(y, s, os, i);
    if h in y.sessions[s].objects {
      PassOther(z, t, os1, i);
    } else {
      PassHandle(z, t, os1, i);
      OldObjects(y, y1, s, t, h);
    }
  }

  /** Translation gives nobody an object under an older handle. */
  lemma {:induction false} OldObjects<S>(y: Sys<S>, y': Sys<S>, s: S, t: S, h: nat)
    requires Inv(y) && Inv(y') && Live(y, s) && Grew(y, y', s) && Live(y', t) && h < y.next
    ensures t in y.sessions && (h in y'.sessions[t].objects <==> h in y.sessions[t].objects)
    ensures h in y.sessions[t].objects ==> y'.sessions[t].objects[h] == y.sessions[t].objects[h]
  {
    assert h in y'.sessions[t].objects ==> h in y'.handles && y'.handles[h] == t;
    assert h in y'.handles ==> h in y.handles && y'.handles[h] == y.handles[h];
  }

  /** One pass leaves alone what is neither a binder nor a handle. */
  lemma {:induction false} PassOther<S>(y: Sys<S>, s: S, os: seq<Flat>, i: nat)
    requires s in y.sessions && i < |os| && os[i].kind != Binder && os[i].kind != Handle
    ensures Translate(y, s, os).1[i] == os[i]
    decreases |os|
  {
    hide TranslateOne;
    if i > 0 && os[0].kind != Other {
      TranslateOneGrows(y, s, os[0]);
      PassOther(TranslateOne(y, s, os[0]).0, s, os[1..], i - 1);
    } else if os[0].kind != Other {
      OtherStays(y, s, os[0]);
    }
  }

  lemma OtherStays<S>(y: Sys<S>, s: S, o: Flat)
    requires s in y.sessions && o.kind != Binder && o.kind != Handle
    ensures TranslateOne(y, s, o) == (y, o)
  {
  }

  /** What one pass makes of a handle that existed before. */
  lemma {:induction false} PassHandle<S>(y: Sys<S>, s: S, os: seq<Flat>, i: nat)
    requires Inv(y) && Live(y, s) && Translate(y, s, os).2 == OK && i < |os| && os[i].kind == Handle
    requires os[i].HandleField() < y.next
    ensures var h := os[i].HandleField();
            Translate(y, s, os).1[i] ==
              if h in y.sessions[s].objects then Home(y.sessions[s].objects[h]) else os[i]
  {
    hide Translate;
    var h := os[i].HandleField();
    var z := TranslateAt(y, s, os, i);
    assert h in z.sessions[s].objects <==> h in y.sessions[s].objects by {
      assert h in z.sessions[s].objects ==> h in z.handles && z.handles[h] == s;
      assert h in z.handles ==> h in y.handles && z.handles[h] == y.handles[h];
    }
  }

  /** A binder sent to another session arrives as a handle that was never given out before and that leads back to it. */
  lemma {:induction false} BinderArrives<S>(y: Sys<S>, s: S, m: Message, t: S, i: nat)
    requires Inv(y) && Sends(y, s, m, t) && t != s && i < |m.body.objects| && m.body.objects[i].kind == Binder
    requires y.next + |m.body.objects| <= HANDLE_LIMIT
    ensures var o := m.body.objects[i];
            var r := Handed(y, s, m)[i];
            var y1 := Translate(y, s, m.body.objects).0;
            LeadsTo(y1, s, r, o) && y.next <= r.HandleField()
  {
    var os := m.body.objects;
    TwoPasses(y, s, m, t);
    var (y1, os1, _) := Translate(y, s, os);
    var z := TakeCookie(y1, t);
    BinderExported(y, s, os, i);
    OwnersDiffer(y1, os1[i].HandleField(), s, t);
    hide Inv, Handed, Sends, Translate;
    PassHandle(z, t, os1, i);
  }

  /** Sent to oneself it comes straight home. */
  lemma {:induction false} BinderToSelf<S>(y: Sys<S>, s: S, m: Message, i: nat)
    requires m.body.Call? && i < |m.body.objects| && m.body.objects[i].kind == Binder
    requires y.next + |m.body.objects| <= HANDLE_LIMIT
    requires Inv(y) && Sends(y, s, m, s)
    ensures var o := m.body.objects[i]; Hands(y, s, m, i, Home(BinderObject(o.word, o.cookie)))
  {
    var os := m.body.objects;
    TwoPasses(y, s, m, s);
    var (y1, os1, _) := Translate(y, s, os);
    var z := TakeCookie(y1, s);
    BinderExported(y, s, os, i);
    hide Inv, Handed, Sends, Translate, HighHalf;
    PassHandle(z, s, os1, i);
  }

  lemma {:induction false} OwnersDiffer<S>(y: Sys<S>, h: nat, s: S, t: S)
    requires Inv(y) && h in y.handles && y.handles[h] == s && Live(y, t) && t != s
    ensures h !in y.sessions[t].objects
  {
  }

  // ----- there and back -----

  /** A live session keeps its objects. */
  lemma {:induction false} StepKeepsObjects<S>(y: Sys<S>, e: Event<S>, s: S, h: nat)
    requires Inv(y) && Live(y, s) && h in y.sessions[s].objects && Live(Step(y, e), s)
    ensures h in Step(y, e).sessions[s].objects && Step(y, e).sessions[s].objects[h] == y.sessions[s].objects[h]
  {
    if Enabled(y, e) {
      match e {
        case Connect(_) =>
        case Receive(t, m) =>
          hide Process, Inv;
          TablesKeepObjects(y, t, m, s, h);
          ProcessIsQuiet(y, t, m);
          assert SameButOut(Tables(y, t, m).sessions[s], Process(y, t, m).sessions[s]);
        case Disconnect(t, order) =>
          hide Terminate, Inv;
          TerminateIsLeft(y, t, order);
          assert SameButOut(Left(y, t).sessions[s], Terminate(y, t, order).sessions[s]);
        case Corrupt(_, _) =>
      }
    }
  }

  lemma {:induction false} AcceptKeepsObjects<S>(y: Sys<S>, t: S, record: Record<S>, destination: nat, os: seq<Flat>, s: S, h: nat)
    requires t in y.sessions && s in y.sessions && h in y.sessions[s].objects
    ensures var y' := Accept(y, t, record, destination, os).0;
            h in y'.sessions[s].objects && y'.sessions[s].objects[h] == y.sessions[s].objects[h]
  {
    hide Translate;
    TranslateGrows(TakeCookie(y, t), t, os);
  }

  lemma {:induction false} TablesKeepObjects<S>(y: Sys<S>, t: S, m: Message, s: S, h: nat)
    requires t in y.sessions && s in y.sessions && h in y.sessions[s].objects
    ensures s in Tables(y, t, m).sessions && h in Tables(y, t, m).sessions[s].objects
    ensures Tables(y, t, m).sessions[s].objects[h] == y.sessions[s].objects[h]
  {
    if m.kind == Transaction && m.body.Call? {
      hide Translate, Accept;
      TranslateGrows(y, t, m.body.objects);
      var (y1, os, _) := Translate(y, t, m.body.objects);
      var r := FindSession(y1, m.destination);
      if r.Some? && r.value in y1.sessions {
        AcceptKeepsObjects(y1, r.value, Record(t, m.cookie), m.destination, os, s, h);
      }
    }
  }

  lemma {:induction false} RunKeepsObjects<S>(es: seq<Event<S>>, more: seq<Event<S>>, s: S, h: nat)
    requires Live(Run(es), s) && h in Run(es).sessions[s].objects && Live(Run(es + more), s)
    ensures h in Run(es + more).sessions[s].objects
    ensures Run(es + more).sessions[s].objects[h] == Run(es).sessions[s].objects[h]
    decreases |more|
  {
    hide Inv, Step;
    var all := es + more;
    if more == [] {
      assert all == es;
    } else {
      var before := all[..|all| - 1];
      assert before == es + more[..|more| - 1];
      RunKeepsInv(before);
      StillThere(es, more[..|more| - 1], s);
      StepKeepsOpen(Run(before), all[|all| - 1], s);
      RunKeepsObjects(es, more[..|more| - 1], s, h);
      StepKeepsObjects(Run(before), all[|all| - 1], s, h);
    }
  }

  lemma {:induction false} StillThere<S>(es: seq<Event<S>>, more: seq<Event<S>>, s: S)
    requires s in Run(es).sessions
    ensures s in Run(es + more).sessions
    decreases |more|
  {
    hide Inv, Step;
    var all := es + more;
    if more == [] {
      assert all == es;
    } else {
      assert all[..|all| - 1] == es + more[..|more| - 1];
      StillThere(es, more[..|more| - 1], s);
      RunKeepsInv(all[..|all| - 1]);
      StepKeepsOpen(Run(all[..|all| - 1]), all[|all| - 1], s);
    }
  }

  /** The table of the sender after its transaction holds what the transaction exported. */
  lemma {:induction false} ExportStays<S>(y: Sys<S>, s: S, m: Message, t: S, h: nat)
    requires Inv(y) && Sends(y, s, m, t) && t != s
    requires var y1 := Translate(y, s, m.body.objects).0; h in y1.sessions[s].objects
    ensures var y1 := Translate(y, s, m.body.objects).0;
            var y' := Process(y, s, m);
            s in y'.sessions && h in y'.sessions[s].objects && y'.sessions[s].objects[h] == y1.sessions[s].objects[h]
            && y'.next >= y1.next
  {
    hide Process, Inv, Translate;
    var (y1, os, _) := Translate(y, s, m.body.objects);
    TranslateGrows(y, s, m.body.objects);
    TranslateGrows(TakeCookie(y1, t), t, os);
    ProcessIsQuiet(y, s, m);
    assert SameButOut(Tables(y, s, m).sessions[s], Process(y, s, m).sessions[s]);
  }

  /** In this delivery t is handed the handle h for object i of the message. */
  ghost predicate HandsOver<S>(y: Sys<S>, s: S, m: Message, t: S, i: nat, h: nat) {
    && Sends(y, s, m, t) && i < |m.body.objects|
    && m.body.objects[i].kind == Binder && Handed(y, s, m)[i].HandleField() == h
  }

  /** In this delivery session t is sent the handle h as object j of the message. */
  ghost predicate SendsBack<S>(y: Sys<S>, u: S, m: Message, t: S, j: nat, h: nat) {
    && Sends(y, u, m, t) && j < |m.body.objects|
    && m.body.objects[j].kind == Handle && m.body.objects[j].HandleField() == h
  }

  /** An object goes out and comes home: session s sends a binder to t, and whatever happens in between, when the handle t
      was given is sent to s by a session that does not own it, s is handed a weak binder with the cookie it sent. The low
      half of the binder word is lost on the way, so it is the word that was sent exactly when that half was zero. */
  lemma {:induction false} ThereAndBack<S>(
      es: seq<Event<S>>, s: S, m: Message, t: S, i: nat, h: nat, more: seq<Event<S>>, u: S, m': Message, j: nat)
    returns (home: Flat)
    requires m.body.Call? && i < |m.body.objects| && Run(es).next + |m.body.objects| <= HANDLE_LIMIT
    requires HandsOver(Run(es), s, m, t, i, h) && t != s
    requires Live(Run(es + [Receive(s, m)] + more), s) && u != s
    requires SendsBack(Run(es + [Receive(s, m)] + more), u, m', s, j, h)
    ensures Hands(Run(es + [Receive(s, m)] + more), u, m', j, home)
    ensures var o := m.body.objects[i];
            && home == Flat(WeakBinder, HighHalf(o.word), o.cookie)
            && (home.word == o.word <==> o.word % 0x1_0000_0000 == 0)
  {
    hide Inv, Translate, Process, Handed;
    var y := Run(es);
    var mid := es + [Receive(s, m)];
    assert mid[..|mid| - 1] == es;
    RunKeepsInv(es);
    RunKeepsInv(mid);
    RunKeepsInv(mid + more);
    BinderArrives(y, s, m, t, i);
    ExportStays(y, s, m, t, h);
    assert Run(mid) == Process(y, s, m);
    StepKeepsOpen(y, Receive(s, m), s);
    RunKeepsObjects(mid, more, s, h);
    NextGrows(mid, more);
    HandleOwned(Run(mid + more), h, s, u);
    HandleArrives(Run(mid + more), u, m', s, j);
    home := Home(BinderObject(m.body.objects[i].word, m.body.objects[i].cookie));
  }

  lemma {:induction false} HandleOwned<S>(y: Sys<S>, h: nat, s: S, t: S)
    requires Inv(y) && Live(y, s) && Live(y, t) && t != s && h in y.sessions[s].objects
    ensures h in y.handles && y.handles[h] == s && h !in y.sessions[t].objects && h < y.next
  {
  }
}
