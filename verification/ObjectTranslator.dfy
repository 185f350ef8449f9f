/** Object addresses and the ids that stand for them outside the process (object_translator.cpp). */
module ObjectTranslation {
  import opened Options
  import opened BinderSpec

  const INVALID: nat := 0

  datatype Direction = In | Out

  /** `objects_` and `next_object_id_`. */
  datatype Table = Table(objects: map<nat, nat>, next: nat)

  const NEW_TABLE := Table(map[], 1)

  /** An injection from nonzero ids below the next one. */
  ghost predicate Injection(t: Table) {
    && t.next > 0
    && (forall id :: id in t.objects ==> 0 < id < t.next)
    && (forall a, b :: a in t.objects && b in t.objects && t.objects[a] == t.objects[b] ==> a == b)
  }

  ghost predicate Extends(t: Table, u: Table) {
    t.next <= u.next && forall id :: id in t.objects ==> id in u.objects && u.objects[id] == t.objects[id]
  }

  ghost predicate Names(t: Table, id: nat, address: nat) {
    id in t.objects && t.objects[id] == address
  }

  /** `TranslateObject`: an id of an object's address, if it has one. */
  ghost function IdOf(t: Table, address: nat): nat {
    if id: nat :| Names(t, id, address) then id else INVALID
  }

  ghost function TranslateOrAdd(t: Table, address: nat): (Table, nat) {
    var id := IdOf(t, address);
    if id != INVALID then (t, id) else (Table(t.objects[t.next := address], t.next + 1), t.next)
  }

  function AddressOf(t: Table, cookie: nat): nat {
    if cookie in t.objects then t.objects[cookie] else 0
  }

  // ----- one pass over the objects of a transaction -----

  ghost function ProcessOne(t: Table, direction: Direction, obj: Flat): (Table, Flat, StatusCode) {
    if obj.kind == Other then (t, obj, InvalidOperation)
    else if obj.kind != Binder then (t, obj, OK)
    else if direction == In then
      if obj.cookie in t.objects then (t, obj.(cookie := t.objects[obj.cookie]), OK) else (t, obj, BadValue)
    else
      var (u, id) := TranslateOrAdd(t, obj.cookie);
      (u, obj.(cookie := id), OK)
  }

  /** Stops at the first object that is refused; those before it stay rewritten. */
  ghost function Pass(t: Table, direction: Direction, objs: seq<Flat>): (r: (Table, seq<Flat>, StatusCode))
    ensures |r.1| == |objs|
    decreases |objs|
  {
    if objs == [] then (t, [], OK)
    else
      var (u, obj, status) := ProcessOne(t, direction, objs[0]);
      if status != OK then (u, [obj] + objs[1..], status)
      else
        var (v, rest, status') := Pass(u, direction, objs[1..]);
        (v, [obj] + rest, status')
  }

  datatype Batch = Batch(direction: Direction, objs: seq<Flat>)

  ghost function Run(t: Table, transactions: seq<Batch>): Table
    decreases |transactions|
  {
    if transactions == [] then t
    else Run(Pass(t, transactions[0].direction, transactions[0].objs).0, transactions[1..])
  }

  // ----- what holds -----

  lemma {:induction false} AddKeepsInjection(t: Table, address: nat)
    requires Injection(t)
    ensures var (u, id) := TranslateOrAdd(t, address);
      Injection(u) && Extends(t, u) && Names(u, id, address)
  {
    var found := IdOf(t, address);
    forall a | a in t.objects
      ensures t.objects[a] == address ==> Names(t, found, address)
    {
      if t.objects[a] == address {
        IdOfIsId(t, a, address);
      }
    }
  }

  lemma {:induction false} IdOfIsId(t: Table, a: nat, address: nat)
    requires Names(t, a, address)
    ensures Names(t, IdOf(t, address), address)
  {
  }

  /** The table stays an injection and only grows, whatever the pass and however it ends. */
  lemma {:induction false} PassKeepsInjection(t: Table, direction: Direction, objs: seq<Flat>)
    requires Injection(t)
    ensures var u := Pass(t, direction, objs).0; Injection(u) && Extends(t, u) && (direction == In ==> u == t)
    decreases |objs|
  {
    hide TranslateOrAdd;
    if objs != [] {
      AddKeepsInjection(t, objs[0].cookie);
      PassKeepsInjection(ProcessOne(t, direction, objs[0]).0, direction, objs[1..]);
    }
  }

  lemma {:induction false} RunKeepsInjection(t: Table, transactions: seq<Batch>)
    requires Injection(t)
    ensures Injection(Run(t, transactions)) && Extends(t, Run(t, transactions))
    decreases |transactions|
  {
    hide Pass;
    if transactions != [] {
      PassKeepsInjection(t, transactions[0].direction, transactions[0].objs);
      RunKeepsInjection(Pass(t, transactions[0].direction, transactions[0].objs).0, transactions[1..]);
    }
  }

  /** A pass is refused exactly for an unknown type, or on the way in for a cookie that is no id. */
  lemma {:induction false} AcceptedExactly(t: Table, direction: Direction, objs: seq<Flat>)
    requires Injection(t)
    ensures Pass(t, direction, objs).2 == OK <==> forall i :: 0 <= i < |objs| ==>
      objs[i].kind != Other && (objs[i].kind == Binder && direction == In ==> objs[i].cookie in t.objects)
    decreases |objs|
  {
    hide TranslateOrAdd;
    if objs != [] {
      AddKeepsInjection(t, objs[0].cookie);
      AcceptedExactly(ProcessOne(t, direction, objs[0]).0, direction, objs[1..]);
      assert objs == [objs[0]] + objs[1..];
    }
  }

  /** Where a refused pass stops: at the first object that is refused, which stays as it is with all behind it, while those in
      front of it have been rewritten; an unknown type is an invalid operation, an unknown cookie a bad value. */
  lemma {:induction false} StopsAt(t: Table, direction: Direction, objs: seq<Flat>) returns (i: nat)
    requires Pass(t, direction, objs).2 != OK
    ensures i < |objs| && (objs[i].kind == Other || (objs[i].kind == Binder && direction == In))
    ensures Pass(t, direction, objs[..i]).2 == OK
    ensures objs[i].kind != Other ==> objs[i].cookie !in Pass(t, direction, objs[..i]).0.objects
    ensures Pass(t, direction, objs) ==
      (Pass(t, direction, objs[..i]).0, Pass(t, direction, objs[..i]).1 + objs[i..],
       if objs[i].kind == Other then InvalidOperation else BadValue)
    decreases |objs|
  {
    var (u, obj, status) := ProcessOne(t, direction, objs[0]);
    if status != OK {
      i := 0;
      assert objs[..0] == [] && [] + objs[0..] == objs == [obj] + objs[1..];
    } else {
      i := StopsAt(u, direction, objs[1..]);
      i := i + 1;
      assert objs[..i][0] == objs[0] && objs[..i][1..] == objs[1..][..i - 1] && objs[i..] == objs[1..][i - 1..];
      assert [obj] + (Pass(u, direction, objs[1..][..i - 1]).1 + objs[i..]) == [obj] + Pass(u, direction, objs[1..][..i - 1]).1 + objs[i..];
    }
  }

  /** The ids that have been given out are exactly those from 1 to below the next one. */
  lemma {:induction false} IdsInOrder(transactions: seq<Batch>)
    ensures var t := Run(NEW_TABLE, transactions); t.next > 0 && forall id :: id in t.objects <==> 0 < id < t.next
  {
    RunKeepsOrder(NEW_TABLE, transactions);
  }

  ghost predicate Consecutive(t: Table) {
    t.next > 0 && forall id :: id in t.objects <==> 0 < id < t.next
  }

  lemma {:induction false} RunKeepsOrder(t: Table, transactions: seq<Batch>)
    requires Consecutive(t)
    ensures Consecutive(Run(t, transactions))
    decreases |transactions|
  {
    hide Pass, Consecutive;
    if transactions != [] {
      PassKeepsOrder(t, transactions[0].direction, transactions[0].objs);
      RunKeepsOrder(Pass(t, transactions[0].direction, transactions[0].objs).0, transactions[1..]);
    }
  }

  lemma {:induction false} PassKeepsOrder(t: Table, direction: Direction, objs: seq<Flat>)
    requires Consecutive(t)
    ensures Consecutive(Pass(t, direction, objs).0)
    decreases |objs|
  {
    hide IdOf;
    if objs != [] {
      PassKeepsOrder(ProcessOne(t, direction, objs[0]).0, direction, objs[1..]);
    }
  }

  /** Going in undoes going out, in the table of then or any later one. */
  lemma {:induction false} InUndoesOut(t: Table, objs: seq<Flat>, later: Table)
    requires Injection(t) && Pass(t, Out, objs).2 == OK && Extends(Pass(t, Out, objs).0, later)
    ensures Pass(later, In, Pass(t, Out, objs).1) == (later, objs, OK)
    decreases |objs|
  {
    hide TranslateOrAdd;
    if objs != [] {
      AddKeepsInjection(t, objs[0].cookie);
      var (u, obj, _) := ProcessOne(t, Out, objs[0]);
      PassKeepsInjection(u, Out, objs[1..]);
      InUndoesOut(u, objs[1..], later);
      var sent := Pass(t, Out, objs).1;
      assert sent == [obj] + Pass(u, Out, objs[1..]).1;
      assert sent[0] == obj && sent[1..] == Pass(u, Out, objs[1..]).1;
      if obj.kind == Binder {
        assert Names(u, obj.cookie, objs[0].cookie);
      }
      assert objs == [objs[0]] + objs[1..];
    }
  }

  /** What goes out comes back as it was, whatever other translations happen in between. */
  lemma {:induction false} ThereAndBack(t: Table, objs: seq<Flat>, between: seq<Batch>)
    requires Injection(t) && Pass(t, Out, objs).2 == OK
    ensures var (u, sent, _) := Pass(t, Out, objs);
      var later := Run(u, between);
      Pass(later, In, sent) == (later, objs, OK)
  {
    hide Pass, Run;
    PassKeepsInjection(t, Out, objs);
    RunKeepsInjection(Pass(t, Out, objs).0, between);
    InUndoesOut(t, objs, Run(Pass(t, Out, objs).0, between));
  }

  /** The other way round: an id that came in goes out as the same id. */
  lemma {:induction false} OutUndoesIn(t: Table, objs: seq<Flat>)
    requires Injection(t) && Pass(t, In, objs).2 == OK
    ensures Pass(t, Out, Pass(t, In, objs).1) == (t, objs, OK)
    decreases |objs|
  {
    if objs != [] {
      var (_, obj, _) := ProcessOne(t, In, objs[0]);
      var received := Pass(t, In, objs).1;
      assert received[0] == obj && received[1..] == Pass(t, In, objs[1..]).1;
      OutUndoesIn(t, objs[1..]);
      if obj.kind == Binder {
        IdIsUnique(t, objs[0].cookie);
      }
      assert objs == [objs[0]] + objs[1..];
    }
  }

  lemma {:induction false} IdIsUnique(t: Table, id: nat)
    requires Injection(t) && id in t.objects
    ensures TranslateOrAdd(t, t.objects[id]) == (t, id)
  {
    IdOfIsId(t, id, t.objects[id]);
  }

  /** The id an address was given leads back to it, and the address to the id, in the table of then or any later one. */
  lemma {:induction false} CookieLeadsBack(t: Table, address: nat, later: Table)
    requires Injection(t) && Injection(later) && Extends(TranslateOrAdd(t, address).0, later)
    ensures var id := TranslateOrAdd(t, address).1;
      id != INVALID && AddressOf(later, id) == address && IdOf(later, address) == id
  {
    hide TranslateOrAdd, IdOf;
    AddKeepsInjection(t, address);
    IdOfIsId(later, TranslateOrAdd(t, address).1, address);
  }

  /** A cookie is the id of what it leads to exactly when it is in the table. An unknown one leads to null, whose id is no
      other than 0 while null has none. */
  lemma {:induction false} AddressLeadsBack(t: Table, cookie: nat)
    requires Injection(t)
    ensures IdOf(t, AddressOf(t, cookie)) == cookie <==>
      cookie in t.objects || (cookie == INVALID && forall id :: id in t.objects ==> t.objects[id] != 0)
  {
    hide IdOf;
    if cookie in t.objects {
      IdOfIsId(t, cookie, t.objects[cookie]);
    } else if id :| id in t.objects && t.objects[id] == 0 {
      IdOfIsId(t, id, 0);
    } else {
      IdOfUnknown(t, 0);
    }
  }

  lemma {:induction false} IdOfUnknown(t: Table, address: nat)
    requires forall id :: id in t.objects ==> t.objects[id] != address
    ensures IdOf(t, address) == INVALID
  {
  }

  // ----- the class -----

  class ObjectTranslator {
    var objects: map<nat, nat>
    var nextObjectId: nat

    ghost function View(): Table
      reads this
    {
      Table(objects, nextObjectId)
    }

    constructor ()
      ensures View() == NEW_TABLE && Injection(View())
    {
      objects, nextObjectId := map[], 1;
    }

    method TranslateCookie(cookie: nat) returns (address: nat)
      ensures address == AddressOf(View(), cookie)
    {
      address := if cookie in objects then objects[cookie] else 0;
    }

    /** The loop over the table, in whatever order it has. */
    method TranslateObject(address: nat) returns (id: nat)
      requires Injection(View())
      ensures id == IdOf(View(), address)
    {
      var rest := objects.Keys;
      while rest != {}
        invariant rest <= objects.Keys
        invariant forall k :: k in objects && k !in rest ==> objects[k] != address
        decreases rest
      {
        var k :| k in rest;
        if objects[k] == address {
          IdIsUnique(View(), k);
          return k;
        }
        rest := rest - {k};
      }
      assert forall k :: !Names(View(), k, address);
      return INVALID;
    }

    method TranslateOrAddObject(address: nat) returns (id: nat)
      requires Injection(View())
      modifies this
      ensures (View(), id) == TranslateOrAdd(old(View()), address) && Injection(View())
    {
      AddKeepsInjection(View(), address);
      id := TranslateObject(address);
      if id != INVALID {
        return;
      }
      id := nextObjectId;
      nextObjectId := nextObjectId + 1;
      objects := objects[id := address];
    }

    /** `ProcessBinderObject` on the object under the cursor. */
    method ProcessBinderObject(request: array<Flat>, i: nat, direction: Direction) returns (status: StatusCode)
      requires i < request.Length && request[i].kind == Binder && Injection(View())
      modifies this, request
      ensures Injection(View()) && (View(), request[i], status) == ProcessOne(old(View()), direction, old(request[i]))
      ensures forall j :: 0 <= j < request.Length && j != i ==> request[j] == old(request[j])
    {
      var obj := request[i];
      if direction == In {
        if obj.cookie !in objects {
          return BadValue;
        }
        request[i] := obj.(cookie := objects[obj.cookie]);
      } else {
        var id := TranslateOrAddObject(obj.cookie);
        request[i] := obj.(cookie := id);
      }
      return OK;
    }

    /** The switch over the type of the object under the cursor. */
    method ProcessObject(request: array<Flat>, i: nat, direction: Direction) returns (status: StatusCode)
      requires i < request.Length && Injection(View())
      modifies this, request
      ensures Injection(View()) && (View(), request[i], status) == ProcessOne(old(View()), direction, old(request[i]))
      ensures forall j :: 0 <= j < request.Length && j != i ==> request[j] == old(request[j])
    {
      status := OK;
      match request[i].kind {
        case Binder => status := ProcessBinderObject(request, i, direction);
        case Other => status := InvalidOperation;
        case _ =>
      }
    }

    method ProcessTransaction(request: array<Flat>, direction: Direction) returns (status: StatusCode)
      requires Injection(View())
      modifies this, request
      ensures Injection(View())
      ensures (View(), request[..], status) == Pass(old(View()), direction, old(request[..]))
    {
      hide Pass, ProcessOne, Injection, Resumes;
      ghost var before := request[..];
      ghost var whole := Pass(View(), direction, before);
      var current := 0;
      Starts(whole, before);
      while current != request.Length
        invariant 0 <= current <= request.Length && Injection(View())
        invariant forall j :: current <= j < request.Length ==> request[j] == before[j]
        invariant Resumes(whole, request[..current], Pass(View(), direction, before[current..]))
        decreases request.Length - current
      {
        ghost var t, done, rest := View(), request[..current], before[current..];
        assert rest[0] == request[current] && rest[1..] == before[current + 1..];
        status := ProcessObject(request, current, direction);
        assert request[..current + 1] == done + [request[current]];
        if status != OK {
          assert request[..] == done + ([request[current]] + rest[1..]);
          ResumesLast(whole, done, t, direction, rest);
          return;
        }
        ResumesOne(whole, done, t, direction, rest);
        current := current + 1;
      }
      assert request[..request.Length] == request[..] && before[request.Length..] == [];
      Ends(whole, request[..], View(), direction);
      return OK;
    }
  }

  lemma {:induction false} Starts(whole: (Table, seq<Flat>, StatusCode), before: seq<Flat>)
    ensures Resumes(whole, before[..0], whole) && before[0..] == before
  {
    assert before[..0] + whole.1 == whole.1;
  }

  lemma {:induction false} Ends(whole: (Table, seq<Flat>, StatusCode), done: seq<Flat>, t: Table, direction: Direction)
    requires Resumes(whole, done, Pass(t, direction, []))
    ensures whole == (t, done, OK)
  {
    assert done + [] == done;
  }

  lemma {:induction false} ResumesLast(whole: (Table, seq<Flat>, StatusCode), done: seq<Flat>, t: Table, direction: Direction, objs: seq<Flat>)
    requires objs != [] && ProcessOne(t, direction, objs[0]).2 != OK && Resumes(whole, done, Pass(t, direction, objs))
    ensures var (u, obj, status) := ProcessOne(t, direction, objs[0]); whole == (u, done + ([obj] + objs[1..]), status)
  {
  }

  /** A whole pass, from the part that is done and the pass over what is left. */
  ghost predicate Resumes(whole: (Table, seq<Flat>, StatusCode), done: seq<Flat>, rest: (Table, seq<Flat>, StatusCode)) {
    whole == (rest.0, done + rest.1, rest.2)
  }

  lemma {:induction false} ResumesOne(whole: (Table, seq<Flat>, StatusCode), done: seq<Flat>, t: Table, direction: Direction, objs: seq<Flat>)
    requires objs != [] && ProcessOne(t, direction, objs[0]).2 == OK
    requires Resumes(whole, done, Pass(t, direction, objs))
    ensures var (u, obj, _) := ProcessOne(t, direction, objs[0]); Resumes(whole, done + [obj], Pass(u, direction, objs[1..]))
  {
    var (u, obj, _) := ProcessOne(t, direction, objs[0]);
    var rest := Pass(u, direction, objs[1..]).1;
    assert done + ([obj] + rest) == done + [obj] + rest;
  }
}
