/** Death notices of a proxy (BpBinder.cpp): what every interleaving of its critical sections keeps. */
module DeathLinks {
  import opened Options

  datatype Status = NoError | DeadObject | NameNotFound

  /** `recipient` is the weak pointer's identity. */
  datatype Obituary = Obituary(recipient: nat, cookie: nat, flags: nat)

  /** Where a thread is in `sendObituary`: past the unlocked test, or out of the lock with what it took along. */
  datatype Phase = Checked | Reporting(obits: seq<Obituary>)

  /** The proxy, the threads inside `sendObituary`, what was asked of the thread state, and what has happened. */
  datatype State = State(
    alive: bool, obitsSent: bool, obituaries: Option<seq<Obituary>>,
    threads: map<nat, Phase>,
    requests: nat, clears: nat,
    linked: seq<Obituary>, unlinked: seq<Obituary>, reported: seq<Obituary>)

  const NEW_PROXY := State(true, false, None, map[], 0, 0, [], [], [])

  // ----- the critical sections -----

  function LinkToDeath(st: State, o: Obituary): (State, Status) {
    if st.obitsSent then (st, DeadObject)
    else
      var none := st.obituaries.None?;
      var before := if none then [] else st.obituaries.value;
      (st.(obituaries := Some(before + [o]), requests := if none then st.requests + 1 else st.requests,
           linked := st.linked + [o]), NoError)
  }

  /** A null recipient matches by cookie. */
  predicate Matches(o: Obituary, recipient: Option<nat>, cookie: nat, flags: nat) {
    (if recipient.Some? then o.recipient == recipient.value else o.cookie == cookie) && o.flags == flags
  }

  function FirstMatch(obits: seq<Obituary>, from: nat, recipient: Option<nat>, cookie: nat, flags: nat): (i: nat)
    requires from <= |obits|
    ensures from <= i <= |obits| && (i < |obits| ==> Matches(obits[i], recipient, cookie, flags))
    ensures forall j :: from <= j < i ==> !Matches(obits[j], recipient, cookie, flags)
    decreases |obits| - from
  {
    if from == |obits| || Matches(obits[from], recipient, cookie, flags) then from
    else FirstMatch(obits, from + 1, recipient, cookie, flags)
  }

  function UnlinkToDeath(st: State, recipient: Option<nat>, cookie: nat, flags: nat): (State, Status) {
    if st.obitsSent then (st, DeadObject)
    else if st.obituaries.None? then (st, NameNotFound)
    else
      var obits := st.obituaries.value;
      var i := FirstMatch(obits, 0, recipient, cookie, flags);
      if i == |obits| then (st, NameNotFound)
      else
        var left := obits[..i] + obits[i + 1..];
        (st.(obituaries := if left == [] then None else Some(left), clears := if left == [] then st.clears + 1 else st.clears,
             unlinked := st.unlinked + [obits[i]]), NoError)
  }

  /** The test before the lock; a thread that passes it goes on to take the lock. */
  function CheckSent(st: State, thread: nat): State {
    var dead := st.(alive := false);
    if st.obitsSent then dead else dead.(threads := st.threads[thread := Checked])
  }

  function TakeObituaries(st: State, thread: nat): State {
    var some := st.obituaries.Some?;
    st.(obituaries := None, obitsSent := true, clears := if some then st.clears + 1 else st.clears,
        threads := st.threads[thread := Reporting(if some then st.obituaries.value else [])])
  }

  /** `reportOneDeath`, whether or not the recipient can still be promoted; with nothing left the thread is done. */
  function ReportNext(st: State, thread: nat): State
    requires thread in st.threads && st.threads[thread].Reporting?
  {
    var obits := st.threads[thread].obits;
    if obits == [] then st.(threads := st.threads - {thread})
    else st.(threads := st.threads[thread := Reporting(obits[1..])], reported := st.reported + [obits[0]])
  }

  /** `transact` learns that the object is dead. */
  function TransactDead(st: State): State {
    st.(alive := false)
  }

  /** What the destructor does to the notices. Nobody else holds the proxy then. */
  function Destroy(st: State): State {
    st.(obituaries := None, clears := if st.obituaries.Some? then st.clears + 1 else st.clears)
  }

  // ----- interleavings -----

  datatype Step =
    | Link(o: Obituary)
    | Unlink(recipient: Option<nat>, cookie: nat, flags: nat)
    | Send(thread: nat)      // a thread that is not inside enters sendObituary
    | Continue(thread: nat)  // a thread inside takes its next step
    | DeadReply

  function Take(st: State, step: Step): State {
    match step
    case Link(o) => LinkToDeath(st, o).0
    case Unlink(r, c, f) => UnlinkToDeath(st, r, c, f).0
    case Send(thread) => if thread in st.threads then st else CheckSent(st, thread)
    case Continue(thread) =>
      if thread !in st.threads then st
      else if st.threads[thread].Checked? then TakeObituaries(st, thread)
      else ReportNext(st, thread)
    case DeadReply => TransactDead(st)
  }

  function Run(st: State, steps: seq<Step>): State
    decreases |steps|
  {
    if steps == [] then st else Run(Take(st, steps[0]), steps[1..])
  }

  // ----- what holds -----

  /** The obituaries that threads have taken and not reported yet. */
  ghost function Held(threads: map<nat, Phase>): multiset<Obituary> {
    if threads == map[] then multiset{}
    else
      var thread :| thread in threads;
      HeldBy(threads[thread]) + Held(threads - {thread})
  }

  ghost function HeldBy(phase: Phase): multiset<Obituary> {
    if phase.Checked? then multiset{} else multiset(phase.obits)
  }

  lemma {:induction false} HeldUnfolds(threads: map<nat, Phase>) returns (first: nat)
    requires threads != map[]
    ensures first in threads && Held(threads) == HeldBy(threads[first]) + Held(threads - {first})
  {
    first :| first in threads && Held(threads) == HeldBy(threads[first]) + Held(threads - {first});
  }

  lemma {:induction false} HeldWithout(threads: map<nat, Phase>, thread: nat)
    requires thread in threads
    ensures Held(threads) == HeldBy(threads[thread]) + Held(threads - {thread})
    decreases |threads|
  {
    hide Held, HeldBy;
    var first := HeldUnfolds(threads);
    if first != thread {
      HeldWithout(threads - {first}, thread);
      HeldWithout(threads - {thread}, first);
      assert threads - {first} - {thread} == threads - {thread} - {first};
      Swap(HeldBy(threads[first]), HeldBy(threads[thread]), Held(threads - {first} - {thread}));
    }
  }

  lemma {:induction false} Swap(a: multiset<Obituary>, b: multiset<Obituary>, c: multiset<Obituary>)
    ensures a + (b + c) == b + (a + c)
  {
  }

  lemma {:induction false} HeldAdd(threads: map<nat, Phase>, thread: nat, phase: Phase)
    requires thread !in threads
    ensures Held(threads[thread := phase]) == HeldBy(phase) + Held(threads)
  {
    hide Held, HeldBy;
    HeldWithout(threads[thread := phase], thread);
    assert threads[thread := phase] - {thread} == threads;
  }

  lemma {:induction false} HeldReplace(threads: map<nat, Phase>, thread: nat, phase: Phase)
    requires thread in threads
    ensures Held(threads[thread := phase]) == HeldBy(phase) + Held(threads - {thread})
    ensures Held(threads) == HeldBy(threads[thread]) + Held(threads - {thread})
  {
    hide Held, HeldBy;
    HeldWithout(threads[thread := phase], thread);
    HeldWithout(threads, thread);
    assert threads[thread := phase] - {thread} == threads - {thread};
  }

  function Current(st: State): seq<Obituary> {
    if st.obituaries.Some? then st.obituaries.value else []
  }

  /** Every successful link is accounted for once: unlinked, waiting, taken along by a thread, or reported. */
  ghost predicate Accounted(st: State) {
    multiset(st.linked) == multiset(st.unlinked) + multiset(Current(st)) + Held(st.threads) + multiset(st.reported)
  }

  /** Notices are asked for exactly while the list exists, and it does not after they were sent. */
  ghost predicate InOrder(st: State) {
    && st.requests == st.clears + (if st.obituaries.Some? then 1 else 0)
    && (st.obituaries.Some? ==> st.obituaries.value != [])
    && (st.obitsSent ==> st.obituaries.None? && !st.alive)
    && (!st.obitsSent ==> st.reported == [] && forall t :: t in st.threads ==> st.threads[t].Checked?)
    && (st.threads != map[] ==> !st.alive)
  }

  ghost predicate Inv(st: State) {
    Accounted(st) && InOrder(st)
  }

  lemma {:induction false} NewProxyHolds()
    ensures Inv(NEW_PROXY)
  {
  }

  lemma {:induction false} LinkKeepsInv(st: State, o: Obituary)
    requires Inv(st)
    ensures Inv(LinkToDeath(st, o).0)
  {
    hide Held;
  }

  lemma {:induction false} UnlinkKeepsInv(st: State, recipient: Option<nat>, cookie: nat, flags: nat)
    requires Inv(st)
    ensures Inv(UnlinkToDeath(st, recipient, cookie, flags).0)
  {
    hide Held, Matches, Accounted;
    var (later, status) := UnlinkToDeath(st, recipient, cookie, flags);
    if status == NoError {
      var i := FirstMatch(st.obituaries.value, 0, recipient, cookie, flags);
      MovedToUnlinked(st, later, i);
    }
  }

  lemma {:induction false} MovedToUnlinked(st: State, later: State, i: nat)
    requires Accounted(st) && i < |Current(st)|
    requires Current(later) == Current(st)[..i] + Current(st)[i + 1..] && later.unlinked == st.unlinked + [Current(st)[i]]
    requires later.linked == st.linked && later.threads == st.threads && later.reported == st.reported
    ensures Accounted(later)
  {
    hide Held, Current;
    var obits := Current(st);
    assert obits == obits[..i] + [obits[i]] + obits[i + 1..];
    assert multiset(obits) == multiset(Current(later)) + multiset{obits[i]};
    Move(multiset(st.unlinked), multiset(Current(later)), multiset{obits[i]}, Held(st.threads) + multiset(st.reported));
  }

  lemma {:induction false} Move(u: multiset<Obituary>, c: multiset<Obituary>, x: multiset<Obituary>, rest: multiset<Obituary>)
    ensures u + (c + x) + rest == (u + x) + c + rest
  {
  }

  lemma {:induction false} CheckKeepsInv(st: State, thread: nat)
    requires Inv(st) && thread !in st.threads
    ensures Inv(CheckSent(st, thread))
  {
    hide Held;
    HeldAdd(st.threads, thread, Checked);
  }

  lemma {:induction false} TakeKeepsInv(st: State, thread: nat)
    requires Inv(st) && thread in st.threads && st.threads[thread].Checked?
    ensures Inv(TakeObituaries(st, thread))
  {
    hide Held;
    HeldReplace(st.threads, thread, Reporting(Current(st)));
    Move(multiset(st.unlinked), Held(st.threads), multiset(Current(st)), multiset(st.reported));
  }

  lemma {:induction false} ReportKeepsInv(st: State, thread: nat)
    requires Inv(st) && thread in st.threads && st.threads[thread].Reporting?
    ensures Inv(ReportNext(st, thread))
  {
    hide Held, Accounted;
    ReportIsAccounted(st, thread);
  }

  lemma {:induction false} ReportIsAccounted(st: State, thread: nat)
    requires Accounted(st) && thread in st.threads && st.threads[thread].Reporting?
    ensures Accounted(ReportNext(st, thread))
  {
    hide Held;
    var obits := st.threads[thread].obits;
    if obits == [] {
      HeldWithout(st.threads, thread);
      assert Held(st.threads) == Held(st.threads - {thread});
    } else {
      HeldReplace(st.threads, thread, Reporting(obits[1..]));
      assert obits == [obits[0]] + obits[1..];
      assert multiset(obits) == multiset{obits[0]} + multiset(obits[1..]);
      Report(multiset(st.unlinked) + multiset(Current(st)), multiset{obits[0]}, multiset(obits[1..]),
             Held(st.threads - {thread}), multiset(st.reported));
    }
  }

  lemma {:induction false} Report(u: multiset<Obituary>, x: multiset<Obituary>, o: multiset<Obituary>, h: multiset<Obituary>, r: multiset<Obituary>)
    ensures u + ((x + o) + h) + r == u + (o + h) + (r + x)
  {
  }

  /** Any interleaving keeps the account. */
  lemma {:induction false} RunKeepsInv(st: State, steps: seq<Step>)
    requires Inv(st)
    ensures Inv(Run(st, steps))
    decreases |steps|
  {
    hide Inv, LinkToDeath, UnlinkToDeath, CheckSent, TakeObituaries, ReportNext;
    if steps != [] {
      match steps[0] {
        case Link(o) => LinkKeepsInv(st, o);
        case Unlink(r, c, f) => UnlinkKeepsInv(st, r, c, f);
        case Send(thread) =>
          if thread !in st.threads {
            CheckKeepsInv(st, thread);
          }
        case Continue(thread) =>
          if thread in st.threads && st.threads[thread].Checked? {
            TakeKeepsInv(st, thread);
          } else if thread in st.threads {
            ReportKeepsInv(st, thread);
          }
        case DeadReply => DeadReplyKeepsInv(st);
      }
      RunKeepsInv(Take(st, steps[0]), steps[1..]);
    }
  }

  lemma {:induction false} DeadReplyKeepsInv(st: State)
    requires Inv(st)
    ensures Inv(TransactDead(st))
  {
    hide Held;
  }

  /** When the death has been announced and no thread is inside any more, exactly the links that were not undone have been
      reported, each once, however many threads raced. */
  lemma {:induction false} ReportedExactlyOnce(steps: seq<Step>)
    ensures var st := Run(NEW_PROXY, steps);
      st.obitsSent && st.threads == map[] ==> multiset(st.linked) == multiset(st.unlinked) + multiset(st.reported)
  {
    hide Run;
    NewProxyHolds();
    RunKeepsInv(NEW_PROXY, steps);
  }

  /** At any moment nothing is reported more often than it was linked and not unlinked. */
  lemma {:induction false} NeverReportedTwice(steps: seq<Step>)
    ensures var st := Run(NEW_PROXY, steps); multiset(st.unlinked) + multiset(st.reported) <= multiset(st.linked)
  {
    hide Run, Held;
    NewProxyHolds();
    RunKeepsInv(NEW_PROXY, steps);
  }

  /** Outside the lock the notices asked for exceed those cleared by one while there is a list, and match otherwise. */
  lemma {:induction false} NoticesBalance(steps: seq<Step>)
    ensures var st := Run(NEW_PROXY, steps);
      st.requests == st.clears + (if st.obituaries.Some? then 1 else 0) && Destroy(st).requests == Destroy(st).clears
  {
    hide Run, Held;
    NewProxyHolds();
    RunKeepsInv(NEW_PROXY, steps);
  }

  /** After the death no link and no unlink succeeds, whatever follows. */
  lemma {:induction false} NothingLinksAfterwards(st: State, steps: seq<Step>, o: Obituary)
    requires st.obitsSent
    ensures var later := Run(st, steps);
      later.obitsSent && later.linked == st.linked && later.unlinked == st.unlinked && LinkToDeath(later, o) == (later, DeadObject)
    decreases |steps|
  {
    if steps != [] {
      NothingLinksAfterwards(Take(st, steps[0]), steps[1..], o);
    }
  }

  // ----- what the proxy says -----

  /** A proxy says that its object is alive until somebody reports or learns of the death. */
  lemma {:induction false} AliveExactly(steps: seq<Step>)
    ensures Run(NEW_PROXY, steps).alive <==> forall i :: 0 <= i < |steps| ==> !steps[i].Send? && !steps[i].DeadReply?
  {
    AliveFrom(NEW_PROXY, steps);
  }

  lemma {:induction false} AliveFrom(st: State, steps: seq<Step>)
    requires st.threads != map[] ==> !st.alive
    ensures Run(st, steps).alive <==> st.alive && forall i :: 0 <= i < |steps| ==> !steps[i].Send? && !steps[i].DeadReply?
    decreases |steps|
  {
    if steps != [] {
      AliveStep(st, steps[0]);
      AliveFrom(Take(st, steps[0]), steps[1..]);
      assert steps == [steps[0]] + steps[1..];
    }
  }

  lemma {:induction false} AliveStep(st: State, step: Step)
    requires st.threads != map[] ==> !st.alive
    ensures var later := Take(st, step);
      && (later.alive <==> st.alive && !step.Send? && !step.DeadReply?)
      && (later.threads != map[] ==> !later.alive)
  {
  }

  // ----- which link goes -----

  /** What an unlink names: a recipient or, without one, a cookie; and the flags. */
  predicate Named(o: Obituary, recipient: Option<nat>, cookie: nat, flags: nat) {
    match recipient
    case Some(r) => o.recipient == r && o.flags == flags
    case None => o.cookie == cookie && o.flags == flags
  }

  /** Before the death, an unlink takes out the first link that has what it names, and nothing else; it answers NameNotFound
      exactly when there is none. */
  lemma {:induction false} UnlinkTakesFirst(st: State, recipient: Option<nat>, cookie: nat, flags: nat) returns (i: nat)
    requires InOrder(st) && !st.obitsSent
    ensures var (later, status) := UnlinkToDeath(st, recipient, cookie, flags);
      var obits := Current(st);
      && (status == NameNotFound <==> forall j :: 0 <= j < |obits| ==> !Named(obits[j], recipient, cookie, flags))
      && (status == NameNotFound ==> later == st)
      && (status != NameNotFound ==>
            && status == NoError
            && i < |obits| && Named(obits[i], recipient, cookie, flags)
            && (forall j :: 0 <= j < i ==> !Named(obits[j], recipient, cookie, flags))
            && Current(later) == obits[..i] + obits[i + 1..]
            && later.unlinked == st.unlinked + [obits[i]]
            && later.linked == st.linked && later.threads == st.threads && later.reported == st.reported
            && later.obitsSent == st.obitsSent && later.alive == st.alive)
  {
    var obits := Current(st);
    i := FirstMatch(obits, 0, recipient, cookie, flags);
    assert forall j :: 0 <= j < |obits| ==> (Matches(obits[j], recipient, cookie, flags) <==> Named(obits[j], recipient, cookie, flags));
  }

  /** Before the death a link succeeds and waits behind the others; after it, it is refused. */
  lemma {:induction false} LinkWaits(st: State, o: Obituary)
    ensures var (later, status) := LinkToDeath(st, o);
      && (!st.obitsSent ==>
            && status == NoError
            && Current(later) == Current(st) + [o] && later.linked == st.linked + [o]
            && later.unlinked == st.unlinked && later.threads == st.threads && later.reported == st.reported
            && !later.obitsSent && later.alive == st.alive)
      && (st.obitsSent ==> status == DeadObject && later == st)
  {
  }

  // ----- threads come to an end -----

  /** How many of the steps are this thread's own. */
  function Turns(steps: seq<Step>, thread: nat): nat {
    if steps == [] then 0 else (if steps[0] == Continue(thread) then 1 else 0) + Turns(steps[1..], thread)
  }

  /** What a thread inside takes along: what it has, or what is waiting when it first gets its turn. */
  function Taken(st: State, steps: seq<Step>, thread: nat): seq<Obituary>
    decreases |steps|
  {
    if thread !in st.threads then []
    else if st.threads[thread].Reporting? then st.threads[thread].obits
    else if steps == [] then []
    else if steps[0] == Continue(thread) then Current(st)
    else Taken(Take(st, steps[0]), steps[1..], thread)
  }

  /** After the lock has been taken by whomever, a thread that is outside stays outside, and what has been reported stays
      reported. */
  lemma {:induction false} StaysOut(st: State, steps: seq<Step>, thread: nat)
    requires st.obitsSent && thread !in st.threads
    ensures var later := Run(st, steps);
      later.obitsSent && thread !in later.threads && multiset(st.reported) <= multiset(later.reported)
    decreases |steps|
  {
    hide LinkToDeath, UnlinkToDeath;
    if steps != [] {
      OneStep(st, steps[0], thread);
      StaysOut(Take(st, steps[0]), steps[1..], thread);
    }
  }

  /** What one step does for a thread whose turn it is not. */
  lemma {:induction false} OneStep(st: State, step: Step, thread: nat)
    ensures var next := Take(st, step);
      && (st.obitsSent ==> next.obitsSent)
      && multiset(st.reported) <= multiset(next.reported)
      && (step != Continue(thread) && thread in st.threads ==>
            thread in next.threads && next.threads[thread] == st.threads[thread])
      && (st.obitsSent && thread !in st.threads ==> thread !in next.threads)
  {
    hide Matches;
    match step
    case Link(_) =>
    case Unlink(r, c, f) =>
      var next := UnlinkToDeath(st, r, c, f).0;
      assert next.threads == st.threads && next.reported == st.reported && next.obitsSent == st.obitsSent;
    case Send(_) =>
    case Continue(t) =>
      if t in st.threads && st.threads[t].Reporting? && st.threads[t].obits != [] {
        assert multiset(st.reported + [st.threads[t].obits[0]]) == multiset(st.reported) + multiset{st.threads[t].obits[0]};
      }
    case DeadReply =>
  }

  ghost predicate Progress(taken: seq<Obituary>, turns: int, st: State, thread: nat, later: State) {
    if turns < 0 then
      thread in later.threads && later.threads[thread] == Checked && multiset(st.reported) <= multiset(later.reported)
    else if turns <= |taken| then
      && thread in later.threads && later.threads[thread] == Reporting(taken[turns..])
      && multiset(st.reported) + multiset(taken[..turns]) <= multiset(later.reported)
    else
      thread !in later.threads && multiset(st.reported) + multiset(taken) <= multiset(later.reported)
  }

  /** Whatever the others do in between: a thread that has entered takes the lock on its first turn, reports one of what it
      took on each of the next, and is out after one more, when all of it has been reported. */
  lemma {:induction false} ThreadFinishes(st: State, steps: seq<Step>, thread: nat)
    requires Inv(st) && thread in st.threads
    ensures var turns := Turns(steps, thread) - if st.threads[thread].Checked? then 1 else 0;
      Progress(Taken(st, steps, thread), turns, st, thread, Run(st, steps))
    decreases |steps|
  {
    hide Inv, Progress, LinkToDeath, UnlinkToDeath, CheckSent, TakeObituaries, ReportNext;
    if steps == [] {
      NoProgress(st, thread, Taken(st, [], thread));
    } else {
      var next := Take(st, steps[0]);
      assert Run(st, [steps[0]]) == next by { assert [steps[0]][1..] == []; }
      RunKeepsInv(st, [steps[0]]);
      OneStep(st, steps[0], thread);
      var taken := Taken(st, steps, thread);
      if steps[0] != Continue(thread) {
        ThreadFinishes(next, steps[1..], thread);
        LaterProgress(st, next, thread, taken, Turns(steps, thread) - (if st.threads[thread].Checked? then 1 else 0), Run(st, steps));
      } else if st.threads[thread].Checked? {
        OwnTurn(st, thread);
        ThreadFinishes(next, steps[1..], thread);
        LaterProgress(st, next, thread, taken, Turns(steps[1..], thread), Run(st, steps));
      } else if st.threads[thread].obits != [] {
        OwnTurn(st, thread);
        ThreadFinishes(next, steps[1..], thread);
        MoreProgress(st, next, thread, taken, Turns(steps[1..], thread), Run(st, steps));
      } else {
        OwnTurn(st, thread);
        StaysOut(next, steps[1..], thread);
        Left(st, thread, taken, Turns(steps, thread), Run(st, steps));
      }
    }
  }

  lemma {:induction false} OwnTurn(st: State, thread: nat)
    requires Inv(st) && thread in st.threads
    ensures var phase, next := st.threads[thread], Take(st, Continue(thread));
      && next.obitsSent
      && (phase.Checked? ==> thread in next.threads && next.threads[thread] == Reporting(Current(st)) && next.reported == st.reported)
      && (phase.Reporting? && phase.obits != [] ==>
            thread in next.threads && next.threads[thread] == Reporting(phase.obits[1..]) && next.reported == st.reported + [phase.obits[0]])
      && (phase.Reporting? && phase.obits == [] ==> thread !in next.threads && next.reported == st.reported)
  {
    hide Accounted;
  }

  lemma {:induction false} NoProgress(st: State, thread: nat, taken: seq<Obituary>)
    requires thread in st.threads && (st.threads[thread].Reporting? ==> taken == st.threads[thread].obits)
    ensures Progress(taken, if st.threads[thread].Checked? then -1 else 0, st, thread, st)
  {
    assert multiset(taken[..0]) == multiset{};
  }

  lemma {:induction false} LaterProgress(st: State, next: State, thread: nat, taken: seq<Obituary>, turns: int, later: State)
    requires multiset(st.reported) <= multiset(next.reported) && Progress(taken, turns, next, thread, later)
    ensures Progress(taken, turns, st, thread, later)
  {
  }

  lemma {:induction false} MoreProgress(st: State, next: State, thread: nat, taken: seq<Obituary>, turns: nat, later: State)
    requires taken != [] && next.reported == st.reported + [taken[0]] && Progress(taken[1..], turns, next, thread, later)
    ensures Progress(taken, turns + 1, st, thread, later)
  {
    assert taken == [taken[0]] + taken[1..];
    if turns < |taken| {
      assert taken[..turns + 1] == [taken[0]] + taken[1..][..turns];
    }
  }

  lemma {:induction false} Left(st: State, thread: nat, taken: seq<Obituary>, turns: nat, later: State)
    requires taken == [] && turns > 0 && thread !in later.threads && multiset(st.reported) <= multiset(later.reported)
    ensures Progress(taken, turns, st, thread, later)
  {
  }

  /** Every thread inside gets as many turns as it needs. */
  ghost predicate Fair(st: State, more: seq<Step>) {
    forall t :: t in st.threads ==> Turns(more, t) > if st.threads[t].Checked? then 1 else |st.threads[t].obits|
  }

  /** Once the death has been announced, any continuation that gives every thread inside enough turns empties the proxy of
      threads, and then exactly the links that were not undone have been reported, each once. */
  lemma {:induction false} AllAreReported(steps: seq<Step>, more: seq<Step>)
    requires Run(NEW_PROXY, steps).obitsSent && Fair(Run(NEW_PROXY, steps), more)
    ensures var later := Run(Run(NEW_PROXY, steps), more);
      later.threads == map[] && multiset(later.linked) == multiset(later.unlinked) + multiset(later.reported)
  {
    hide Run, Held, Progress, Accounted;
    NewProxyHolds();
    RunKeepsInv(NEW_PROXY, steps);
    var st := Run(NEW_PROXY, steps);
    var later := Run(st, more);
    RunKeepsInv(st, more);
    forall t: nat
      ensures t !in later.threads
    {
      if t in st.threads {
        ThreadFinishes(st, more, t);
        NothingTaken(st, more, t);
        IsOut(Taken(st, more, t), Turns(more, t) - (if st.threads[t].Checked? then 1 else 0), st, t, later);
      } else {
        StaysOut(st, more, t);
      }
    }
    NothingLinksAfterwards(st, more, Obituary(0, 0, 0));
    NothingHeld(later);
  }

  lemma {:induction false} NothingTaken(st: State, steps: seq<Step>, thread: nat)
    requires Inv(st) && st.obitsSent && thread in st.threads
    ensures Taken(st, steps, thread) == if st.threads[thread].Checked? then [] else st.threads[thread].obits
    decreases |steps|
  {
    hide Accounted, LinkToDeath, UnlinkToDeath, CheckSent, TakeObituaries, ReportNext;
    if steps != [] && st.threads[thread].Checked? && steps[0] != Continue(thread) {
      OneStep(st, steps[0], thread);
      assert Run(st, [steps[0]]) == Take(st, steps[0]) by { assert [steps[0]][1..] == []; }
      RunKeepsInv(st, [steps[0]]);
      NothingTaken(Take(st, steps[0]), steps[1..], thread);
    }
  }

  lemma {:induction false} IsOut(taken: seq<Obituary>, turns: int, st: State, thread: nat, later: State)
    requires Progress(taken, turns, st, thread, later) && turns > |taken|
    ensures thread !in later.threads
  {
  }

  lemma {:induction false} NothingHeld(later: State)
    requires Inv(later) && later.obitsSent && forall t :: t !in later.threads
    ensures later.threads == map[] && multiset(later.linked) == multiset(later.unlinked) + multiset(later.reported)
  {
    assert later.threads == map[];
  }
}
