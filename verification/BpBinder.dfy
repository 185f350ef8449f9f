/** The proxy as the object it is: fields that its critical sections change (BpBinder.cpp). */
module Proxies {
  import opened Options
  import opened DeathLinks

  class BpBinder {
    var alive: bool
    var obitsSent: bool
    var obituaries: Option<seq<Obituary>>
    // what the thread state was asked for, and the calls of reportOneDeath
    var requests: nat
    var clears: nat
    var reported: seq<Obituary>
    ghost var threads: map<nat, Phase>
    ghost var linked: seq<Obituary>
    ghost var unlinked: seq<Obituary>

    ghost function View(): State
      reads this
    {
      State(alive, obitsSent, obituaries, threads, requests, clears, linked, unlinked, reported)
    }

    constructor ()
      ensures View() == NEW_PROXY
    {
      alive, obitsSent, obituaries, requests, clears, reported := true, false, None, 0, 0, [];
      threads, linked, unlinked := map[], [], [];
    }

    method LinkToDeath(o: Obituary) returns (status: Status)
      modifies this
      ensures (View(), status) == DeathLinks.LinkToDeath(old(View()), o)
    {
      if !obitsSent {
        if obituaries.None? {
          obituaries := Some([]);
          requests := requests + 1;
        }
        obituaries := Some(obituaries.value + [o]);
        linked := linked + [o];
        return NoError;
      }
      return DeadObject;
    }

    method UnlinkToDeath(recipient: Option<nat>, cookie: nat, flags: nat) returns (status: Status)
      modifies this
      ensures (View(), status) == DeathLinks.UnlinkToDeath(old(View()), recipient, cookie, flags)
    {
      if obitsSent {
        return DeadObject;
      }
      var n := if obituaries.Some? then |obituaries.value| else 0;
      for i := 0 to n
        invariant View() == old(View())
        invariant n > 0 ==> FirstMatch(obituaries.value, 0, recipient, cookie, flags) == FirstMatch(obituaries.value, i, recipient, cookie, flags)
      {
        if Matches(obituaries.value[i], recipient, cookie, flags) {
          unlinked := unlinked + [obituaries.value[i]];
          obituaries := Some(obituaries.value[..i] + obituaries.value[i + 1..]);
          if obituaries.value == [] {
            clears := clears + 1;
            obituaries := None;
          }
          return NoError;
        }
      }
      return NameNotFound;
    }

    /** The start of `sendObituary`, without the lock. */
    method CheckSent(ghost thread: nat) returns (sent: bool)
      modifies this
      ensures View() == DeathLinks.CheckSent(old(View()), thread) && sent == old(obitsSent)
    {
      alive := false;
      if !obitsSent {
        threads := threads[thread := Checked];
      }
      return obitsSent;
    }

    /** Its critical section. */
    method TakeObituaries(ghost thread: nat) returns (obits: seq<Obituary>)
      modifies this
      ensures View() == DeathLinks.TakeObituaries(old(View()), thread) && obits == old(Current(View()))
    {
      obits := if obituaries.Some? then obituaries.value else [];
      if obituaries.Some? {
        clears := clears + 1;
        obituaries := None;
      }
      obitsSent := true;
      threads := threads[thread := Reporting(obits)];
    }

    /** All of it, when nobody interferes. */
    method SendObituary(ghost thread: nat)
      requires thread !in threads
      modifies this
      ensures obitsSent && !alive && threads == old(threads)
      ensures reported == old(reported) + if old(obitsSent) then [] else old(Current(View()))
      ensures obituaries == if old(obitsSent) then old(obituaries) else None
      ensures linked == old(linked) && unlinked == old(unlinked) && requests == old(requests)
      ensures clears == old(clears) + if !old(obitsSent) && old(obituaries).Some? then 1 else 0
    {
      var sent := CheckSent(thread);
      if sent {
        return;
      }
      var obits := TakeObituaries(thread);
      var n := |obits|;
      for i := 0 to n
        invariant reported == old(reported) + obits[..i] && threads == old(threads)[thread := Reporting(obits[i..])]
        invariant obitsSent && !alive && obituaries == None && linked == old(linked) && unlinked == old(unlinked)
        invariant requests == old(requests) && clears == old(clears) + if old(obituaries).Some? then 1 else 0
      {
        reported := reported + [obits[i]];
        threads := threads[thread := Reporting(obits[i + 1..])];
      }
      assert obits[..n] == obits;
      threads := threads - {thread};
      assert threads == old(threads);
    }
  }
}
