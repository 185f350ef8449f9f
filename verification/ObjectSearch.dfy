/** Finding an object of a received parcel by a hinted search (Parcel.cpp), against plain membership in its table. */
module ObjectSearch {
  import opened Options

  const WORD: nat := 0x1_0000_0000_0000_0000 // binder_size_t has 64 bits
  const OBJECT_SIZE: nat := 24               // sizeof(flat_binder_object)

  // ----- the check of a table -----

  /** The sum of `ipcSetDataReference` wraps. */
  ghost predicate Accepted(table: seq<nat>) {
    forall i, j {:trigger table[i], table[j]} :: 0 <= i && j == i + 1 && j < |table| ==>
      (table[i] + OBJECT_SIZE) % WORD <= table[j]
  }

  /** Objects do not overlap. */
  ghost predicate Spaced(table: seq<nat>) {
    forall i, j {:trigger table[i], table[j]} :: 0 <= i < j < |table| ==> table[i] + OBJECT_SIZE <= table[j]
  }

  ghost predicate Words(table: seq<nat>) {
    forall i :: 0 <= i < |table| ==> table[i] < WORD
  }

  predicate Wraps(offset: nat) {
    offset + OBJECT_SIZE >= WORD
  }

  /** The check means what it is for exactly when only the last offset may wrap. */
  lemma {:induction false} AcceptedMeansSpaced(table: seq<nat>)
    requires Words(table)
    ensures Spaced(table) <==> Accepted(table) && forall i :: 0 <= i < |table| - 1 ==> !Wraps(table[i])
  {
    if Spaced(table) {
      forall i | 0 <= i < |table| - 1
        ensures !Wraps(table[i])
      {
        assert table[i] + OBJECT_SIZE <= table[i + 1];
      }
    }
    if Accepted(table) && forall i :: 0 <= i < |table| - 1 ==> !Wraps(table[i]) {
      forall i, j | 0 <= i < j < |table|
        ensures table[i] + OBJECT_SIZE <= table[j]
      {
        AscendsTo(table, i, j);
      }
    }
  }

  lemma {:induction false} AscendsTo(table: seq<nat>, i: nat, j: nat)
    requires i < j < |table| && Accepted(table)
    requires forall k :: i <= k < j ==> table[k] + OBJECT_SIZE < WORD
    ensures table[i] + OBJECT_SIZE <= table[j]
    decreases j
  {
    assert table[j - 1] + OBJECT_SIZE <= table[j];
    if i < j - 1 {
      AscendsTo(table, i, j - 1);
    }
  }

  // ----- the search -----

  function Forward(table: seq<nat>, at: nat, pos: nat): (r: nat)
    requires at < |table|
    ensures at <= r < |table|
    decreases |table| - at
  {
    if at < |table| - 1 && table[at] < pos then Forward(table, at + 1, pos) else at
  }

  function Backward(table: seq<nat>, at: nat, pos: nat): (r: nat)
    requires at < |table|
    ensures r <= at
  {
    if at > 0 && table[at] > pos then Backward(table, at - 1, pos) else at
  }

  /** The index at which the search from a hint finds the position. */
  function Search(table: seq<nat>, hint: nat, pos: nat): (r: Option<nat>)
    ensures r.Some? ==> r.value < |table| && table[r.value] == pos
  {
    if table == [] then None
    else
      var at := if hint < |table| then Forward(table, hint, pos) else |table| - 1;
      if table[at] == pos then Some(at)
      else
        var back := Backward(table, at, pos);
        if table[back] == pos then Some(back) else None
  }

  /** An offset with less before it and more behind it is found from everywhere. */
  lemma {:induction false} PivotIsFound(table: seq<nat>, hint: nat, pos: nat, j: nat)
    requires j < |table| && table[j] == pos
    requires forall i :: 0 <= i < j ==> table[i] < pos
    requires forall i :: j < i < |table| ==> table[i] > pos
    ensures Search(table, hint, pos) == Some(j)
  {
    var at := if hint < |table| then hint else |table| - 1;
    if at <= j {
      ForwardTo(table, at, pos, j);
    } else {
      assert Forward(table, at, pos) == at;
      BackwardTo(table, at, pos, j);
    }
  }

  lemma {:induction false} ForwardTo(table: seq<nat>, at: nat, pos: nat, j: nat)
    requires at <= j < |table| && table[j] == pos && forall i :: at <= i < j ==> table[i] < pos
    ensures Forward(table, at, pos) == j
    decreases j - at
  {
    if at < j {
      ForwardTo(table, at + 1, pos, j);
    }
  }

  lemma {:induction false} BackwardTo(table: seq<nat>, at: nat, pos: nat, j: nat)
    requires j <= at < |table| && table[j] == pos && forall i :: j < i <= at ==> table[i] > pos
    ensures Backward(table, at, pos) == j
    decreases at
  {
    if j < at {
      BackwardTo(table, at - 1, pos, j);
    }
  }

  predicate InBounds(offset: nat, size: nat) {
    offset + OBJECT_SIZE <= size
  }

  /** No offset within the data comes behind one that wraps. */
  ghost predicate Tame(table: seq<nat>, size: nat) {
    forall i, j {:trigger table[i], table[j]} :: 0 <= i < j < |table| && Wraps(table[i]) ==> !InBounds(table[j], size)
  }

  ghost predicate Distinct(table: seq<nat>) {
    forall i, j :: 0 <= i < j < |table| ==> table[i] != table[j]
  }

  /** From every hint, the search for a position within the data is membership. */
  ghost predicate SearchIsMembership(table: seq<nat>, size: nat) {
    forall hint: nat, pos: nat {:trigger Search(table, hint, pos)} :: InBounds(pos, size) ==>
      (Search(table, hint, pos).Some? <==> pos in table)
  }

  lemma {:induction false} TameIsMembership(table: seq<nat>, size: nat, hint: nat, pos: nat)
    requires size < WORD && Words(table) && Accepted(table) && Tame(table, size) && InBounds(pos, size)
    ensures Search(table, hint, pos).Some? <==> pos in table
  {
    if pos in table {
      var j :| 0 <= j < |table| && table[j] == pos;
      forall i | 0 <= i < j
        ensures table[i] < pos
      {
        AscendsTo(table, i, j);
      }
      forall i | j < i < |table|
        ensures table[i] > pos
      {
        BehindIsMore(table, size, j, i);
      }
      PivotIsFound(table, hint, pos, j);
    }
  }

  lemma {:induction false} BehindIsMore(table: seq<nat>, size: nat, j: nat, i: nat)
    requires size < WORD && Words(table) && Accepted(table) && Tame(table, size)
    requires j < i < |table| && InBounds(table[j], size)
    ensures table[i] > table[j]
    decreases i
  {
    if InBounds(table[i], size) {
      forall k | j <= k < i
        ensures table[k] + OBJECT_SIZE < WORD
      {
      }
      AscendsTo(table, j, i);
    }
  }

  /** Looking back from index i, the first offset that is not greater than the position is the position. */
  ghost predicate Seen(table: seq<nat>, i: nat, pos: nat)
    requires i < |table|
  {
    exists j :: 0 <= j <= i && table[j] == pos && forall k :: j < k <= i ==> table[k] > pos
  }

  /** Every offset within the data is seen from the last index and from each whose offset wraps. */
  ghost predicate AllSeen(table: seq<nat>, size: nat) {
    forall i, j {:trigger table[i], table[j]} ::
      0 <= i < |table| && 0 <= j < |table| && InBounds(table[j], size) && (Wraps(table[i]) || i == |table| - 1) ==>
        Seen(table, i, table[j])
  }

  lemma {:induction false} BackwardSees(table: seq<nat>, i: nat, pos: nat)
    requires i < |table|
    ensures table[Backward(table, i, pos)] == pos <==> Seen(table, i, pos)
    decreases i
  {
    if i > 0 && table[i] > pos {
      BackwardSees(table, i - 1, pos);
      if Seen(table, i - 1, pos) {
        var j :| 0 <= j <= i - 1 && table[j] == pos && forall k :: j < k <= i - 1 ==> table[k] > pos;
        assert forall k :: j < k <= i ==> table[k] > pos;
      }
    } else if table[i] == pos {
      SeenHere(table, i);
    }
  }

  lemma SeenHere(table: seq<nat>, i: nat)
    requires i < |table|
    ensures Seen(table, i, table[i])
  {
  }

  /** From an index that does not wrap and is not the last, nothing else is seen than from the next. */
  lemma {:induction false} SeenFromNext(table: seq<nat>, i: nat, pos: nat)
    requires Accepted(table) && i < |table| - 1 && !Wraps(table[i]) && table[i] > pos
    ensures table[i + 1] > pos && Backward(table, i + 1, pos) == Backward(table, i, pos)
  {
    assert table[i] + OBJECT_SIZE <= table[i + 1];
  }

  lemma {:induction false} FoundFrom(table: seq<nat>, size: nat, i: nat, pos: nat)
    requires Accepted(table) && AllSeen(table, size) && pos in table && InBounds(pos, size)
    requires i < |table| && (table[i] > pos || i == |table| - 1)
    ensures table[Backward(table, i, pos)] == pos
    decreases |table| - i
  {
    if i < |table| - 1 && !Wraps(table[i]) {
      SeenFromNext(table, i, pos);
      FoundFrom(table, size, i + 1, pos);
    } else {
      BackwardSees(table, i, pos);
    }
  }

  lemma {:induction false} ForwardStops(table: seq<nat>, at: nat, pos: nat)
    requires at < |table|
    ensures var r := Forward(table, at, pos); table[r] >= pos || r == |table| - 1
    decreases |table| - at
  {
    if at < |table| - 1 && table[at] < pos {
      ForwardStops(table, at + 1, pos);
    }
  }

  /** For every accepted table: the hinted search is membership if and only if every offset within the data is seen from the
      last index and from each that wraps. */
  lemma {:induction false} SearchIsMembershipExactly(table: seq<nat>, size: nat)
    requires size < WORD && Accepted(table)
    ensures SearchIsMembership(table, size) <==> AllSeen(table, size)
  {
    if AllSeen(table, size) {
      forall hint: nat, pos: nat | InBounds(pos, size)
        ensures Search(table, hint, pos).Some? <==> pos in table
      {
        if pos in table {
          var at := if hint < |table| then Forward(table, hint, pos) else |table| - 1;
          if hint < |table| {
            ForwardStops(table, hint, pos);
          }
          if table[at] != pos {
            FoundFrom(table, size, at, pos);
          }
        }
      }
    }
    if SearchIsMembership(table, size) {
      forall i, j {:trigger table[i], table[j]} |
          0 <= i < |table| && 0 <= j < |table| && InBounds(table[j], size) && (Wraps(table[i]) || i == |table| - 1)
        ensures Seen(table, i, table[j])
      {
        assert Search(table, i, table[j]).Some?;
        assert Forward(table, i, table[j]) == i;
        BackwardSees(table, i, table[j]);
      }
    }
  }

  /** Without repeated offsets this says that no offset within the data comes behind one that wraps. */
  lemma {:induction false} DistinctIsTame(table: seq<nat>, size: nat)
    requires size < WORD && Words(table) && Accepted(table) && Distinct(table)
    ensures AllSeen(table, size) <==> Tame(table, size)
  {
    SearchIsMembershipExactly(table, size);
    if Tame(table, size) {
      forall hint: nat, pos: nat | InBounds(pos, size)
        ensures Search(table, hint, pos).Some? <==> pos in table
      {
        TameIsMembership(table, size, hint, pos);
      }
    } else {
      var i, j :| 0 <= i < j < |table| && Wraps(table[i]) && InBounds(table[j], size);
      StopsBefore(table, 0, table[j], i);
      assert Search(table, 0, table[j]).None?;
    }
  }

  /** A repeated offset can be found in spite of one that wraps in between. */
  lemma {:induction false} RepeatedIsSeen()
    ensures var table := [0, WORD - OBJECT_SIZE, 0];
      Accepted(table) && !Tame(table, OBJECT_SIZE) && 0 in table && SearchIsMembership(table, OBJECT_SIZE)
  {
    var table := [0, WORD - OBJECT_SIZE, 0];
    assert (table[1] + OBJECT_SIZE) % WORD == 0;
    assert Wraps(table[1]) && InBounds(table[2], OBJECT_SIZE);
    assert table[0] == 0 && forall k :: 0 < k <= 1 ==> table[k] > 0;
    assert Seen(table, 1, 0);
    SeenHere(table, 2);
    SearchIsMembershipExactly(table, OBJECT_SIZE);
  }

  lemma {:induction false} StopsBefore(table: seq<nat>, at: nat, pos: nat, i: nat)
    requires at <= i < |table| && table[i] >= pos
    ensures Forward(table, at, pos) <= i
    decreases i - at
  {
    if at < i && table[at] < pos {
      StopsBefore(table, at + 1, pos, i);
    }
  }

  /** Spaced tables are the ordinary case. */
  lemma {:induction false} SpacedIsMembership(table: seq<nat>, size: nat)
    requires size < WORD && Words(table) && Spaced(table)
    ensures SearchIsMembership(table, size)
  {
    AcceptedMeansSpaced(table);
    forall i, j | 0 <= i < j < |table|
      ensures !Wraps(table[i]) && table[i] != table[j]
    {
      assert table[i] + OBJECT_SIZE <= table[j];
    }
    SearchIsMembershipExactly(table, size);
    DistinctIsTame(table, size);
  }

  /** An accepted table in which the object at 0 is not found. */
  lemma {:induction false} WrappedTable()
    ensures var table := [0xffff_ffff_ffff_ffe8, 0];
      Accepted(table) && !Accepted([0xffff_ffff_ffff_ffe9, 0]) && 0 in table && Search(table, 0, 0).None?
  {
    var table: seq<nat> := [0xffff_ffff_ffff_ffe8, 0];
    assert (table[0] + OBJECT_SIZE) % WORD == 0;
    assert table[1] == 0;
    var other: seq<nat> := [0xffff_ffff_ffff_ffe9, 0];
    assert (other[0] + OBJECT_SIZE) % WORD == 1 > other[1];
  }

  // ----- the parcel -----

  class ReceivedParcel {
    var objects: seq<nat>  // mObjects, in memory that the parcel does not own
    var objectsSize: nat
    var dataSize: nat
    var pos: nat
    var hint: nat          // mNextObjectHint

    ghost predicate Valid()
      reads this
    {
      objectsSize <= |objects| && Words(objects) && dataSize < WORD && Accepted(objects[..objectsSize])
    }

    /** `ipcSetDataReference`. */
    constructor (dataSize: nat, objects: seq<nat>)
      requires Words(objects) && dataSize < WORD
      ensures Valid() && this.objects == objects && this.dataSize == dataSize && pos == 0 && hint == 0
      ensures objectsSize == if Accepted(objects) then |objects| else 0
    {
      this.objects, this.dataSize, pos, hint, objectsSize := objects, dataSize, 0, 0, |objects|;
      new;
      var minOffset: nat := 0;
      for i := 0 to |objects|
        invariant this.objects == objects && this.dataSize == dataSize && pos == 0 && hint == 0 && objectsSize == |objects|
        invariant Accepted(objects[..i]) && minOffset == if i == 0 then 0 else (objects[i - 1] + OBJECT_SIZE) % WORD
      {
        var offset := objects[i];
        if offset < minOffset {
          objectsSize := 0;
          assert objects[i - 1] == objects[..][i - 1] && !Accepted(objects);
          return;
        }
        minOffset := (offset + OBJECT_SIZE) % WORD;
        AcceptedGrows(objects, i);
      }
      assert objects[..|objects|] == objects;
    }

    method SetDataPosition(at: nat)
      requires at <= 0x7fff_ffff
      modifies this
      ensures pos == at && hint == 0
      ensures objects == old(objects) && objectsSize == old(objectsSize) && dataSize == old(dataSize)
    {
      pos, hint := at, 0;
    }

    /** `readObject`; `empty` tells whether the object's binder and cookie are both zero. */
    method ReadObject(nullMetaData: bool, empty: bool) returns (found: bool)
      requires Valid() && pos + OBJECT_SIZE < WORD
      modifies this`pos, this`hint
      ensures !InBounds(old(pos), dataSize) ==> !found && pos == old(pos) && hint == old(hint)
      ensures InBounds(old(pos), dataSize) ==> pos == old(pos) + OBJECT_SIZE
      ensures InBounds(old(pos), dataSize) && !nullMetaData && empty ==> found && hint == old(hint)
      ensures InBounds(old(pos), dataSize) && !(!nullMetaData && empty) ==>
        var index := Search(objects[..objectsSize], old(hint), old(pos));
        found == index.Some? && hint == if found then index.value + 1 else old(hint)
    {
      var dpos := pos;
      if dpos + OBJECT_SIZE > dataSize {
        return false;
      }
      pos := dpos + OBJECT_SIZE;
      if !nullMetaData && empty {
        return true;
      }
      ghost var table := objects[..objectsSize];
      var n, opos := objectsSize, hint;
      if n > 0 {
        if opos < n {
          while opos < n - 1 && objects[opos] < dpos
            invariant opos < n && Forward(table, opos, dpos) == Forward(table, hint, dpos)
            decreases n - opos
          {
            opos := opos + 1;
          }
        } else {
          opos := n - 1;
        }
        if objects[opos] == dpos {
          hint := opos + 1;
          return true;
        }
        ghost var stop := opos;
        while opos > 0 && objects[opos] > dpos
          invariant 0 <= opos < n && Backward(table, opos, dpos) == Backward(table, stop, dpos)
          decreases opos
        {
          opos := opos - 1;
        }
        if objects[opos] == dpos {
          hint := opos + 1;
          return true;
        }
      }
      return false;
    }
  }

  lemma {:induction false} AcceptedGrows(table: seq<nat>, i: nat)
    requires i < |table| && Accepted(table[..i])
    requires i > 0 ==> (table[i - 1] + OBJECT_SIZE) % WORD <= table[i]
    ensures Accepted(table[..i + 1])
  {
    var longer := table[..i + 1];
    forall k, l | 0 <= k && l == k + 1 && l < |longer|
      ensures (longer[k] + OBJECT_SIZE) % WORD <= longer[l]
    {
      if l < i {
        assert table[..i][k] == table[k] && table[..i][l] == table[l];
      }
    }
  }
}
