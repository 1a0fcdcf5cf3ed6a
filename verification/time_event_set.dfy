/**
  The timer set of the event loop: pending (handler, fire time) entries kept in
  ascending fire-time order. The concrete container (TimeEventSet.h) is not part
  of this model; it is represented by a sorted sequence, generic in the handler
  type. Fire times are absolute, in microseconds.
*/
module TimeEventSet {
  import opened Wrappers

  /** One pending timer: the handler to wake and when. */
  datatype Entry<H> = Entry(handler: H, fireAt: int)

  /** The set's ordering invariant: fire times never decrease along the sequence. */
  ghost predicate Sorted<H>(ts: seq<Entry<H>>)
  {
    forall i, j :: 0 <= i < j < |ts| ==> ts[i].fireAt <= ts[j].fireAt
  }

  /**
    Insertion keeping the order. Entries with an equal fire time stay ahead of the
    new one; this tie rule is one admissible choice, and no property below depends on it.
  */
  function Insert<H>(ts: seq<Entry<H>>, e: Entry<H>): (r: seq<Entry<H>>)
    requires Sorted(ts)
    ensures Sorted(r)
    ensures multiset(r) == multiset(ts) + multiset{e}
  {
    if |ts| == 0 || e.fireAt < ts[0].fireAt then [e] + ts
    else
      var rest := Insert(ts[1..], e);
      InsertBehindHead(ts, e, rest);
      [ts[0]] + rest
  }

  /** Putting the head back in front of the tail's insertion keeps the order and the contents. */
  lemma InsertBehindHead<H>(ts: seq<Entry<H>>, e: Entry<H>, rest: seq<Entry<H>>)
    requires Sorted(ts) && |ts| > 0 && ts[0].fireAt <= e.fireAt
    requires Sorted(rest) && multiset(rest) == multiset(ts[1..]) + multiset{e}
    ensures Sorted([ts[0]] + rest)
    ensures multiset([ts[0]] + rest) == multiset(ts) + multiset{e}
  {
    assert ts == [ts[0]] + ts[1..];
    forall i | 0 <= i < |rest|
      ensures ts[0].fireAt <= rest[i].fireAt
    {
      assert rest[i] in multiset(rest);
      if rest[i] != e {
        assert rest[i] in multiset(ts[1..]);
        assert rest[i] in ts[1..];
      }
    }
  }

  /** Whether some pending entry belongs to `h`. */
  function Exists<H(==)>(ts: seq<Entry<H>>, h: H): (b: bool)
    ensures b <==> exists i :: 0 <= i < |ts| && ts[i].handler == h
  {
    if |ts| == 0 then false
    else if ts[0].handler == h then true
    else
      var b := Exists(ts[1..], h);
      assert forall i :: 1 <= i < |ts| ==> ts[i] == ts[1..][i - 1];
      b
  }

  /**
    Length of the maximal prefix whose entries are due at `now`. The scan stops at
    the first entry that is not due, whether or not the sequence is sorted.
  */
  function DueCount<H>(ts: seq<Entry<H>>, now: int): (k: nat)
    ensures k <= |ts|
    ensures forall i :: 0 <= i < k ==> ts[i].fireAt <= now
    ensures k < |ts| ==> now < ts[k].fireAt
  {
    if |ts| == 0 || now < ts[0].fireAt then 0
    else
      var k := DueCount(ts[1..], now);
      assert forall i :: 1 <= i < |ts| ==> ts[i] == ts[1..][i - 1];
      1 + k
  }

  /**
    Time left until the earliest remaining entry, measured from `now`, floored at
    zero; none when nothing is pending.
  */
  function NextTimeout<H>(ts: seq<Entry<H>>, now: int): (t: Option<int>)
    ensures t.None? <==> |ts| == 0
    ensures t.Some? ==> 0 <= t.value
    ensures t.Some? && 0 < t.value ==> now + t.value == ts[0].fireAt
    ensures t.Some? && t.value == 0 ==> ts[0].fireAt <= now
  {
    if |ts| == 0 then None
    else if ts[0].fireAt - now > 0 then Some(ts[0].fireAt - now)
    else Some(0)
  }

  /** The two readings of TimeEventSet::remove that the model keeps open. */
  datatype RemoveMode = RemoveFirst | RemoveAll

  /** Drops every entry of `h`. */
  function RemoveAllOf<H(==,!new)>(ts: seq<Entry<H>>, h: H): (r: seq<Entry<H>>)
    ensures forall e :: multiset(r)[e] == if e.handler == h then 0 else multiset(ts)[e]
    ensures forall i :: 0 <= i < |r| ==> r[i] in ts && r[i].handler != h
    ensures forall i :: 0 <= i < |ts| && ts[i].handler != h ==> ts[i] in r
    ensures |r| <= |ts|
    ensures Sorted(ts) ==> Sorted(r)
  {
    if |ts| == 0 then []
    else
      var rest := RemoveAllOf(ts[1..], h);
      RemoveAllOfCount(ts, h, rest);
      RemoveAllOfMembers(ts, h, rest);
      RemoveAllOfSorted(ts, h, rest);
      if ts[0].handler == h then rest else [ts[0]] + rest
  }

  /** One step of RemoveAllOf, for multiplicities: `h`'s entries vanish and every other entry keeps its count. */
  lemma RemoveAllOfCount<H>(ts: seq<Entry<H>>, h: H, rest: seq<Entry<H>>)
    requires |ts| > 0
    requires forall e :: multiset(rest)[e] == if e.handler == h then 0 else multiset(ts[1..])[e]
    ensures var r := if ts[0].handler == h then rest else [ts[0]] + rest;
      forall e :: multiset(r)[e] == if e.handler == h then 0 else multiset(ts)[e]
  {
    assert ts == [ts[0]] + ts[1..];
    assert multiset(ts) == multiset{ts[0]} + multiset(ts[1..]);
    if ts[0].handler != h {
      assert multiset([ts[0]] + rest) == multiset{ts[0]} + multiset(rest);
    }
  }

  /** One step of RemoveAllOf, for membership: the head is kept exactly when it belongs to another handler. */
  lemma RemoveAllOfMembers<H>(ts: seq<Entry<H>>, h: H, rest: seq<Entry<H>>)
    requires |ts| > 0
    requires forall i :: 0 <= i < |rest| ==> rest[i] in ts[1..] && rest[i].handler != h
    requires forall i :: 1 <= i < |ts| && ts[i].handler != h ==> ts[i] in rest
    requires |rest| <= |ts| - 1
    ensures var r := if ts[0].handler == h then rest else [ts[0]] + rest;
      && (forall i :: 0 <= i < |r| ==> r[i] in ts && r[i].handler != h)
      && (forall i :: 0 <= i < |ts| && ts[i].handler != h ==> ts[i] in r)
      && |r| <= |ts|
  {
    var r := if ts[0].handler == h then rest else [ts[0]] + rest;
    forall i | 0 <= i < |r|
      ensures r[i] in ts && r[i].handler != h
    {
      if ts[0].handler != h && i == 0 {
        assert r[i] == ts[0];
      } else {
        var j := if ts[0].handler == h then i else i - 1;
        assert r[i] == rest[j];
        assert rest[j] in ts[1..];
      }
    }
    forall i | 0 <= i < |ts| && ts[i].handler != h
      ensures ts[i] in r
    {
      if i > 0 {
        assert ts[i] in rest;
      }
    }
  }

  /** One step of RemoveAllOf, for order: a sorted tail whose entries come from `ts[1..]` stays sorted behind the head. */
  lemma RemoveAllOfSorted<H>(ts: seq<Entry<H>>, h: H, rest: seq<Entry<H>>)
    requires |ts| > 0
    requires forall i :: 0 <= i < |rest| ==> rest[i] in ts[1..]
    requires Sorted(ts[1..]) ==> Sorted(rest)
    ensures var r := if ts[0].handler == h then rest else [ts[0]] + rest;
      Sorted(ts) ==> Sorted(r)
  {
    if Sorted(ts) {
      assert Sorted(ts[1..]);
      forall i | 0 <= i < |rest|
        ensures ts[0].fireAt <= rest[i].fireAt
      {
        assert rest[i] in ts[1..];
        var k :| 0 <= k < |ts[1..]| && ts[1..][k] == rest[i];
        assert ts[1..][k] == ts[k + 1];
      }
    }
  }

  /** Index of the earliest entry of `h`, if any. */
  function FirstIndexOf<H(==)>(ts: seq<Entry<H>>, h: H): (o: Option<nat>)
    ensures o.None? <==> !Exists(ts, h)
    ensures o.Some? ==> o.value < |ts| && ts[o.value].handler == h
    ensures o.Some? ==> forall j :: 0 <= j < o.value ==> ts[j].handler != h
  {
    if |ts| == 0 then None
    else if ts[0].handler == h then Some(0)
    else
      var o := FirstIndexOf(ts[1..], h);
      assert forall i :: 1 <= i < |ts| ==> ts[i] == ts[1..][i - 1];
      match o
      case None => None
      case Some(i) => Some(i + 1)
  }

  /** Drops the earliest entry of `h`, if any. */
  function RemoveFirstOf<H(==)>(ts: seq<Entry<H>>, h: H): (r: seq<Entry<H>>)
    ensures !Exists(ts, h) ==> r == ts
    ensures Exists(ts, h) ==> |r| == |ts| - 1
    ensures Exists(ts, h) ==> multiset(r) + multiset{ts[FirstIndexOf(ts, h).value]} == multiset(ts)
    ensures forall i :: 0 <= i < |r| ==> r[i] in ts
    ensures Sorted(ts) ==> Sorted(r)
  {
    match FirstIndexOf(ts, h)
    case None => ts
    case Some(i) =>
      DeleteAt(ts, i);
      ts[..i] + ts[i + 1..]
  }

  /** Deleting one position keeps the other entries, their order, and so sortedness. */
  lemma DeleteAt<H>(ts: seq<Entry<H>>, i: nat)
    requires i < |ts|
    ensures var r := ts[..i] + ts[i + 1..];
      && multiset(r) + multiset{ts[i]} == multiset(ts)
      && (forall j :: 0 <= j < |r| ==> r[j] in ts)
      && (Sorted(ts) ==> Sorted(r))
  {
    var r := ts[..i] + ts[i + 1..];
    assert ts == ts[..i] + [ts[i]] + ts[i + 1..];
    assert forall j :: 0 <= j < |r| ==> r[j] == ts[Skip(j, i)];
    if Sorted(ts) {
      forall j, k | 0 <= j < k < |r|
        ensures r[j].fireAt <= r[k].fireAt
      {
        assert Skip(j, i) < Skip(k, i);
      }
    }
  }

  /** Position in the original sequence of position `j` once position `i` is deleted. */
  function Skip(j: nat, i: nat): nat
  {
    if j < i then j else j + 1
  }

  /**
    TimeEventSet::remove under either reading: other handlers' entries are kept
    with their multiplicities; remove-all drops every entry of `h`, remove-first
    exactly the earliest one.
  */
  function Remove<H(==,!new)>(ts: seq<Entry<H>>, h: H, mode: RemoveMode): (r: seq<Entry<H>>)
    ensures forall e: Entry<H> :: e.handler != h ==> multiset(r)[e] == multiset(ts)[e]
    ensures mode == RemoveAll ==> !Exists(r, h)
    ensures mode == RemoveAll ==> forall e: Entry<H> :: e.handler == h ==> multiset(r)[e] == 0
    ensures mode == RemoveFirst && Exists(ts, h) ==> |r| == |ts| - 1
    ensures mode == RemoveFirst && Exists(ts, h) ==>
      multiset(r) + multiset{ts[FirstIndexOf(ts, h).value]} == multiset(ts)
    ensures !Exists(ts, h) ==> r == ts
    ensures forall i :: 0 <= i < |r| ==> r[i] in ts
    ensures forall i :: 0 <= i < |ts| && ts[i].handler != h ==> ts[i] in r
    ensures Sorted(ts) ==> Sorted(r)
  {
    match mode
    case RemoveAll =>
      RemoveAllOfAbsent(ts, h);
      RemoveAllOf(ts, h)
    case RemoveFirst =>
      var r := RemoveFirstOf(ts, h);
      assert forall e: Entry<H> :: e.handler != h ==> multiset(r)[e] == multiset(ts)[e] by {
        if Exists(ts, h) {
          var x := ts[FirstIndexOf(ts, h).value];
          assert forall e: Entry<H> :: e.handler != h ==> multiset{x}[e] == 0;
        }
      }
      r
  }

  /** Removing the entries of a handler that has none leaves the set as it was. */
  lemma {:induction false} RemoveAllOfAbsent<H(!new)>(ts: seq<Entry<H>>, h: H)
    ensures !Exists(ts, h) ==> RemoveAllOf(ts, h) == ts
  {
    if |ts| > 0 && !Exists(ts, h) {
      assert !Exists(ts[1..], h);
      RemoveAllOfAbsent(ts[1..], h);
      assert ts == [ts[0]] + ts[1..];
    }
  }
}
