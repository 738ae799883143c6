/** The transaction list as a list sorted by message id: adding and removing are those of list.c while the message ids
    outstanding are distinct. */
module SessionList {
  import opened Bytes
  import opened Session
  import SortedList

  function Mids(ts: seq<Transaction>): (ids: seq<u16>)
    ensures |ids| == |ts| && forall i :: 0 <= i < |ts| ==> ids[i] == ts[i].mid
  {
    seq(|ts|, i requires 0 <= i < |ts| => ts[i].mid)
  }

  /** Adding a transaction with a new message id puts it where xiny_lwm2m_list_add does. */
  lemma InsertIsListAdd(ts: seq<Transaction>, t: Transaction)
    requires SortedList.StrictlySorted(Mids(ts)) && t.mid !in Mids(ts)
    ensures var k := SortedList.Place(Mids(ts), t.mid); Insert(ts, t) == ts[..k] + [t] + ts[k..]
    ensures SortedList.StrictlySorted(Mids(Insert(ts, t)))
  {
    var ids := Mids(ts);
    InsertIsPlaced(ts, t);
    PlaceIsBelow(ids, t.mid);
    SortedAnyway(ids);
    SortedList.InsertedIsSorted(ids, t.mid);
    var k := SortedList.Place(ids, t.mid);
    hide *;
    MidsInserted(ts, k, t);
  }

  lemma SortedAnyway(ids: seq<u16>)
    requires SortedList.StrictlySorted(ids)
    ensures SortedList.Sorted(ids)
  {}

  lemma MidsInserted(ts: seq<Transaction>, k: nat, t: Transaction)
    requires k == SortedList.Place(Mids(ts), t.mid)
    ensures Mids(ts[..k] + [t] + ts[k..]) == SortedList.Inserted(Mids(ts), t.mid)
  {
    hide SortedList.Place;
  }

  lemma {:induction false} InsertIsPlaced(ts: seq<Transaction>, t: Transaction)
    requires SortedList.StrictlySorted(Mids(ts)) && t.mid !in Mids(ts)
    ensures var k := SortedList.Below(Mids(ts), t.mid); Insert(ts, t) == ts[..k] + [t] + ts[k..]
    decreases |ts|
  {
    if ts != [] {
      FirstMid(ts, t);
      if ts[0].mid < t.mid {
        hide SortedList.StrictlySorted;
        InsertIsPlaced(ts[1..], t);
        var k := SortedList.Below(Mids(ts[1..]), t.mid);
        assert Insert(ts, t) == [ts[0]] + Insert(ts[1..], t);
        hide Insert, SortedList.Below;
        Shifted(ts, k, [t]);
      }
    }
  }

  lemma FirstMid(ts: seq<Transaction>, t: Transaction)
    requires ts != [] && SortedList.StrictlySorted(Mids(ts)) && t.mid !in Mids(ts)
    ensures SortedList.StrictlySorted(Mids(ts[1..])) && t.mid !in Mids(ts[1..]) && ts[0].mid != t.mid
    ensures SortedList.Below(Mids(ts), t.mid) ==
            if ts[0].mid > t.mid then 0 else 1 + SortedList.Below(Mids(ts[1..]), t.mid)
  {
    var ids := Mids(ts);
    assert ids[0] == ts[0].mid;
    assert Mids(ts[1..]) == ids[1..];
  }

  lemma Shifted(ts: seq<Transaction>, k: nat, middle: seq<Transaction>)
    requires ts != [] && k <= |ts| - 1
    ensures [ts[0]] + (ts[1..][..k] + middle + ts[1..][k..]) == ts[..k + 1] + middle + ts[k + 1..]
  {}

  lemma PlaceIsBelow(ids: seq<u16>, x: u16)
    requires SortedList.StrictlySorted(ids) && x !in ids
    ensures SortedList.Place(ids, x) == SortedList.Below(ids, x)
  {}

  predicate DistinctUids(ts: seq<Transaction>)
  {
    forall i, j :: 0 <= i < j < |ts| ==> ts[i].uid != ts[j].uid
  }

  /** Removing by identity, as the session model does, is removing by message id, as xiny_transaction_remove does. */
  lemma DropIsListRemove(ts: seq<Transaction>, t: Transaction)
    requires SortedList.StrictlySorted(Mids(ts)) && t in ts && DistinctUids(ts)
    ensures var k := SortedList.Below(Mids(ts), t.mid);
            k < |ts| && ts[k] == t && Drop(ts, t.uid) == ts[..k] + ts[k + 1..]
  {
    var k :| 0 <= k < |ts| && ts[k] == t;
    hide *;
    DropAt(ts, k);
    BelowIs(Mids(ts), k);
  }

  lemma BelowIs(ids: seq<u16>, k: nat)
    requires SortedList.StrictlySorted(ids) && k < |ids|
    ensures SortedList.Below(ids, ids[k]) == k
  {
    var b := SortedList.Below(ids, ids[k]);
    hide SortedList.Below;
    assert !(b < k) && !(k < b);
  }

  lemma {:induction false} DropAt(ts: seq<Transaction>, k: nat)
    requires k < |ts| && DistinctUids(ts)
    ensures Drop(ts, ts[k].uid) == ts[..k] + ts[k + 1..]
    decreases k
  {
    var rest, uid := ts[1..], ts[k].uid;
    if k == 0 {
      DropAbsent(rest, uid);
    } else {
      DropAt(rest, k - 1);
      assert ts[0].uid != uid;
      assert Drop(ts, uid) == [ts[0]] + Drop(rest, uid);
      hide Drop, DistinctUids;
      assert [ts[0]] + (rest[..k - 1] + rest[k..]) == ts[..k] + ts[k + 1..];
    }
  }

  lemma {:induction false} DropAbsent(ts: seq<Transaction>, uid: nat)
    requires forall i :: 0 <= i < |ts| ==> ts[i].uid != uid
    ensures Drop(ts, uid) == ts
    decreases |ts|
  {
    if ts != [] {
      DropAbsent(ts[1..], uid);
    }
  }

  // ----- the server lists

  lemma {:induction false} InsertServerMembers(ss: seq<Server>, s: Server)
    ensures forall x :: x in InsertServer(ss, s) <==> x == s || x in ss
    decreases |ss|
  {
    if ss != [] && ss[0].id <= s.id {
      InsertServerMembers(ss[1..], s);
      assert ss == [ss[0]] + ss[1..];
    }
  }

  predicate ServersSorted(ss: seq<Server>)
  {
    forall i, j :: 0 <= i < j < |ss| ==> ss[i].id <= ss[j].id
  }

  lemma {:induction false} InsertServerSorted(ss: seq<Server>, s: Server)
    requires ServersSorted(ss)
    ensures ServersSorted(InsertServer(ss, s))
    decreases |ss|
  {
    if ss != [] && ss[0].id <= s.id {
      InsertServerSorted(ss[1..], s);
      InsertServerMembers(ss[1..], s);
      var r := InsertServer(ss[1..], s);
      forall j | 0 <= j < |r|
        ensures ss[0].id <= r[j].id
      {
        assert r[j] in r;
      }
    }
  }

  /** What prv_refreshServerList keeps of a list: exactly the servers that are not dirty, sorted by id, and of the
      bootstrap servers with their status put back to DEREGISTERED. */
  lemma {:induction false} CleanKeepsExactly(ss: seq<Server>, reset: bool)
    ensures ServersSorted(Clean(ss, reset))
    ensures forall x :: x in Clean(ss, reset) <==>
              exists s :: s in ss && !s.dirty && x == if reset then s.(status := Deregistered) else s
    decreases |ss|
  {
    if ss != [] {
      var before, s := ss[..|ss| - 1], ss[|ss| - 1];
      CleanKeepsExactly(before, reset);
      assert ss == before + [s];
      var kept := if reset then s.(status := Deregistered) else s;
      InsertServerSorted(Clean(before, reset), kept);
      InsertServerMembers(Clean(before, reset), kept);
      hide InsertServer;
      assert forall x :: x in ss <==> x == s || x in before;
    }
  }
}
