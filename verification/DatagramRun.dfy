/**
 A datagram's fragments fed one after the other to a table that has room for it
 at the start: the room is still there at every later fragment.
 */
module DatagramRun {
  import opened Octets
  import opened Reassembly
  import opened ReasmTable
  import opened Datagram
  import opened Cardinality
  import MapSum

  // ---------------------------------------------------------------------
  // Distinct shares add up to no more than the body.

  function ShareLen(c: Cut): nat {
    if c.Start() <= c.end then c.end - c.Start() else 0
  }

  function Lengths(cuts: seq<Cut>, which: set<nat>): map<nat, nat> {
    map i | i in which && i < |cuts| :: ShareLen(cuts[i])
  }

  lemma {:induction false} AllLengths(cuts: seq<Cut>, n: nat, j: nat)
    requires Cutting(cuts, n) && j < |cuts|
    ensures MapSum.Sum(Lengths(cuts, UpTo(j + 1))) == cuts[j].end
  {
    hide UpTo, Lengths;
    LengthsGrow(cuts, j);
    if j > 0 {
      AllLengths(cuts, n, j - 1);
    }
  }

  lemma LengthsGrow(cuts: seq<Cut>, j: nat)
    requires j < |cuts|
    ensures MapSum.Sum(Lengths(cuts, UpTo(j + 1))) == MapSum.Sum(Lengths(cuts, UpTo(j))) + ShareLen(cuts[j])
    ensures MapSum.Sum(Lengths(cuts, UpTo(0))) == 0
  {
    hide ShareLen;
    var less := Lengths(cuts, UpTo(j));
    assert Lengths(cuts, UpTo(j + 1)) == less[j := ShareLen(cuts[j])];
    MapSum.SumWith(less, j, ShareLen(cuts[j]));
    assert Lengths(cuts, UpTo(0)) == map[];
  }

  /** The octets of the shares with the given indices. */
  function Filled(cuts: seq<Cut>, idx: seq<nat>): nat {
    if idx == [] then 0
    else
      var last := idx[|idx| - 1];
      Filled(cuts, idx[..|idx| - 1]) + if last < |cuts| then ShareLen(cuts[last]) else 0
  }

  lemma {:induction false} FilledIsSum(cuts: seq<Cut>, idx: seq<nat>)
    requires Distinct(idx) && forall i :: 0 <= i < |idx| ==> idx[i] < |cuts|
    ensures Filled(cuts, idx) == MapSum.Sum(Lengths(cuts, Elements(idx)))
  {
    if idx == [] {
      assert Lengths(cuts, Elements(idx)) == map[];
    } else {
      var front, last := idx[..|idx| - 1], idx[|idx| - 1];
      FilledIsSum(cuts, front);
      var less := Lengths(cuts, Elements(front));
      assert last !in front;
      assert Elements(idx) == Elements(front) + {last};
      assert Lengths(cuts, Elements(idx)) == less[last := ShareLen(cuts[last])];
      MapSum.SumWith(less, last, ShareLen(cuts[last]));
    }
  }

  lemma FilledFits(cuts: seq<Cut>, n: nat, idx: seq<nat>)
    requires Cutting(cuts, n) && Distinct(idx) && forall i :: 0 <= i < |idx| ==> idx[i] < |cuts|
    ensures Filled(cuts, idx) <= n
  {
    FilledIsSum(cuts, idx);
    AllLengths(cuts, n, |cuts| - 1);
    MapSum.SumOfPart(Lengths(cuts, Elements(idx)), Lengths(cuts, UpTo(|cuts|)));
  }

  // ---------------------------------------------------------------------
  // An add raises the total by no more than its fragment.

  lemma UnexpiredTotal(m: Entries, now: int)
    ensures Total(Unexpired(m, now)) <= Total(m) && |Unexpired(m, now)| <= |m|
  {
    MapSum.SumOfPart(Buffered(Unexpired(m, now)), Buffered(m));
    assert Unexpired(m, now).Keys <= m.Keys;
    SubsetSize(Unexpired(m, now).Keys, m.Keys);
  }

  lemma WithoutTotal(m: Entries, key: Key)
    ensures Total(m - {key}) <= Total(m)
  {
    MapSum.SumOfPart(Buffered(m - {key}), Buffered(m));
  }

  lemma AddedNowTotal(m: Entries, key: Key, off: uint16, more: bool, frag: seq<byte>, now: int)
    requires Inv(m)
    ensures Total(AddedNow(m, key, off, more, frag, now).0) <= Total(m) + |frag|
  {
    hide Inv, Joins, Total, ContiguousLen, Assembled, Malformed, HasRoom;
    WithoutTotal(m, key);
    PutTotal(m, key, Extended(EntryFor(m, key, now), off, more, frag));
  }

  lemma AddedTotal(m: Entries, key: Key, off: uint16, more: bool, frag: seq<byte>, now: int)
    requires Inv(m)
    ensures Total(Added(m, key, off, more, frag, now).0) <= Total(m) + |frag|
  {
    hide Inv, AddedNow, Unexpired, Total;
    UnexpiredInv(m, now);
    UnexpiredTotal(m, now);
    AddedNowTotal(Unexpired(m, now), key, off, more, frag, now);
  }

  // ---------------------------------------------------------------------
  // The run.

  /** A table with room for the whole datagram, and fragments that all come within thirty seconds of the first. */
  ghost predicate Roomy(m: Entries, key: Key, body: seq<byte>, cuts: seq<Cut>, order: seq<nat>, nows: seq<int>) {
    && Inv(m) && key !in m && |m| < MAX_REASSEMBLIES && Total(m) + |body| <= MAX_BYTES
    && Cutting(cuts, |body|) && |cuts| <= MAX_FRAGMENTS && IsOrder(order, |cuts|)
    && |nows| == |cuts| && forall k :: 0 <= k < |nows| ==> nows[k] - MAX_AGE <= nows[0]
  }

  /** The table after the first k shares of an order were fed. */
  ghost function TableAfter(m: Entries, key: Key, body: seq<byte>, cuts: seq<Cut>, order: seq<nat>, nows: seq<int>, k: nat): (r: Entries)
    requires Roomy(m, key, body, cuts, order, nows) && k <= |cuts|
    ensures Inv(r)
  {
    if k == 0 then m
    else
      var before := TableAfter(m, key, body, cuts, order, nows, k - 1);
      FedKeeps(before, key, body, cuts, order[k - 1], nows[k - 1]);
      Fed(before, key, body, cuts, order[k - 1], nows[k - 1]).0
  }

  lemma NothingFed(m: Entries, key: Key, body: seq<byte>, cuts: seq<Cut>, order: seq<nat>, nows: seq<int>)
    requires Roomy(m, key, body, cuts, order, nows)
    ensures TableAfter(m, key, body, cuts, order, nows, 0) == m
  {
  }

  lemma FedOneMore(m: Entries, key: Key, body: seq<byte>, cuts: seq<Cut>, order: seq<nat>, nows: seq<int>, k: nat)
    requires Roomy(m, key, body, cuts, order, nows) && k < |cuts|
    ensures |order| == |nows| == |cuts| && order[k] < |cuts| && Cutting(cuts, |body|)
    ensures TableAfter(m, key, body, cuts, order, nows, k + 1)
         == Fed(TableAfter(m, key, body, cuts, order, nows, k), key, body, cuts, order[k], nows[k]).0
  {
    hide Inv, Total, Cutting, Fed;
  }

  lemma FedKeeps(m: Entries, key: Key, body: seq<byte>, cuts: seq<Cut>, j: nat, now: int)
    requires Inv(m) && Cutting(cuts, |body|) && j < |cuts|
    ensures Inv(Fed(m, key, body, cuts, j, now).0)
    ensures Total(Fed(m, key, body, cuts, j, now).0) <= Total(m) + ShareLen(cuts[j])
  {
    CutEndsWithin(cuts, |body|, j);
    assert |Share(body, cuts[j])| == ShareLen(cuts[j]);
    var u: uint16 := cuts[j].unit;
    AddedKeeps(m, key, u, More(cuts, j), Share(body, cuts[j]), now);
    AddedTotal(m, key, u, More(cuts, j), Share(body, cuts[j]), now);
    hide Inv, Added, Total, Cutting, Share;
  }

  lemma RoomyParts(m: Entries, key: Key, body: seq<byte>, cuts: seq<Cut>, order: seq<nat>, nows: seq<int>, k: nat)
    requires Roomy(m, key, body, cuts, order, nows) && k < |cuts|
    ensures |order| == |nows| == |cuts| && nows[k] - MAX_AGE <= nows[0] && order[k] < |cuts|
    ensures order[k] !in order[..k] && order[..k] + [order[k]] == order[..k + 1]
    ensures k + 1 == |cuts| ==> IsOrder(order[..k + 1], |cuts|)
    ensures Filled(cuts, order[..k]) + ShareLen(cuts[order[k]]) <= |body|
  {
    OrderAt(order, |cuts|, k);
    assert order[..k + 1][..k] == order[..k];
    hide Inv, Total, Cutting;
    FilledFits(cuts, |body|, order[..k + 1]);
  }

  lemma RoomyStart(m: Entries, key: Key, body: seq<byte>, cuts: seq<Cut>, order: seq<nat>, nows: seq<int>)
    requires Roomy(m, key, body, cuts, order, nows)
    ensures Inv(m) && key !in m && |m| < MAX_REASSEMBLIES && Total(m) + |body| <= MAX_BYTES
    ensures Cutting(cuts, |body|) && |cuts| <= MAX_FRAGMENTS && |order| == |nows| == |cuts| >= 1
    ensures Awaits(m, key, body, cuts, order[..0], nows[0])
  {
    FirstAwaits(key, body, cuts, order, m, nows[0]);
  }

  lemma AwaitedIsUnexpired(m: Entries, key: Key, body: seq<byte>, cuts: seq<Cut>, idx: seq<nat>, t0: int, now: int)
    requires Cutting(cuts, |body|) && Awaits(m, key, body, cuts, idx, t0) && idx != [] && t0 >= now - MAX_AGE
    ensures key in Unexpired(m, now)
  {
    hide Cutting;
  }

  /** Room at the start is room for share k. */
  lemma StillReady(m: Entries, r: Entries, key: Key, body: seq<byte>, cuts: seq<Cut>, order: seq<nat>, nows: seq<int>, k: nat)
    requires Roomy(m, key, body, cuts, order, nows) && k < |cuts|
    requires order[k] < |cuts| && Cutting(cuts, |body|) && |nows| == |cuts|
    requires Awaits(r, key, body, cuts, order[..k], nows[0])
    requires Total(r) <= Total(m) + Filled(cuts, order[..k]) && (k == 0 ==> r == m)
    ensures Ready(r, key, body, cuts, order[k], nows[0], nows[k])
  {
    RoomyStart(m, key, body, cuts, order, nows);
    RoomyParts(m, key, body, cuts, order, nows, k);
    UnexpiredTotal(r, nows[k]);
    CutEndsWithin(cuts, |body|, order[k]);
    assert |Share(body, cuts[order[k]])| == ShareLen(cuts[order[k]]);
    if k > 0 {
      AwaitedIsUnexpired(r, key, body, cuts, order[..k], nows[0], nows[k]);
    }
    hide Roomy, Inv, Total, Cutting, Awaits, Unexpired, Filled, Share;
  }

  lemma {:induction false} StillAwaits(m: Entries, key: Key, body: seq<byte>, cuts: seq<Cut>, order: seq<nat>, nows: seq<int>, k: nat)
    requires Roomy(m, key, body, cuts, order, nows) && k < |cuts|
    ensures var r := TableAfter(m, key, body, cuts, order, nows, k);
            && Cutting(cuts, |body|) && |order| == |nows| == |cuts| && order[k] < |cuts|
            && Awaits(r, key, body, cuts, order[..k], nows[0])
            && Total(r) <= Total(m) + Filled(cuts, order[..k])
            && Ready(r, key, body, cuts, order[k], nows[0], nows[k])
  {
    hide Roomy, Inv, Total, Cutting, Awaits, Ready, Fed, Filled, IsOrder;
    RoomyStart(m, key, body, cuts, order, nows);
    RoomyParts(m, key, body, cuts, order, nows, k);
    var r := TableAfter(m, key, body, cuts, order, nows, k);
    if k > 0 {
      StillAwaits(m, key, body, cuts, order, nows, k - 1);
      RoomyParts(m, key, body, cuts, order, nows, k - 1);
      var before := TableAfter(m, key, body, cuts, order, nows, k - 1);
      FeedOne(before, key, body, cuts, order[..k - 1], order[k - 1], nows[0], nows[k - 1]);
      FedKeeps(before, key, body, cuts, order[k - 1], nows[k - 1]);
      FilledOneMore(cuts, order, k - 1);
    }
    StillReady(m, r, key, body, cuts, order, nows, k);
  }

  lemma FilledOneMore(cuts: seq<Cut>, order: seq<nat>, k: nat)
    requires k < |order| && order[k] < |cuts|
    ensures Filled(cuts, order[..k + 1]) == Filled(cuts, order[..k]) + ShareLen(cuts[order[k]])
  {
    assert order[..k + 1][..k] == order[..k];
  }

  /** Fed in any order to a table that had room for it, the datagram comes out with its last fragment and not before. */
  lemma FedInAnyOrder(m: Entries, key: Key, body: seq<byte>, cuts: seq<Cut>, order: seq<nat>, nows: seq<int>, k: nat)
    requires Roomy(m, key, body, cuts, order, nows) && k < |cuts|
    ensures order[k] < |cuts| && Cutting(cuts, |body|)
    ensures Fed(TableAfter(m, key, body, cuts, order, nows, k), key, body, cuts, order[k], nows[k]).1
         == if k + 1 < |cuts| then None else Some(body)
  {
    hide Roomy, Inv, Total, Cutting, Awaits, Ready, Fed, Filled, IsOrder, TableAfter;
    RoomyStart(m, key, body, cuts, order, nows);
    RoomyParts(m, key, body, cuts, order, nows, k);
    StillAwaits(m, key, body, cuts, order, nows, k);
    FeedOne(TableAfter(m, key, body, cuts, order, nows, k), key, body, cuts, order[..k], order[k], nows[0], nows[k]);
  }
}
