/**
 * The two cyclic counters of pundun/client.py: `_get_cid` (16-bit
 * correlation ids) and `_get_tid` (32-bit transaction ids). Each returns
 * the current value and then advances it by one, wrapping from its largest
 * value back to 0.
 */
module Counters {

  /** The largest correlation id `_get_cid` hands out before wrapping. */
  const MaxCid: nat := 65535

  /** The largest transaction id `_get_tid` hands out before wrapping. */
  const MaxTid: nat := 4294967295

  /** The counter value after one call: `max` wraps to 0, anything else goes up by one. */
  function Advance(c: nat, max: nat): (r: nat)
    requires c <= max
    ensures r <= max
    ensures r == (c + 1) % (max + 1)
  {
    if c == max then 0 else c + 1
  }

  /** The ids returned by `n` consecutive calls when the counter starts at `start`. */
  function Issued(start: nat, n: nat, max: nat): (r: seq<nat>)
    requires start <= max
    ensures |r| == n
    ensures forall i :: 0 <= i < n ==> r[i] <= max
    decreases n
  {
    if n == 0 then [] else [start] + Issued(Advance(start, max), n - 1, max)
  }

  /** Within one period the i-th id of a run is the start offset by i, wrapped
      once past `max`. */
  lemma {:induction false} IssuedAt(start: nat, n: nat, max: nat, i: nat)
    requires start <= max && i < n && i <= max
    ensures Issued(start, n, max)[i] == if start + i <= max then start + i else start + i - (max + 1)
    decreases i
  {
    if i > 0 {
      IssuedAt(Advance(start, max), n - 1, max, i - 1);
    }
  }

  /** Within one period no id is handed out twice. */
  lemma IssuedDistinct(start: nat, n: nat, max: nat)
    requires start <= max && n <= max + 1
    ensures var ids := Issued(start, n, max);
      forall i, j :: 0 <= i < j < n ==> ids[i] != ids[j]
  {
    var ids := Issued(start, n, max);
    forall i, j | 0 <= i < j < n
      ensures ids[i] != ids[j]
    {
      IssuedAt(start, n, max, i);
      IssuedAt(start, n, max, j);
    }
  }

  /** One full period hands out every id from 0 to `max`. */
  lemma IssuedCovers(start: nat, max: nat)
    requires start <= max
    ensures var ids := Issued(start, max + 1, max);
      forall v :: 0 <= v <= max ==> v in ids
  {
    var ids := Issued(start, max + 1, max);
    forall v | 0 <= v <= max
      ensures v in ids
    {
      var i: nat := if v >= start then v - start else v + (max + 1) - start;
      IssuedAt(start, max + 1, max, i);
      assert ids[i] == v;
    }
  }

  /** 65536 consecutive `_get_cid` calls return each id in 0..65535 exactly once,
      wherever the counter starts. */
  lemma CidsExactlyOnce(start: nat)
    requires start <= MaxCid
    ensures var ids := Issued(start, MaxCid + 1, MaxCid);
      (forall i, j :: 0 <= i < j < |ids| ==> ids[i] != ids[j]) &&
      (forall v :: 0 <= v <= MaxCid ==> v in ids)
  {
    IssuedDistinct(start, MaxCid + 1, MaxCid);
    IssuedCovers(start, MaxCid);
  }

  /** 2^32 consecutive `_get_tid` calls return each transaction id exactly once. */
  lemma TidsExactlyOnce(start: nat)
    requires start <= MaxTid
    ensures var ids := Issued(start, MaxTid + 1, MaxTid);
      (forall i, j :: 0 <= i < j < |ids| ==> ids[i] != ids[j]) &&
      (forall v :: 0 <= v <= MaxTid ==> v in ids)
  {
    IssuedDistinct(start, MaxTid + 1, MaxTid);
    IssuedCovers(start, MaxTid);
  }
}
