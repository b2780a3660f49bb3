/** The eviction policy: when off-heap usage reaches nine tenths of the
    configured maximum, the volatile-random policy walks every shard's
    entries, picks victims while its running estimate of the usage stays at
    or above that threshold, and then deletes every victim from its shard.
    The usage counter is a parameter, and each shard is modelled by the
    region descriptor of every key it holds, since eviction reads nothing of
    a value but its capacity. */
module Eviction {
  import opened Value
  import KeySpace

  type Key = KeySpace.Key

  /** The policies, numbered as the iota block declares them. */
  const NoEviction := 0
  const VolatileRandom := 1
  const VolatileTTL := 2
  const VolatileLRU := 3
  const VolatileLFU := 4
  const AllKeysRandom := 5
  const AllKeysLRU := 6
  const AllKeysLFU := 7

  /** `size >= 0.9 * maxSize`, in exact arithmetic. */
  predicate Over(size: int, maxSize: int)
  {
    10 * size >= 9 * maxSize
  }

  /** The pass runs only for volatile-random, with a positive maximum, and
      with usage at or above the threshold. */
  predicate Triggered(policy: int, maxSize: int, size: int)
  {
    policy == VolatileRandom && maxSize > 0 && Over(size, maxSize)
  }

  /** The capacity of the entry `p` = (shard, key), or 0 if there is none. */
  function CapOf(dicts: seq<map<Key, Bytes>>, p: (nat, Key)): int
  {
    if p.0 < |dicts| && p.1 in dicts[p.0] then dicts[p.0][p.1].cap else 0
  }

  /** The capacities of the entries in `order`, added up. */
  function CapSum(order: seq<(nat, Key)>, dicts: seq<map<Key, Bytes>>): int
  {
    if order == [] then 0
    else CapSum(order[..|order| - 1], dicts) + CapOf(dicts, order[|order| - 1])
  }

  /** Each victim map holds entries of the shard with the same index. */
  predicate SubMaps(victims: seq<map<Key, Bytes>>, dicts: seq<map<Key, Bytes>>)
  {
    && |victims| == |dicts|
    && forall i, k :: 0 <= i < |victims| && k in victims[i] ==> k in dicts[i] && victims[i][k] == dicts[i][k]
  }

  /** `order` lists every victim exactly once, by shard and key. */
  predicate Lists(order: seq<(nat, Key)>, victims: seq<map<Key, Bytes>>)
  {
    && (forall j :: 0 <= j < |order| ==> order[j].0 < |victims| && order[j].1 in victims[order[j].0])
    && (forall i, k :: 0 <= i < |victims| && k in victims[i] ==> (i, k) in order)
    && (forall j, l :: 0 <= j < l < |order| ==> order[j] != order[l])
  }

  /** Each victim was taken while the estimate, reduced by the victims
      before it, was still at or above the threshold. */
  predicate SelectedWhileOver(order: seq<(nat, Key)>, dicts: seq<map<Key, Bytes>>, size: int, maxSize: int)
  {
    forall j :: 0 <= j < |order| ==> Over(size - CapSum(order[..j], dicts), maxSize)
  }

  predicate AllSelected(victims: seq<map<Key, Bytes>>, dicts: seq<map<Key, Bytes>>)
    requires |victims| == |dicts|
  {
    forall i :: 0 <= i < |dicts| ==> victims[i].Keys == dicts[i].Keys
  }

  /** What the selection pass produces from usage `size`: per-shard victims
      taken from their own shard, in the order `order`; the final estimate
      is `size` less their capacities; each was taken while the estimate was
      at or above the threshold; and the pass ends either having taken every
      entry or with the estimate below the threshold. */
  ghost predicate Selection(dicts: seq<map<Key, Bytes>>, size: int, maxSize: int,
                            victims: seq<map<Key, Bytes>>, remaining: int, order: seq<(nat, Key)>)
  {
    && SubMaps(victims, dicts)
    && Lists(order, victims)
    && remaining == size - CapSum(order, dicts)
    && SelectedWhileOver(order, dicts, size, maxSize)
    && (AllSelected(victims, dicts) || !Over(remaining, maxSize))
  }

  /** Every shard with its victims removed. */
  function Evicted(dicts: seq<map<Key, Bytes>>, victims: seq<map<Key, Bytes>>): (r: seq<map<Key, Bytes>>)
    requires |victims| == |dicts|
    ensures |r| == |dicts|
    ensures forall i, k :: 0 <= i < |r| ==> (k in r[i] <==> k in dicts[i] && k !in victims[i])
  {
    seq(|dicts|, i requires 0 <= i < |dicts| => dicts[i] - victims[i].Keys)
  }

  /** The selection pass of tryEvict: for each shard in turn, for each of
      its entries in map order (any order), take the entry while the running
      estimate is at or above the threshold and subtract its capacity. */
  method SelectVictims(dicts: seq<map<Key, Bytes>>, size: int, maxSize: int)
    returns (victims: seq<map<Key, Bytes>>, remaining: int, ghost order: seq<(nat, Key)>)
    ensures SubMaps(victims, dicts)
    ensures AllSelected(victims, dicts) || !Over(remaining, maxSize)
    ensures Selection(dicts, size, maxSize, victims, remaining, order)
  {
    victims := seq(|dicts|, _ => map[]);
    remaining := size;
    order := [];
    ghost var skipped := false;
    var shardID := 0;
    while shardID < |dicts|
      invariant 0 <= shardID <= |dicts|
      invariant SubMaps(victims, dicts)
      invariant forall j :: shardID <= j < |dicts| ==> victims[j] == map[]
      invariant Lists(order, victims)
      invariant remaining == size - CapSum(order, dicts)
      invariant SelectedWhileOver(order, dicts, size, maxSize)
      invariant skipped ==> !Over(remaining, maxSize)
      invariant !skipped ==> forall j :: 0 <= j < shardID ==> victims[j].Keys == dicts[j].Keys
    {
      victims, remaining, order, skipped := SelectInShard(dicts, shardID, size, maxSize, victims, remaining, order, skipped);
      shardID := shardID + 1;
    }
  }

  /** The inner loop over one shard's entries. */
  method SelectInShard(dicts: seq<map<Key, Bytes>>, shardID: nat, ghost size: int, maxSize: int,
                       victims0: seq<map<Key, Bytes>>, remaining0: int, ghost order0: seq<(nat, Key)>, ghost skipped0: bool)
    returns (victims: seq<map<Key, Bytes>>, remaining: int, ghost order: seq<(nat, Key)>, ghost skipped: bool)
    requires shardID < |dicts|
    requires SubMaps(victims0, dicts) && victims0[shardID] == map[]
    requires Lists(order0, victims0)
    requires remaining0 == size - CapSum(order0, dicts)
    requires SelectedWhileOver(order0, dicts, size, maxSize)
    requires skipped0 ==> !Over(remaining0, maxSize)
    ensures SubMaps(victims, dicts)
    ensures forall j :: 0 <= j < |dicts| && j != shardID ==> victims[j] == victims0[j]
    ensures Lists(order, victims)
    ensures remaining == size - CapSum(order, dicts)
    ensures SelectedWhileOver(order, dicts, size, maxSize)
    ensures skipped ==> !Over(remaining, maxSize)
    ensures skipped0 ==> skipped
    ensures !skipped ==> victims[shardID].Keys == dicts[shardID].Keys
  {
    victims, remaining, order, skipped := victims0, remaining0, order0, skipped0;
    var rest := dicts[shardID].Keys;
    while rest != {}
      invariant ShardLoop(dicts, shardID, size, maxSize, victims0, skipped0, rest, victims, remaining, order, skipped)
      decreases |rest|
    {
      var key :| key in rest;
      victims, remaining, order, skipped := SelectKey(dicts, shardID, size, maxSize, victims0, skipped0, rest, key, victims, remaining, order, skipped);
      rest := rest - {key};
    }
  }

  /** The state of the shard loop with the keys `rest` still to visit: the
      selection's invariants hold, only this shard's victims have changed,
      and unless an entry was skipped every visited entry was taken. */
  ghost predicate ShardLoop(dicts: seq<map<Key, Bytes>>, shardID: nat, size: int, maxSize: int,
                            victims0: seq<map<Key, Bytes>>, skipped0: bool, rest: set<Key>,
                            victims: seq<map<Key, Bytes>>, remaining: int, order: seq<(nat, Key)>, skipped: bool)
  {
    && shardID < |dicts|
    && rest <= dicts[shardID].Keys
    && SubMaps(victims, dicts) && |victims0| == |dicts|
    && (forall j :: 0 <= j < |dicts| && j != shardID ==> victims[j] == victims0[j])
    && victims[shardID].Keys <= dicts[shardID].Keys - rest
    && Lists(order, victims)
    && remaining == size - CapSum(order, dicts)
    && SelectedWhileOver(order, dicts, size, maxSize)
    && (skipped ==> !Over(remaining, maxSize))
    && (skipped0 ==> skipped)
    && (!skipped ==> victims[shardID].Keys == dicts[shardID].Keys - rest)
  }

  /** One turn of the shard loop: the entry `key` is taken while the
      estimate is at or above the threshold, and skipped otherwise. */
  method SelectKey(dicts: seq<map<Key, Bytes>>, shardID: nat, ghost size: int, maxSize: int,
                   ghost victims0: seq<map<Key, Bytes>>, ghost skipped0: bool, ghost rest: set<Key>, key: Key,
                   victims: seq<map<Key, Bytes>>, remaining: int, ghost order: seq<(nat, Key)>, ghost skipped: bool)
    returns (victims': seq<map<Key, Bytes>>, remaining': int, ghost order': seq<(nat, Key)>, ghost skipped': bool)
    requires key in rest
    requires ShardLoop(dicts, shardID, size, maxSize, victims0, skipped0, rest, victims, remaining, order, skipped)
    ensures Over(remaining, maxSize) ==>
      remaining' == remaining - dicts[shardID][key].cap && victims' == victims[shardID := victims[shardID][key := dicts[shardID][key]]]
    ensures !Over(remaining, maxSize) ==> remaining' == remaining && victims' == victims
    ensures ShardLoop(dicts, shardID, size, maxSize, victims0, skipped0, rest - {key}, victims', remaining', order', skipped')
  {
    var dict := dicts[shardID];
    if Over(remaining, maxSize) {
      Take(dicts, shardID, key, size, maxSize, victims, remaining, order);
      order' := order + [(shardID, key)];
      remaining' := remaining - dict[key].cap;
      victims' := victims[shardID := victims[shardID][key := dict[key]]];
      skipped' := skipped;
    } else {
      victims', remaining', order', skipped' := victims, remaining, order, true;
    }
  }

  /** Taking one more entry keeps the selection's invariants. */
  lemma Take(dicts: seq<map<Key, Bytes>>, shardID: nat, key: Key, size: int, maxSize: int,
             victims: seq<map<Key, Bytes>>, remaining: int, order: seq<(nat, Key)>)
    requires shardID < |dicts| && key in dicts[shardID]
    requires SubMaps(victims, dicts) && key !in victims[shardID]
    requires Lists(order, victims)
    requires remaining == size - CapSum(order, dicts)
    requires SelectedWhileOver(order, dicts, size, maxSize)
    requires Over(remaining, maxSize)
    ensures SubMaps(victims[shardID := victims[shardID][key := dicts[shardID][key]]], dicts)
    ensures Lists(order + [(shardID, key)], victims[shardID := victims[shardID][key := dicts[shardID][key]]])
    ensures remaining - dicts[shardID][key].cap == size - CapSum(order + [(shardID, key)], dicts)
    ensures SelectedWhileOver(order + [(shardID, key)], dicts, size, maxSize)
  {
    TakeSubMaps(shardID, key, victims, dicts);
    TakeLists(shardID, key, dicts[shardID][key], victims, order);
    TakeOrder(dicts, (shardID, key), size, maxSize, order);
  }

  lemma TakeSubMaps(shardID: nat, key: Key, victims: seq<map<Key, Bytes>>, dicts: seq<map<Key, Bytes>>)
    requires shardID < |dicts| && key in dicts[shardID]
    requires SubMaps(victims, dicts)
    ensures SubMaps(victims[shardID := victims[shardID][key := dicts[shardID][key]]], dicts)
  {
    var v := victims[shardID := victims[shardID][key := dicts[shardID][key]]];
    forall i, k | 0 <= i < |v| && k in v[i]
      ensures k in dicts[i] && v[i][k] == dicts[i][k]
    {
      if i != shardID || k != key {
        assert k in victims[i];
      }
    }
  }

  lemma TakeLists(shardID: nat, key: Key, value: Bytes, victims: seq<map<Key, Bytes>>, order: seq<(nat, Key)>)
    requires shardID < |victims| && key !in victims[shardID]
    requires Lists(order, victims)
    ensures Lists(order + [(shardID, key)], victims[shardID := victims[shardID][key := value]])
  {
    assert (shardID, key) !in order;
  }

  lemma TakeOrder(dicts: seq<map<Key, Bytes>>, p: (nat, Key), size: int, maxSize: int, order: seq<(nat, Key)>)
    requires SelectedWhileOver(order, dicts, size, maxSize)
    requires Over(size - CapSum(order, dicts), maxSize)
    ensures CapSum(order + [p], dicts) == CapSum(order, dicts) + CapOf(dicts, p)
    ensures SelectedWhileOver(order + [p], dicts, size, maxSize)
  {
    var order' := order + [p];
    assert order'[..|order|] == order;
    forall j | 0 <= j < |order'|
      ensures Over(size - CapSum(order'[..j], dicts), maxSize)
    {
      if j < |order| {
        assert order'[..j] == order[..j];
      }
    }
  }

  /** The part of the Server that tryEvict reads and changes: the eviction
      options and the shards' dictionaries. */
  class ShardedServer {
    var policy: int
    var maxOffHeapSize: int
    var dicts: seq<map<Key, Bytes>>

    constructor (policy: int, maxOffHeapSize: int, dicts: seq<map<Key, Bytes>>)
      ensures this.policy == policy && this.maxOffHeapSize == maxOffHeapSize && this.dicts == dicts
    {
      this.policy := policy;
      this.maxOffHeapSize := maxOffHeapSize;
      this.dicts := dicts;
    }

    /** tryEvict, with the usage counter `offHeapSize` as a parameter:
        nothing happens unless the pass is triggered; when it is, the
        victims chosen by the selection pass are deleted from their shards
        and nothing else changes. */
    method TryEvict(offHeapSize: int) returns (ghost victims: seq<map<Key, Bytes>>, ghost remaining: int, ghost order: seq<(nat, Key)>)
      modifies this
      ensures policy == old(policy) && maxOffHeapSize == old(maxOffHeapSize)
      ensures !Triggered(policy, maxOffHeapSize, offHeapSize) ==> dicts == old(dicts)
      ensures Triggered(policy, maxOffHeapSize, offHeapSize) ==>
        && Selection(old(dicts), offHeapSize, maxOffHeapSize, victims, remaining, order)
        && dicts == Evicted(old(dicts), victims)
    {
      victims, remaining, order := seq(|dicts|, _ => map[]), offHeapSize, [];
      if policy == NoEviction {
        return;
      } else if policy == VolatileRandom {
        if maxOffHeapSize <= 0 {
          return;
        }
        if !Over(offHeapSize, maxOffHeapSize) {
          return;
        }
        var keysToDelete, size, o := SelectVictims(dicts, offHeapSize, maxOffHeapSize);
        victims, remaining, order := keysToDelete, size, o;
        DeleteVictims(keysToDelete);
      }
    }

    /** The deletion loop: every victim is deleted from the shard it was
        found in; a key already gone is a no-op. */
    method DeleteVictims(keysToDelete: seq<map<Key, Bytes>>)
      requires |keysToDelete| == |dicts|
      modifies this
      ensures policy == old(policy) && maxOffHeapSize == old(maxOffHeapSize)
      ensures dicts == Evicted(old(dicts), keysToDelete)
    {
      ghost var d0 := dicts;
      var i := 0;
      while i < |keysToDelete|
        invariant 0 <= i <= |keysToDelete| == |dicts| == |d0|
        invariant policy == old(policy) && maxOffHeapSize == old(maxOffHeapSize)
        invariant forall j :: 0 <= j < i ==> dicts[j] == d0[j] - keysToDelete[j].Keys
        invariant forall j :: i <= j < |dicts| ==> dicts[j] == d0[j]
      {
        DeleteFromShard(i, keysToDelete[i].Keys);
        i := i + 1;
      }
      assert dicts == Evicted(d0, keysToDelete);
    }

    /** delKey for each key of one shard's victims, in any order. */
    method DeleteFromShard(i: nat, keys: set<Key>)
      requires i < |dicts|
      modifies this
      ensures policy == old(policy) && maxOffHeapSize == old(maxOffHeapSize)
      ensures dicts == old(dicts)[i := old(dicts)[i] - keys]
    {
      var rest := keys;
      ghost var done: set<Key> := {};
      assert old(dicts)[i] - done == old(dicts)[i];
      while rest != {}
        invariant rest + done == keys
        invariant policy == old(policy) && maxOffHeapSize == old(maxOffHeapSize)
        invariant dicts == old(dicts)[i := old(dicts)[i] - done]
        decreases |rest|
      {
        var key :| key in rest;
        assert old(dicts)[i] - done - {key} == old(dicts)[i] - (done + {key});
        dicts := dicts[i := dicts[i] - {key}];
        rest := rest - {key};
        done := done + {key};
      }
      assert done == keys;
    }
  }

  /** Removing the last victim from the selection would leave the estimate
      at or above the threshold: the pass takes no victim past the first
      that brings the estimate below it. */
  lemma LastVictimNeeded(dicts: seq<map<Key, Bytes>>, size: int, maxSize: int,
                         victims: seq<map<Key, Bytes>>, remaining: int, order: seq<(nat, Key)>)
    requires Selection(dicts, size, maxSize, victims, remaining, order)
    requires |order| > 0
    ensures Over(remaining + CapOf(dicts, order[|order| - 1]), maxSize)
  {
    var j := |order| - 1;
    assert Over(size - CapSum(order[..j], dicts), maxSize);
  }

  /** With no negative capacities the estimate never grows. */
  lemma EstimateBound(dicts: seq<map<Key, Bytes>>, size: int, maxSize: int,
                      victims: seq<map<Key, Bytes>>, remaining: int, order: seq<(nat, Key)>)
    requires Selection(dicts, size, maxSize, victims, remaining, order)
    requires forall i, k :: 0 <= i < |dicts| && k in dicts[i] ==> dicts[i][k].cap >= 0
    ensures remaining <= size
  {
    CapSumNonNegative(order, dicts);
  }

  /** Capacities that are never negative add up to a non-negative sum. */
  lemma {:induction false} CapSumNonNegative(order: seq<(nat, Key)>, dicts: seq<map<Key, Bytes>>)
    requires forall i, k :: 0 <= i < |dicts| && k in dicts[i] ==> dicts[i][k].cap >= 0
    ensures CapSum(order, dicts) >= 0
  {
    if order != [] {
      CapSumNonNegative(order[..|order| - 1], dicts);
    }
  }

  /** Nothing but the victims is lost: each evicted shard together with
      its victims is the shard as it was. */
  lemma EvictedRestores(dicts: seq<map<Key, Bytes>>, victims: seq<map<Key, Bytes>>)
    requires SubMaps(victims, dicts)
    ensures forall i :: 0 <= i < |dicts| ==> Evicted(dicts, victims)[i] + victims[i] == dicts[i]
  {
    var r := Evicted(dicts, victims);
    forall i | 0 <= i < |dicts|
      ensures r[i] + victims[i] == dicts[i]
    {
      assert (r[i] + victims[i]).Keys == dicts[i].Keys;
    }
  }
}
