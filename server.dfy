/** The server's state: the `dict` and `expire` maps that every command
    updates in place, the lazy expiry of getKey, and the batched active
    expiry of pruneExpiredKeys. */
module Server {
  import opened GoTypes
  import opened KeySpace
  import Strconv
  import Intset

  /** One pass of pruneExpiredKeys over `dict` in Go's map order (any order):
      the counter stops the pass before a 20th key is examined; the keys
      examined whose deadline has been reached are collected, each once. */
  method CollectExpired(dict: map<Key, Stored>, expire: map<Key, int>, now: int)
    returns (deletedKeys: seq<Key>, ghost examined: set<Key>)
    ensures examined <= dict.Keys
    ensures |examined| == Min(|dict.Keys|, 19)
    ensures forall k :: k in deletedKeys <==> k in examined && Expired(Db(dict, expire), k, now)
    ensures Distinct(deletedKeys)
  {
    deletedKeys := [];
    examined := {};
    var counter := 0;
    var remaining := dict.Keys;
    while remaining != {}
      invariant remaining == dict.Keys - examined && examined <= dict.Keys
      invariant |remaining| + |examined| == |dict.Keys|
      invariant counter == |examined| < 20
      invariant forall k :: k in deletedKeys <==> k in examined && Expired(Db(dict, expire), k, now)
      invariant Distinct(deletedKeys)
      decreases remaining
    {
      var key :| key in remaining;
      counter := counter + 1;
      if counter >= 20 {
        break;
      }
      remaining := remaining - {key};
      examined := examined + {key};
      if key in expire && now >= expire[key] {
        DistinctSnoc(deletedKeys, key);
        deletedKeys := deletedKeys + [key];
      }
    }
  }

  /** No key occurs twice. */
  predicate Distinct(keys: seq<Key>)
  {
    forall i, j :: 0 <= i < j < |keys| ==> keys[i] != keys[j]
  }

  lemma DistinctSnoc(keys: seq<Key>, k: Key)
    requires Distinct(keys) && k !in keys
    ensures Distinct(keys + [k])
  {
  }

  lemma DistinctPrefix(keys: seq<Key>, i: nat)
    requires Distinct(keys) && i < |keys|
    ensures keys[i] !in keys[..i]
    ensures keys[..i + 1] == keys[..i] + [keys[i]]
  {
  }

  /** The keys a sequence holds. */
  function KeySet(keys: seq<Key>): set<Key>
  {
    set k | k in keys
  }

  class Server {
    var dict: map<Key, Stored>
    var expire: map<Key, int>

    /** The key space the two maps hold. */
    function State(): Db
      reads this
    {
      Db(dict, expire)
    }

    /** The maps NewServer makes. */
    constructor ()
      ensures State() == Db(map[], map[])
    {
      dict := map[];
      expire := map[];
    }

    /** getKey, with the current time passed in. */
    method GetKey(key: Key, now: int) returns (value: Option<Stored>)
      modifies this
      ensures (value, State()) == KeySpace.GetKey(old(State()), key, now)
    {
      if key !in dict {
        return None;
      }
      if key in expire && now >= expire[key] {
        dict := dict - {key};
        expire := expire - {key};
        return None;
      }
      return Some(dict[key]);
    }

    /** processCommand, without the rendering of replies: a command that
        panics changes nothing; otherwise the reply and the new maps are the
        ones the key space model gives. */
    method ProcessCommand(cmd: Command, now: int) returns (r: Result<Reply>)
      requires Valid(State())
      modifies this
      ensures r.Panic? <==> Apply(old(State()), cmd, now).Panic?
      ensures r.Panic? ==> State() == old(State())
      ensures r.Ok? ==> (r.value, State()) == Apply(old(State()), cmd, now).value
      ensures r.Ok? ==> Valid(State())
    {
      ApplyPreservesValid(State(), cmd, now);
      match cmd {
        case SetCmd(key, value) =>
          SetKey(key, value);
          r := Ok(OK);
        case GetCmd(key) =>
          var value := GetKey(key, now);
          r := Ok(if value.None? then KeyNotFound else Found(value.value));
        case DelCmd(key) =>
          var reply := DelKey(key);
          r := Ok(reply);
        case IncrCmd(key, delta) =>
          var reply := IncrKey(key, delta);
          r := Ok(reply);
        case PushCmd(key, value) =>
          var reply := PushKey(key, value);
          r := Ok(reply);
        case PopCmd(key) =>
          var reply := PopKey(key);
          r := Ok(reply);
        case LenCmd(key) =>
          r := Ok(Len(State(), key));
        case SaddCmd(key, value, argc) =>
          r := SaddKey(key, value, argc);
        case SdelCmd(key, value, argc) =>
          r := SdelKey(key, value, argc);
        case SlenCmd(key) =>
          r := Ok(Slen(State(), key));
        case ExpireCmd(key, ttl) =>
          var reply := ExpireKey(key, ttl, now);
          r := Ok(reply);
        case UnknownCmd =>
          r := Ok(InvalidCommand);
      }
    }

    /** The set case. */
    method SetKey(key: Key, value: seq<byte>)
      modifies this
      ensures State() == Set(old(State()), key, value)
    {
      match Strconv.ParseInt(value) {
        case Some(i64) => dict := dict[key := IntValue(i64)];
        case None => dict := dict[key := RawValue(value)];
      }
    }

    /** The del case. */
    method DelKey(key: Key) returns (reply: Reply)
      modifies this
      ensures (reply, State()) == Del(old(State()), key)
    {
      if key !in dict {
        return Integer(0);
      }
      dict := dict - {key};
      reply := Integer(1);
    }

    /** The incr case. */
    method IncrKey(key: Key, value: seq<byte>) returns (reply: Reply)
      modifies this
      ensures (reply, State()) == Incr(old(State()), key, value)
    {
      var delta := Strconv.ParseInt(value);
      if delta.None? {
        return InvalidDelta;
      }
      if key !in dict {
        return KeyNotFound;
      }
      if !dict[key].IntValue? {
        return Silent;
      }
      dict := dict[key := IntValue(Wrap64(dict[key].i + delta.value))];
      reply := OK;
    }

    /** The push and rpush case. */
    method PushKey(key: Key, value: seq<byte>) returns (reply: Reply)
      modifies this
      ensures (reply, State()) == Push(old(State()), key, value)
    {
      if key !in dict {
        dict := dict[key := ListValue([])];
      } else if !dict[key].ListValue? {
        return NotAList;
      }
      var items := dict[key].items + [value];
      assert key !in old(dict) ==> items == [value] && dict[key := ListValue(items)] == old(dict)[key := ListValue(items)];
      dict := dict[key := ListValue(items)];
      reply := Integer(|items|);
    }

    /** The pop and rpop case. */
    method PopKey(key: Key) returns (reply: Reply)
      modifies this
      ensures (reply, State()) == Pop(old(State()), key)
    {
      if key !in dict {
        return KeyNotFound;
      }
      if !dict[key].ListValue? {
        return NotAList;
      }
      var items := dict[key].items;
      if items == [] {
        return EmptyList;
      }
      dict := dict[key := ListValue(items[..|items| - 1])];
      reply := Popped(items[|items| - 1], |items| - 1);
    }

    /** The sadd case. */
    method SaddKey(key: Key, value: seq<byte>, argc: nat) returns (r: Result<Reply>)
      requires Valid(State())
      modifies this
      ensures r.Panic? <==> Sadd(old(State()), key, value, argc).Panic?
      ensures r.Panic? ==> State() == old(State())
      ensures r.Ok? ==> (r.value, State()) == Sadd(old(State()), key, value, argc).value
    {
      if argc > 8 {
        return Ok(ValueTooBig);
      }
      var member := MemberValue(value);
      if member.Panic? {
        return Panic;
      }
      if key !in dict {
        dict := dict[key := SetValue(Intset.CreateIntset(member.value))];
        return Ok(Integer(1));
      }
      if !dict[key].SetValue? {
        return Ok(NotASet);
      }
      var s := Intset.IntsetAdd(dict[key].members, member.value);
      dict := dict[key := SetValue(s)];
      r := Ok(Integer(Intset.SizeOfIntset(s)));
    }

    /** The sdel case. */
    method SdelKey(key: Key, value: seq<byte>, argc: nat) returns (r: Result<Reply>)
      modifies this
      ensures r.Panic? <==> Sdel(old(State()), key, value, argc).Panic?
      ensures r.Panic? ==> State() == old(State())
      ensures r.Ok? ==> (r.value, State()) == Sdel(old(State()), key, value, argc).value
    {
      if argc > 8 {
        return Ok(ValueTooBig);
      }
      var member := MemberValue(value);
      if member.Panic? {
        return Panic;
      }
      if key !in dict {
        return Ok(KeyNotFound);
      }
      if !dict[key].SetValue? {
        return Ok(NotASet);
      }
      var s := dict[key].members;
      if Intset.Truncate(s.enc, member.value) !in s.elems {
        return Panic;
      }
      s := Intset.IntsetDel(s, member.value);
      dict := dict[key := SetValue(s)];
      r := Ok(Integer(Intset.SizeOfIntset(s)));
    }

    /** The expire case. */
    method ExpireKey(key: Key, ttl: seq<byte>, now: int) returns (reply: Reply)
      modifies this
      ensures (reply, State()) == Expire(old(State()), key, ttl, now)
    {
      var ms := Strconv.ParseInt(ttl);
      if ms.None? {
        return InvalidExpireTime;
      }
      var value := GetKey(key, now);
      if value.None? {
        return KeyNotFound;
      }
      expire := expire[key := Deadline(now, ms.value)];
      reply := Silent;
    }

    /** pruneExpiredKeys: deletes, from both maps, the expired keys among at
        most 19 examined, and goes on with another pass while a pass deletes
        at least 5; only keys whose deadline has been reached are removed.
        `examined` and `first` are the keys the first pass examined and
        deleted; `removed` is what the whole sweep deleted. */
    method PruneExpiredKeys(now: int) returns (ghost removed: set<Key>, ghost examined: set<Key>, ghost first: set<Key>)
      modifies this
      ensures examined <= old(dict).Keys
      ensures |examined| == Min(|old(dict).Keys|, 19)
      ensures forall k :: k in first <==> k in examined && Expired(old(State()), k, now)
      ensures first <= removed
      ensures |first| < 5 ==> removed == first
      ensures removed <= old(dict).Keys
      ensures forall k :: k in removed ==> Expired(old(State()), k, now)
      ensures dict == old(dict) - removed && expire == old(expire) - removed
      decreases |dict.Keys|
    {
      var deletedKeys;
      deletedKeys, examined := CollectExpired(dict, expire, now);
      removed := DeleteKeys(deletedKeys);
      first := removed;
      if |deletedKeys| >= 5 {
        ghost var more, _, _ := PruneExpiredKeys(now);
        SubtractUnion(old(dict), removed, more);
        SubtractUnion(old(expire), removed, more);
        removed := removed + more;
      }
    }

    /** The deletion loop of a pass: each collected key leaves both maps. */
    method DeleteKeys(deletedKeys: seq<Key>) returns (ghost removed: set<Key>)
      requires forall k :: k in deletedKeys ==> k in dict
      requires Distinct(deletedKeys)
      modifies this
      ensures removed == KeySet(deletedKeys)
      ensures dict == old(dict) - removed && expire == old(expire) - removed
      ensures |dict.Keys| == |old(dict).Keys| - |deletedKeys|
      ensures |removed| == |deletedKeys|
    {
      var i := 0;
      while i < |deletedKeys|
        invariant 0 <= i <= |deletedKeys|
        invariant dict == old(dict) - KeySet(deletedKeys[..i])
        invariant expire == old(expire) - KeySet(deletedKeys[..i])
        invariant |dict.Keys| == |old(dict).Keys| - i
        invariant |KeySet(deletedKeys[..i])| == i
      {
        DeleteStep(old(dict), old(expire), deletedKeys, i, dict, expire);
        dict := dict - {deletedKeys[i]};
        expire := expire - {deletedKeys[i]};
        i := i + 1;
      }
      assert deletedKeys[..i] == deletedKeys;
      removed := KeySet(deletedKeys);
    }
  }

  /** One turn of the deletion loop, on the maps' values. */
  lemma DeleteStep(d0: map<Key, Stored>, e0: map<Key, int>, keys: seq<Key>, i: nat,
                   d: map<Key, Stored>, e: map<Key, int>)
    requires Distinct(keys) && i < |keys| && forall k :: k in keys ==> k in d0
    requires d == d0 - KeySet(keys[..i]) && e == e0 - KeySet(keys[..i])
    requires |d.Keys| == |d0.Keys| - i
    requires |KeySet(keys[..i])| == i
    ensures d - {keys[i]} == d0 - KeySet(keys[..i + 1])
    ensures e - {keys[i]} == e0 - KeySet(keys[..i + 1])
    ensures |(d - {keys[i]}).Keys| == |d0.Keys| - (i + 1)
    ensures |KeySet(keys[..i + 1])| == i + 1
  {
    KeySetSnoc(keys, i);
    SubtractStep(d0, KeySet(keys[..i]), keys[i]);
    SubtractStep(e0, KeySet(keys[..i]), keys[i]);
    KeysRemove(d, keys[i]);
  }

  /** The next key of a duplicate-free sequence is not among those before it. */
  lemma KeySetSnoc(keys: seq<Key>, i: nat)
    requires Distinct(keys) && i < |keys|
    ensures keys[i] !in KeySet(keys[..i])
    ensures KeySet(keys[..i + 1]) == KeySet(keys[..i]) + {keys[i]}
  {
    DistinctPrefix(keys, i);
  }

  /** Removing a present key from a map leaves one key fewer. */
  lemma KeysRemove<V>(m: map<Key, V>, k: Key)
    requires k in m
    ensures |(m - {k}).Keys| == |m.Keys| - 1
  {
    assert (m - {k}).Keys == m.Keys - {k};
  }

  /** Removing one more key is removing the larger set. */
  lemma SubtractStep<V>(m: map<Key, V>, a: set<Key>, k: Key)
    ensures (m - a) - {k} == m - (a + {k})
  {
  }

  /** Removing two sets one after the other is removing their union. */
  lemma SubtractUnion<V>(m: map<Key, V>, a: set<Key>, b: set<Key>)
    ensures (m - a) - b == m - (a + b)
  {
  }
}
