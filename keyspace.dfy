/** The server's key space as values: the `dict` of stored values and the
    `expire` map of deadlines (Unix milliseconds), and what each command of
    the protocol does to them and writes back. The current time `now` is a
    parameter. The `Server` class carries out these transitions in place. */
module KeySpace {
  import opened GoTypes
  import Strconv
  import Intset

  type Key = seq<byte>

  /** The values a key may hold: an int64 (a `set` argument that parses as
      one), the raw argument bytes otherwise, a list (its elements in push
      order) or an integer set. */
  datatype Stored =
    | IntValue(i: int64)
    | RawValue(bytes: seq<byte>)
    | ListValue(items: seq<seq<byte>>)
    | SetValue(members: Intset.Set)

  datatype Db = Db(dict: map<Key, Stored>, expire: map<Key, int>)

  /** What a command writes back to its client. */
  datatype Reply =
    | OK                                  // "OK"
    | Found(value: Stored)                // get: the value, rendered by its type
    | Integer(n: int)                     // del's 0 or 1, len, and the sizes after push, sadd, sdel, slen
    | Popped(item: seq<byte>, size: int)  // pop: the value and the list's new size
    | KeyNotFound
    | InvalidDelta
    | NotAList
    | EmptyList
    | ValueTooBig
    | NotASet
    | InvalidExpireTime
    | InvalidCommand
    | Silent                              // nothing is written to the client

  /** Every stored integer set holds only values of its element type, and
      no value twice. */
  predicate Valid(db: Db)
  {
    forall k :: k in db.dict && db.dict[k].SetValue? ==>
      Intset.Valid(db.dict[k].members) && Intset.NoDuplicates(db.dict[k].members)
  }

  /** The key's deadline has been reached. */
  predicate Expired(db: Db, key: Key, now: int)
  {
    key in db.expire && now >= db.expire[key]
  }

  /** The key space with `key` gone from both maps. */
  function Purge(db: Db, key: Key): Db
  {
    Db(db.dict - {key}, db.expire - {key})
  }

  /** getKey: the value of a live key; a key whose deadline has been reached
      is purged from both maps and reported absent. */
  function GetKey(db: Db, key: Key, now: int): (Option<Stored>, Db)
  {
    if key !in db.dict then (None, db)
    else if Expired(db, key, now) then (None, Purge(db, key))
    else (Some(db.dict[key]), db)
  }

  /** What `set` stores for its argument: the int64 it parses as, else the bytes. */
  function SetValueOf(value: seq<byte>): Stored
  {
    match Strconv.ParseInt(value)
    case Some(i) => IntValue(i)
    case None => RawValue(value)
  }

  /** set: stores the value, leaving any deadline the key had in place. */
  function Set(db: Db, key: Key, value: seq<byte>): Db
  {
    Db(db.dict[key := SetValueOf(value)], db.expire)
  }

  /** get: the live value, or "key not found". */
  function Get(db: Db, key: Key, now: int): (Reply, Db)
  {
    var (v, db') := GetKey(db, key, now);
    match v
    case None => (KeyNotFound, db')
    case Some(x) => (Found(x), db')
  }

  /** del: looks at `dict` only (a deadline is not consulted and survives). */
  function Del(db: Db, key: Key): (Reply, Db)
  {
    if key !in db.dict then (Integer(0), db)
    else (Integer(1), Db(db.dict - {key}, db.expire))
  }

  /** incr: adds a decimal int64 delta to a stored int64 with wrap-around. */
  function Incr(db: Db, key: Key, delta: seq<byte>): (Reply, Db)
  {
    match Strconv.ParseInt(delta)
    case None => (InvalidDelta, db)
    case Some(d) =>
      if key !in db.dict then (KeyNotFound, db)
      else if !db.dict[key].IntValue? then (Silent, db)
      else (OK, Db(db.dict[key := IntValue(Wrap64(db.dict[key].i + d))], db.expire))
  }

  /** push/rpush: appends to the key's list, creating it for an absent key. */
  function Push(db: Db, key: Key, value: seq<byte>): (Reply, Db)
  {
    if key !in db.dict then (Integer(1), Db(db.dict[key := ListValue([value])], db.expire))
    else if !db.dict[key].ListValue? then (NotAList, db)
    else
      var items := db.dict[key].items + [value];
      (Integer(|items|), Db(db.dict[key := ListValue(items)], db.expire))
  }

  /** pop/rpop: removes and returns the last element of the key's list; an
      emptied list stays stored. */
  function Pop(db: Db, key: Key): (Reply, Db)
  {
    if key !in db.dict then (KeyNotFound, db)
    else if !db.dict[key].ListValue? then (NotAList, db)
    else if db.dict[key].items == [] then (EmptyList, db)
    else
      var items := db.dict[key].items;
      var n := |items| - 1;
      (Popped(items[n], n), Db(db.dict[key := ListValue(items[..n])], db.expire))
  }

  /** len: the size of the key's list. */
  function Len(db: Db, key: Key): Reply
  {
    if key !in db.dict then KeyNotFound
    else if !db.dict[key].ListValue? then NotAList
    else Integer(|db.dict[key].items|)
  }

  /** The big-endian value of up to eight bytes. */
  function BigEndianValue(s: seq<byte>): nat
  {
    if s == [] then 0 else 0x100 * BigEndianValue(s[..|s| - 1]) + s[|s| - 1]
  }

  /** The int64 a set member stands for: its decimal value when it parses as
      one, else its bytes zero-padded on the left to eight and read big-endian;
      a longer member panics on the negative padding. */
  function MemberValue(value: seq<byte>): Result<int64>
  {
    match Strconv.ParseInt(value)
    case Some(i) => Ok(i)
    case None =>
      if |value| > 8 then Panic
      else Ok(Wrap64(BigEndianValue(Zeros(8 - |value|) + value)))
  }

  /** sadd: adds the member to the key's set, creating it for an absent key. */
  function Sadd(db: Db, key: Key, value: seq<byte>, argc: nat): Result<(Reply, Db)>
    requires Valid(db)
  {
    if argc > 8 then Ok((ValueTooBig, db))
    else match MemberValue(value)
      case Panic => Panic
      case Ok(v) =>
        if key !in db.dict then Ok((Integer(1), Db(db.dict[key := SetValue(Intset.CreateIntset(v))], db.expire)))
        else if !db.dict[key].SetValue? then Ok((NotASet, db))
        else
          var s := Intset.IntsetAdd(db.dict[key].members, v);
          Ok((Integer(Intset.SizeOfIntset(s)), Db(db.dict[key := SetValue(s)], db.expire)))
  }

  /** sdel: removes the member from the key's set; a member that is not there
      panics (intsetRemove indexes past the end). */
  function Sdel(db: Db, key: Key, value: seq<byte>, argc: nat): Result<(Reply, Db)>
  {
    if argc > 8 then Ok((ValueTooBig, db))
    else match MemberValue(value)
      case Panic => Panic
      case Ok(v) =>
        if key !in db.dict then Ok((KeyNotFound, db))
        else if !db.dict[key].SetValue? then Ok((NotASet, db))
        else
          var s := db.dict[key].members;
          if Intset.Truncate(s.enc, v) !in s.elems then Panic
          else
            var s' := Intset.IntsetDel(s, v);
            Ok((Integer(Intset.SizeOfIntset(s')), Db(db.dict[key := SetValue(s')], db.expire)))
  }

  /** slen: the size of the key's set. */
  function Slen(db: Db, key: Key): Reply
  {
    if key !in db.dict then KeyNotFound
    else if !db.dict[key].SetValue? then NotASet
    else Integer(Intset.SizeOfIntset(db.dict[key].members))
  }

  /** The deadline `now + ms` milliseconds as time.Now().Add(Duration(ms) *
      time.Millisecond).UnixMilli() computes it: the duration in nanoseconds
      wraps around as an int64, and is then rounded down to milliseconds. */
  function Deadline(now: int, ms: int64): int
  {
    now + Wrap64(ms * 1_000_000) / 1_000_000
  }

  /** expire: arms a deadline on a live key; the key is looked up with
      getKey, so an expired key is purged and reported absent. */
  function Expire(db: Db, key: Key, ttl: seq<byte>, now: int): (Reply, Db)
  {
    match Strconv.ParseInt(ttl)
    case None => (InvalidExpireTime, db)
    case Some(ms) =>
      var (v, db') := GetKey(db, key, now);
      if v.None? then (KeyNotFound, db')
      else (Silent, Db(db'.dict, db'.expire[key := Deadline(now, ms)]))
  }

  /** A command line, split into its words: the command name and the
      arguments each case reads (sadd and sdel also look at the word count). */
  datatype Command =
    | SetCmd(key: Key, value: seq<byte>)
    | GetCmd(key: Key)
    | DelCmd(key: Key)
    | IncrCmd(key: Key, value: seq<byte>)
    | PushCmd(key: Key, value: seq<byte>)
    | PopCmd(key: Key)
    | LenCmd(key: Key)
    | SaddCmd(key: Key, value: seq<byte>, argc: nat)
    | SdelCmd(key: Key, value: seq<byte>, argc: nat)
    | SlenCmd(key: Key)
    | ExpireCmd(key: Key, value: seq<byte>)
    | UnknownCmd

  const SET: seq<byte> := [0x73, 0x65, 0x74]
  const GET: seq<byte> := [0x67, 0x65, 0x74]
  const DEL: seq<byte> := [0x64, 0x65, 0x6C]
  const INCR: seq<byte> := [0x69, 0x6E, 0x63, 0x72]
  const PUSH: seq<byte> := [0x70, 0x75, 0x73, 0x68]
  const RPUSH: seq<byte> := [0x72, 0x70, 0x75, 0x73, 0x68]
  const POP: seq<byte> := [0x70, 0x6F, 0x70]
  const RPOP: seq<byte> := [0x72, 0x70, 0x6F, 0x70]
  const LEN: seq<byte> := [0x6C, 0x65, 0x6E]
  const SADD: seq<byte> := [0x73, 0x61, 0x64, 0x64]
  const SDEL: seq<byte> := [0x73, 0x64, 0x65, 0x6C]
  const SLEN: seq<byte> := [0x73, 0x6C, 0x65, 0x6E]
  const EXPIRE: seq<byte> := [0x65, 0x78, 0x70, 0x69, 0x72, 0x65]

  /** How many words a command name needs before its case can read them all. */
  function Arity(name: seq<byte>): nat
  {
    if name in {SET, INCR, PUSH, RPUSH, SADD, SDEL, EXPIRE} then 3
    else if name in {GET, DEL, POP, RPOP, LEN, SLEN} then 2
    else 1
  }

  /** The switch on args[0]: a known command with too few words panics when
      its case indexes the missing argument. */
  function ParseCommand(args: seq<seq<byte>>): (r: Result<Command>)
    requires |args| >= 1
    ensures r.Panic? <==> |args| < Arity(args[0])
    ensures r.Ok? && r.value.UnknownCmd? <==> Arity(args[0]) == 1
  {
    var name := args[0];
    if |args| < Arity(name) then Panic
    else if name == SET then Ok(SetCmd(args[1], args[2]))
    else if name == GET then Ok(GetCmd(args[1]))
    else if name == DEL then Ok(DelCmd(args[1]))
    else if name == INCR then Ok(IncrCmd(args[1], args[2]))
    else if name == PUSH || name == RPUSH then Ok(PushCmd(args[1], args[2]))
    else if name == POP || name == RPOP then Ok(PopCmd(args[1]))
    else if name == LEN then Ok(LenCmd(args[1]))
    else if name == SADD then Ok(SaddCmd(args[1], args[2], |args|))
    else if name == SDEL then Ok(SdelCmd(args[1], args[2], |args|))
    else if name == SLEN then Ok(SlenCmd(args[1]))
    else if name == EXPIRE then Ok(ExpireCmd(args[1], args[2]))
    else Ok(UnknownCmd)
  }

  /** processCommand: the reply and the new key space, or a panic. */
  function Apply(db: Db, cmd: Command, now: int): Result<(Reply, Db)>
    requires Valid(db)
  {
    match cmd
    case SetCmd(key, value) => Ok((OK, Set(db, key, value)))
    case GetCmd(key) => Ok(Get(db, key, now))
    case DelCmd(key) => Ok(Del(db, key))
    case IncrCmd(key, delta) => Ok(Incr(db, key, delta))
    case PushCmd(key, value) => Ok(Push(db, key, value))
    case PopCmd(key) => Ok(Pop(db, key))
    case LenCmd(key) => Ok((Len(db, key), db))
    case SaddCmd(key, value, argc) => Sadd(db, key, value, argc)
    case SdelCmd(key, value, argc) => Sdel(db, key, value, argc)
    case SlenCmd(key) => Ok((Slen(db, key), db))
    case ExpireCmd(key, ttl) => Ok(Expire(db, key, ttl, now))
    case UnknownCmd => Ok((InvalidCommand, db))
  }

  /** Every command keeps every stored set well typed and duplicate-free. */
  lemma ApplyPreservesValid(db: Db, cmd: Command, now: int)
    requires Valid(db)
    ensures Apply(db, cmd, now).Ok? ==> Valid(Apply(db, cmd, now).value.1)
  {
    match cmd
    case SaddCmd(key, value, argc) => SaddKeepsValid(db, key, value, argc);
    case SdelCmd(key, value, argc) => SdelKeepsValid(db, key, value, argc);
    case _ =>
  }

  lemma SaddKeepsValid(db: Db, key: Key, value: seq<byte>, argc: nat)
    requires Valid(db)
    ensures Sadd(db, key, value, argc).Ok? ==> Valid(Sadd(db, key, value, argc).value.1)
  {
  }

  lemma SdelKeepsValid(db: Db, key: Key, value: seq<byte>, argc: nat)
    requires Valid(db)
    ensures Sdel(db, key, value, argc).Ok? ==> Valid(Sdel(db, key, value, argc).value.1)
  {
    if argc <= 8 && MemberValue(value).Ok? && key in db.dict && db.dict[key].SetValue? {
      var s := db.dict[key].members;
      var v := MemberValue(value).value;
      if Intset.Truncate(s.enc, v) in s.elems {
        Intset.IntsetDelTruncated(s, v);
      }
    }
  }

  /** The sizes that sadd, sdel and slen reply are the member counts of the
      key's set after the command. */
  lemma SetRepliesCount(db: Db, cmd: Command, now: int)
    requires Valid(db)
    requires cmd.SaddCmd? || cmd.SdelCmd? || cmd.SlenCmd?
    requires Apply(db, cmd, now).Ok? && Apply(db, cmd, now).value.0.Integer?
    ensures var db' := Apply(db, cmd, now).value.1;
      && cmd.key in db'.dict && db'.dict[cmd.key].SetValue?
      && Apply(db, cmd, now).value.0.n == |Intset.Members(db'.dict[cmd.key].members)|
  {
    ApplyPreservesValid(db, cmd, now);
  }

  /** getKey returns a value only for a key that is present and has not
      reached its deadline, and then changes nothing; when it reports the key
      absent, the key is gone from `dict`, and from `expire` too when it was
      in `dict`. No other key is touched. */
  lemma GetKeyLive(db: Db, key: Key, now: int)
    ensures GetKey(db, key, now).0.Some? <==> key in db.dict && !Expired(db, key, now)
    ensures GetKey(db, key, now).0.Some? ==>
      GetKey(db, key, now).0.value == db.dict[key] && GetKey(db, key, now).1 == db
    ensures GetKey(db, key, now).0.None? ==> key !in GetKey(db, key, now).1.dict
    ensures GetKey(db, key, now).0.None? && key in db.dict ==> key !in GetKey(db, key, now).1.expire
    ensures GetKey(db, key, now).1.dict - {key} == db.dict - {key}
    ensures GetKey(db, key, now).1.expire - {key} == db.expire - {key}
  {
  }

  /** Looking a key up twice at the same time is looking it up once. */
  lemma GetKeyIdempotent(db: Db, key: Key, now: int)
    ensures GetKey(GetKey(db, key, now).1, key, now) == GetKey(db, key, now)
  {
  }

  /** set of a formatted int64 stores that int64. */
  lemma SetFormattedInteger(db: Db, key: Key, v: int64)
    ensures Set(db, key, Strconv.FormatInt(v)).dict[key] == IntValue(v)
  {
    Strconv.ParseIntFormatInt(v);
  }

  /** get after set finds the stored value unless the key's old deadline has
      passed: set does not clear a deadline, so an expired key set anew is
      still expired and is purged by get. */
  lemma SetThenGet(db: Db, key: Key, value: seq<byte>, now: int)
    ensures Get(Set(db, key, value), key, now).0 ==
      if Expired(db, key, now) then KeyNotFound else Found(SetValueOf(value))
  {
  }

  /** del reports 1 exactly when the key was stored, removes it from `dict`
      only, and get then finds nothing. */
  lemma DelThenGet(db: Db, key: Key, now: int)
    ensures Del(db, key).0 == Integer(if key in db.dict then 1 else 0)
    ensures Del(db, key).1.dict == db.dict - {key} && Del(db, key).1.expire == db.expire
    ensures Get(Del(db, key).1, key, now).0 == KeyNotFound
  {
  }

  /** incr changes the key space only when the delta parses and the key holds
      an int64; then the key holds the wrapped sum and nothing else changes. */
  lemma IncrAdds(db: Db, key: Key, delta: seq<byte>)
    ensures Incr(db, key, delta).1 != db ==>
      Strconv.ParseInt(delta).Some? && key in db.dict && db.dict[key].IntValue?
    ensures Strconv.ParseInt(delta).Some? && key in db.dict && db.dict[key].IntValue? ==>
      && Incr(db, key, delta) == (OK, Incr(db, key, delta).1)
      && Incr(db, key, delta).1.dict == db.dict[key := IntValue(Wrap64(db.dict[key].i + Strconv.ParseInt(delta).value))]
      && Incr(db, key, delta).1.expire == db.expire
  {
  }

  /** incr by a formatted int64 on a stored int64: the wrapped sum. */
  lemma IncrByFormatted(db: Db, key: Key, i: int64, d: int64)
    requires key in db.dict && db.dict[key] == IntValue(i)
    ensures Incr(db, key, Strconv.FormatInt(d)).1.dict[key] == IntValue(Wrap64(i + d))
  {
    Strconv.ParseIntFormatInt(d);
  }

  /** A pop right after a push returns the pushed value; on a key that held
      a list the key space is back to what it was, on an absent key an empty
      list is left behind. */
  lemma PushThenPop(db: Db, key: Key, value: seq<byte>)
    requires key !in db.dict || db.dict[key].ListValue?
    ensures var n := if key in db.dict then |db.dict[key].items| else 0;
      Pop(Push(db, key, value).1, key).0 == Popped(value, n)
    ensures key in db.dict ==> Pop(Push(db, key, value).1, key).1 == db
    ensures key !in db.dict ==> Pop(Push(db, key, value).1, key).1 == Db(db.dict[key := ListValue([])], db.expire)
  {
    if key in db.dict {
      var items := db.dict[key].items;
      assert (items + [value])[..|items|] == items;
      assert db.dict[key := ListValue(items)] == db.dict;
    }
  }

  /** push grows the list by one and reports its new size. */
  lemma PushAppends(db: Db, key: Key, value: seq<byte>)
    requires key !in db.dict || db.dict[key].ListValue?
    ensures var items := if key in db.dict then db.dict[key].items else [];
      && Push(db, key, value).1.dict[key] == ListValue(items + [value])
      && Push(db, key, value).0 == Integer(|items| + 1)
      && Len(Push(db, key, value).1, key) == Integer(|items| + 1)
  {
  }

  /** expire on a key whose deadline has passed purges it instead of arming
      a new deadline. */
  lemma ExpireDoesNotRearm(db: Db, key: Key, ttl: seq<byte>, now: int)
    requires Strconv.ParseInt(ttl).Some? && key in db.dict && Expired(db, key, now)
    ensures Expire(db, key, ttl, now) == (KeyNotFound, Purge(db, key))
  {
  }

  /** A duration that fits int64 nanoseconds gives the exact deadline now + ms. */
  lemma DeadlineExact(now: int, ms: int64)
    requires -9_223_372_036_854 <= ms <= 9_223_372_036_854
    ensures Deadline(now, ms) == now + ms
  {
    assert -Two63 <= ms * 1_000_000 < Two63;
  }

  /** A longer duration wraps around: 9223372036855 ms from now lies in the past. */
  lemma DeadlineWraps(now: int)
    ensures Deadline(now, 9_223_372_036_855) < now
  {
    assert Wrap64(9_223_372_036_855 * 1_000_000) == 9_223_372_036_855_000_000 - Two64;
  }

  /** expire on a live key arms the deadline now + ms: the key is still live
      until then and expired from then on. */
  lemma ExpireThenGet(db: Db, key: Key, ms: int64, now: int, later: int)
    requires key in db.dict && !Expired(db, key, now)
    requires 0 <= ms <= 9_223_372_036_854
    ensures var db' := Expire(db, key, Strconv.FormatInt(ms), now).1;
      && db'.dict == db.dict
      && (GetKey(db', key, later).0.Some? <==> later < now + ms)
  {
    Strconv.ParseIntFormatInt(ms);
    DeadlineExact(now, ms);
  }

  /** Zeros on the left do not change a big-endian value. */
  lemma {:induction false} BigEndianZeros(n: nat, s: seq<byte>)
    ensures BigEndianValue(Zeros(n) + s) == BigEndianValue(s)
    decreases |s|
  {
    if s == [] {
      BigEndianAllZeros(n);
      assert Zeros(n) + s == Zeros(n);
    } else {
      var t := Zeros(n) + s;
      assert t[..|t| - 1] == Zeros(n) + s[..|s| - 1];
      BigEndianZeros(n, s[..|s| - 1]);
    }
  }

  lemma {:induction false} BigEndianAllZeros(n: nat)
    ensures BigEndianValue(Zeros(n)) == 0
  {
    if n > 0 {
      assert Zeros(n)[..n - 1] == Zeros(n - 1);
      BigEndianAllZeros(n - 1);
    }
  }

  /** A member that is not a decimal int64 and has at most eight bytes stands
      for its own bytes read big-endian. Members that differ only in leading
      zero bytes therefore stand for the same element (`MemberLeadingZero`). */
  lemma MemberValueOfBytes(value: seq<byte>)
    requires Strconv.ParseInt(value).None? && |value| <= 8
    ensures MemberValue(value) == Ok(Wrap64(BigEndianValue(value)))
  {
    BigEndianZeros(8 - |value|, value);
  }

  /** The zero padding hides leading zero bytes: "a" and "\x00a" are both
      the set element 97. */
  lemma MemberLeadingZero()
    ensures MemberValue([0x61]) == MemberValue([0x00, 0x61]) == Ok(0x61)
  {
    MemberValueOfBytes([0x61]);
    MemberValueOfBytes([0x00, 0x61]);
  }

  /** sadd of a new member then sdel of it leaves the set's members as they were. */
  lemma SaddThenSdel(db: Db, key: Key, value: seq<byte>, argc: nat)
    requires Valid(db) && argc <= 8 && MemberValue(value).Ok?
    requires key in db.dict && db.dict[key].SetValue?
    requires MemberValue(value).value !in db.dict[key].members.elems
    ensures Sadd(db, key, value, argc).Ok?
    ensures var db1 := Sadd(db, key, value, argc).value.1;
      && Sdel(db1, key, value, argc).Ok?
      && var db2 := Sdel(db1, key, value, argc).value.1;
      && db2.dict[key].SetValue?
      && Intset.Members(db2.dict[key].members) == Intset.Members(db.dict[key].members)
  {
    var v := MemberValue(value).value;
    var s := db.dict[key].members;
    var s1 := Intset.IntsetAdd(s, v);
    var db1 := Db(db.dict[key := SetValue(s1)], db.expire);
    assert Sadd(db, key, value, argc) == Ok((Integer(Intset.SizeOfIntset(s1)), db1));
    assert s1.elems == s.elems + [v];
    Intset.IntsetDelMembers(s1, v);
    var s2 := Intset.IntsetDel(s1, v);
    assert Sdel(db1, key, value, argc) == Ok((Integer(Intset.SizeOfIntset(s2)), Db(db1.dict[key := SetValue(s2)], db1.expire)));
    assert Intset.Members(s2) == Intset.Members(s);
  }
}
