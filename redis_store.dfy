/** The key-value store the repository talks to, reduced to what its commands do to one logical
    database: a map from key to a string, hash, list, set or sorted-set value. Each command is a
    function from the keyspace to a result; a command that fails changes nothing. The commands
    follow the Redis command reference: a key holding another kind of value gives WRONGTYPE, a
    missing key reads as an empty value, and an aggregate that becomes empty is removed. */
module RedisStore {
  import opened Outcomes
  import opened DotNet
  import opened Sequences

  datatype Value =
    | Str(number: Int64)
    | Hash(fields: map<string, Int64>)
    | List(items: seq<string>)
    | Set(members: set<Int64>)
    | ZSet(scores: map<string, int>)

  type Keyspace = map<string, Value>

  /** The keyspace after a command and the command's reply. */
  datatype Written<+T> = Written(ks: Keyspace, reply: T)

  datatype SetOperation = Union | Intersect | Difference

  predicate NonEmpty(v: Value) {
    match v
    case Str(_) => true
    case Hash(f) => f != map[]
    case List(s) => s != []
    case Set(m) => m != {}
    case ZSet(z) => z != map[]
  }

  /** The store never keeps an empty hash, list, set or sorted set under a key. */
  predicate WellFormed(ks: Keyspace) {
    forall k | k in ks :: NonEmpty(ks[k])
  }

  // ----- reading a key as one kind -----

  function StringAt(ks: Keyspace, key: string): Option<Int64> {
    if key in ks && ks[key].Str? then Some(ks[key].number) else None
  }

  function HashAt(ks: Keyspace, key: string): map<string, Int64> {
    if key in ks && ks[key].Hash? then ks[key].fields else map[]
  }

  function ListAt(ks: Keyspace, key: string): seq<string> {
    if key in ks && ks[key].List? then ks[key].items else []
  }

  function SetAt(ks: Keyspace, key: string): set<Int64> {
    if key in ks && ks[key].Set? then ks[key].members else {}
  }

  function ZSetAt(ks: Keyspace, key: string): map<string, int> {
    if key in ks && ks[key].ZSet? then ks[key].scores else map[]
  }

  predicate IsStrOrAbsent(ks: Keyspace, key: string) { key !in ks || ks[key].Str? }
  predicate IsHashOrAbsent(ks: Keyspace, key: string) { key !in ks || ks[key].Hash? }
  predicate IsListOrAbsent(ks: Keyspace, key: string) { key !in ks || ks[key].List? }
  predicate IsSetOrAbsent(ks: Keyspace, key: string) { key !in ks || ks[key].Set? }
  predicate IsZSetOrAbsent(ks: Keyspace, key: string) { key !in ks || ks[key].ZSet? }

  /** Stores an aggregate under `key`, or removes the key when the aggregate is empty. */
  function Put(ks: Keyspace, key: string, v: Value): (r: Keyspace)
    ensures r - {key} == ks - {key}
    ensures NonEmpty(v) ==> r == ks[key := v]
    ensures !NonEmpty(v) ==> key !in r
    ensures WellFormed(ks) ==> WellFormed(r)
  {
    if NonEmpty(v) then ks[key := v] else ks - {key}
  }

  // ----- strings and keys -----

  /** GET key. */
  function Get(ks: Keyspace, key: string): (r: Result<Option<Int64>>)
    ensures r.Err? <==> !IsStrOrAbsent(ks, key)
    ensures r.Err? ==> r == Err(WrongType)
    ensures r.Ok? ==> r.value == StringAt(ks, key)
  {
    if key !in ks then Ok(None)
    else match ks[key]
      case Str(n) => Ok(Some(n))
      case _ => Err(WrongType)
  }

  /** SET key value: replaces whatever the key held, whatever its kind. */
  function SetString(ks: Keyspace, key: string, n: Int64): (r: Keyspace)
    ensures StringAt(r, key) == Some(n)
    ensures r - {key} == ks - {key}
    ensures WellFormed(ks) ==> WellFormed(r)
  {
    ks[key := Str(n)]
  }

  /** MGET key...: one reply per key, in order; nil for a key that is missing or that holds
      another kind of value (MGET never answers WRONGTYPE). */
  function MGet(ks: Keyspace, keys: seq<string>): (r: seq<Option<Int64>>)
    ensures |r| == |keys|
    ensures forall i :: 0 <= i < |keys| ==> r[i] == StringAt(ks, keys[i])
  {
    if keys == [] then [] else MGet(ks, keys[..|keys| - 1]) + [StringAt(ks, keys[|keys| - 1])]
  }

  /** INCRBY key delta (DECRBY is INCRBY of the negated delta): a missing key counts as 0 and
      the sum must stay within a signed 64-bit integer. */
  function IncrBy(ks: Keyspace, key: string, delta: int): (r: Result<Written<Int64>>)
    ensures r.Err? <==> (key in ks && !ks[key].Str?)
                        || !IsInt64((if key in ks && ks[key].Str? then ks[key].number else 0) + delta)
    ensures r.Ok? ==> r.value.reply == (if key in ks then ks[key].number else 0) + delta
    ensures r.Ok? ==> r.value.ks == SetString(ks, key, r.value.reply)
    ensures r.Ok? && WellFormed(ks) ==> WellFormed(r.value.ks)
  {
    var base := if key in ks then ks[key] else Str(0);
    match base
    case Str(n) =>
      if IsInt64(n + delta) then Ok(Written(ks[key := Str(n + delta)], n + delta)) else Err(Overflow)
    case _ => Err(WrongType)
  }

  /** DECRBY key decrement: a decrement of the minimum 64-bit integer, whose negation does not
      fit, is refused before the key is looked at; any other is INCRBY of its negation. */
  function DecrBy(ks: Keyspace, key: string, decrement: Int64): (r: Result<Written<Int64>>)
    ensures decrement == -0x8000_0000_0000_0000 ==> r == Err(Overflow)
    ensures decrement != -0x8000_0000_0000_0000 ==> r == IncrBy(ks, key, -decrement)
  {
    if decrement == -0x8000_0000_0000_0000 then Err(Overflow) else IncrBy(ks, key, -decrement)
  }

  /** The client's StringIncrement: a non-negative change goes out as INCRBY, a negative one as
      DECRBY of its unchecked negation. Only the minimum `long`, which negates to itself, is
      refused; every other change increments as INCRBY would. */
  function ClientIncrBy(ks: Keyspace, key: string, change: Int64): (r: Result<Written<Int64>>)
    ensures change == -0x8000_0000_0000_0000 ==> r == Err(Overflow)
    ensures change != -0x8000_0000_0000_0000 ==> r == IncrBy(ks, key, change)
  {
    if change >= 0 then IncrBy(ks, key, change) else DecrBy(ks, key, Negate64(change))
  }

  /** DEL key. */
  function Del(ks: Keyspace, key: string): (r: Keyspace)
    ensures key !in r && r - {key} == ks - {key}
    ensures WellFormed(ks) ==> WellFormed(r)
  {
    ks - {key}
  }

  /** PEXPIRE key milliseconds, reduced to what the model keeps (no clock): the reply says
      whether the key exists, and a timeout that is not positive deletes the key at once. */
  function Expire(ks: Keyspace, key: string, milliseconds: int): (r: Written<bool>)
    ensures r.reply <==> key in ks
    ensures r.ks == if key in ks && milliseconds <= 0 then Del(ks, key) else ks
  {
    if key !in ks then Written(ks, false)
    else if milliseconds <= 0 then Written(ks - {key}, true)
    else Written(ks, true)
  }

  // ----- hashes -----

  /** HSET key field value ...: sets the given fields and keeps the others. */
  function HSet(ks: Keyspace, key: string, entries: map<string, Int64>): (r: Result<Keyspace>)
    ensures r.Err? <==> entries == map[] || !IsHashOrAbsent(ks, key)
    ensures r.Ok? ==> r.value - {key} == ks - {key}
    ensures r.Ok? ==> key in r.value && r.value[key].Hash? && HashAt(r.value, key).Keys == HashAt(ks, key).Keys + entries.Keys
    ensures r.Ok? ==> forall f :: f in entries ==> HashAt(r.value, key)[f] == entries[f]
    ensures r.Ok? ==> forall f :: f in HashAt(ks, key) && f !in entries ==> HashAt(r.value, key)[f] == HashAt(ks, key)[f]
    ensures r.Ok? && WellFormed(ks) ==> WellFormed(r.value)
  {
    if entries == map[] then Err(WrongArity)
    else if !IsHashOrAbsent(ks, key) then Err(WrongType)
    else Ok(ks[key := Hash(HashAt(ks, key) + entries)])
  }

  /** HINCRBY key field delta: a missing field counts as 0; the sum must stay within 64 bits. */
  function HIncrBy(ks: Keyspace, key: string, field: string, delta: int): (r: Result<Written<Int64>>)
    ensures var prior := if field in HashAt(ks, key) then HashAt(ks, key)[field] else 0;
      && (r.Err? <==> !IsHashOrAbsent(ks, key) || !IsInt64(prior + delta))
      && (r.Ok? ==> r.value.reply == prior + delta
                    && r.value.ks == ks[key := Hash(HashAt(ks, key)[field := prior + delta])])
    ensures r.Ok? && WellFormed(ks) ==> WellFormed(r.value.ks)
  {
    if !IsHashOrAbsent(ks, key) then Err(WrongType)
    else
      var h := HashAt(ks, key);
      var n := (if field in h then h[field] else 0) + delta;
      if IsInt64(n) then Ok(Written(ks[key := Hash(h[field := n])], n)) else Err(Overflow)
  }

  /** HGETALL key. */
  function HGetAll(ks: Keyspace, key: string): (r: Result<map<string, Int64>>)
    ensures r.Err? <==> !IsHashOrAbsent(ks, key)
    ensures r.Err? ==> r == Err(WrongType)
    ensures r.Ok? ==> r.value == HashAt(ks, key)
  {
    if IsHashOrAbsent(ks, key) then Ok(HashAt(ks, key)) else Err(WrongType)
  }

  /** HGET key field. */
  function HGet(ks: Keyspace, key: string, field: string): (r: Result<Option<Int64>>)
    ensures r.Err? <==> !IsHashOrAbsent(ks, key)
    ensures r.Ok? ==> (r.value.Some? <==> field in HashAt(ks, key))
    ensures r.Ok? && r.value.Some? ==> r.value.value == HashAt(ks, key)[field]
  {
    if !IsHashOrAbsent(ks, key) then Err(WrongType)
    else if field in HashAt(ks, key) then Ok(Some(HashAt(ks, key)[field]))
    else Ok(None)
  }

  // ----- lists -----

  /** Inserts the values at the head one after the other, as LPUSH does. */
  function PushEachLeft(list: seq<string>, values: seq<string>): (r: seq<string>)
    ensures |r| == |list| + |values|
    ensures forall i :: 0 <= i < |values| ==> r[i] == values[|values| - 1 - i]
    ensures r[|values|..] == list
    decreases |values|
  {
    if values == [] then list else PushEachLeft([values[0]] + list, values[1..])
  }

  /** Appends the values at the tail one after the other, as RPUSH does. */
  function PushEachRight(list: seq<string>, values: seq<string>): (r: seq<string>)
    ensures r == list + values
    decreases |values|
  {
    if values == [] then list
    else
      assert list + values == (list + [values[0]]) + values[1..];
      PushEachRight(list + [values[0]], values[1..])
  }

  /** LPUSH key value...: the reply is the new length. */
  function LPush(ks: Keyspace, key: string, values: seq<string>): (r: Result<Written<int>>)
    ensures r.Err? <==> values == [] || !IsListOrAbsent(ks, key)
    ensures r.Ok? ==> r.value.ks - {key} == ks - {key} && key in r.value.ks
    ensures r.Ok? ==> ListAt(r.value.ks, key) == PushEachLeft(ListAt(ks, key), values)
    ensures r.Ok? ==> r.value.reply == |ListAt(ks, key)| + |values|
    ensures r.Ok? && WellFormed(ks) ==> WellFormed(r.value.ks)
  {
    if values == [] then Err(WrongArity)
    else if !IsListOrAbsent(ks, key) then Err(WrongType)
    else
      var l := PushEachLeft(ListAt(ks, key), values);
      Ok(Written(ks[key := List(l)], |l|))
  }

  /** RPUSH key value...: the reply is the new length. */
  function RPush(ks: Keyspace, key: string, values: seq<string>): (r: Result<Written<int>>)
    ensures r.Err? <==> values == [] || !IsListOrAbsent(ks, key)
    ensures r.Ok? ==> r.value.ks - {key} == ks - {key} && key in r.value.ks
    ensures r.Ok? ==> ListAt(r.value.ks, key) == ListAt(ks, key) + values
    ensures r.Ok? ==> r.value.reply == |ListAt(ks, key)| + |values|
    ensures r.Ok? && WellFormed(ks) ==> WellFormed(r.value.ks)
  {
    if values == [] then Err(WrongArity)
    else if !IsListOrAbsent(ks, key) then Err(WrongType)
    else
      var l := PushEachRight(ListAt(ks, key), values);
      Ok(Written(ks[key := List(l)], |l|))
  }

  /** LINDEX key index: 0 is the head, -1 the tail; nil outside the list. */
  function LIndex(ks: Keyspace, key: string, index: int): (r: Result<Option<string>>)
    ensures r.Err? <==> !IsListOrAbsent(ks, key)
    ensures r.Ok? ==> var l := ListAt(ks, key);
      && (r.value.Some? <==> -|l| <= index < |l|)
      && (r.value.Some? && index >= 0 ==> r.value.value == l[index])
      && (r.value.Some? && index < 0 ==> r.value.value == l[|l| + index])
  {
    if !IsListOrAbsent(ks, key) then Err(WrongType)
    else
      var l := ListAt(ks, key);
      var i := if index < 0 then |l| + index else index;
      if 0 <= i < |l| then Ok(Some(l[i])) else Ok(None)
  }

  /** LINSERT key BEFORE|AFTER pivot value: inserts next to the first element equal to the
      pivot. The reply is the new length, 0 for a missing key and -1 when no element matches;
      in both of those cases nothing changes. */
  function LInsert(ks: Keyspace, key: string, after: bool, pivot: string, value: string): (r: Result<Written<int>>)
    ensures r.Err? <==> !IsListOrAbsent(ks, key)
    ensures r.Ok? && key !in ks ==> r.value == Written(ks, 0)
    ensures r.Ok? && key in ks && pivot !in ListAt(ks, key) ==> r.value == Written(ks, -1)
    ensures r.Ok? && pivot in ListAt(ks, key) ==>
      var l := ListAt(ks, key);
      exists i :: 0 <= i < |l| && l[i] == pivot && pivot !in l[..i]
        && ListAt(r.value.ks, key) == (var j := if after then i + 1 else i; l[..j] + [value] + l[j..])
        && r.value.reply == |l| + 1
    ensures r.Ok? ==> r.value.ks - {key} == ks - {key}
    ensures r.Ok? && WellFormed(ks) ==> WellFormed(r.value.ks)
  {
    if !IsListOrAbsent(ks, key) then Err(WrongType)
    else if key !in ks then Ok(Written(ks, 0))
    else
      var l := ListAt(ks, key);
      match IndexOf(l, pivot)
      case None => Ok(Written(ks, -1))
      case Some(i) =>
        assert pivot !in l[..i];
        var j := if after then i + 1 else i;
        Ok(Written(ks[key := List(l[..j] + [value] + l[j..])], |l| + 1))
  }

  /** LRANGE key 0 -1: the whole list. */
  function LRangeAll(ks: Keyspace, key: string): (r: Result<seq<string>>)
    ensures r.Err? <==> !IsListOrAbsent(ks, key)
    ensures r.Ok? ==> r.value == ListAt(ks, key)
  {
    if IsListOrAbsent(ks, key) then Ok(ListAt(ks, key)) else Err(WrongType)
  }

  /** LREM key 0 value: removes every element equal to the value; the reply is how many. */
  function LRemAll(ks: Keyspace, key: string, value: string): (r: Result<Written<int>>)
    ensures r.Err? <==> !IsListOrAbsent(ks, key)
    ensures r.Ok? ==> value !in ListAt(r.value.ks, key)
    ensures r.Ok? ==> multiset(ListAt(r.value.ks, key)) == multiset(ListAt(ks, key))[value := 0]
    ensures r.Ok? ==> r.value.reply == multiset(ListAt(ks, key))[value]
    ensures r.Ok? ==> r.value.ks - {key} == ks - {key}
    ensures r.Ok? && WellFormed(ks) ==> WellFormed(r.value.ks)
  {
    if !IsListOrAbsent(ks, key) then Err(WrongType)
    else if key !in ks then Ok(Written(ks, 0))
    else
      var l := ListAt(ks, key);
      var kept := RemoveAll(l, value);
      Ok(Written(Put(ks, key, List(kept)), |l| - |kept|))
  }

  /** LPOP key: removes and returns the head; nil for an empty or missing list. */
  function LPop(ks: Keyspace, key: string): (r: Result<Written<Option<string>>>)
    ensures r.Err? <==> !IsListOrAbsent(ks, key)
    ensures r.Ok? ==> (r.value.reply.None? <==> ListAt(ks, key) == [])
    ensures r.Ok? && r.value.reply.None? ==> r.value.ks == ks
    ensures r.Ok? && r.value.reply.Some? ==>
      && r.value.reply.value == ListAt(ks, key)[0]
      && ListAt(r.value.ks, key) == ListAt(ks, key)[1..]
    ensures r.Ok? ==> r.value.ks - {key} == ks - {key}
    ensures r.Ok? && WellFormed(ks) ==> WellFormed(r.value.ks)
  {
    if !IsListOrAbsent(ks, key) then Err(WrongType)
    else
      var l := ListAt(ks, key);
      if l == [] then Ok(Written(ks, None))
      else Ok(Written(Put(ks, key, List(l[1..])), Some(l[0])))
  }

  /** RPOP key: removes and returns the tail; nil for an empty or missing list. */
  function RPop(ks: Keyspace, key: string): (r: Result<Written<Option<string>>>)
    ensures r.Err? <==> !IsListOrAbsent(ks, key)
    ensures r.Ok? ==> (r.value.reply.None? <==> ListAt(ks, key) == [])
    ensures r.Ok? && r.value.reply.None? ==> r.value.ks == ks
    ensures r.Ok? && r.value.reply.Some? ==>
      var l := ListAt(ks, key);
      && r.value.reply.value == l[|l| - 1]
      && ListAt(r.value.ks, key) == l[..|l| - 1]
    ensures r.Ok? ==> r.value.ks - {key} == ks - {key}
    ensures r.Ok? && WellFormed(ks) ==> WellFormed(r.value.ks)
  {
    if !IsListOrAbsent(ks, key) then Err(WrongType)
    else
      var l := ListAt(ks, key);
      if l == [] then Ok(Written(ks, None))
      else Ok(Written(Put(ks, key, List(l[..|l| - 1])), Some(l[|l| - 1])))
  }

  /** LLEN key. */
  function LLen(ks: Keyspace, key: string): (r: Result<int>)
    ensures r.Err? <==> !IsListOrAbsent(ks, key)
    ensures r.Ok? ==> r.value == |ListAt(ks, key)|
  {
    if IsListOrAbsent(ks, key) then Ok(|ListAt(ks, key)|) else Err(WrongType)
  }

  /** RPOPLPUSH source destination: pops the tail of the source and pushes it at the head of
      the destination, atomically. A missing source gives nil and changes nothing, before the
      destination is looked at; a destination of another kind gives WRONGTYPE. */
  function RPopLPush(ks: Keyspace, src: string, dst: string): (r: Result<Written<Option<string>>>)
    ensures r.Err? <==> !IsListOrAbsent(ks, src) || (ListAt(ks, src) != [] && !IsListOrAbsent(ks, dst))
    ensures r.Ok? ==> (r.value.reply.None? <==> ListAt(ks, src) == [])
    ensures r.Ok? && r.value.reply.None? ==> r.value.ks == ks
    ensures r.Ok? && r.value.reply.Some? ==>
      var l := ListAt(ks, src);
      var x := l[|l| - 1];
      && r.value.reply.value == x
      && (src != dst ==> ListAt(r.value.ks, src) == l[..|l| - 1]
                         && ListAt(r.value.ks, dst) == [x] + ListAt(ks, dst))
      && (src == dst ==> ListAt(r.value.ks, src) == [x] + l[..|l| - 1])
    ensures r.Ok? ==> r.value.ks - {src, dst} == ks - {src, dst}
    ensures r.Ok? && WellFormed(ks) ==> WellFormed(r.value.ks)
  {
    if !IsListOrAbsent(ks, src) then Err(WrongType)
    else
      var l := ListAt(ks, src);
      if l == [] then Ok(Written(ks, None))
      else if !IsListOrAbsent(ks, dst) then Err(WrongType)
      else
        var x := l[|l| - 1];
        var popped := Put(ks, src, List(l[..|l| - 1]));
        Ok(Written(popped[dst := List([x] + ListAt(popped, dst))], Some(x)))
  }

  // ----- sets -----

  /** SADD key member...: the reply is the number of members that were not there before. */
  function SAdd(ks: Keyspace, key: string, members: seq<Int64>): (r: Result<Written<int>>)
    ensures r.Err? <==> members == [] || !IsSetOrAbsent(ks, key)
    ensures r.Ok? ==> SetAt(r.value.ks, key) == SetAt(ks, key) + set m | m in members
    ensures r.Ok? ==> r.value.reply == |(set m | m in members) - SetAt(ks, key)|
    ensures r.Ok? ==> r.value.ks - {key} == ks - {key} && key in r.value.ks
    ensures r.Ok? && WellFormed(ks) ==> WellFormed(r.value.ks)
  {
    if members == [] then Err(WrongArity)
    else if !IsSetOrAbsent(ks, key) then Err(WrongType)
    else
      var added := set m | m in members;
      assert members[0] in added;
      Ok(Written(ks[key := Set(SetAt(ks, key) + added)], |added - SetAt(ks, key)|))
  }

  /** SREM key member...: the reply is the number of members that were removed. */
  function SRem(ks: Keyspace, key: string, members: seq<Int64>): (r: Result<Written<int>>)
    ensures r.Err? <==> members == [] || !IsSetOrAbsent(ks, key)
    ensures r.Ok? ==> SetAt(r.value.ks, key) == SetAt(ks, key) - set m | m in members
    ensures r.Ok? ==> r.value.reply == |SetAt(ks, key) * set m | m in members|
    ensures r.Ok? ==> r.value.ks - {key} == ks - {key}
    ensures r.Ok? && WellFormed(ks) ==> WellFormed(r.value.ks)
  {
    if members == [] then Err(WrongArity)
    else if !IsSetOrAbsent(ks, key) then Err(WrongType)
    else if key !in ks then Ok(Written(ks, 0))
    else
      var removed := set m | m in members;
      Ok(Written(Put(ks, key, Set(SetAt(ks, key) - removed)), |SetAt(ks, key) * removed|))
  }

  /** SISMEMBER key member. */
  function SIsMember(ks: Keyspace, key: string, m: Int64): (r: Result<bool>)
    ensures r.Err? <==> !IsSetOrAbsent(ks, key)
    ensures r.Ok? ==> (r.value <==> m in SetAt(ks, key))
  {
    if IsSetOrAbsent(ks, key) then Ok(m in SetAt(ks, key)) else Err(WrongType)
  }

  /** SMEMBERS key. */
  function SMembers(ks: Keyspace, key: string): (r: Result<set<Int64>>)
    ensures r.Err? <==> !IsSetOrAbsent(ks, key)
    ensures r.Ok? ==> r.value == SetAt(ks, key)
  {
    if IsSetOrAbsent(ks, key) then Ok(SetAt(ks, key)) else Err(WrongType)
  }

  /** SMOVE source destination member. A missing source answers 0 before any type check; then
      either key holding another kind gives WRONGTYPE; moving within one set changes nothing. */
  function SMove(ks: Keyspace, src: string, dst: string, m: Int64): (r: Result<Written<bool>>)
    ensures r.Err? <==> src in ks && (!ks[src].Set? || !IsSetOrAbsent(ks, dst))
    ensures r.Ok? ==> (r.value.reply <==> m in SetAt(ks, src))
    ensures r.Ok? && (src == dst || !r.value.reply) ==> r.value.ks == ks
    ensures r.Ok? && src != dst && r.value.reply ==>
      && SetAt(r.value.ks, src) == SetAt(ks, src) - {m}
      && SetAt(r.value.ks, dst) == SetAt(ks, dst) + {m}
    ensures r.Ok? ==> r.value.ks - {src, dst} == ks - {src, dst}
    ensures r.Ok? && WellFormed(ks) ==> WellFormed(r.value.ks)
  {
    if src !in ks then Ok(Written(ks, false))
    else if !ks[src].Set? || !IsSetOrAbsent(ks, dst) then Err(WrongType)
    else if src == dst then Ok(Written(ks, m in SetAt(ks, src)))
    else if m !in SetAt(ks, src) then Ok(Written(ks, false))
    else
      var removed := Put(ks, src, Set(SetAt(ks, src) - {m}));
      Ok(Written(removed[dst := Set(SetAt(removed, dst) + {m})], true))
  }

  /** The sets stored under the keys, a missing key read as empty; WRONGTYPE if any key holds
      another kind of value. */
  function SetsAt(ks: Keyspace, keys: seq<string>): (r: Result<seq<set<Int64>>>)
    ensures r.Err? <==> exists i :: 0 <= i < |keys| && !IsSetOrAbsent(ks, keys[i])
    ensures r.Ok? ==> |r.value| == |keys| && forall i :: 0 <= i < |keys| ==> r.value[i] == SetAt(ks, keys[i])
  {
    if keys == [] then Ok([])
    else
      var last := keys[|keys| - 1];
      match SetsAt(ks, keys[..|keys| - 1])
      case Err(e) => Err(e)
      case Ok(front) => if IsSetOrAbsent(ks, last) then Ok(front + [SetAt(ks, last)]) else Err(WrongType)
  }

  function UnionOf(sets: seq<set<Int64>>): (r: set<Int64>)
    ensures forall x :: x in r <==> exists i :: 0 <= i < |sets| && x in sets[i]
  {
    if sets == [] then {} else UnionOf(sets[..|sets| - 1]) + sets[|sets| - 1]
  }

  function IntersectionOf(sets: seq<set<Int64>>): (r: set<Int64>)
    requires |sets| >= 1
    ensures forall x :: x in r <==> forall i :: 0 <= i < |sets| ==> x in sets[i]
  {
    if |sets| == 1 then sets[0] else IntersectionOf(sets[..|sets| - 1]) * sets[|sets| - 1]
  }

  /** The first set without the members of the others. */
  function DifferenceOf(sets: seq<set<Int64>>): (r: set<Int64>)
    requires |sets| >= 1
    ensures forall x :: x in r <==> x in sets[0] && forall i :: 1 <= i < |sets| ==> x !in sets[i]
  {
    var rest := UnionOf(sets[1..]);
    assert forall x :: x in rest <==> exists i :: 1 <= i < |sets| && x in sets[i] by {
      forall x ensures x in rest <==> exists i :: 1 <= i < |sets| && x in sets[i] {
        if x in rest {
          var j :| 0 <= j < |sets| - 1 && x in sets[1..][j];
          assert x in sets[j + 1];
        }
        if exists i :: 1 <= i < |sets| && x in sets[i] {
          var j :| 1 <= j < |sets| && x in sets[j];
          assert x in sets[1..][j - 1];
        }
      }
    }
    sets[0] - rest
  }

  function Combine(op: SetOperation, sets: seq<set<Int64>>): set<Int64>
    requires |sets| >= 1
  {
    match op
    case Union => UnionOf(sets)
    case Intersect => IntersectionOf(sets)
    case Difference => DifferenceOf(sets)
  }

  /** Over two sets the combinations are the plain union, intersection and difference. */
  lemma CombinePair(op: SetOperation, a: set<Int64>, b: set<Int64>)
    ensures Combine(op, [a, b]) == match op case Union => a + b case Intersect => a * b case Difference => a - b
  {
    var none: seq<set<Int64>> := [];
    assert [a, b][..1] == [a] && [a][..0] == none && [a, b][1..] == [b] && [b][..0] == none;
    assert UnionOf([a]) == a && UnionOf([b]) == b;
  }

  /** SUNION / SINTER / SDIFF key...: at least one key is needed. */
  function SCombine(ks: Keyspace, op: SetOperation, keys: seq<string>): (r: Result<set<Int64>>)
    ensures r.Err? <==> keys == [] || exists i :: 0 <= i < |keys| && !IsSetOrAbsent(ks, keys[i])
    ensures r.Ok? ==> |keys| >= 1 && r.value == Combine(op, SetsAt(ks, keys).value)
  {
    if keys == [] then Err(WrongArity)
    else match SetsAt(ks, keys)
      case Err(e) => Err(e)
      case Ok(sets) => Ok(Combine(op, sets))
  }

  /** SUNIONSTORE / SINTERSTORE / SDIFFSTORE destination key...: the destination is
      overwritten with the result, whatever it held, or removed when the result is empty; the
      reply is the size of the result. */
  function SCombineStore(ks: Keyspace, op: SetOperation, dst: string, keys: seq<string>): (r: Result<Written<int>>)
    ensures r.Err? <==> SCombine(ks, op, keys).Err?
    ensures r.Ok? ==> var s := SCombine(ks, op, keys).value;
      && SetAt(r.value.ks, dst) == s
      && (s == {} <==> dst !in r.value.ks)
      && r.value.reply == |s|
    ensures r.Ok? ==> r.value.ks - {dst} == ks - {dst}
    ensures r.Ok? && WellFormed(ks) ==> WellFormed(r.value.ks)
  {
    match SCombine(ks, op, keys)
    case Err(e) => Err(e)
    case Ok(s) =>
      var after := Put(ks, dst, Set(s));
      assert SetAt(after, dst) == s && (s == {} <==> dst !in after);
      Ok(Written(after, |s|))
  }

  /** SSCAN key MATCH <prefix>* iterated to the end: the members whose decimal text starts with
      the prefix. */
  function SScan(ks: Keyspace, key: string, prefix: string): (r: Result<set<Int64>>)
    ensures r.Err? <==> !IsSetOrAbsent(ks, key)
    ensures r.Ok? ==> forall x :: x in r.value <==> x in SetAt(ks, key) && IsPrefix(prefix, IntToString(x))
  {
    if IsSetOrAbsent(ks, key) then Ok(set x | x in SetAt(ks, key) && IsPrefix(prefix, IntToString(x)))
    else Err(WrongType)
  }

  // ----- sorted sets -----

  /** The member names of a ZADD argument list. */
  function Names(entries: seq<(string, int)>): set<string> {
    set e | e in entries :: e.0
  }

  /** Applies ZADD's member-score pairs in order: a later pair for the same member wins. */
  function ApplyScores(z: map<string, int>, entries: seq<(string, int)>): (r: map<string, int>)
    ensures r.Keys == z.Keys + Names(entries)
    ensures forall m :: m in z && m !in Names(entries) ==> r[m] == z[m]
  {
    if entries == [] then z
    else
      var front := entries[..|entries| - 1];
      var last := entries[|entries| - 1];
      assert Names(entries) == Names(front) + {last.0} by {
        assert entries == front + [last];
      }
      ApplyScores(z, front)[last.0 := last.1]
  }

  /** For a member named several times, the score of its last pair is the one kept. */
  lemma {:induction false} LastScoreWins(z: map<string, int>, entries: seq<(string, int)>, i: nat)
    requires i < |entries|
    requires forall j :: i < j < |entries| ==> entries[j].0 != entries[i].0
    ensures ApplyScores(z, entries)[entries[i].0] == entries[i].1
  {
    if i < |entries| - 1 {
      var front := entries[..|entries| - 1];
      assert entries[|entries| - 1].0 != entries[i].0;
      LastScoreWins(z, front, i);
    }
  }

  /** ZADD adds exactly the named members that were not there yet. */
  lemma ApplyScoresGrowth(z: map<string, int>, entries: seq<(string, int)>)
    ensures |ApplyScores(z, entries)| == |z| + |Names(entries) - z.Keys|
  {
    var r := ApplyScores(z, entries);
    var added := Names(entries) - z.Keys;
    assert r.Keys == z.Keys + added;
    assert z.Keys * added == {};
    assert |r.Keys| == |z.Keys| + |added|;
  }

  /** ZADD key score member...: the reply is the number of members added (not updated). */
  function ZAdd(ks: Keyspace, key: string, entries: seq<(string, int)>): (r: Result<Written<int>>)
    ensures r.Err? <==> entries == [] || !IsZSetOrAbsent(ks, key)
    ensures r.Ok? ==> ZSetAt(r.value.ks, key) == ApplyScores(ZSetAt(ks, key), entries)
    ensures r.Ok? ==> r.value.reply == |ZSetAt(r.value.ks, key)| - |ZSetAt(ks, key)|
    ensures r.Ok? ==> r.value.reply == |Names(entries) - ZSetAt(ks, key).Keys|
    ensures r.Ok? ==> r.value.ks - {key} == ks - {key} && key in r.value.ks
    ensures r.Ok? && WellFormed(ks) ==> WellFormed(r.value.ks)
  {
    if entries == [] then Err(WrongArity)
    else if !IsZSetOrAbsent(ks, key) then Err(WrongType)
    else
      var prior := ZSetAt(ks, key);
      var z := ApplyScores(prior, entries);
      ApplyScoresGrowth(prior, entries);
      assert z != map[] by { assert entries[0] in entries; assert entries[0].0 in Names(entries); }
      Ok(Written(ks[key := ZSet(z)], |z| - |prior|))
  }

  /** The scores a ZUNIONSTORE / ZINTERSTORE input contributes: a sorted set its own, a plain
      set a score of 1 per member (named by its decimal text), a missing key none. */
  function ScoresAt(ks: Keyspace, key: string): Option<map<string, int>> {
    if key !in ks then Some(map[])
    else match ks[key]
      case ZSet(z) => Some(z)
      case Set(s) => Some(map x | x in s :: IntToString(x) := 1)
      case _ => None
  }

  function ScoresOf(ks: Keyspace, keys: seq<string>): (r: Result<seq<map<string, int>>>)
    ensures r.Err? <==> exists i :: 0 <= i < |keys| && ScoresAt(ks, keys[i]).None?
    ensures r.Ok? ==> |r.value| == |keys| && forall i :: 0 <= i < |keys| ==> Some(r.value[i]) == ScoresAt(ks, keys[i])
  {
    if keys == [] then Ok([])
    else
      var last := keys[|keys| - 1];
      match ScoresOf(ks, keys[..|keys| - 1])
      case Err(e) => Err(e)
      case Ok(front) =>
        match ScoresAt(ks, last)
        case None => Err(WrongType)
        case Some(z) => Ok(front + [z])
  }

  /** The sum of a member's scores over the inputs that contain it (AGGREGATE SUM). */
  function ScoreSum(zs: seq<map<string, int>>, m: string): int {
    if zs == [] then 0
    else ScoreSum(zs[..|zs| - 1], m) + (if m in zs[|zs| - 1] then zs[|zs| - 1][m] else 0)
  }

  lemma {:induction false} ScoreSumAbsent(zs: seq<map<string, int>>, m: string)
    requires forall i :: 0 <= i < |zs| ==> m !in zs[i]
    ensures ScoreSum(zs, m) == 0
  {
    if zs != [] {
      ScoreSumAbsent(zs[..|zs| - 1], m);
    }
  }

  /** Over two inputs the sum is the member's score in each, where it has one. */
  lemma ScoreSumPair(a: map<string, int>, b: map<string, int>, m: string)
    ensures ScoreSum([a, b], m) == (if m in a then a[m] else 0) + (if m in b then b[m] else 0)
  {
    var none: seq<map<string, int>> := [];
    assert [a, b][..1] == [a] && [a][..0] == none;
    assert ScoreSum([a], m) == ScoreSum(none, m) + (if m in a then a[m] else 0);
    assert ScoreSum([a, b], m) == ScoreSum([a], m) + (if m in b then b[m] else 0);
  }

  /** ZUNIONSTORE ... AGGREGATE SUM: every member of any input, scored by its sum. */
  function UnionSum(zs: seq<map<string, int>>): (r: map<string, int>)
    ensures forall m :: m in r <==> exists i :: 0 <= i < |zs| && m in zs[i]
    ensures forall m :: m in r ==> r[m] == ScoreSum(zs, m)
  {
    if zs == [] then map[]
    else
      var front := UnionSum(zs[..|zs| - 1]);
      var last := zs[|zs| - 1];
      assert forall m :: m !in front ==> ScoreSum(zs[..|zs| - 1], m) == 0 by {
        forall m | m !in front {
          ScoreSumAbsent(zs[..|zs| - 1], m);
        }
      }
      map m | m in front.Keys + last.Keys :: (if m in front then front[m] else 0) + (if m in last then last[m] else 0)
  }

  /** ZINTERSTORE ... AGGREGATE SUM: the members of every input, scored by their sum. */
  function InterSum(zs: seq<map<string, int>>): (r: map<string, int>)
    requires |zs| >= 1
    ensures forall m :: m in r <==> forall i :: 0 <= i < |zs| ==> m in zs[i]
    ensures forall m :: m in r ==> r[m] == ScoreSum(zs, m)
  {
    if |zs| == 1 then
      assert forall m :: m in zs[0] ==> ScoreSum(zs, m) == zs[0][m] by {
        assert zs[..0] == [];
      }
      zs[0]
    else
      var front := InterSum(zs[..|zs| - 1]);
      var last := zs[|zs| - 1];
      map m | m in front && m in last :: front[m] + last[m]
  }

  /** ZUNIONSTORE / ZINTERSTORE numkeys key... AGGREGATE SUM, before storing: at least one
      input key is needed, each a sorted set, a plain set or missing. */
  function ZCombine(ks: Keyspace, intersect: bool, keys: seq<string>): (r: Result<map<string, int>>)
    ensures r.Err? <==> keys == [] || exists i :: 0 <= i < |keys| && ScoresAt(ks, keys[i]).None?
    ensures r.Ok? ==> |keys| >= 1 && ScoresOf(ks, keys).Ok?
    ensures r.Ok? && intersect ==> r.value == InterSum(ScoresOf(ks, keys).value)
    ensures r.Ok? && !intersect ==> r.value == UnionSum(ScoresOf(ks, keys).value)
  {
    if keys == [] then Err(WrongArity)
    else match ScoresOf(ks, keys)
      case Err(e) => Err(e)
      case Ok(zs) => Ok(if intersect then InterSum(zs) else UnionSum(zs))
  }

  /** ZUNIONSTORE / ZINTERSTORE destination numkeys key... AGGREGATE SUM: the destination is
      overwritten with the combined sorted set, or removed when it is empty; the reply is its
      size. At least one input key is needed. */
  function ZCombineStore(ks: Keyspace, intersect: bool, dst: string, keys: seq<string>): (r: Result<Written<int>>)
    ensures r.Err? <==> ZCombine(ks, intersect, keys).Err?
    ensures r.Ok? ==> var z := ZCombine(ks, intersect, keys).value;
      && ZSetAt(r.value.ks, dst) == z
      && (z == map[] <==> dst !in r.value.ks)
      && r.value.reply == |z|
    ensures r.Ok? ==> r.value.ks - {dst} == ks - {dst}
    ensures r.Ok? && WellFormed(ks) ==> WellFormed(r.value.ks)
  {
    match ZCombine(ks, intersect, keys)
    case Err(e) => Err(e)
    case Ok(z) =>
      var after := Put(ks, dst, ZSet(z));
      assert ZSetAt(after, dst) == z && (z == map[] <==> dst !in after);
      Ok(Written(after, |z|))
  }
}
