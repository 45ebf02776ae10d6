/** RedisMemberPointRepository: every call derives the member's key, sends one command (or one
    batch) to its logical database, converts the reply, and turns any exception into an
    (error, sentinel) pair. The server is an object whose databases the write calls update. */
module Repository {
  import opened Outcomes
  import opened DotNet
  import opened Domain
  import opened RedisStore
  import opened MemberPointKeys

  /** The server behind the connection: numbered logical databases, each a keyspace. */
  class RedisServer {
    var databases: map<int, Keyspace>

    constructor ()
      ensures databases == map[]
    {
      databases := map[];
    }
  }

  /** A logical database that was never written is empty. */
  function KeyspaceOf(databases: map<int, Keyspace>, db: int): Keyspace {
    if db in databases then databases[db] else map[]
  }

  /** The databases after a command on `db`: its new keyspace when it succeeded, all unchanged
      when it failed. */
  function AfterCommand<T>(databases: map<int, Keyspace>, db: int, res: Result<Written<T>>): map<int, Keyspace> {
    if res.Ok? then databases[db := res.value.ks] else databases
  }

  /** The reply of a call that returns the command's own reply, with its sentinel on failure. */
  function ReplyOf<T>(res: Result<Written<T>>, sentinel: T): Reply<T> {
    match res
    case Ok(w) => Reply(None, w.reply)
    case Err(e) => Reply(Some(e), sentinel)
  }

  function ResultReply<T>(res: Result<T>, sentinel: T): Reply<T> {
    match res
    case Ok(v) => Reply(None, v)
    case Err(e) => Reply(Some(e), sentinel)
  }

  /** The reply of a call that returns a list of entities: null on failure. */
  function ListReply(res: Result<seq<MemberPoint>>): Reply<Option<seq<MemberPoint>>> {
    match res
    case Ok(v) => Reply(None, Some(v))
    case Err(e) => Reply(Some(e), None)
  }

  /** The reply of a call that only reports success: true, or false with the fault. */
  function DoneReply<T>(res: Result<T>): Reply<bool> {
    match res
    case Ok(_) => Reply(None, true)
    case Err(e) => Reply(Some(e), false)
  }

  /** The reply of a single-member SADD / SREM / ZADD: whether the member count changed by one. */
  function FlagReply(res: Result<Written<int>>): Reply<bool> {
    match res
    case Ok(w) => Reply(None, w.reply == 1)
    case Err(e) => Reply(Some(e), false)
  }

  /** The reply of a list pop: null for an empty list, otherwise the element read back as an
      entity. The pop itself has already happened when the JSON reader fails. */
  function PoppedReply(res: Result<Written<Option<string>>>): (r: Reply<Option<MemberPoint>>)
    ensures res.Err? ==> r == Reply(Some(res.fault), None)
    ensures res.Ok? && res.value.reply.None? ==> r == Reply(None, None)
    ensures res.Ok? && res.value.reply.Some? ==> var mp := Deserialize(res.value.reply.value);
      && (mp.Ok? ==> r == Reply(None, Some(mp.value)))
      && (mp.Err? ==> r == Reply(Some(mp.fault), None))
  {
    match res
    case Err(e) => Reply(Some(e), None)
    case Ok(w) =>
      match w.reply
      case None => Reply(None, None)
      case Some(text) =>
        match Deserialize(text)
        case Ok(mp) => Reply(None, Some(mp))
        case Err(e) => Reply(Some(e), None)
  }

  /** The reply of ListRightPopLeftPush as written: the moved element is handed to the JSON
      reader even when there was none, and a null text makes the reader throw. */
  function MovedReply(res: Result<Written<Option<string>>>): Reply<Option<MemberPoint>> {
    match res
    case Err(e) => Reply(Some(e), None)
    case Ok(w) =>
      match DeserializeNullable(w.reply)
      case Ok(mp) => Reply(None, Some(mp))
      case Err(e) => Reply(Some(e), None)
  }

  /** The foreach over a set reply: one entity per member, under one member id. Redis returns
      the members in no particular order, so the order here is chosen freely. */
  method ToMemberPoints(memberId: Int32, points: set<Int64>) returns (mps: seq<MemberPoint>)
    ensures |mps| == |points| && Distinct(mps)
    ensures (set mp | mp in mps) == MemberPointsOf(memberId, points)
  {
    var rest := points;
    mps := [];
    while rest != {}
      invariant rest <= points
      invariant |mps| + |rest| == |points|
      invariant Distinct(mps)
      invariant forall i :: 0 <= i < |mps| ==> mps[i].memberId == memberId && mps[i].point in points - rest
      invariant forall p :: p in points - rest ==> MemberPoint(memberId, p) in mps
      decreases |rest|
    {
      var p :| p in rest;
      mps := mps + [MemberPoint(memberId, p)];
      rest := rest - {p};
    }
  }

  /** Which points a reply to SPOP count or SRANDMEMBER count may hold: `count` distinct
      members, or the whole set when it is smaller. */
  predicate DistinctSample(sample: seq<Int64>, s: set<Int64>, count: nat) {
    && Distinct(sample)
    && (forall i :: 0 <= i < |sample| ==> sample[i] in s)
    && |sample| == if count < |s| then count else |s|
  }

  method PickDistinct(s: set<Int64>, count: nat) returns (sample: seq<Int64>)
    ensures DistinctSample(sample, s, count)
  {
    var rest := s;
    sample := [];
    while rest != {} && |sample| < count
      invariant rest <= s
      invariant |sample| + |rest| == |s|
      invariant |sample| <= count
      invariant Distinct(sample)
      invariant forall i :: 0 <= i < |sample| ==> sample[i] in s - rest
      decreases |rest|
    {
      var p :| p in rest;
      sample := sample + [p];
      rest := rest - {p};
    }
  }

  /** The first loop of the batch reads: each member's command is queued under the member in a
      dictionary, whose Add throws on a member seen before. */
  method EnlistBatch(members: seq<Int32>) returns (dic: Option<map<Int32, string>>)
    ensures dic.None? <==> !Distinct(members)
    ensures dic.Some? ==> forall i :: 0 <= i < |members| ==> members[i] in dic.value && dic.value[members[i]] == GenerateKey(members[i])
  {
    var d: map<Int32, string> := map[];
    for i := 0 to |members|
      invariant forall j, k :: 0 <= j < k < i ==> members[j] != members[k]
      invariant forall m :: m in d <==> m in members[..i]
      invariant forall m :: m in d ==> d[m] == GenerateKey(m)
    {
      if members[i] in d {
        var j :| 0 <= j < i && members[..i][j] == members[i];
        assert members[j] == members[i];
        return None;
      }
      d := d[members[i] := GenerateKey(members[i])];
      assert members[..i + 1] == members[..i] + [members[i]];
    }
    assert members[..|members|] == members;
    dic := Some(d);
  }

  /** The foreach over a reply that may repeat members: one entity per element, in order. */
  method ToMemberPointSeq(memberId: Int32, points: seq<Int64>) returns (mps: seq<MemberPoint>)
    ensures |mps| == |points| && Points(mps) == points
    ensures forall i :: 0 <= i < |mps| ==> mps[i] == MemberPoint(memberId, points[i])
  {
    mps := [];
    for i := 0 to |points|
      invariant |mps| == i
      invariant forall j :: 0 <= j < i ==> mps[j] == MemberPoint(memberId, points[j])
    {
      mps := mps + [MemberPoint(memberId, points[i])];
    }
  }

  /** The second loop of StringBatchGet, over the executed batch: the first faulted task
      throws; each present value gives an entity, in the members' order. */
  method ReadStrings(ks: Keyspace, members: seq<Int32>, keys: seq<string>, dic: map<Int32, string>) returns (r: Result<seq<MemberPoint>>)
    requires |keys| == |members|
    requires forall i :: 0 <= i < |members| ==> members[i] in dic && dic[members[i]] == keys[i]
    ensures r.Err? <==> exists i :: 0 <= i < |keys| && !IsStrOrAbsent(ks, keys[i])
    ensures r.Err? ==> r.fault == WrongType
    ensures r.Ok? ==> r.value == PresentPoints(members, MGet(ks, keys))
  {
    var result := MGet(ks, keys);
    var mps := [];
    for i := 0 to |members|
      invariant forall j :: 0 <= j < i ==> IsStrOrAbsent(ks, keys[j])
      invariant mps == PresentPoints(members[..i], result[..i])
    {
      PresentPointsSnoc(members, result, i);
      var got := Get(ks, dic[members[i]]);
      if got.Err? {
        return Err(got.fault);
      }
      var v := got.value;
      if v.Some? {
        mps := mps + [MemberPoint(members[i], v.value)];
      }
    }
    assert members[..|members|] == members && result[..|result|] == result;
    r := Ok(mps);
  }

  /** The second loop of HashBatchGet: the first faulted task throws; each hash with a Point
      field gives an entity, in the members' order. */
  method ReadHashes(ks: Keyspace, members: seq<Int32>, keys: seq<string>, dic: map<Int32, string>) returns (r: Result<seq<MemberPoint>>)
    requires |keys| == |members|
    requires forall i :: 0 <= i < |members| ==> members[i] in dic && dic[members[i]] == keys[i]
    ensures r.Err? <==> exists i :: 0 <= i < |keys| && !IsHashOrAbsent(ks, keys[i])
    ensures r.Err? ==> r.fault == WrongType
    ensures r.Ok? ==> r.value == PresentPoints(members, HashPointsAt(ks, keys))
  {
    var points := HashPointsAt(ks, keys);
    var mps := [];
    for i := 0 to |members|
      invariant forall j :: 0 <= j < i ==> IsHashOrAbsent(ks, keys[j])
      invariant mps == PresentPoints(members[..i], points[..i])
    {
      PresentPointsSnoc(members, points, i);
      assert dic[members[i]] == keys[i];
      var got := HGetAll(ks, dic[members[i]]);
      if got.Err? {
        assert !IsHashOrAbsent(ks, keys[i]);
        return Err(got.fault);
      }
      var h := got.value;
      assert h == HashAt(ks, keys[i]) && points[i] == PointOf(h);
      if PointField in h {
        mps := mps + [MemberPoint(members[i], h[PointField])];
      }
    }
    assert members[..|members|] == members && points[..|points|] == points;
    r := Ok(mps);
  }

  class RedisMemberPointRepository {
    const server: RedisServer
    const database: int

    constructor (server: RedisServer, database: int)
      ensures this.server == server && this.database == database
    {
      this.server := server;
      this.database := database;
    }

    /** UseConnection: the keyspace of the repository's logical database. */
    function Db(): Keyspace
      reads server
    {
      KeyspaceOf(server.databases, database)
    }

    // ----- strings -----

    /** StringInsert: SET the member's key to its point, whatever the key held. */
    method StringInsert(mp: MemberPoint) returns (r: Reply<bool>)
      modifies server
      ensures server.databases == old(server.databases)[database := SetString(old(Db()), GenerateKey(mp.memberId), mp.point)]
      ensures r == Reply(None, true)
    {
      server.databases := server.databases[database := SetString(Db(), GenerateKey(mp.memberId), mp.point)];
      r := Reply(None, true);
    }

    /** StringInsert with a time to live: SETEX / PSETEX with the TimeSpan in whole
        milliseconds, which the store rejects below one millisecond. */
    method StringInsertExpiring(mp: MemberPoint, expireTicks: Int64) returns (r: Reply<bool>)
      modifies server
      ensures var ms := Quotient(expireTicks, TicksPerMillisecond);
        && (ms <= 0 ==> r == Reply(Some(InvalidExpire), false) && server.databases == old(server.databases))
        && (ms > 0 ==> (r == Reply(None, true)
              && server.databases == old(server.databases)[database := SetString(old(Db()), GenerateKey(mp.memberId), mp.point)]))
    {
      if Quotient(expireTicks, TicksPerMillisecond) <= 0 {
        r := Reply(Some(InvalidExpire), false);
      } else {
        r := StringInsert(mp);
      }
    }

    /** StringUpdate has the body of StringInsert. */
    method StringUpdate(mp: MemberPoint) returns (r: Reply<bool>)
      modifies server
      ensures server.databases == old(server.databases)[database := SetString(old(Db()), GenerateKey(mp.memberId), mp.point)]
      ensures r == Reply(None, true)
    {
      r := StringInsert(mp);
    }

    /** StringUpdate with a time to live has the body of StringInsert with one. */
    method StringUpdateExpiring(mp: MemberPoint, expireTicks: Int64) returns (r: Reply<bool>)
      modifies server
      ensures var ms := Quotient(expireTicks, TicksPerMillisecond);
        && (ms <= 0 ==> r == Reply(Some(InvalidExpire), false) && server.databases == old(server.databases))
        && (ms > 0 ==> (r == Reply(None, true)
              && server.databases == old(server.databases)[database := SetString(old(Db()), GenerateKey(mp.memberId), mp.point)]))
    {
      r := StringInsertExpiring(mp, expireTicks);
    }

    /** StringIncrement: the client sends INCRBY for a non-negative change and DECRBY of the
        negated change otherwise, so the minimum `long` is refused by the store. */
    method StringIncrement(memberId: Int32, changePoint: Int64) returns (r: Reply<bool>)
      modifies server
      ensures var res := ClientIncrBy(old(Db()), GenerateKey(memberId), changePoint);
        server.databases == AfterCommand(old(server.databases), database, res) && r == DoneReply(res)
    {
      var res := ClientIncrBy(Db(), GenerateKey(memberId), changePoint);
      if res.Ok? {
        server.databases := server.databases[database := res.value.ks];
      }
      r := DoneReply(res);
    }

    /** StringDecrement: the client increments by the negated change; the negation is unchecked,
        so the minimum `long` stays itself and is refused like StringIncrement's. */
    method StringDecrement(memberId: Int32, changePoint: Int64) returns (r: Reply<bool>)
      modifies server
      ensures var res := ClientIncrBy(old(Db()), GenerateKey(memberId), Negate64(changePoint));
        server.databases == AfterCommand(old(server.databases), database, res) && r == DoneReply(res)
    {
      r := StringIncrement(memberId, Negate64(changePoint));
    }

    /** StringFind: GET the member's key; a missing key gives point -1, and the stored number
        goes through Convert.ToInt32. */
    function StringFind(member: Int32): (r: Reply<Option<MemberPoint>>)
      reads server
      ensures r.error.None? <==> IsStrOrAbsent(Db(), GenerateKey(member)) && (StringAt(Db(), GenerateKey(member)).Some? ==> IsInt32(StringAt(Db(), GenerateKey(member)).value))
      ensures r.error.None? ==> r.result.Some? && r.result.value.memberId == member
      ensures r.error.None? && StringAt(Db(), GenerateKey(member)).None? ==> r.result.value.point == -1
      ensures r.error.None? && StringAt(Db(), GenerateKey(member)).Some? ==> r.result.value.point == StringAt(Db(), GenerateKey(member)).value
      ensures r.error.Some? ==> r.result.None?
    {
      match Get(Db(), GenerateKey(member))
      case Err(e) => Reply(Some(e), None)
      case Ok(None) => Reply(None, Some(MemberPoint(member, -1)))
      case Ok(Some(n)) =>
        if IsInt32(n) then Reply(None, Some(MemberPoint(member, n))) else Reply(Some(CastOverflow), None)
    }

    /** StringFind with the stored number converted to `long`, the type of Point: the
        conversion the entity calls for, under which no stored point is refused. */
    function StringFindInt64(member: Int32): (r: Reply<Option<MemberPoint>>)
      reads server
      ensures r.error.None? <==> IsStrOrAbsent(Db(), GenerateKey(member))
      ensures r.error.Some? ==> r == Reply(Some(WrongType), None)
      ensures r.error.None? ==> r.result.Some? && r.result.value.memberId == member
      ensures r.error.None? ==> var stored := StringAt(Db(), GenerateKey(member));
        r.result.value.point == if stored.Some? then stored.value else -1
    {
      match Get(Db(), GenerateKey(member))
      case Err(e) => Reply(Some(e), None)
      case Ok(None) => Reply(None, Some(MemberPoint(member, -1)))
      case Ok(Some(n)) => Reply(None, Some(MemberPoint(member, n)))
    }

    /** StringGet: one MGET of all the members' keys, then one entity per present value, in
        the members' order. */
    method StringGet(members: seq<Int32>) returns (r: Reply<Option<seq<MemberPoint>>>)
      ensures r == Reply(None, Some(PresentPoints(members, MGet(Db(), GenerateKeys(members)))))
    {
      var result := MGet(Db(), GenerateKeys(members));
      var mps := [];
      for i := 0 to |members|
        invariant mps == PresentPoints(members[..i], result[..i])
      {
        PresentPointsSnoc(members, result, i);
        if result[i].Some? {
          mps := mps + [MemberPoint(members[i], result[i].value)];
        }
      }
      assert members[..|members|] == members && result[..|result|] == result;
      r := Reply(None, Some(mps));
    }

    /** StringBatchGet: one GET per member queued in a batch and kept in a dictionary keyed by
        member. A repeated member makes the dictionary throw before anything is sent; a key of
        another kind faults its task, and waiting on it throws; otherwise the call returns what
        StringGet returns. */
    method StringBatchGet(members: seq<Int32>) returns (r: Reply<Option<seq<MemberPoint>>>)
      ensures !Distinct(members) ==> r == Reply(Some(DuplicateKey), None)
      ensures (Distinct(members) && exists i :: 0 <= i < |members| && !IsStrOrAbsent(Db(), GenerateKey(members[i])))
                ==> r == Reply(Some(WrongType), None)
      ensures (Distinct(members) && forall i :: 0 <= i < |members| ==> IsStrOrAbsent(Db(), GenerateKey(members[i])))
                ==> r == Reply(None, Some(PresentPoints(members, MGet(Db(), GenerateKeys(members)))))
    {
      var dic := EnlistBatch(members);
      if dic.None? {
        return Reply(Some(DuplicateKey), None);
      }
      var mps := ReadStrings(Db(), members, GenerateKeys(members), dic.value);
      r := ListReply(mps);
    }

    /** KeyDelete: DEL the member's key. */
    method KeyDelete(memberId: Int32) returns (r: Reply<bool>)
      modifies server
      ensures server.databases == old(server.databases)[database := Del(old(Db()), GenerateKey(memberId))]
      ensures r == Reply(None, true)
    {
      server.databases := server.databases[database := Del(Db(), GenerateKey(memberId))];
      r := Reply(None, true);
    }

    // ----- hashes -----

    /** HashInsert: HSET the member's key with the fields MemberId and Point. */
    method HashInsert(mp: MemberPoint) returns (r: Reply<bool>)
      modifies server
      ensures var res := HSet(old(Db()), GenerateKey(mp.memberId), map[MemberIdField := mp.memberId as Int64, PointField := mp.point]);
        && (res.Ok? ==> server.databases == old(server.databases)[database := res.value])
        && (res.Err? ==> server.databases == old(server.databases))
        && r == DoneReply(res)
    {
      var res := HSet(Db(), GenerateKey(mp.memberId), map[MemberIdField := mp.memberId as Int64, PointField := mp.point]);
      if res.Ok? {
        server.databases := server.databases[database := res.value];
      }
      r := DoneReply(res);
    }

    /** HashUpdate has the body of HashInsert. */
    method HashUpdate(mp: MemberPoint) returns (r: Reply<bool>)
      modifies server
      ensures var res := HSet(old(Db()), GenerateKey(mp.memberId), map[MemberIdField := mp.memberId as Int64, PointField := mp.point]);
        && (res.Ok? ==> server.databases == old(server.databases)[database := res.value])
        && (res.Err? ==> server.databases == old(server.databases))
        && r == DoneReply(res)
    {
      r := HashInsert(mp);
    }

    /** HashIncrement: HINCRBY the Point field. */
    method HashIncrement(memberId: Int32, changePoint: Int64) returns (r: Reply<bool>)
      modifies server
      ensures var res := HIncrBy(old(Db()), GenerateKey(memberId), PointField, changePoint);
        server.databases == AfterCommand(old(server.databases), database, res) && r == DoneReply(res)
    {
      var res := HIncrBy(Db(), GenerateKey(memberId), PointField, changePoint);
      if res.Ok? {
        server.databases := server.databases[database := res.value.ks];
      }
      r := DoneReply(res);
    }

    /** HashDecrement: the client increments the Point field by the negated change. */
    method HashDecrement(memberId: Int32, changePoint: Int64) returns (r: Reply<bool>)
      modifies server
      ensures var res := HIncrBy(old(Db()), GenerateKey(memberId), PointField, Negate64(changePoint));
        server.databases == AfterCommand(old(server.databases), database, res) && r == DoneReply(res)
    {
      r := HashIncrement(memberId, Negate64(changePoint));
    }

    /** HashFindAll: HGETALL the member's key; each property takes its field's value, or 0
        when the field is missing; MemberId goes through Convert.ToInt32. */
    function HashFindAll(member: Int32): (r: Reply<Option<MemberPoint>>)
      reads server
      ensures var h := HashAt(Db(), GenerateKey(member));
        && (r.error.None? <==> IsHashOrAbsent(Db(), GenerateKey(member)) && (MemberIdField in h ==> IsInt32(h[MemberIdField])))
        && (r.error.None? ==> (r.result.Some?
              && r.result.value.memberId == (if MemberIdField in h then h[MemberIdField] else 0)
              && r.result.value.point == (if PointField in h then h[PointField] else 0)))
        && (r.error.Some? ==> r.result.None?)
    {
      match HGetAll(Db(), GenerateKey(member))
      case Err(e) => Reply(Some(e), None)
      case Ok(h) =>
        var id := if MemberIdField in h then h[MemberIdField] else 0;
        var point := if PointField in h then h[PointField] else 0;
        if IsInt32(id) then Reply(None, Some(MemberPoint(id, point))) else Reply(Some(CastOverflow), None)
    }

    /** HashFindField: HGET the Point field; null when it is missing. */
    function HashFindField(member: Int32): (r: Reply<Option<MemberPoint>>)
      reads server
      ensures r.error.None? <==> IsHashOrAbsent(Db(), GenerateKey(member))
      ensures r.error.None? ==> (r.result.Some? <==> PointField in HashAt(Db(), GenerateKey(member)))
      ensures r.error.None? && r.result.Some? ==> r.result.value == MemberPoint(member, HashAt(Db(), GenerateKey(member))[PointField])
      ensures r.error.Some? ==> r.result.None?
    {
      match HGet(Db(), GenerateKey(member), PointField)
      case Err(e) => Reply(Some(e), None)
      case Ok(None) => Reply(None, None)
      case Ok(Some(p)) => Reply(None, Some(MemberPoint(member, p)))
    }

    /** HashBatchGet: one HGETALL per member queued in a batch, keyed by member in a
        dictionary; the members whose hash has a Point field give an entity. */
    method HashBatchGet(members: seq<Int32>) returns (r: Reply<Option<seq<MemberPoint>>>)
      ensures !Distinct(members) ==> r == Reply(Some(DuplicateKey), None)
      ensures (Distinct(members) && exists i :: 0 <= i < |members| && !IsHashOrAbsent(Db(), GenerateKey(members[i])))
                ==> r == Reply(Some(WrongType), None)
      ensures (Distinct(members) && forall i :: 0 <= i < |members| ==> IsHashOrAbsent(Db(), GenerateKey(members[i])))
                ==> r == Reply(None, Some(PresentPoints(members, HashPointsAt(Db(), GenerateKeys(members)))))
    {
      var dic := EnlistBatch(members);
      if dic.None? {
        return Reply(Some(DuplicateKey), None);
      }
      var mps := ReadHashes(Db(), members, GenerateKeys(members), dic.value);
      r := ListReply(mps);
    }

    // ----- lists -----

    /** ListLeftPush: LPUSH the entity's JSON text onto its member's list; the reply is the new
        length, -1 on failure. */
    method ListLeftPush(mp: MemberPoint) returns (r: Reply<int>)
      modifies server
      ensures var res := LPush(old(Db()), GenerateKey(mp.memberId), [Serialize(mp)]);
        server.databases == AfterCommand(old(server.databases), database, res) && r == ReplyOf(res, -1)
    {
      var res := LPush(Db(), GenerateKey(mp.memberId), [Serialize(mp)]);
      if res.Ok? {
        server.databases := server.databases[database := res.value.ks];
      }
      r := ReplyOf(res, -1);
    }

    /** ListLeftPush of several entities: one LPUSH of all their texts onto the first entity's
        list. With no entities the client sends LLEN instead and changes nothing. */
    method ListLeftPushMany(mps: seq<MemberPoint>) returns (r: Reply<int>)
      modifies server
      ensures mps == [] ==> server.databases == old(server.databases) && r == ResultReply(LLen(old(Db()), FirstMemberKey(mps)), -1)
      ensures mps != [] ==> var res := LPush(old(Db()), FirstMemberKey(mps), Serialized(mps));
        server.databases == AfterCommand(old(server.databases), database, res) && r == ReplyOf(res, -1)
    {
      if mps == [] {
        r := ResultReply(LLen(Db(), FirstMemberKey(mps)), -1);
      } else {
        var res := LPush(Db(), FirstMemberKey(mps), Serialized(mps));
        if res.Ok? {
          server.databases := server.databases[database := res.value.ks];
        }
        r := ReplyOf(res, -1);
      }
    }

    /** ListFindByIndex: LINDEX; the raw text, null outside the list. */
    function ListFindByIndex(memberId: Int32, index: Int64): (r: Reply<Option<string>>)
      reads server
      ensures r.error.None? <==> IsListOrAbsent(Db(), GenerateKey(memberId))
      ensures r.error.None? ==> var l := ListAt(Db(), GenerateKey(memberId));
        && (r.result.Some? <==> -|l| <= index < |l|)
        && (r.result.Some? ==> r.result.value == l[if index < 0 then |l| + index else index])
      ensures r.error.Some? ==> r.result.None?
    {
      ResultReply(LIndex(Db(), GenerateKey(memberId), index), None)
    }

    /** ListInsertAfter / ListInsertBefore: LINSERT next to the first element equal to the
        pivot entity's text, in the pivot's member's list. */
    method ListInsert(after: bool, indexMemberPoint: MemberPoint, addMemberPoint: MemberPoint) returns (r: Reply<int>)
      modifies server
      ensures var res := LInsert(old(Db()), GenerateKey(indexMemberPoint.memberId), after, Serialize(indexMemberPoint), Serialize(addMemberPoint));
        server.databases == AfterCommand(old(server.databases), database, res) && r == ReplyOf(res, -1)
    {
      var res := LInsert(Db(), GenerateKey(indexMemberPoint.memberId), after, Serialize(indexMemberPoint), Serialize(addMemberPoint));
      if res.Ok? {
        server.databases := server.databases[database := res.value.ks];
      }
      r := ReplyOf(res, -1);
    }

    /** ListRange: LRANGE 0 -1, each element read back as an entity, in list order. */
    method ListRange(memberId: Int32) returns (r: Reply<Option<seq<MemberPoint>>>)
      ensures !IsListOrAbsent(Db(), GenerateKey(memberId)) ==> r == Reply(Some(WrongType), None)
      ensures IsListOrAbsent(Db(), GenerateKey(memberId)) ==> var mps := DeserializeAll(ListAt(Db(), GenerateKey(memberId)));
        && (mps.Ok? ==> r == Reply(None, Some(mps.value)))
        && (mps.Err? ==> r.error.Some? && r.result.None?)
    {
      var values := LRangeAll(Db(), GenerateKey(memberId));
      if values.Err? {
        return Reply(Some(values.fault), None);
      }
      var items := values.value;
      var mps := [];
      for i := 0 to |items|
        invariant DeserializeAll(items[..i]) == Ok(mps)
      {
        assert items[..i + 1][..i] == items[..i];
        var mp := Deserialize(items[i]);
        if mp.Err? {
          assert DeserializeAll(items[..i + 1]).Err?;
          DeserializeAllPrefix(items, i + 1);
          return Reply(Some(mp.fault), None);
        }
        mps := mps + [mp.value];
      }
      assert items[..|items|] == items;
      r := Reply(None, Some(mps));
    }

    /** ListRemove: LREM 0 of the entity's text, removing every copy; the reply is how many. */
    method ListRemove(mp: MemberPoint) returns (r: Reply<int>)
      modifies server
      ensures var res := LRemAll(old(Db()), GenerateKey(mp.memberId), Serialize(mp));
        server.databases == AfterCommand(old(server.databases), database, res) && r == ReplyOf(res, -1)
    {
      var res := LRemAll(Db(), GenerateKey(mp.memberId), Serialize(mp));
      if res.Ok? {
        server.databases := server.databases[database := res.value.ks];
      }
      r := ReplyOf(res, -1);
    }

    /** ListLeftPop: LPOP, the element read back as an entity; null for an empty list. */
    method ListLeftPop(memberId: Int32) returns (r: Reply<Option<MemberPoint>>)
      modifies server
      ensures var res := LPop(old(Db()), GenerateKey(memberId));
        server.databases == AfterCommand(old(server.databases), database, res) && r == PoppedReply(res)
    {
      var res := LPop(Db(), GenerateKey(memberId));
      if res.Ok? {
        server.databases := server.databases[database := res.value.ks];
      }
      r := PoppedReply(res);
    }

    /** ListLength: LLEN. */
    function ListLength(memberId: Int32): (r: Reply<int>)
      reads server
      ensures r.error.None? <==> IsListOrAbsent(Db(), GenerateKey(memberId))
      ensures r.error.None? ==> r.result == |ListAt(Db(), GenerateKey(memberId))|
      ensures r.error.Some? ==> r.result == -1
    {
      ResultReply(LLen(Db(), GenerateKey(memberId)), -1)
    }

    /** ListRightPopLeftPush: RPOPLPUSH from the source member's list to the destination's,
        then the moved text read back as an entity, null or not. */
    method ListRightPopLeftPush(sourceMember: Int32, destinationMember: Int32) returns (r: Reply<Option<MemberPoint>>)
      modifies server
      ensures var res := RPopLPush(old(Db()), GenerateKey(sourceMember), GenerateKey(destinationMember));
        server.databases == AfterCommand(old(server.databases), database, res) && r == MovedReply(res)
    {
      var res := RPopLPush(Db(), GenerateKey(sourceMember), GenerateKey(destinationMember));
      if res.Ok? {
        server.databases := server.databases[database := res.value.ks];
      }
      r := MovedReply(res);
    }

    /** ListRightPopLeftPush with the moved text checked before it is read back, as the other
        pops do: an empty source gives null rather than a fault. */
    method ListRightPopLeftPushChecked(sourceMember: Int32, destinationMember: Int32) returns (r: Reply<Option<MemberPoint>>)
      modifies server
      ensures var res := RPopLPush(old(Db()), GenerateKey(sourceMember), GenerateKey(destinationMember));
        server.databases == AfterCommand(old(server.databases), database, res) && r == PoppedReply(res)
    {
      var res := RPopLPush(Db(), GenerateKey(sourceMember), GenerateKey(destinationMember));
      if res.Ok? {
        server.databases := server.databases[database := res.value.ks];
      }
      r := PoppedReply(res);
    }

    /** ListRightPush: RPUSH the entity's text; the reply is the new length. */
    method ListRightPush(mp: MemberPoint) returns (r: Reply<int>)
      modifies server
      ensures var res := RPush(old(Db()), GenerateKey(mp.memberId), [Serialize(mp)]);
        server.databases == AfterCommand(old(server.databases), database, res) && r == ReplyOf(res, -1)
    {
      var res := RPush(Db(), GenerateKey(mp.memberId), [Serialize(mp)]);
      if res.Ok? {
        server.databases := server.databases[database := res.value.ks];
      }
      r := ReplyOf(res, -1);
    }

    /** ListRightPush of several entities: one RPUSH onto the first entity's list; LLEN when
        there are none. */
    method ListRightPushMany(mps: seq<MemberPoint>) returns (r: Reply<int>)
      modifies server
      ensures mps == [] ==> server.databases == old(server.databases) && r == ResultReply(LLen(old(Db()), FirstMemberKey(mps)), -1)
      ensures mps != [] ==> var res := RPush(old(Db()), FirstMemberKey(mps), Serialized(mps));
        server.databases == AfterCommand(old(server.databases), database, res) && r == ReplyOf(res, -1)
    {
      if mps == [] {
        r := ResultReply(LLen(Db(), FirstMemberKey(mps)), -1);
      } else {
        var res := RPush(Db(), FirstMemberKey(mps), Serialized(mps));
        if res.Ok? {
          server.databases := server.databases[database := res.value.ks];
        }
        r := ReplyOf(res, -1);
      }
    }

    /** ListRightPop: RPOP, the element read back as an entity; null for an empty list. */
    method ListRightPop(memberId: Int32) returns (r: Reply<Option<MemberPoint>>)
      modifies server
      ensures var res := RPop(old(Db()), GenerateKey(memberId));
        server.databases == AfterCommand(old(server.databases), database, res) && r == PoppedReply(res)
    {
      var res := RPop(Db(), GenerateKey(memberId));
      if res.Ok? {
        server.databases := server.databases[database := res.value.ks];
      }
      r := PoppedReply(res);
    }

    /** KeyExpire: TimeSpan.MaxValue goes out as PERSIST, which changes no key and replies
        whether a timeout was removed (the model keeps no timeouts, so only a key that exists can
        reply true); any other timeout goes out in whole milliseconds and the reply says whether
        the key existed. */
    method KeyExpire(memberId: Int32, expireTicks: Int64) returns (r: Reply<bool>)
      modifies server
      ensures expireTicks == 0x7FFF_FFFF_FFFF_FFFF ==>
        server.databases == old(server.databases) && r.error.None? && (r.result ==> GenerateKey(memberId) in old(Db()))
      ensures expireTicks != 0x7FFF_FFFF_FFFF_FFFF ==>
        var w := Expire(old(Db()), GenerateKey(memberId), Quotient(expireTicks, TicksPerMillisecond));
        server.databases == old(server.databases)[database := w.ks] && r == Reply(None, w.reply)
    {
      if expireTicks == 0x7FFF_FFFF_FFFF_FFFF {
        // whether the key carried a timeout is server state the model does not keep
        var removed :| removed ==> GenerateKey(memberId) in Db();
        r := Reply(None, removed);
      } else {
        var w := Expire(Db(), GenerateKey(memberId), Quotient(expireTicks, TicksPerMillisecond));
        server.databases := server.databases[database := w.ks];
        r := Reply(None, w.reply);
      }
    }

    // ----- sets -----

    /** SetAdd: SADD the point to its member's set; true when it was not there. */
    method SetAdd(mp: MemberPoint) returns (r: Reply<bool>)
      modifies server
      ensures var res := SAdd(old(Db()), GenerateKey(mp.memberId), [mp.point]);
        server.databases == AfterCommand(old(server.databases), database, res) && r == FlagReply(res)
    {
      var res := SAdd(Db(), GenerateKey(mp.memberId), [mp.point]);
      if res.Ok? {
        server.databases := server.databases[database := res.value.ks];
      }
      r := FlagReply(res);
    }

    /** SetAdd of several entities: one SADD of their points to the first entity's set; the
        reply is how many were new. */
    method SetAddMany(mps: seq<MemberPoint>) returns (r: Reply<int>)
      modifies server
      ensures var res := SAdd(old(Db()), FirstMemberKey(mps), Points(mps));
        server.databases == AfterCommand(old(server.databases), database, res) && r == ReplyOf(res, -1)
    {
      var res := SAdd(Db(), FirstMemberKey(mps), Points(mps));
      if res.Ok? {
        server.databases := server.databases[database := res.value.ks];
      }
      r := ReplyOf(res, -1);
    }

    /** SetCombineIntersect / Union / Difference of two members: SINTER / SUNION / SDIFF of
        their keys; each resulting point becomes an entity with MemberId 0. */
    method SetCombinePair(op: SetOperation, firstMember: Int32, secondMember: Int32) returns (r: Reply<Option<seq<MemberPoint>>>)
      ensures var res := SCombine(Db(), op, [GenerateKey(firstMember), GenerateKey(secondMember)]);
        && (res.Err? ==> r == Reply(Some(res.fault), None))
        && (res.Ok? ==> r.error.None? && r.result.Some? && |r.result.value| == |res.value|
                        && (set mp | mp in r.result.value) == MemberPointsOf(0, res.value))
    {
      r := SetCombine(op, [firstMember, secondMember]);
      assert GenerateKeys([firstMember, secondMember]) == [GenerateKey(firstMember), GenerateKey(secondMember)];
    }

    /** SetCombineIntersect / Union / Difference of several members. */
    method SetCombine(op: SetOperation, members: seq<Int32>) returns (r: Reply<Option<seq<MemberPoint>>>)
      ensures var res := SCombine(Db(), op, GenerateKeys(members));
        && (res.Err? ==> r == Reply(Some(res.fault), None))
        && (res.Ok? ==> r.error.None? && r.result.Some? && |r.result.value| == |res.value|
                        && (set mp | mp in r.result.value) == MemberPointsOf(0, res.value))
    {
      var values := SCombine(Db(), op, GenerateKeys(members));
      if values.Err? {
        return Reply(Some(values.fault), None);
      }
      var mps := ToMemberPoints(0, values.value);
      r := Reply(None, Some(mps));
    }

    /** SetCombine...AndStore of two members: the result is stored under the first member's
        key; the reply is its size. */
    method SetCombineAndStorePair(op: SetOperation, firstMember: Int32, secondMember: Int32) returns (r: Reply<int>)
      modifies server
      ensures var res := SCombineStore(old(Db()), op, GenerateKey(firstMember), [GenerateKey(firstMember), GenerateKey(secondMember)]);
        server.databases == AfterCommand(old(server.databases), database, res) && r == ReplyOf(res, -1)
    {
      var res := SCombineStore(Db(), op, GenerateKey(firstMember), [GenerateKey(firstMember), GenerateKey(secondMember)]);
      if res.Ok? {
        server.databases := server.databases[database := res.value.ks];
      }
      r := ReplyOf(res, -1);
    }

    /** SetCombine...AndStore of several members: stored under the first member's key (member 0
        when there are none). */
    method SetCombineAndStore(op: SetOperation, members: seq<Int32>) returns (r: Reply<int>)
      modifies server
      ensures var res := SCombineStore(old(Db()), op, GenerateKey(if members == [] then 0 else members[0]), GenerateKeys(members));
        server.databases == AfterCommand(old(server.databases), database, res) && r == ReplyOf(res, -1)
    {
      var res := SCombineStore(Db(), op, GenerateKey(if members == [] then 0 else members[0]), GenerateKeys(members));
      if res.Ok? {
        server.databases := server.databases[database := res.value.ks];
      }
      r := ReplyOf(res, -1);
    }

    /** SetContains: SISMEMBER of the point in its member's set. */
    function SetContains(mp: MemberPoint): (r: Reply<bool>)
      reads server
      ensures r.error.None? <==> IsSetOrAbsent(Db(), GenerateKey(mp.memberId))
      ensures r.result <==> r.error.None? && mp.point in SetAt(Db(), GenerateKey(mp.memberId))
    {
      ResultReply(SIsMember(Db(), GenerateKey(mp.memberId), mp.point), false)
    }

    /** SetGetMembers: SMEMBERS, each point an entity of the member. */
    method SetGetMembers(memberId: Int32) returns (r: Reply<Option<seq<MemberPoint>>>)
      ensures !IsSetOrAbsent(Db(), GenerateKey(memberId)) ==> r == Reply(Some(WrongType), None)
      ensures IsSetOrAbsent(Db(), GenerateKey(memberId)) ==>
        var s := SetAt(Db(), GenerateKey(memberId));
        r.error.None? && r.result.Some? && |r.result.value| == |s| && (set mp | mp in r.result.value) == MemberPointsOf(memberId, s)
    {
      var values := SMembers(Db(), GenerateKey(memberId));
      if values.Err? {
        return Reply(Some(values.fault), None);
      }
      var mps := ToMemberPoints(memberId, values.value);
      r := Reply(None, Some(mps));
    }

    /** SetMove: SMOVE the point from one member's set to another's. */
    method SetMove(source: Int32, destination: Int32, point: Int64) returns (r: Reply<bool>)
      modifies server
      ensures var res := SMove(old(Db()), GenerateKey(source), GenerateKey(destination), point);
        server.databases == AfterCommand(old(server.databases), database, res) && r == ReplyOf(res, false)
    {
      var res := SMove(Db(), GenerateKey(source), GenerateKey(destination), point);
      if res.Ok? {
        server.databases := server.databases[database := res.value.ks];
      }
      r := ReplyOf(res, false);
    }

    /** SetPop: SPOP removes and returns a member chosen by the store; null for an empty set. */
    method SetPop(memberId: Int32) returns (r: Reply<Option<MemberPoint>>)
      modifies server
      ensures var key := GenerateKey(memberId);
        var s := SetAt(old(Db()), key);
        && (!IsSetOrAbsent(old(Db()), key) ==> r == Reply(Some(WrongType), None) && server.databases == old(server.databases))
        && (IsSetOrAbsent(old(Db()), key) && s == {} ==> r == Reply(None, None) && server.databases == old(server.databases))
        && (IsSetOrAbsent(old(Db()), key) && s != {} ==> (
              r.error.None? && r.result.Some? && r.result.value.memberId == memberId && r.result.value.point in s
              && server.databases == old(server.databases)[database := Put(old(Db()), key, Set(s - {r.result.value.point}))]))
    {
      var key := GenerateKey(memberId);
      if !IsSetOrAbsent(Db(), key) {
        return Reply(Some(WrongType), None);
      }
      var s := SetAt(Db(), key);
      if s == {} {
        return Reply(None, None);
      }
      var p :| p in s;
      server.databases := server.databases[database := Put(Db(), key, Set(s - {p}))];
      r := Reply(None, Some(MemberPoint(memberId, p)));
    }

    /** SetPop with a count: the client answers a count of 0 with no members without sending
        anything; otherwise SPOP key count, which refuses a negative count before looking at the
        key, and removes up to `count` members chosen by the store. */
    method SetPopMany(memberId: Int32, count: Int32) returns (r: Reply<Option<seq<MemberPoint>>>)
      modifies server
      ensures var key := GenerateKey(memberId);
        var s := SetAt(old(Db()), key);
        && (count == 0 ==> r == Reply(None, Some([])) && server.databases == old(server.databases))
        && (count < 0 ==> r == Reply(Some(OutOfRange), None) && server.databases == old(server.databases))
        && (count > 0 && !IsSetOrAbsent(old(Db()), key) ==> r == Reply(Some(WrongType), None) && server.databases == old(server.databases))
        && (count > 0 && IsSetOrAbsent(old(Db()), key) ==> (
              r.error.None? && r.result.Some? && DistinctSample(Points(r.result.value), s, count)
              && (forall i :: 0 <= i < |r.result.value| ==> r.result.value[i].memberId == memberId)
              && server.databases == old(server.databases)[database := Put(old(Db()), key, Set(s - set p | p in Points(r.result.value)))]))
    {
      var key := GenerateKey(memberId);
      if count == 0 {
        return Reply(None, Some([]));
      }
      if count < 0 {
        return Reply(Some(OutOfRange), None);
      }
      if !IsSetOrAbsent(Db(), key) {
        return Reply(Some(WrongType), None);
      }
      var s := SetAt(Db(), key);
      var sample := PickDistinct(s, count);
      var mps := ToMemberPointSeq(memberId, sample);
      server.databases := server.databases[database := Put(Db(), key, Set(s - set p | p in sample))];
      r := Reply(None, Some(mps));
    }

    /** SetGetRandomMember: SRANDMEMBER returns a member chosen by the store, without removing
        it; null for an empty set. */
    method SetGetRandomMember(memberId: Int32) returns (r: Reply<Option<MemberPoint>>)
      ensures var key := GenerateKey(memberId);
        && (!IsSetOrAbsent(Db(), key) ==> r == Reply(Some(WrongType), None))
        && (IsSetOrAbsent(Db(), key) ==> (r.error.None? && (r.result.None? <==> SetAt(Db(), key) == {})))
        && (r.result.Some? ==> r.result.value.memberId == memberId && r.result.value.point in SetAt(Db(), key))
    {
      var key := GenerateKey(memberId);
      if !IsSetOrAbsent(Db(), key) {
        return Reply(Some(WrongType), None);
      }
      var s := SetAt(Db(), key);
      if s == {} {
        return Reply(None, None);
      }
      var p :| p in s;
      r := Reply(None, Some(MemberPoint(memberId, p)));
    }

    /** SetGetRandomMember with a count: SRANDMEMBER key count. A positive count asks for that
        many distinct members (the whole set when it is smaller); a negative count asks for
        exactly |count| members, repeats allowed. */
    method SetGetRandomMembers(memberId: Int32, count: Int32) returns (r: Reply<Option<seq<MemberPoint>>>)
      ensures var key := GenerateKey(memberId);
        var s := SetAt(Db(), key);
        && (!IsSetOrAbsent(Db(), key) ==> r == Reply(Some(WrongType), None))
        && (IsSetOrAbsent(Db(), key) ==> (r.error.None? && r.result.Some?
              && (forall i :: 0 <= i < |r.result.value| ==> r.result.value[i].memberId == memberId && r.result.value[i].point in s)
              && (count >= 0 ==> DistinctSample(Points(r.result.value), s, count))
              && (count < 0 ==> |r.result.value| == if s == {} then 0 else -(count as int))))
    {
      var key := GenerateKey(memberId);
      if !IsSetOrAbsent(Db(), key) {
        return Reply(Some(WrongType), None);
      }
      var s := SetAt(Db(), key);
      var sample: seq<Int64> := [];
      if count >= 0 {
        sample := PickDistinct(s, count);
      } else if s != {} {
        while |sample| < -(count as int)
          invariant |sample| <= -(count as int)
          invariant forall i :: 0 <= i < |sample| ==> sample[i] in s
        {
          var p :| p in s;
          sample := sample + [p];
        }
      }
      var mps := ToMemberPointSeq(memberId, sample);
      r := Reply(None, Some(mps));
    }

    /** SetRemove: SREM the point from its member's set; true when it was there. */
    method SetRemove(mp: MemberPoint) returns (r: Reply<bool>)
      modifies server
      ensures var res := SRem(old(Db()), GenerateKey(mp.memberId), [mp.point]);
        server.databases == AfterCommand(old(server.databases), database, res) && r == FlagReply(res)
    {
      var res := SRem(Db(), GenerateKey(mp.memberId), [mp.point]);
      if res.Ok? {
        server.databases := server.databases[database := res.value.ks];
      }
      r := FlagReply(res);
    }

    /** SetRemove of several entities: one SREM of their points from the first entity's set. */
    method SetRemoveMany(mps: seq<MemberPoint>) returns (r: Reply<int>)
      modifies server
      ensures var res := SRem(old(Db()), FirstMemberKey(mps), Points(mps));
        server.databases == AfterCommand(old(server.databases), database, res) && r == ReplyOf(res, -1)
    {
      var res := SRem(Db(), FirstMemberKey(mps), Points(mps));
      if res.Ok? {
        server.databases := server.databases[database := res.value.ks];
      }
      r := ReplyOf(res, -1);
    }

    /** SetScan: the client refuses a page size that is not positive; otherwise SSCAN the
        member's set with the pattern `<point>*`, iterated to the end, where the page size only
        changes how many round trips that takes. */
    method SetScan(mp: MemberPoint, pageSize: Int32) returns (r: Reply<Option<seq<MemberPoint>>>)
      ensures var key := GenerateKey(mp.memberId);
        && (pageSize <= 0 ==> r == Reply(Some(OutOfRange), None))
        && (pageSize > 0 && !IsSetOrAbsent(Db(), key) ==> r == Reply(Some(WrongType), None))
        && (pageSize > 0 && IsSetOrAbsent(Db(), key) ==> (r.error.None? && r.result.Some? && Distinct(r.result.value)
              && forall q: MemberPoint :: q in r.result.value <==>
                   q.memberId == mp.memberId && q.point in SetAt(Db(), key) && IsPrefix(IntToString(mp.point), IntToString(q.point))))
    {
      if pageSize <= 0 {
        return Reply(Some(OutOfRange), None);
      }
      var values := SScan(Db(), GenerateKey(mp.memberId), IntToString(mp.point));
      if values.Err? {
        return Reply(Some(values.fault), None);
      }
      var mps := ToMemberPoints(mp.memberId, values.value);
      assert forall q :: q in mps <==> q in MemberPointsOf(mp.memberId, values.value) by {
        forall q ensures q in mps <==> q in (set x | x in mps) {
        }
      }
      r := Reply(None, Some(mps));
    }

    // ----- sorted sets -----

    /** SortedSetAdd: ZADD the member named "Point" with the point as its score; true when it
        was new. */
    method SortedSetAdd(mp: MemberPoint) returns (r: Reply<bool>)
      modifies server
      ensures var res := ZAdd(old(Db()), GenerateKey(mp.memberId), [(PointField, mp.point as int)]);
        server.databases == AfterCommand(old(server.databases), database, res) && r == FlagReply(res)
    {
      var res := ZAdd(Db(), GenerateKey(mp.memberId), [(PointField, mp.point as int)]);
      if res.Ok? {
        server.databases := server.databases[database := res.value.ks];
      }
      r := FlagReply(res);
    }

    /** SortedSetAdd of several entities: one ZADD onto the first entity's sorted set, each
        point as member "Point<point>" with itself as score. With no entities the client
        answers 0 without sending anything. */
    method SortedSetAddMany(mps: seq<MemberPoint>) returns (r: Reply<int>)
      modifies server
      ensures mps == [] ==> server.databases == old(server.databases) && r == Reply(None, 0)
      ensures mps != [] ==> var res := ZAdd(old(Db()), FirstMemberKey(mps), ZEntries(mps));
        server.databases == AfterCommand(old(server.databases), database, res) && r == ReplyOf(res, -1)
    {
      if mps == [] {
        return Reply(None, 0);
      }
      var res := ZAdd(Db(), FirstMemberKey(mps), ZEntries(mps));
      if res.Ok? {
        server.databases := server.databases[database := res.value.ks];
      }
      r := ReplyOf(res, -1);
    }

    /** SortedSetCombineAndStoreIntersect / Union of two members, AGGREGATE SUM: the result is
        stored under the SECOND member's key. */
    method SortedSetCombineAndStorePair(intersect: bool, firstMember: Int32, secondMember: Int32) returns (r: Reply<int>)
      modifies server
      ensures var res := ZCombineStore(old(Db()), intersect, GenerateKey(secondMember), [GenerateKey(firstMember), GenerateKey(secondMember)]);
        server.databases == AfterCommand(old(server.databases), database, res) && r == ReplyOf(res, -1)
    {
      var res := ZCombineStore(Db(), intersect, GenerateKey(secondMember), [GenerateKey(firstMember), GenerateKey(secondMember)]);
      if res.Ok? {
        server.databases := server.databases[database := res.value.ks];
      }
      r := ReplyOf(res, -1);
    }

    /** SortedSetCombineAndStoreIntersect / Union of several members: stored under the first
        member's key (member 0 when there are none). */
    method SortedSetCombineAndStore(intersect: bool, members: seq<Int32>) returns (r: Reply<int>)
      modifies server
      ensures var res := ZCombineStore(old(Db()), intersect, GenerateKey(if members == [] then 0 else members[0]), GenerateKeys(members));
        server.databases == AfterCommand(old(server.databases), database, res) && r == ReplyOf(res, -1)
    {
      var res := ZCombineStore(Db(), intersect, GenerateKey(if members == [] then 0 else members[0]), GenerateKeys(members));
      if res.Ok? {
        server.databases := server.databases[database := res.value.ks];
      }
      r := ReplyOf(res, -1);
    }
  }

  /** Once a prefix of a list fails to read back, the whole list does. */
  lemma DeserializeAllPrefix(items: seq<string>, n: nat)
    requires n <= |items|
    requires DeserializeAll(items[..n]).Err?
    ensures DeserializeAll(items).Err?
  {
    assert items == items[..n] + items[n..];
    DeserializeAllAppend(items[..n], items[n..]);
  }
}
