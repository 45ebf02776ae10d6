/** What the repository's calls do together: what a read returns after a write, what one
    member's writes leave alone, what the list calls keep true of every list, how the sorted-set
    member names behave, and where the code does something other than what it evidently
    intends. */
module RepositoryProperties {
  import opened Outcomes
  import opened DotNet
  import opened Sequences
  import opened Domain
  import opened RedisStore
  import opened MemberPointKeys
  import opened Repository

  // ----- keys -----

  /** A write that touches only one member's key leaves every other member's key as it was. */
  lemma OtherMembersUntouched(ks: Keyspace, r: Keyspace, member: int, other: int)
    requires r - {GenerateKey(member)} == ks - {GenerateKey(member)}
    requires other != member
    ensures GenerateKey(other) in r <==> GenerateKey(other) in ks
    ensures GenerateKey(other) in r ==> r[GenerateKey(other)] == ks[GenerateKey(other)]
  {
    GenerateKeyInjective(member, other);
    var k := GenerateKey(other);
    assert k in r <==> k in r - {GenerateKey(member)};
    assert k in ks <==> k in ks - {GenerateKey(member)};
    if k in r {
      assert r[k] == (r - {GenerateKey(member)})[k];
    }
  }

  /** One key serves every kind of value: once StringInsert has written a member, the hash,
      list, set and sorted-set calls on that member all fail with WRONGTYPE. */
  lemma StringKeyRefusesOtherKinds(ks: Keyspace, mp: MemberPoint, texts: seq<string>, points: seq<Int64>)
    requires texts != [] && points != []
    ensures var key := GenerateKey(mp.memberId);
      var w := SetString(ks, key, mp.point);
      && HGetAll(w, key) == Err(WrongType)
      && HIncrBy(w, key, PointField, 1) == Err(WrongType)
      && LRangeAll(w, key) == Err(WrongType)
      && LPush(w, key, texts) == Err(WrongType)
      && RPush(w, key, texts) == Err(WrongType)
      && SMembers(w, key) == Err(WrongType)
      && SAdd(w, key, points) == Err(WrongType)
      && ZAdd(w, key, [(PointField, mp.point as int)]) == Err(WrongType)
  {
  }

  // ----- strings -----

  /** StringFind after StringInsert or StringUpdate: the entity comes back when its point fits
      in 32 bits; a larger point makes the Int32 conversion fail. */
  lemma FindAfterInsert(repo: RedisMemberPointRepository, mp: MemberPoint)
    requires StringAt(repo.Db(), GenerateKey(mp.memberId)) == Some(mp.point)
    ensures IsInt32(mp.point) ==> repo.StringFind(mp.memberId) == Reply(None, Some(mp))
    ensures !IsInt32(mp.point) ==> repo.StringFind(mp.memberId) == Reply(Some(CastOverflow), None)
  {
  }

  /** A member with no string gives the entity with point -1 and no error. */
  lemma FindAbsent(repo: RedisMemberPointRepository, member: Int32)
    requires GenerateKey(member) !in repo.Db()
    ensures repo.StringFind(member) == Reply(None, Some(MemberPoint(member, -1)))
    ensures repo.StringFindInt64(member) == Reply(None, Some(MemberPoint(member, -1)))
  {
  }

  /** The input that shows the Int32 conversion: a point of 2^31, which StringInsert stores
      and INCRBY can reach, is refused by StringFind and read back by the `long` conversion. */
  lemma FindRefusesLargePoint(repo: RedisMemberPointRepository, member: Int32)
    requires StringAt(repo.Db(), GenerateKey(member)) == Some(0x8000_0000)
    ensures repo.StringFind(member) == Reply(Some(CastOverflow), None)
    ensures repo.StringFindInt64(member) == Reply(None, Some(MemberPoint(member, 0x8000_0000)))
  {
  }

  /** With the `long` conversion, every stored entity reads back, whatever its point. */
  lemma FindInt64AfterInsert(repo: RedisMemberPointRepository, mp: MemberPoint)
    requires StringAt(repo.Db(), GenerateKey(mp.memberId)) == Some(mp.point)
    ensures repo.StringFindInt64(mp.memberId) == Reply(None, Some(mp))
  {
  }

  /** StringInsert followed by StringFind on the same repository. */
  method InsertThenFind(repo: RedisMemberPointRepository, mp: MemberPoint) returns (r: Reply<Option<MemberPoint>>)
    modifies repo.server
    ensures r == if IsInt32(mp.point) then Reply(None, Some(mp)) else Reply(Some(CastOverflow), None)
  {
    var done := repo.StringInsert(mp);
    FindAfterInsert(repo, mp);
    r := repo.StringFind(mp.memberId);
  }

  /** When every member's key holds a number, StringGet answers one entity per member, in the
      members' order and with the stored number, a repeated member once per occurrence. */
  lemma StringGetAnswersEveryMember(ks: Keyspace, members: seq<Int32>)
    requires forall i :: 0 <= i < |members| ==> StringAt(ks, GenerateKey(members[i])).Some?
    ensures var r := PresentPoints(members, MGet(ks, GenerateKeys(members)));
      |r| == |members|
      && forall i :: 0 <= i < |members| ==>
        r[i] == MemberPoint(members[i], StringAt(ks, GenerateKey(members[i])).value)
  {
    var values := MGet(ks, GenerateKeys(members));
    assert forall i :: 0 <= i < |values| ==> values[i] == StringAt(ks, GenerateKey(members[i]));
    PresentPointsAllPresent(members, values);
  }

  /** StringDecrement by the change StringIncrement added puts the number back (a key that was
      missing now holds 0). An increment that succeeded was not by the minimum `long`, so the
      decrement's negation is exact. */
  lemma DecrementUndoesIncrement(ks: Keyspace, member: Int32, change: Int64)
    requires ClientIncrBy(ks, GenerateKey(member), change).Ok?
    ensures var key := GenerateKey(member);
      var prior := if key in ks then ks[key].number else 0;
      var w := ClientIncrBy(ks, key, change).value;
      ClientIncrBy(w.ks, key, Negate64(change)) == Ok(Written(SetString(ks, key, prior), prior))
  {
    var key := GenerateKey(member);
    var prior := if key in ks then ks[key].number else 0;
    var w := ClientIncrBy(ks, key, change).value;
    assert w.ks == ks[key := Str(prior + change)];
    assert Negate64(change) == -change;
    assert IncrBy(w.ks, key, -change) == Ok(Written(w.ks[key := Str(prior)], prior));
    assert w.ks[key := Str(prior)] == ks[key := Str(prior)];
  }

  // ----- hashes -----

  /** HashInsert writes the MemberId and Point fields together and keeps the other fields. */
  lemma HashInsertWritesBothFields(ks: Keyspace, mp: MemberPoint)
    requires HSet(ks, GenerateKey(mp.memberId), map[MemberIdField := mp.memberId as Int64, PointField := mp.point]).Ok?
    ensures var key := GenerateKey(mp.memberId);
      var h := HashAt(HSet(ks, key, map[MemberIdField := mp.memberId as Int64, PointField := mp.point]).value, key);
      && MemberIdField in h && h[MemberIdField] == mp.memberId as Int64
      && PointField in h && h[PointField] == mp.point
      && h.Keys == HashAt(ks, key).Keys + {MemberIdField, PointField}
  {
    assert MemberIdField[0] != PointField[0];
  }

  /** HashFindAll and HashFindField on a hash that holds both fields of an entity give that
      entity back. */
  lemma FindAllAfterHashInsert(repo: RedisMemberPointRepository, mp: MemberPoint)
    requires var h := HashAt(repo.Db(), GenerateKey(mp.memberId));
      && MemberIdField in h && h[MemberIdField] == mp.memberId as Int64
      && PointField in h && h[PointField] == mp.point
    ensures repo.HashFindAll(mp.memberId) == Reply(None, Some(mp))
    ensures repo.HashFindField(mp.memberId) == Reply(None, Some(mp))
  {
  }

  /** HashInsert followed by HashFindAll: the entity comes back unless the key holds another
      kind of value, in which case both fail with WRONGTYPE. */
  method HashInsertThenFindAll(repo: RedisMemberPointRepository, mp: MemberPoint) returns (r: Reply<Option<MemberPoint>>)
    modifies repo.server
    ensures IsHashOrAbsent(old(repo.Db()), GenerateKey(mp.memberId)) ==> r == Reply(None, Some(mp))
    ensures !IsHashOrAbsent(old(repo.Db()), GenerateKey(mp.memberId)) ==> r == Reply(Some(WrongType), None)
  {
    var ks := repo.Db();
    var key := GenerateKey(mp.memberId);
    var fields := map[MemberIdField := mp.memberId as Int64, PointField := mp.point];
    var done := repo.HashInsert(mp);
    if IsHashOrAbsent(ks, key) {
      assert MemberIdField in fields;
      assert repo.Db() == HSet(ks, key, fields).value;
      HashInsertWritesBothFields(ks, mp);
      FindAllAfterHashInsert(repo, mp);
    }
    r := repo.HashFindAll(mp.memberId);
  }

  /** HashIncrement changes the Point field by the change and no other field. */
  lemma HashIncrementChangesOnlyPoint(ks: Keyspace, member: Int32, change: Int64)
    requires HIncrBy(ks, GenerateKey(member), PointField, change).Ok?
    ensures var key := GenerateKey(member);
      var h := HashAt(ks, key);
      var h' := HashAt(HIncrBy(ks, key, PointField, change).value.ks, key);
      && h'.Keys == h.Keys + {PointField}
      && h'[PointField] == (if PointField in h then h[PointField] else 0) + change
      && (forall f :: f in h && f != PointField ==> h'[f] == h[f])
  {
  }

  // ----- lists -----

  /** Left-pushing values one by one stacks them in reverse order in front of the list. */
  lemma PushEachLeftReverses(list: seq<string>, values: seq<string>)
    ensures PushEachLeft(list, values) == Reversed(values) + list
  {
    var texts := PushEachLeft(list, values);
    var k := |values|;
    forall i | 0 <= i < |texts| ensures texts[i] == (Reversed(values) + list)[i] {
      if i >= k {
        assert texts[i] == texts[k..][i - k];
      }
    }
  }

  /** The batch ListLeftPush puts the entities, last first, in front of what the list held. */
  lemma LeftPushReadsBack(list: seq<string>, prior: seq<MemberPoint>, mps: seq<MemberPoint>)
    requires DeserializeAll(list) == Ok(prior)
    ensures DeserializeAll(PushEachLeft(list, Serialized(mps))) == Ok(Reversed(mps) + prior)
  {
    PushEachLeftReverses(list, Serialized(mps));
    DeserializeAllSerialized(mps);
    DeserializeAllReversed(Serialized(mps));
    DeserializeAllAppend(Reversed(Serialized(mps)), list);
  }

  /** The batch ListRightPush puts the entities, in order, after what the list held. */
  lemma RightPushReadsBack(list: seq<string>, prior: seq<MemberPoint>, mps: seq<MemberPoint>)
    requires DeserializeAll(list) == Ok(prior)
    ensures DeserializeAll(PushEachRight(list, Serialized(mps))) == Ok(prior + mps)
  {
    DeserializeAllSerialized(mps);
    DeserializeAllAppend(list, Serialized(mps));
  }

  /** Left-pushing [a, b, c] onto a member with no list, then reading the list of the first
      entity's member, gives [c, b, a], whatever members b and c belong to. */
  method LeftPushThenRange(repo: RedisMemberPointRepository, a: MemberPoint, b: MemberPoint, c: MemberPoint)
    returns (n: Reply<int>, r: Reply<Option<seq<MemberPoint>>>)
    requires GenerateKey(a.memberId) !in repo.Db()
    modifies repo.server
    ensures n == Reply(None, 3)
    ensures r == Reply(None, Some([c, b, a]))
  {
    var key := GenerateKey(a.memberId);
    var ks := repo.Db();
    n := repo.ListLeftPushMany([a, b, c]);
    assert FirstMemberKey([a, b, c]) == key;
    LeftPushReadsBack([], [], [a, b, c]);
    assert Reversed([a, b, c]) == [c, b, a] by {
      var rev := Reversed([a, b, c]);
      assert rev[0] == c && rev[1] == b && rev[2] == a;
    }
    assert [c, b, a] + [] == [c, b, a];
    r := repo.ListRange(a.memberId);
  }

  /** The list stored under one key reads back as entities. */
  predicate ListHolds(ks: Keyspace, key: string) {
    DeserializeAll(ListAt(ks, key)).Ok?
  }

  /** A command that changed only the keys in `keys`, and left each of them holding entity
      texts or no list, keeps every list holding entity texts. */
  lemma HoldsAfterWrite(ks: Keyspace, r: Keyspace, keys: set<string>)
    requires ListsHoldMemberPoints(ks)
    requires r - keys == ks - keys
    requires forall k | k in keys :: ListHolds(r, k)
    ensures ListsHoldMemberPoints(r)
  {
    forall k | k in r && r[k].List? ensures DeserializeAll(r[k].items).Ok? {
      if k in keys {
        assert ListHolds(r, k);
        assert ListAt(r, k) == r[k].items;
      } else {
        assert k in r - keys;
        assert r[k] == (r - keys)[k] == (ks - keys)[k] == ks[k];
      }
    }
  }

  /** The batch ListLeftPush writes only entity texts, so every list keeps holding them. */
  lemma LeftPushKeepsListsOfMemberPoints(ks: Keyspace, key: string, mps: seq<MemberPoint>)
    requires ListsHoldMemberPoints(ks)
    ensures LPush(ks, key, Serialized(mps)).Ok? ==> ListsHoldMemberPoints(LPush(ks, key, Serialized(mps)).value.ks)
  {
    var res := LPush(ks, key, Serialized(mps));
    if res.Ok? {
      assert ListHolds(ks, key);
      LeftPushReadsBack(ListAt(ks, key), DeserializeAll(ListAt(ks, key)).value, mps);
      HoldsAfterWrite(ks, res.value.ks, {key});
    }
  }

  /** The batch ListRightPush writes only entity texts, so every list keeps holding them. */
  lemma RightPushKeepsListsOfMemberPoints(ks: Keyspace, key: string, mps: seq<MemberPoint>)
    requires ListsHoldMemberPoints(ks)
    ensures RPush(ks, key, Serialized(mps)).Ok? ==> ListsHoldMemberPoints(RPush(ks, key, Serialized(mps)).value.ks)
  {
    var res := RPush(ks, key, Serialized(mps));
    if res.Ok? {
      assert ListHolds(ks, key);
      RightPushReadsBack(ListAt(ks, key), DeserializeAll(ListAt(ks, key)).value, mps);
      HoldsAfterWrite(ks, res.value.ks, {key});
    }
  }

  /** A text that reads back, inserted anywhere into a list that reads back, leaves a list
      that reads back. */
  lemma InsertedReadsBack(l: seq<string>, j: nat, text: string)
    requires j <= |l|
    requires DeserializeAll(l).Ok? && DeserializeAll([text]).Ok?
    ensures DeserializeAll(l[..j] + [text] + l[j..]).Ok?
  {
    SplitAt(l, j);
    DeserializeAllAppend(l[..j], l[j..]);
    DeserializeAllAppend(l[..j], [text]);
    DeserializeAllAppend(l[..j] + [text], l[j..]);
  }

  /** ListInsertAfter and ListInsertBefore write one entity text, so every list keeps
      holding entity texts. */
  lemma InsertKeepsListsOfMemberPoints(ks: Keyspace, key: string, after: bool, pivot: string, text: string)
    requires ListsHoldMemberPoints(ks)
    requires DeserializeAll([text]).Ok?
    ensures LInsert(ks, key, after, pivot, text).Ok? ==> ListsHoldMemberPoints(LInsert(ks, key, after, pivot, text).value.ks)
  {
    var l := ListAt(ks, key);
    var res := LInsert(ks, key, after, pivot, text);
    if res.Ok? {
      if pivot in l {
        var i :| 0 <= i < |l| && l[i] == pivot && pivot !in l[..i]
          && ListAt(res.value.ks, key) == (var j := if after then i + 1 else i; l[..j] + [text] + l[j..]);
        assert ListHolds(ks, key);
        InsertedReadsBack(l, if after then i + 1 else i, text);
      }
      HoldsAfterWrite(ks, res.value.ks, {key});
    }
  }

  /** ListRemove takes texts away, so every list keeps holding entity texts. */
  lemma RemoveKeepsListsOfMemberPoints(ks: Keyspace, key: string, text: string)
    requires ListsHoldMemberPoints(ks)
    ensures LRemAll(ks, key, text).Ok? ==> ListsHoldMemberPoints(LRemAll(ks, key, text).value.ks)
  {
    var l := ListAt(ks, key);
    var res := LRemAll(ks, key, text);
    if res.Ok? {
      var kept := ListAt(res.value.ks, key);
      assert ListHolds(ks, key);
      DeserializeAllReadable(l);
      forall x | x in kept ensures Deserialize(x).Ok? {
        assert x in multiset(kept);
        assert x in multiset(l);
      }
      DeserializeAllReadable(kept);
      HoldsAfterWrite(ks, res.value.ks, {key});
    }
  }

  /** ListLeftPop and ListRightPop take one text off an end, so every list keeps holding
      entity texts. */
  lemma PopsKeepListsOfMemberPoints(ks: Keyspace, key: string)
    requires ListsHoldMemberPoints(ks)
    ensures LPop(ks, key).Ok? ==> ListsHoldMemberPoints(LPop(ks, key).value.ks)
    ensures RPop(ks, key).Ok? ==> ListsHoldMemberPoints(RPop(ks, key).value.ks)
  {
    var l := ListAt(ks, key);
    assert ListHolds(ks, key);
    var lp := LPop(ks, key);
    if lp.Ok? {
      if lp.value.reply.Some? {
        SplitAt(l, 1);
        DeserializeAllAppend(l[..1], l[1..]);
      }
      HoldsAfterWrite(ks, lp.value.ks, {key});
    }
    var rp := RPop(ks, key);
    if rp.Ok? {
      if rp.value.reply.Some? {
        var n := |l| - 1;
        SplitAt(l, n);
        DeserializeAllAppend(l[..n], l[n..]);
      }
      HoldsAfterWrite(ks, rp.value.ks, {key});
    }
  }

  /** Moving the last text of a list that reads back to the front of that list, or of
      another list that reads back, leaves lists that read back. */
  lemma MovedReadsBack(l: seq<string>, d: seq<string>)
    requires l != []
    requires DeserializeAll(l).Ok? && DeserializeAll(d).Ok?
    ensures DeserializeAll(l[..|l| - 1]).Ok?
    ensures DeserializeAll([l[|l| - 1]] + d).Ok?
    ensures DeserializeAll([l[|l| - 1]] + l[..|l| - 1]).Ok?
  {
    var front, x := l[..|l| - 1], l[|l| - 1];
    FrontLast(l);
    DeserializeAllAppend(front, [x]);
    DeserializeAllAppend([x], d);
    DeserializeAllAppend([x], front);
  }

  /** ListRightPopLeftPush moves one text between lists, so every list keeps holding entity
      texts. */
  lemma MoveKeepsListsOfMemberPoints(ks: Keyspace, key: string, dst: string)
    requires ListsHoldMemberPoints(ks)
    ensures RPopLPush(ks, key, dst).Ok? ==> ListsHoldMemberPoints(RPopLPush(ks, key, dst).value.ks)
  {
    var mv := RPopLPush(ks, key, dst);
    if mv.Ok? {
      if mv.value.reply.Some? {
        assert ListHolds(ks, key) && ListHolds(ks, dst);
        MovedReadsBack(ListAt(ks, key), ListAt(ks, dst));
      }
      HoldsAfterWrite(ks, mv.value.ks, {key, dst});
    }
  }

  /** While every list holds entity texts, ListRange never meets text the JSON reader
      rejects: it fails only on a key of another kind. */
  lemma RangeReadsEveryList(ks: Keyspace, key: string)
    requires ListsHoldMemberPoints(ks)
    ensures DeserializeAll(ListAt(ks, key)).Ok?
  {
    assert ListHolds(ks, key);
  }

  /** ListRightPopLeftPush moves one text: between two lists, neither gains nor loses an
      element overall; on one list it turns the list by one place. */
  lemma MoveConservesElements(ks: Keyspace, src: string, dst: string)
    requires RPopLPush(ks, src, dst).Ok?
    ensures var r := RPopLPush(ks, src, dst).value.ks;
      src != dst ==>
        multiset(ListAt(r, src)) + multiset(ListAt(r, dst)) == multiset(ListAt(ks, src)) + multiset(ListAt(ks, dst))
    ensures var r := RPopLPush(ks, src, dst).value.ks;
      src == dst ==> multiset(ListAt(r, src)) == multiset(ListAt(ks, src)) && |ListAt(r, src)| == |ListAt(ks, src)|
  {
    var res := RPopLPush(ks, src, dst).value;
    var l := ListAt(ks, src);
    if res.reply.Some? {
      assert l == l[..|l| - 1] + [l[|l| - 1]];
    }
  }

  /** The input that shows the unchecked read of ListRightPopLeftPush: an empty source. The
      call reports NullArgument, where the sibling pops report a null entity. */
  lemma MoveFromEmptySourceFaults(ks: Keyspace, src: string, dst: string)
    requires IsListOrAbsent(ks, src) && ListAt(ks, src) == []
    ensures MovedReply(RPopLPush(ks, src, dst)) == Reply(Some(NullArgument), None)
    ensures PoppedReply(RPopLPush(ks, src, dst)) == Reply(None, None)
  {
  }

  /** Whenever an element was moved, or the command failed, the checked and the unchecked
      reply agree: the empty source is the one input on which they differ. */
  lemma MovedReplyDiffersOnlyOnEmpty(res: Result<Written<Option<string>>>)
    ensures MovedReply(res) != PoppedReply(res) <==> res.Ok? && res.value.reply.None?
  {
  }

  // ----- sets -----

  /** The batch SetAdd adds every point to the first entity's set, whichever members the
      other entities belong to; an empty batch is refused. */
  lemma BatchAddUsesFirstKey(ks: Keyspace, mps: seq<MemberPoint>)
    requires SAdd(ks, FirstMemberKey(mps), Points(mps)).Ok?
    ensures mps != []
    ensures var r := SAdd(ks, FirstMemberKey(mps), Points(mps)).value.ks;
      forall i :: 0 <= i < |mps| ==> mps[i].point in SetAt(r, GenerateKey(mps[0].memberId))
  {
    var points := Points(mps);
    assert points != [];
    var key := FirstMemberKey(mps);
    assert key == GenerateKey(mps[0].memberId);
    var added := SetAt(SAdd(ks, key, points).value.ks, key);
    forall i | 0 <= i < |mps| ensures mps[i].point in added {
      assert points[i] == mps[i].point;
      assert points[i] in points;
    }
  }

  /** SetCombine...AndStore of two members overwrites the first member's set with the union,
      the intersection or the first minus the second, and leaves the second member's set. */
  lemma PairStoreOverwritesFirst(ks: Keyspace, op: SetOperation, a: Int32, b: Int32)
    requires a != b
    requires SCombineStore(ks, op, GenerateKey(a), [GenerateKey(a), GenerateKey(b)]).Ok?
    ensures var A := SetAt(ks, GenerateKey(a));
      var B := SetAt(ks, GenerateKey(b));
      var w := SCombineStore(ks, op, GenerateKey(a), [GenerateKey(a), GenerateKey(b)]).value;
      var S := SetAt(w.ks, GenerateKey(a));
      && S == (match op case Union => A + B case Intersect => A * B case Difference => A - B)
      && SetAt(w.ks, GenerateKey(b)) == B
      && w.reply == |S|
  {
    var ka, kb := GenerateKey(a), GenerateKey(b);
    var w := SCombineStore(ks, op, ka, [ka, kb]).value;
    var sets := SetsAt(ks, [ka, kb]).value;
    assert sets == [SetAt(ks, ka), SetAt(ks, kb)];
    CombinePair(op, SetAt(ks, ka), SetAt(ks, kb));
    OtherMembersUntouched(ks, w.ks, a, b);
  }

  /** SetMove neither creates nor loses a point: the two sets hold together what they held. */
  lemma SetMoveConservesPoints(ks: Keyspace, src: string, dst: string, point: Int64)
    requires SMove(ks, src, dst, point).Ok?
    ensures var r := SMove(ks, src, dst, point).value.ks;
      SetAt(r, src) + SetAt(r, dst) == SetAt(ks, src) + SetAt(ks, dst)
  {
  }

  // ----- sorted sets -----

  /** ApplyScores keeps, for a member, the one score every pair naming it carries. */
  lemma {:induction false} ScoreOfAgreeingPairs(z: map<string, int>, entries: seq<(string, int)>, m: string, score: int)
    requires m in Names(entries)
    requires forall e | e in entries && e.0 == m :: e.1 == score
    ensures ApplyScores(z, entries)[m] == score
  {
    var front := entries[..|entries| - 1];
    var last := entries[|entries| - 1];
    assert entries == front + [last];
    if last.0 != m {
      var e :| e in entries && e.0 == m;
      assert e in front;
      ScoreOfAgreeingPairs(z, front, m, score);
    }
  }

  /** A sorted set built by single SortedSetAdd calls holds at most the one member "Point",
      scored with the last point added. */
  lemma SingleAddKeepsOneMember(ks: Keyspace, key: string, point: Int64)
    requires ZSetAt(ks, key).Keys <= {PointField}
    requires ZAdd(ks, key, [(PointField, point as int)]).Ok?
    ensures ZSetAt(ZAdd(ks, key, [(PointField, point as int)]).value.ks, key) == map[PointField := point as int]
  {
    var z := ZSetAt(ks, key);
    var entries := [(PointField, point as int)];
    var none: seq<(string, int)> := [];
    assert entries[..0] == none;
    assert ApplyScores(z, entries) == z[PointField := point as int];
    assert z[PointField := point as int].Keys == {PointField};
  }

  /** Adding again, in a batch, points whose members are already there adds no member: the
      reply is 0 and each member's score is its point. */
  lemma BatchReAddKeepsMembers(ks: Keyspace, key: string, mps: seq<MemberPoint>)
    requires forall i :: 0 <= i < |mps| ==> ZMemberName(mps[i].point) in ZSetAt(ks, key)
    requires ZAdd(ks, key, ZEntries(mps)).Ok?
    ensures var w := ZAdd(ks, key, ZEntries(mps)).value;
      && w.reply == 0
      && ZSetAt(w.ks, key).Keys == ZSetAt(ks, key).Keys
      && forall i :: 0 <= i < |mps| ==> ZSetAt(w.ks, key)[ZMemberName(mps[i].point)] == mps[i].point
  {
    var entries := ZEntries(mps);
    var z := ZSetAt(ks, key);
    assert Names(entries) <= z.Keys by {
      forall n | n in Names(entries) ensures n in z {
        var e :| e in entries && e.0 == n;
        var i :| 0 <= i < |entries| && entries[i] == e;
      }
    }
    assert Names(entries) - z.Keys == {};
    forall i | 0 <= i < |mps| ensures ApplyScores(z, entries)[ZMemberName(mps[i].point)] == mps[i].point {
      var m := ZMemberName(mps[i].point);
      assert entries[i] in entries;
      forall e | e in entries && e.0 == m ensures e.1 == mps[i].point {
        var j :| 0 <= j < |entries| && entries[j] == e;
        ZMemberNameInjective(mps[j].point, mps[i].point);
      }
      ScoreOfAgreeingPairs(z, entries, m, mps[i].point);
    }
  }

  /** The two-member SortedSetCombineAndStore writes the second member's key and leaves the
      first member's sorted set as it was. */
  lemma PairZStoreWritesSecond(ks: Keyspace, intersect: bool, a: Int32, b: Int32)
    requires a != b
    requires ZCombineStore(ks, intersect, GenerateKey(b), [GenerateKey(a), GenerateKey(b)]).Ok?
    ensures var w := ZCombineStore(ks, intersect, GenerateKey(b), [GenerateKey(a), GenerateKey(b)]).value;
      && ZSetAt(w.ks, GenerateKey(b)) == ZCombine(ks, intersect, [GenerateKey(a), GenerateKey(b)]).value
      && (GenerateKey(a) in w.ks <==> GenerateKey(a) in ks)
      && ZSetAt(w.ks, GenerateKey(a)) == ZSetAt(ks, GenerateKey(a))
  {
    var w := ZCombineStore(ks, intersect, GenerateKey(b), [GenerateKey(a), GenerateKey(b)]).value;
    OtherMembersUntouched(ks, w.ks, b, a);
  }

  /** Combining two members' sorted sets built by single adds, union or intersection alike,
      gives the one member "Point" scored with the sum of the two points. */
  lemma CombineSingleAddsSumsPoints(ks: Keyspace, ka: string, kb: string, p: Int64, q: Int64)
    requires ka in ks && ks[ka] == ZSet(map[PointField := p as int])
    requires kb in ks && ks[kb] == ZSet(map[PointField := q as int])
    ensures ZCombine(ks, false, [ka, kb]) == Ok(map[PointField := p + q])
    ensures ZCombine(ks, true, [ka, kb]) == Ok(map[PointField := p + q])
  {
    var za, zb := map[PointField := p as int], map[PointField := q as int];
    var zs := ScoresOf(ks, [ka, kb]).value;
    assert zs == [za, zb];
    ScoreSumPair(za, zb, PointField);
    var u := UnionSum(zs);
    assert PointField in zs[0];
    forall m | m in u ensures m == PointField {
      var i :| 0 <= i < 2 && m in zs[i];
    }
    assert u == map[PointField := p + q];
    var n := InterSum(zs);
    assert PointField in zs[0] && PointField in zs[1];
    forall m | m in n ensures m == PointField {
      assert m in zs[0];
    }
    assert n == map[PointField := p + q];
  }
}
