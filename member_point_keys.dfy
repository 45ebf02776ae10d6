/** The pure half of RedisMemberPointRepository: the key every member's data lives under, the
    sorted-set member names, and the functions that say which entities a multi-key read returns. */
module MemberPointKeys {
  import opened Outcomes
  import opened DotNet
  import opened Sequences
  import opened Domain
  import opened RedisStore

  const Affix: string := "RedisSample"
  const KeyPrefix: string := Affix + ":MemberPoint:"

  /** The key of a member: the affix, the entity name and the member id in decimal. */
  function GenerateKey(memberId: int): string {
    KeyPrefix + IntToString(memberId)
  }

  /** Different members never share a key, so each member's data is kept apart. */
  lemma GenerateKeyInjective(a: int, b: int)
    ensures GenerateKey(a) == GenerateKey(b) <==> a == b
  {
    if GenerateKey(a) == GenerateKey(b) {
      assert IntToString(a) == GenerateKey(a)[|KeyPrefix|..];
      assert IntToString(b) == GenerateKey(b)[|KeyPrefix|..];
      IntToStringInjective(a, b);
    }
  }

  /** The keys of several members, in the order given. */
  function GenerateKeys(members: seq<Int32>): (keys: seq<string>)
    ensures |keys| == |members|
    ensures forall i :: 0 <= i < |members| ==> keys[i] == GenerateKey(members[i])
  {
    seq(|members|, i requires 0 <= i < |members| => GenerateKey(members[i]))
  }

  /** The key a batch write goes to: the first entity's member, or member 0 (the default of
      `int`) for an empty batch. */
  function FirstMemberKey(mps: seq<MemberPoint>): string {
    GenerateKey(if mps == [] then 0 else mps[0].memberId)
  }

  /** The hash fields HashInsert writes: the names of the two properties. */
  const MemberIdField: string := "MemberId"
  const PointField: string := "Point"

  /** The sorted-set member the batch SortedSetAdd writes for a point: "Point" and its digits. */
  function ZMemberName(point: Int64): string {
    PointField + IntToString(point)
  }

  lemma ZMemberNameInjective(a: Int64, b: Int64)
    ensures ZMemberName(a) == ZMemberName(b) <==> a == b
  {
    if ZMemberName(a) == ZMemberName(b) {
      assert IntToString(a) == ZMemberName(a)[|PointField|..];
      assert IntToString(b) == ZMemberName(b)[|PointField|..];
      IntToStringInjective(a, b);
    }
  }

  function ZEntries(mps: seq<MemberPoint>): (entries: seq<(string, int)>)
    ensures |entries| == |mps|
    ensures forall i :: 0 <= i < |mps| ==> entries[i] == (ZMemberName(mps[i].point), mps[i].point)
  {
    seq(|mps|, i requires 0 <= i < |mps| => (ZMemberName(mps[i].point), mps[i].point as int))
  }

  function Serialized(mps: seq<MemberPoint>): (texts: seq<string>)
    ensures |texts| == |mps|
    ensures forall i :: 0 <= i < |mps| ==> texts[i] == Serialize(mps[i])
  {
    seq(|mps|, i requires 0 <= i < |mps| => Serialize(mps[i]))
  }

  /** The points of the entities, in order. */
  function Points(mps: seq<MemberPoint>): (points: seq<Int64>)
    ensures |points| == |mps|
    ensures forall i :: 0 <= i < |mps| ==> points[i] == mps[i].point
  {
    seq(|mps|, i requires 0 <= i < |mps| => mps[i].point)
  }

  // ----- what a multi-key read returns -----

  /** The entities a multi-key read builds: one per member whose value is present, in the
      members' order, absent values skipped. */
  function PresentPoints(members: seq<Int32>, values: seq<Option<Int64>>): (r: seq<MemberPoint>)
    requires |members| == |values|
    ensures |r| <= |members|
  {
    if members == [] then []
    else
      var n := |members| - 1;
      var front := PresentPoints(members[..n], values[..n]);
      if values[n].Some? then front + [MemberPoint(members[n], values[n].value)] else front
  }

  /** Every entity built comes from a member whose value is present, and every member whose
      value is present yields its entity. */
  lemma {:induction false} PresentPointsExactly(members: seq<Int32>, values: seq<Option<Int64>>)
    requires |members| == |values|
    ensures forall mp :: mp in PresentPoints(members, values) ==>
      exists i :: 0 <= i < |members| && members[i] == mp.memberId && values[i] == Some(mp.point)
    ensures forall i :: 0 <= i < |members| && values[i].Some? ==>
      MemberPoint(members[i], values[i].value) in PresentPoints(members, values)
  {
    if members != [] {
      var n := |members| - 1;
      PresentPointsExactly(members[..n], values[..n]);
      var front := PresentPoints(members[..n], values[..n]);
      forall mp | mp in PresentPoints(members, values)
        ensures exists i :: 0 <= i < |members| && members[i] == mp.memberId && values[i] == Some(mp.point)
      {
        if mp in front {
          var i :| 0 <= i < n && members[..n][i] == mp.memberId && values[..n][i] == Some(mp.point);
          assert members[i] == mp.memberId && values[i] == Some(mp.point);
        } else {
          assert members[n] == mp.memberId && values[n] == Some(mp.point);
        }
      }
      forall i | 0 <= i < |members| && values[i].Some?
        ensures MemberPoint(members[i], values[i].value) in PresentPoints(members, values)
      {
        if i < n {
          assert members[..n][i] == members[i] && values[..n][i] == values[i];
        }
      }
    }
  }

  /** When every value is present, the read yields one entity per member, in the members' order,
      repeated members included. */
  lemma {:induction false} PresentPointsAllPresent(members: seq<Int32>, values: seq<Option<Int64>>)
    requires |members| == |values|
    requires forall i :: 0 <= i < |values| ==> values[i].Some?
    ensures |PresentPoints(members, values)| == |members|
    ensures forall i :: 0 <= i < |members| ==>
      PresentPoints(members, values)[i] == MemberPoint(members[i], values[i].value)
  {
    if members != [] {
      var n := |members| - 1;
      assert forall i :: 0 <= i < n ==> values[..n][i] == values[i];
      PresentPointsAllPresent(members[..n], values[..n]);
      var front := PresentPoints(members[..n], values[..n]);
      assert PresentPoints(members, values) == front + [MemberPoint(members[n], values[n].value)];
      forall i | 0 <= i < n
        ensures PresentPoints(members, values)[i] == MemberPoint(members[i], values[i].value)
      {
        assert members[..n][i] == members[i];
      }
    }
  }

  /** One more member read: its entity, when its value is present, follows the others. */
  lemma PresentPointsSnoc(members: seq<Int32>, values: seq<Option<Int64>>, i: nat)
    requires |members| == |values| && i < |members|
    ensures PresentPoints(members[..i + 1], values[..i + 1])
      == PresentPoints(members[..i], values[..i]) + (if values[i].Some? then [MemberPoint(members[i], values[i].value)] else [])
  {
    assert members[..i + 1][..i] == members[..i] && values[..i + 1][..i] == values[..i];
    assert members[..i + 1][i] == members[i] && values[..i + 1][i] == values[i];
  }

  /** The Point field of a stored hash, if it has one. */
  function PointOf(h: map<string, Int64>): (r: Option<Int64>)
    ensures r.Some? <==> PointField in h
    ensures r.Some? ==> r.value == h[PointField]
  {
    if PointField in h then Some(h[PointField]) else None
  }

  /** The Point field of each key's hash, in the order of the keys. */
  function HashPointsAt(ks: Keyspace, keys: seq<string>): (r: seq<Option<Int64>>)
    ensures |r| == |keys|
    ensures forall i :: 0 <= i < |keys| ==> r[i] == PointOf(HashAt(ks, keys[i]))
  {
    seq(|keys|, i requires 0 <= i < |keys| => PointOf(HashAt(ks, keys[i])))
  }

  predicate Distinct<T(==)>(s: seq<T>) {
    forall i, j :: 0 <= i < j < |s| ==> s[i] != s[j]
  }

  /** The entities a read over a set builds: one per member of the set, under one member id. */
  function MemberPointsOf(memberId: Int32, points: set<Int64>): set<MemberPoint> {
    set p | p in points :: MemberPoint(memberId, p)
  }

  /** Every stored list reads back as entities. The repository only ever writes entity
      texts, so its list reads never meet text the JSON reader rejects. */
  predicate ListsHoldMemberPoints(ks: Keyspace) {
    forall k | k in ks && ks[k].List? :: DeserializeAll(ks[k].items).Ok?
  }

  /** Reads back every element of a list as an entity, failing on the first text that is not
      one. */
  function DeserializeAll(texts: seq<string>): (r: Result<seq<MemberPoint>>)
    ensures r.Ok? ==> |r.value| == |texts|
  {
    if texts == [] then Ok([])
    else
      var n := |texts| - 1;
      match DeserializeAll(texts[..n])
      case Err(e) => Err(e)
      case Ok(front) =>
        match Deserialize(texts[n])
        case Err(e) => Err(e)
        case Ok(mp) => Ok(front + [mp])
  }

  /** A list reads back exactly when each of its texts does. */
  lemma {:induction false} DeserializeAllReadable(texts: seq<string>)
    ensures DeserializeAll(texts).Ok? <==> forall x | x in texts :: Deserialize(x).Ok?
  {
    if texts != [] {
      var n := |texts| - 1;
      var front := texts[..n];
      assert texts == front + [texts[n]];
      assert forall x :: x in texts <==> x in front || x == texts[n];
      DeserializeAllReadable(front);
    }
  }

  /** Reading a concatenation reads each part: it succeeds exactly when both parts do, and
      then gives the entities of the first part followed by those of the second. */
  lemma {:induction false} DeserializeAllAppend(a: seq<string>, b: seq<string>)
    ensures DeserializeAll(a + b).Ok? <==> DeserializeAll(a).Ok? && DeserializeAll(b).Ok?
    ensures DeserializeAll(a + b).Ok? ==>
      DeserializeAll(a + b).value == DeserializeAll(a).value + DeserializeAll(b).value
  {
    if b == [] {
      AppendEmpty(a, b);
    } else {
      var n := |b| - 1;
      var b' := b[..n];
      AppendFrontLast(a, b);
      DeserializeAllAppend(a, b');
      if DeserializeAll(a + b).Ok? {
        var va, vb' := DeserializeAll(a).value, DeserializeAll(b').value;
        var m := Deserialize(b[n]).value;
        AppendAssociative(va, vb', [m]);
      }
    }
  }

  /** Reading a reversed list gives the entities in reverse order. */
  lemma {:induction false} DeserializeAllReversed(texts: seq<string>)
    requires DeserializeAll(texts).Ok?
    ensures DeserializeAll(Reversed(texts)) == Ok(Reversed(DeserializeAll(texts).value))
  {
    if texts != [] {
      var head, tail := texts[..1], texts[1..];
      assert texts == head + tail;
      DeserializeAllAppend(head, tail);
      DeserializeAllReversed(tail);
      ReversedFront(texts);
      DeserializeAllAppend(Reversed(tail), head);
      var v, v0, v1 := DeserializeAll(texts).value, DeserializeAll(head).value, DeserializeAll(tail).value;
      assert v == v0 + v1 && |v0| == 1;
      assert v[1..] == v1 && v[..1] == v0;
      ReversedFront(v);
    }
  }

  /** The one-element list holding an entity's text reads back as that entity. */
  lemma DeserializeAllOne(mp: MemberPoint)
    ensures DeserializeAll([Serialize(mp)]) == Ok([mp])
  {
    DeserializeAllSingle(Serialize(mp));
    DeserializeSerialize(mp);
  }

  /** A one-element list reads back as its one text does. */
  lemma DeserializeAllSingle(text: string)
    ensures Deserialize(text).Ok? ==> DeserializeAll([text]) == Ok([Deserialize(text).value])
    ensures Deserialize(text).Err? ==> DeserializeAll([text]).Err?
  {
    var texts := [text];
    assert texts[..0] == [] && texts[0] == text;
    assert DeserializeAll(texts[..0]) == Ok([]);
    if Deserialize(text).Ok? {
      var m := Deserialize(text).value;
      assert [] + [m] == [m];
    }
  }

  lemma DeserializeAllSnoc(front: seq<string>, text: string, prior: seq<MemberPoint>, mp: MemberPoint)
    requires DeserializeAll(front) == Ok(prior) && DeserializeAll([text]) == Ok([mp])
    ensures DeserializeAll(front + [text]) == Ok(prior + [mp])
  {
    DeserializeAllAppend(front, [text]);
  }

  lemma SerializedSnoc(mps: seq<MemberPoint>)
    requires mps != []
    ensures Serialized(mps) == Serialized(mps[..|mps| - 1]) + [Serialize(mps[|mps| - 1])]
  {
    var n := |mps| - 1;
    var whole, front := Serialized(mps), Serialized(mps[..n]);
    var last := Serialize(mps[n]);
    forall i | 0 <= i < n ensures whole[i] == (front + [last])[i] {
      assert mps[..n][i] == mps[i];
    }
  }

  /** Writing entities as JSON and reading them back gives the same entities, in order. */
  lemma {:induction false} DeserializeAllSerialized(mps: seq<MemberPoint>)
    ensures DeserializeAll(Serialized(mps)) == Ok(mps)
  {
    if mps != [] {
      var n := |mps| - 1;
      SerializedSnoc(mps);
      DeserializeAllSerialized(mps[..n]);
      DeserializeAllOne(mps[n]);
      DeserializeAllSnoc(Serialized(mps[..n]), Serialize(mps[n]), mps[..n], mps[n]);
      FrontLast(mps);
    }
  }
}
