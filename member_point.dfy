/** The domain entity and the JSON text the repository stores for it in lists. */
module Domain {
  import opened Outcomes
  import opened DotNet
  import opened Sequences

  /** RedisSample.Domain.Model.MemberPoint: an `int` MemberId and a `long` Point. */
  datatype MemberPoint = MemberPoint(memberId: Int32, point: Int64)

  const JsonHead: string := "{\"MemberId\":"
  const JsonMiddle: string := ",\"Point\":"
  const JsonTail: string := "}"

  /** JsonConvert.SerializeObject(memberPoint) with default settings: both properties in
      declaration order, integers in decimal, no whitespace. */
  function Serialize(mp: MemberPoint): string {
    JsonHead + IntToString(mp.memberId) + JsonMiddle + IntToString(mp.point) + JsonTail
  }

  /** JsonConvert.DeserializeObject<MemberPoint>(text) for the text this repository writes:
      `{"MemberId":<int>,"Point":<long>}`. Any other text is a reader error. */
  function Deserialize(text: string): Result<MemberPoint> {
    var h := |JsonHead|;
    if |text| > h && text[..h] == JsonHead && text[|text| - 1] == '}' then
      DeserializeFields(text[h..|text| - 1])
    else
      Err(JsonFormat)
  }

  /** The part between the braces: `<int>,"Point":<long>` (the MemberId label already read). */
  function DeserializeFields(body: string): Result<MemberPoint> {
    match IndexOf(body, ',')
    case None => Err(JsonFormat)
    case Some(i) =>
      var rest := body[i..];
      if IsPrefix(JsonMiddle, rest) then ToMemberPoint(body[..i], rest[|JsonMiddle|..])
      else Err(JsonFormat)
  }

  /** Converts the two numeric tokens, rejecting values outside `int` and `long`. */
  function ToMemberPoint(idText: string, pointText: string): Result<MemberPoint> {
    match (ParseInteger(idText), ParseInteger(pointText))
    case (Some(id), Some(p)) =>
      if IsInt32(id) && IsInt64(p) then Ok(MemberPoint(id, p)) else Err(JsonFormat)
    case _ => Err(JsonFormat)
  }

  /** DeserializeObject on a value that may be null (a RedisValue without a value converts to
      a null string): null throws ArgumentNullException. */
  function DeserializeNullable(text: Option<string>): (r: Result<MemberPoint>)
    ensures text.None? ==> r == Err(NullArgument)
    ensures text.Some? ==> r == Deserialize(text.value)
  {
    match text
    case None => Err(NullArgument)
    case Some(t) => Deserialize(t)
  }

  /** A numeral contains no comma, so the first comma after it is the one that follows it. */
  lemma IndexOfAfterNumeral(a: string, rest: string)
    requires forall j :: 0 <= j < |a| ==> IsNumeral(a[j])
    requires |rest| > 0 && rest[0] == ','
    ensures IndexOf(a + rest, ',') == Some(|a|)
  {
    var s := a + rest;
    assert s[|a|] == ',';
    assert forall j :: 0 <= j < |a| ==> s[j] == a[j];
  }

  /** Reading back what was written gives the entity: deserialisation undoes serialisation. */
  lemma DeserializeSerialize(mp: MemberPoint)
    ensures Deserialize(Serialize(mp)) == Ok(mp)
  {
    var a := IntToString(mp.memberId);
    var b := IntToString(mp.point);
    var body := a + JsonMiddle + b;
    var text := JsonHead + body + JsonTail;
    assert Serialize(mp) == text;
    var h := |JsonHead|;
    assert text[..h] == JsonHead;
    assert text[h..|text| - 1] == body;
    FieldsRoundTrip(mp);
  }

  lemma FieldsRoundTrip(mp: MemberPoint)
    ensures DeserializeFields(IntToString(mp.memberId) + JsonMiddle + IntToString(mp.point)) == Ok(mp)
  {
    var a := IntToString(mp.memberId);
    var b := IntToString(mp.point);
    var body := a + (JsonMiddle + b);
    assert body == a + JsonMiddle + b;
    IndexOfAfterNumeral(a, JsonMiddle + b);
    assert body[..|a|] == a;
    assert body[|a|..] == JsonMiddle + b;
    assert (JsonMiddle + b)[|JsonMiddle|..] == b;
    ParseIntToString(mp.memberId);
    ParseIntToString(mp.point);
  }

  /** Two entities have the same JSON text exactly when they are equal, so list membership by
      serialised value is membership by entity. */
  lemma SerializeInjective(a: MemberPoint, b: MemberPoint)
    ensures Serialize(a) == Serialize(b) <==> a == b
  {
    DeserializeSerialize(a);
    DeserializeSerialize(b);
  }
}
