# RedisSample member points, modelled in Dafny

RedisSample keeps one number per member, a *point*, in Redis. The entity is `MemberPoint`, a
pair of an `int` MemberId and a `long` Point. `RedisMemberPointRepository` stores it in each
of Redis's five kinds of value:

- a string holding the point;
- a hash with the fields `MemberId` and `Point`;
- a list of the entity's JSON texts;
- a set of points;
- a sorted set scored by the point.

The key is always `RedisSample:MemberPoint:<memberId>`. Each call returns an (error, result) pair: an
exception becomes the error, paired with a sentinel result (`false`, `-1` or null).
`TimeStampHelper` converts between `DateTime` values and millisecond timestamps counted from
1970-01-01 UTC. It also truncates a value to a span and writes cron expressions for a date.

The model has these modules:

- `Outcomes`: `Option`, `Result`, the faults a call can meet, and `Reply`, the (error, result)
  pair every repository call returns.
- `DotNet`: the .NET behaviour the code relies on.
  - 32- and 64-bit ranges.
  - Division and remainder that truncate toward zero.
  - Unchecked negation.
  - Decimal `ToString` and its parser.
- `Sequences`: `IndexOf`, `RemoveAll`, `Reversed` and small generic sequence lemmas.
- `Domain`: the entity and its canonical JSON text `{"MemberId":<id>,"Point":<p>}`, written by
  `Serialize` and read back by `Deserialize`.
- `MemberPointKeys`: key derivation, marshalling of entities into command arguments, and
  marshalling of replies back into entities.
- `RedisStore`: one logical database as a map from key to value. Each command the repository
  sends is a function from that map to a result and the new map, following the Redis command
  reference:
  - a key of another kind gives WRONGTYPE;
  - a missing key reads as empty;
  - an aggregate that becomes empty is removed;
  - a command that fails changes nothing.
- `Repository`: the server is a class `RedisServer` whose `databases` map the write calls
  update. `RedisMemberPointRepository` is a class over a server and a database index, with one
  method per repository call. Each method ensures what the new databases are and what the
  reply is. The batch reads and the reply conversions are loops, proved against the
  specification functions.
- `RepositoryProperties`: what the calls promise together. It covers:
  - reads after writes;
  - keys of other members left untouched;
  - lists that keep holding readable entity texts;
  - moves that conserve elements;
  - sorted-set aggregation.
- `Calendar`: the Gregorian fields of a tick count, as `DateTime` computes them. Proved
  against an independent day count from year, month and day.
- `TimeStampHelper`: the helper's functions, with their round trips, truncation and the cron
  texts.

The clock, the machine's time zone and `DateTime.Parse` become parameters:

- `nowTicks`, the clock's reading;
- `localOffset`, the local offset in ticks;
- `parsed`, the value the parser produced.

## Model

| member | source | states |
|---|---|---|
| DotNet.Quotient | RedisSample.Persistent/RedisMemberPointRepository.cs:626-640 | C# integer division truncates toward zero: it agrees with Euclidean division on non-negative operands and is the negated quotient of the magnitude otherwise |
| DotNet.Negate64 | RedisSample.Persistent/RedisMemberPointRepository.cs:105-119 | unchecked 64-bit negation: the sum with the input wraps to zero, and the result is either the true negation or the input itself (the minimum `long`) |
| DotNet.Remainder | RedisSample/Applibs/TimeStampHelper.cs:89-93 | C#'s `%`: smaller in magnitude than the divisor, the Euclidean remainder for a non-negative dividend, never positive for a negative one |
| DotNet.NatToString | RedisSample.Persistent/RedisMemberPointRepository.cs:224-227 | decimal text of a natural number: non-empty digits, no leading zero, one digit exactly below ten |
| DotNet.IntToString | RedisSample.Persistent/RedisMemberPointRepository.cs:224-227 | decimal text of an integer: non-empty, digits and sign only, a leading minus exactly for negatives |
| DotNet.ParseNatToString | RedisSample.Persistent/RedisMemberPointRepository.cs:224-227 | parsing the decimal text of a natural number gives the number back |
| DotNet.ParseIntToString | RedisSample.Persistent/RedisMemberPointRepository.cs:224-227 | parsing the decimal text of any integer, signed, gives the integer back |
| DotNet.IntToStringInjective | RedisSample.Persistent/RedisMemberPointRepository.cs:224-227 | two integers have the same decimal text exactly when they are equal |
| Domain.DeserializeNullable | RedisSample.Persistent/RedisMemberPointRepository.cs:559-560 | the JSON reader refuses a null text with an argument fault and reads any other text as Deserialize does |
| Domain.IndexOfAfterNumeral | RedisSample.Persistent/RedisMemberPointRepository.cs:486 | the reader's search for the field separator stops right after the number text |
| Domain.DeserializeSerialize | RedisSample.Persistent/RedisMemberPointRepository.cs:397 | the JSON text written for any entity reads back as that entity |
| Domain.FieldsRoundTrip | RedisSample.Persistent/RedisMemberPointRepository.cs:486 | the body between the braces, built from any MemberId and Point, reads back as that entity |
| Domain.SerializeInjective | RedisSample.Persistent/RedisMemberPointRepository.cs:505 | two entities have the same JSON text exactly when they are equal, so LREM by text removes exactly copies of the entity |
| Domain.Serialize | RedisSample.Persistent/RedisMemberPointRepository.cs:397 | stated by DeserializeSerialize and SerializeInjective: the reader gives the entity back, and different entities have different texts |
| Domain.Deserialize | RedisSample.Persistent/RedisMemberPointRepository.cs:486 | stated by DeserializeSerialize: it reads every written text back as its entity |
| MemberPointKeys.GenerateKeyInjective | RedisSample.Persistent/RedisMemberPointRepository.cs:224-227 | two member ids share a key exactly when they are equal |
| MemberPointKeys.GenerateKey | RedisSample.Persistent/RedisMemberPointRepository.cs:224-227 | stated by GenerateKeyInjective: two members share a key exactly when they are the same member |
| MemberPointKeys.GenerateKeys | RedisSample.Persistent/RedisMemberPointRepository.cs:229-232 | one key per member, in order, each the member's own key |
| MemberPointKeys.FirstMemberKey | RedisSample.Persistent/RedisMemberPointRepository.cs:664 | stated by BatchAddUsesFirstKey: a batch is written under its first entity's key |
| MemberPointKeys.ZMemberNameInjective | RedisSample.Persistent/RedisMemberPointRepository.cs:1219-1235 | two points name the same sorted-set member exactly when they are equal |
| MemberPointKeys.ZMemberName | RedisSample.Persistent/RedisMemberPointRepository.cs:1225 | stated by ZMemberNameInjective: two points give the same sorted-set member exactly when they are equal |
| MemberPointKeys.ZEntries | RedisSample.Persistent/RedisMemberPointRepository.cs:1219-1235 | one sorted-set entry per entity, in order, named by the point's text and scored by the point |
| MemberPointKeys.Serialized | RedisSample.Persistent/RedisMemberPointRepository.cs:407-424 | one JSON text per entity, in order |
| MemberPointKeys.Points | RedisSample.Persistent/RedisMemberPointRepository.cs:1129-1143 | one point per entity, in order |
| MemberPointKeys.PresentPoints | RedisSample.Persistent/RedisMemberPointRepository.cs:144-171 | the entities built from a batch reply are at most one per member |
| MemberPointKeys.PresentPointsExactly | RedisSample.Persistent/RedisMemberPointRepository.cs:144-171 | every entity built from a reply comes from a member whose value was present, and every present value gives its entity |
| MemberPointKeys.PresentPointsAllPresent | RedisSample.Persistent/RedisMemberPointRepository.cs:144-171 | with every value present, the entities built are exactly one per member, in order |
| MemberPointKeys.PresentPointsSnoc | RedisSample.Persistent/RedisMemberPointRepository.cs:152-163 | one more loop step appends the member's entity exactly when its value is present |
| MemberPointKeys.PointOf | RedisSample.Persistent/RedisMemberPointRepository.cs:379 | the Point field of a hash, present exactly when the hash has it |
| MemberPointKeys.HashPointsAt | RedisSample.Persistent/RedisMemberPointRepository.cs:360-389 | one optional point per key, read from the hash at that key |
| MemberPointKeys.DeserializeAll | RedisSample.Persistent/RedisMemberPointRepository.cs:474-497 | reading a list of texts yields one entity per text |
| MemberPointKeys.DeserializeAllReadable | RedisSample.Persistent/RedisMemberPointRepository.cs:474-497 | a list reads back exactly when every text in it does |
| MemberPointKeys.DeserializeAllAppend | RedisSample.Persistent/RedisMemberPointRepository.cs:474-497 | a concatenation reads back exactly when both parts do, as the concatenation of their entities |
| MemberPointKeys.DeserializeAllReversed | RedisSample.Persistent/RedisMemberPointRepository.cs:407-424 | a reversed list of texts reads back as the reversed entities |
| MemberPointKeys.DeserializeAllOne | RedisSample.Persistent/RedisMemberPointRepository.cs:391-405 | the one-text list pushed for an entity reads back as that entity |
| MemberPointKeys.DeserializeAllSingle | RedisSample.Persistent/RedisMemberPointRepository.cs:474-497 | a one-text list reads back exactly when its text does, as that text's entity |
| MemberPointKeys.DeserializeAllSnoc | RedisSample.Persistent/RedisMemberPointRepository.cs:474-497 | appending a readable text to a readable list appends its entity |
| MemberPointKeys.SerializedSnoc | RedisSample.Persistent/RedisMemberPointRepository.cs:407-424 | the texts of a non-empty batch are those of its front followed by the last entity's |
| MemberPointKeys.DeserializeAllSerialized | RedisSample.Persistent/RedisMemberPointRepository.cs:407-424 | the texts written for any batch of entities read back as that batch |
| RedisStore.Put | RedisSample.Persistent/RedisMemberPointRepository.cs:846-861 | storing a value changes only its key; a non-empty value is stored, an empty aggregate removes the key |
| RedisStore.Get | RedisSample.Persistent/RedisMemberPointRepository.cs:122-142 | GET fails with WRONGTYPE exactly on a key of another kind, and otherwise reads the string, absent when missing |
| RedisStore.SetString | RedisSample.Persistent/RedisMemberPointRepository.cs:26-40 | SET makes the key hold the number, whatever it held, and changes no other key |
| RedisStore.MGet | RedisSample.Persistent/RedisMemberPointRepository.cs:144-171 | MGET reads each key's string, in order, absent for a missing key or one of another kind |
| RedisStore.IncrBy | RedisSample.Persistent/RedisMemberPointRepository.cs:89-103 | INCRBY fails exactly on a non-string key or a sum outside 64 bits; otherwise the key holds the old number (0 when missing) plus the change, and that sum is the reply |
| RedisStore.DecrBy | RedisSample.Persistent/RedisMemberPointRepository.cs:105-119 | DECRBY refuses a decrement of the minimum 64-bit integer whatever the key holds, and is otherwise INCRBY of the negated decrement |
| RedisStore.ClientIncrBy | RedisSample.Persistent/RedisMemberPointRepository.cs:89-119 | the client's increment is refused for the minimum `long` (sent as DECRBY of itself) and is exactly INCRBY for every other change |
| RedisStore.Del | RedisSample.Persistent/RedisMemberPointRepository.cs:202-216 | DEL removes the key and changes no other |
| RedisStore.Expire | RedisSample.Persistent/RedisMemberPointRepository.cs:626-640 | PEXPIRE: the reply says whether the key exists; a non-positive timeout deletes it, otherwise the keyspace is unchanged |
| RedisStore.HSet | RedisSample.Persistent/RedisMemberPointRepository.cs:234-254 | HSET fails exactly on no fields or a key of another kind; otherwise it writes the given fields, keeps the other fields and changes no other key |
| RedisStore.HIncrBy | RedisSample.Persistent/RedisMemberPointRepository.cs:278-293 | HINCRBY adds the change to the field (0 when missing), keeps the other fields and replies with the sum |
| RedisStore.HGetAll | RedisSample.Persistent/RedisMemberPointRepository.cs:312-332 | HGETALL fails exactly on a key of another kind and otherwise returns the whole hash |
| RedisStore.HGet | RedisSample.Persistent/RedisMemberPointRepository.cs:334-358 | HGET fails exactly on a key of another kind; the field's value is present exactly when the hash has the field |
| RedisStore.PushEachLeft | RedisSample.Persistent/RedisMemberPointRepository.cs:407-424 | pushing values one by one on the left puts them, last first, in front of the list |
| RedisStore.PushEachRight | RedisSample.Persistent/RedisMemberPointRepository.cs:585-602 | pushing values on the right appends them in order |
| RedisStore.LPush | RedisSample.Persistent/RedisMemberPointRepository.cs:391-405 | LPUSH fails exactly on no values or a key of another kind; otherwise the list is the values pushed one by one in front, the reply its new length |
| RedisStore.RPush | RedisSample.Persistent/RedisMemberPointRepository.cs:569-583 | RPUSH fails exactly on no values or a key of another kind; otherwise the values are appended and the reply is the new length |
| RedisStore.LIndex | RedisSample.Persistent/RedisMemberPointRepository.cs:426-440 | LINDEX gives the element at a non-negative index or counted from the end for a negative one, nothing outside the list |
| RedisStore.LInsert | RedisSample.Persistent/RedisMemberPointRepository.cs:442-472 | LINSERT puts the value next to the first copy of the pivot and replies the new length; -1 when the pivot is missing, 0 when the key is |
| RedisStore.LRangeAll | RedisSample.Persistent/RedisMemberPointRepository.cs:474-497 | LRANGE 0 -1 returns the whole list, failing exactly on a key of another kind |
| RedisStore.LRemAll | RedisSample.Persistent/RedisMemberPointRepository.cs:499-513 | LREM 0 removes every copy of the value, keeps every other element, and replies how many copies there were |
| RedisStore.LPop | RedisSample.Persistent/RedisMemberPointRepository.cs:515-535 | LPOP gives nothing and changes nothing on an empty list; otherwise it removes and returns the first element |
| RedisStore.RPop | RedisSample.Persistent/RedisMemberPointRepository.cs:604-624 | RPOP gives nothing and changes nothing on an empty list; otherwise it removes and returns the last element |
| RedisStore.LLen | RedisSample.Persistent/RedisMemberPointRepository.cs:537-551 | LLEN is the list's length, failing exactly on a key of another kind |
| RedisStore.RPopLPush | RedisSample.Persistent/RedisMemberPointRepository.cs:553-567 | RPOPLPUSH moves the source's last element to the front of the destination; an empty source gives nothing and changes nothing |
| RedisStore.SAdd | RedisSample.Persistent/RedisMemberPointRepository.cs:642-675 | SADD unions the members into the set and replies how many were new; it fails on no members or a key of another kind |
| RedisStore.SRem | RedisSample.Persistent/RedisMemberPointRepository.cs:1113-1143 | SREM removes the members from the set and replies how many were there |
| RedisStore.SIsMember | RedisSample.Persistent/RedisMemberPointRepository.cs:942-956 | SISMEMBER is true exactly when the point is in the set |
| RedisStore.SMembers | RedisSample.Persistent/RedisMemberPointRepository.cs:958-985 | SMEMBERS returns the whole set, failing exactly on a key of another kind |
| RedisStore.SMove | RedisSample.Persistent/RedisMemberPointRepository.cs:987-1001 | SMOVE replies whether the point was in the source, and then moves it from the source set to the destination set |
| RedisStore.SetsAt | RedisSample.Persistent/RedisMemberPointRepository.cs:762-789 | the sets at the keys, in order, failing exactly when one key holds another kind |
| RedisStore.UnionOf | RedisSample.Persistent/RedisMemberPointRepository.cs:790-817 | a point is in the union exactly when some set holds it |
| RedisStore.IntersectionOf | RedisSample.Persistent/RedisMemberPointRepository.cs:762-789 | a point is in the intersection exactly when every set holds it |
| RedisStore.DifferenceOf | RedisSample.Persistent/RedisMemberPointRepository.cs:818-844 | a point is in the difference exactly when the first set holds it and no later set does |
| RedisStore.CombinePair | RedisSample.Persistent/RedisMemberPointRepository.cs:677-759 | on two sets, the three operations are plain union, intersection and difference |
| RedisStore.SCombine | RedisSample.Persistent/RedisMemberPointRepository.cs:762-844 | SINTER / SUNION / SDIFF fail exactly on no keys or a key of another kind, and otherwise combine the sets at the keys |
| RedisStore.SCombineStore | RedisSample.Persistent/RedisMemberPointRepository.cs:846-940 | the store forms write the combined set to the destination, remove it when empty, reply its size, and change no other key |
| RedisStore.SScan | RedisSample.Persistent/RedisMemberPointRepository.cs:1145-1172 | SSCAN with the pattern `<point>*` yields exactly the set's points whose text starts with the pattern's prefix |
| RedisStore.ApplyScores | RedisSample.Persistent/RedisMemberPointRepository.cs:1219-1235 | ZADD's entries add their names to the sorted set and leave the other members' scores alone |
| RedisStore.LastScoreWins | RedisSample.Persistent/RedisMemberPointRepository.cs:1219-1235 | when a name repeats in a ZADD, the score of its last entry is kept |
| RedisStore.ApplyScoresGrowth | RedisSample.Persistent/RedisMemberPointRepository.cs:1219-1235 | the sorted set grows by the number of new names |
| RedisStore.ZAdd | RedisSample.Persistent/RedisMemberPointRepository.cs:1203-1217 | ZADD fails exactly on no entries or a key of another kind; the reply is the number of members added, and no other key changes |
| RedisStore.ScoresOf | RedisSample.Persistent/RedisMemberPointRepository.cs:1269-1283 | the scores at the keys, in order; a plain set counts as scores of 1; fails exactly when one key holds another kind |
| RedisStore.ScoreSumAbsent | RedisSample.Persistent/RedisMemberPointRepository.cs:1285-1299 | a member in none of the sorted sets sums to 0 |
| RedisStore.ScoreSumPair | RedisSample.Persistent/RedisMemberPointRepository.cs:1237-1267 | over two sorted sets, a member's sum is the sum of its two scores, 0 where missing |
| RedisStore.UnionSum | RedisSample.Persistent/RedisMemberPointRepository.cs:1285-1299 | AGGREGATE SUM union: a member is in the result exactly when some input holds it, with the sum of its scores |
| RedisStore.InterSum | RedisSample.Persistent/RedisMemberPointRepository.cs:1269-1283 | AGGREGATE SUM intersection: a member is in the result exactly when every input holds it, with the sum of its scores |
| RedisStore.ZCombine | RedisSample.Persistent/RedisMemberPointRepository.cs:1237-1299 | ZINTERSTORE / ZUNIONSTORE compute the summed intersection or union of the inputs; they fail exactly on no keys or a key of another kind |
| RedisStore.ZCombineStore | RedisSample.Persistent/RedisMemberPointRepository.cs:1237-1299 | the combined sorted set is written to the destination, removed when empty; the reply is its size, and no other key changes |
| Repository.RedisServer.constructor | RedisSample.Persistent/RedisMemberPointRepository.cs:20-24 | a fresh server has no databases written |
| Repository.PoppedReply | RedisSample.Persistent/RedisMemberPointRepository.cs:515-535 | a pop's reply: the fault on failure, null for an empty list, otherwise the element read back (or the reader's fault) |
| Repository.ToMemberPoints | RedisSample.Persistent/RedisMemberPointRepository.cs:958-985 | the loop over a set reply yields each point of the set exactly once, as an entity of the member |
| Repository.PickDistinct | RedisSample.Persistent/RedisMemberPointRepository.cs:1029-1056 | a sample of distinct points of the set: `count` of them, or the whole set when smaller |
| Repository.EnlistBatch | RedisSample.Persistent/RedisMemberPointRepository.cs:177-185 | the dictionary of queued commands throws exactly on a repeated member, and otherwise maps each member to its key |
| Repository.ToMemberPointSeq | RedisSample.Persistent/RedisMemberPointRepository.cs:1084-1111 | the loop over a reply that may repeat yields one entity per element, in order, with its point |
| Repository.ReadStrings | RedisSample.Persistent/RedisMemberPointRepository.cs:186-195 | the batch's second loop fails with WRONGTYPE exactly when one key holds another kind, and otherwise yields what MGET's reply gives |
| Repository.ReadHashes | RedisSample.Persistent/RedisMemberPointRepository.cs:374-383 | the hash batch's second loop fails exactly when one key is not a hash, and otherwise yields one entity per hash with a Point field |
| Repository.DeserializeAllPrefix | RedisSample.Persistent/RedisMemberPointRepository.cs:480-490 | once a prefix of the list fails to read back, the whole read fails |
| Repository.RedisMemberPointRepository.constructor | RedisSample.Persistent/RedisMemberPointRepository.cs:20-24 | the repository keeps its server and database index |
| Repository.RedisMemberPointRepository.StringInsert | RedisSample.Persistent/RedisMemberPointRepository.cs:26-40 | the database now holds the point under the member's key, and the call succeeds |
| Repository.RedisMemberPointRepository.StringInsertExpiring | RedisSample.Persistent/RedisMemberPointRepository.cs:42-56 | a time to live below one millisecond is refused and changes nothing; otherwise the call is StringInsert |
| Repository.RedisMemberPointRepository.StringUpdate | RedisSample.Persistent/RedisMemberPointRepository.cs:57-71 | the same new state and reply as StringInsert |
| Repository.RedisMemberPointRepository.StringUpdateExpiring | RedisSample.Persistent/RedisMemberPointRepository.cs:73-87 | the same as StringInsertExpiring |
| Repository.RedisMemberPointRepository.StringIncrement | RedisSample.Persistent/RedisMemberPointRepository.cs:89-103 | the database is the client increment's result when it succeeds and unchanged when it fails (a non-number, an overflow, or a change of the minimum `long`); the reply reports which |
| Repository.RedisMemberPointRepository.StringDecrement | RedisSample.Persistent/RedisMemberPointRepository.cs:105-119 | the client increment by the unchecked negation of the change, so the minimum `long` is refused as in StringIncrement and any other change is subtracted |
| Repository.RedisMemberPointRepository.StringFind | RedisSample.Persistent/RedisMemberPointRepository.cs:122-142 | no error exactly when the key is a string or missing and the stored number fits 32 bits; then the entity has the member and the stored point, or -1 when missing |
| Repository.RedisMemberPointRepository.StringFindInt64 | RedisSample.Persistent/RedisMemberPointRepository.cs:122-142 | with a 64-bit conversion, no error exactly when the key is a string or missing; the point is the stored one, -1 when missing |
| Repository.RedisMemberPointRepository.StringGet | RedisSample.Persistent/RedisMemberPointRepository.cs:144-171 | the reply holds one entity per member whose string is present, in the members' order |
| Repository.RedisMemberPointRepository.StringBatchGet | RedisSample.Persistent/RedisMemberPointRepository.cs:172-201 | a repeated member is a duplicate-key fault; a key of another kind is WRONGTYPE; otherwise the call returns what StringGet returns |
| Repository.RedisMemberPointRepository.KeyDelete | RedisSample.Persistent/RedisMemberPointRepository.cs:202-216 | the member's key is gone, and the call succeeds |
| Repository.RedisMemberPointRepository.HashInsert | RedisSample.Persistent/RedisMemberPointRepository.cs:234-254 | the database is HSET of both fields when it succeeds and unchanged when it fails |
| Repository.RedisMemberPointRepository.HashUpdate | RedisSample.Persistent/RedisMemberPointRepository.cs:256-276 | the same as HashInsert |
| Repository.RedisMemberPointRepository.HashIncrement | RedisSample.Persistent/RedisMemberPointRepository.cs:278-293 | the database is HINCRBY of the Point field when it succeeds and unchanged when it fails |
| Repository.RedisMemberPointRepository.HashDecrement | RedisSample.Persistent/RedisMemberPointRepository.cs:295-310 | HINCRBY of the Point field by the negated change |
| Repository.RedisMemberPointRepository.HashFindAll | RedisSample.Persistent/RedisMemberPointRepository.cs:312-332 | no error exactly when the key is a hash or missing (and the MemberId field fits 32 bits); each property takes its field, 0 when missing |
| Repository.RedisMemberPointRepository.HashFindField | RedisSample.Persistent/RedisMemberPointRepository.cs:334-358 | no error exactly when the key is a hash or missing; an entity exactly when the Point field exists, with that point |
| Repository.RedisMemberPointRepository.HashBatchGet | RedisSample.Persistent/RedisMemberPointRepository.cs:360-389 | a repeated member is a duplicate-key fault, a non-hash key is WRONGTYPE; otherwise one entity per hash holding a Point field, in order |
| Repository.RedisMemberPointRepository.ListLeftPush | RedisSample.Persistent/RedisMemberPointRepository.cs:391-405 | the database is LPUSH of the entity's text when it succeeds; the reply is the new length, or -1 with the fault |
| Repository.RedisMemberPointRepository.ListLeftPushMany | RedisSample.Persistent/RedisMemberPointRepository.cs:407-424 | one LPUSH of all texts onto the first entity's list; an empty batch changes nothing and replies the list's length |
| Repository.RedisMemberPointRepository.ListFindByIndex | RedisSample.Persistent/RedisMemberPointRepository.cs:426-440 | no error exactly when the key is a list or missing; the text at the index, null outside the list |
| Repository.RedisMemberPointRepository.ListInsert | RedisSample.Persistent/RedisMemberPointRepository.cs:442-472 | the database is LINSERT after or before the pivot's text when it succeeds; the reply is LINSERT's |
| Repository.RedisMemberPointRepository.ListRange | RedisSample.Persistent/RedisMemberPointRepository.cs:474-497 | WRONGTYPE on a key of another kind; otherwise the list's entities in order, or the reader's fault when a text does not read back |
| Repository.RedisMemberPointRepository.ListRemove | RedisSample.Persistent/RedisMemberPointRepository.cs:499-513 | the database is LREM 0 of the entity's text when it succeeds; the reply is how many copies went |
| Repository.RedisMemberPointRepository.ListLeftPop | RedisSample.Persistent/RedisMemberPointRepository.cs:515-535 | the database is LPOP's result, and the reply is the popped element read back, null for an empty list |
| Repository.RedisMemberPointRepository.ListLength | RedisSample.Persistent/RedisMemberPointRepository.cs:537-551 | no error exactly when the key is a list or missing; then the list's length, otherwise -1 |
| Repository.RedisMemberPointRepository.ListRightPopLeftPush | RedisSample.Persistent/RedisMemberPointRepository.cs:553-567 | the database is RPOPLPUSH's result; the moved text is handed to the reader unchecked |
| Repository.RedisMemberPointRepository.ListRightPopLeftPushChecked | RedisSample.Persistent/RedisMemberPointRepository.cs:553-567 | the same move, with null for an empty source as the other pops reply |
| Repository.RedisMemberPointRepository.ListRightPush | RedisSample.Persistent/RedisMemberPointRepository.cs:569-583 | the database is RPUSH of the entity's text when it succeeds; the reply is the new length, or -1 with the fault |
| Repository.RedisMemberPointRepository.ListRightPushMany | RedisSample.Persistent/RedisMemberPointRepository.cs:585-602 | one RPUSH of all texts onto the first entity's list; an empty batch changes nothing and replies the list's length |
| Repository.RedisMemberPointRepository.ListRightPop | RedisSample.Persistent/RedisMemberPointRepository.cs:604-624 | the database is RPOP's result, and the reply is the popped element read back, null for an empty list |
| Repository.RedisMemberPointRepository.KeyExpire | RedisSample.Persistent/RedisMemberPointRepository.cs:626-640 | TimeSpan.MaxValue is sent as PERSIST: no key changes and no fault, and a true reply only for a key that exists; any other timeout is PEXPIRE in whole milliseconds, replying whether the key exists and deleting it below one millisecond |
| Repository.RedisMemberPointRepository.SetAdd | RedisSample.Persistent/RedisMemberPointRepository.cs:642-656 | the database is SADD of the point when it succeeds; the reply is whether the point was new |
| Repository.RedisMemberPointRepository.SetAddMany | RedisSample.Persistent/RedisMemberPointRepository.cs:658-675 | one SADD of all points to the first entity's set; the reply is how many were new |
| Repository.RedisMemberPointRepository.SetCombinePair | RedisSample.Persistent/RedisMemberPointRepository.cs:677-759 | the reply holds each point of the combination of the two members' sets exactly once, as an entity with MemberId 0 (the property is never set) |
| Repository.RedisMemberPointRepository.SetCombine | RedisSample.Persistent/RedisMemberPointRepository.cs:762-844 | the reply holds each point of the combination of the members' sets exactly once, as an entity with MemberId 0 |
| Repository.RedisMemberPointRepository.SetCombineAndStorePair | RedisSample.Persistent/RedisMemberPointRepository.cs:846-892 | the combination is stored under the first member's key; the reply is its size, or -1 with the fault |
| Repository.RedisMemberPointRepository.SetCombineAndStore | RedisSample.Persistent/RedisMemberPointRepository.cs:894-940 | the combination is stored under the first member's key (member 0 for none); the reply is its size |
| Repository.RedisMemberPointRepository.SetContains | RedisSample.Persistent/RedisMemberPointRepository.cs:942-956 | no error exactly when the key is a set or missing; true exactly when the point is in it |
| Repository.RedisMemberPointRepository.SetGetMembers | RedisSample.Persistent/RedisMemberPointRepository.cs:958-985 | WRONGTYPE on a key of another kind; otherwise each point of the set exactly once, as an entity of the member |
| Repository.RedisMemberPointRepository.SetMove | RedisSample.Persistent/RedisMemberPointRepository.cs:987-1001 | the database is SMOVE's result; the reply is whether the point was in the source |
| Repository.RedisMemberPointRepository.SetPop | RedisSample.Persistent/RedisMemberPointRepository.cs:1003-1027 | null and no change for an empty set; otherwise some point of the set is removed and returned |
| Repository.RedisMemberPointRepository.SetPopMany | RedisSample.Persistent/RedisMemberPointRepository.cs:1029-1056 | a count of 0 gives no members and nothing sent, whatever the key holds; a negative count is refused before the key is looked at; otherwise WRONGTYPE on another kind, or distinct points of the set, `count` of them or all, removed and returned as entities of the member |
| Repository.RedisMemberPointRepository.SetGetRandomMember | RedisSample.Persistent/RedisMemberPointRepository.cs:1058-1082 | some point of the set, null for an empty set, and nothing changes |
| Repository.RedisMemberPointRepository.SetGetRandomMembers | RedisSample.Persistent/RedisMemberPointRepository.cs:1084-1111 | a positive count gives distinct points of the set; a negative one gives that many points of the set, repeats allowed |
| Repository.RedisMemberPointRepository.SetRemove | RedisSample.Persistent/RedisMemberPointRepository.cs:1113-1127 | the database is SREM of the point when it succeeds; the reply is whether it was there |
| Repository.RedisMemberPointRepository.SetRemoveMany | RedisSample.Persistent/RedisMemberPointRepository.cs:1129-1143 | one SREM of all points from the first entity's set; the reply is how many were there |
| Repository.RedisMemberPointRepository.SetScan | RedisSample.Persistent/RedisMemberPointRepository.cs:1145-1172 | a page size that is not positive is refused with an out-of-range fault; otherwise WRONGTYPE on another kind, or each point of the set whose text starts with the entity's point text, exactly once, as an entity of the member |
| Repository.RedisMemberPointRepository.SortedSetAdd | RedisSample.Persistent/RedisMemberPointRepository.cs:1203-1217 | the database is ZADD of the member "Point" scored by the point; the reply is whether a member was added |
| Repository.RedisMemberPointRepository.SortedSetAddMany | RedisSample.Persistent/RedisMemberPointRepository.cs:1219-1235 | one ZADD onto the first entity's sorted set, one member per point; an empty batch changes nothing |
| Repository.RedisMemberPointRepository.SortedSetCombineAndStorePair | RedisSample.Persistent/RedisMemberPointRepository.cs:1237-1267 | the summed intersection or union of the two members is stored under the SECOND member's key |
| Repository.RedisMemberPointRepository.SortedSetCombineAndStore | RedisSample.Persistent/RedisMemberPointRepository.cs:1269-1299 | the summed intersection or union of the members is stored under the first member's key |
| RepositoryProperties.OtherMembersUntouched | RedisSample.Persistent/RedisMemberPointRepository.cs:224-227 | a write to one member's key leaves every other member's key as it was |
| RepositoryProperties.StringKeyRefusesOtherKinds | RedisSample.Persistent/RedisMemberPointRepository.cs:26-40 | once a member holds a string, the hash, list, set and sorted-set calls on that member fail with WRONGTYPE |
| RepositoryProperties.FindAfterInsert | RedisSample.Persistent/RedisMemberPointRepository.cs:122-142 | StringFind after StringInsert returns the entity when its point fits 32 bits, and a conversion fault otherwise |
| RepositoryProperties.FindAbsent | RedisSample.Persistent/RedisMemberPointRepository.cs:122-142 | a member with no string reads as point -1, without an error |
| RepositoryProperties.FindRefusesLargePoint | RedisSample.Persistent/RedisMemberPointRepository.cs:131-132 | a stored point of 2^31 makes StringFind fail, while the 64-bit read returns it |
| RepositoryProperties.FindInt64AfterInsert | RedisSample.Persistent/RedisMemberPointRepository.cs:122-142 | with the 64-bit conversion, every inserted entity reads back |
| RepositoryProperties.InsertThenFind | RedisSample.Persistent/RedisMemberPointRepository.cs:26-142 | StringInsert then StringFind on the same repository gives the entity back exactly when its point fits 32 bits |
| RepositoryProperties.StringGetAnswersEveryMember | RedisSample.Persistent/RedisMemberPointRepository.cs:144-171 | when every member's key holds a number, StringGet answers one entity per member in the given order with its stored number, repeated members once per occurrence |
| RepositoryProperties.DecrementUndoesIncrement | RedisSample.Persistent/RedisMemberPointRepository.cs:89-119 | for every change StringIncrement accepts, StringDecrement by the same change succeeds and restores the stored number |
| RepositoryProperties.HashInsertWritesBothFields | RedisSample.Persistent/RedisMemberPointRepository.cs:234-254 | HashInsert writes both fields of the entity and keeps every other field of the hash |
| RepositoryProperties.FindAllAfterHashInsert | RedisSample.Persistent/RedisMemberPointRepository.cs:312-358 | a hash holding the entity's two fields reads back as the entity through HashFindAll and HashFindField |
| RepositoryProperties.HashInsertThenFindAll | RedisSample.Persistent/RedisMemberPointRepository.cs:234-332 | HashInsert then HashFindAll returns the entity, unless the key held another kind, which gives WRONGTYPE |
| RepositoryProperties.HashIncrementChangesOnlyPoint | RedisSample.Persistent/RedisMemberPointRepository.cs:278-293 | HashIncrement adds the change to the Point field and changes no other field |
| RepositoryProperties.PushEachLeftReverses | RedisSample.Persistent/RedisMemberPointRepository.cs:407-424 | pushing on the left one by one puts the reversed values in front of the list |
| RepositoryProperties.LeftPushReadsBack | RedisSample.Persistent/RedisMemberPointRepository.cs:407-424 | after the batch left push, the list reads back as the entities reversed, followed by what it held |
| RepositoryProperties.RightPushReadsBack | RedisSample.Persistent/RedisMemberPointRepository.cs:585-602 | after the batch right push, the list reads back as what it held followed by the entities in order |
| RepositoryProperties.LeftPushThenRange | RedisSample.Persistent/RedisMemberPointRepository.cs:407-497 | pushing [a, b, c] onto a new member's list and reading its range gives length 3 and [c, b, a] |
| RepositoryProperties.HoldsAfterWrite | RedisSample.Persistent/RedisMemberPointRepository.cs:474-497 | a write that keeps each list it touches readable keeps every list in the database readable |
| RepositoryProperties.LeftPushKeepsListsOfMemberPoints | RedisSample.Persistent/RedisMemberPointRepository.cs:391-424 | left pushes keep every list holding readable entity texts |
| RepositoryProperties.RightPushKeepsListsOfMemberPoints | RedisSample.Persistent/RedisMemberPointRepository.cs:569-602 | right pushes keep every list holding readable entity texts |
| RepositoryProperties.InsertedReadsBack | RedisSample.Persistent/RedisMemberPointRepository.cs:442-472 | inserting a readable text anywhere in a readable list leaves it readable |
| RepositoryProperties.InsertKeepsListsOfMemberPoints | RedisSample.Persistent/RedisMemberPointRepository.cs:442-472 | the insert calls keep every list holding readable entity texts |
| RepositoryProperties.RemoveKeepsListsOfMemberPoints | RedisSample.Persistent/RedisMemberPointRepository.cs:499-513 | ListRemove keeps every list holding readable entity texts |
| RepositoryProperties.PopsKeepListsOfMemberPoints | RedisSample.Persistent/RedisMemberPointRepository.cs:515-624 | left and right pops keep every list holding readable entity texts |
| RepositoryProperties.MovedReadsBack | RedisSample.Persistent/RedisMemberPointRepository.cs:553-567 | moving the last text of a readable list to the front of a readable list (or of itself) leaves both readable |
| RepositoryProperties.MoveKeepsListsOfMemberPoints | RedisSample.Persistent/RedisMemberPointRepository.cs:553-567 | ListRightPopLeftPush keeps every list holding readable entity texts |
| RepositoryProperties.RangeReadsEveryList | RedisSample.Persistent/RedisMemberPointRepository.cs:474-497 | while every list holds entity texts, ListRange never meets text the reader refuses |
| RepositoryProperties.MoveConservesElements | RedisSample.Persistent/RedisMemberPointRepository.cs:553-567 | RPOPLPUSH between two lists keeps their elements together, and within one list it keeps its elements |
| RepositoryProperties.MoveFromEmptySourceFaults | RedisSample.Persistent/RedisMemberPointRepository.cs:553-567 | from an empty source, the move as written faults in the reader, where the checked move replies null |
| RepositoryProperties.MovedReplyDiffersOnlyOnEmpty | RedisSample.Persistent/RedisMemberPointRepository.cs:553-567 | the unchecked and the checked replies differ exactly when the source was empty |
| Repository.MovedReply | RedisSample.Persistent/RedisMemberPointRepository.cs:559-560 | stated by MoveFromEmptySourceFaults and MovedReplyDiffersOnlyOnEmpty: an argument fault when nothing was moved, and otherwise the popped reply |
| RepositoryProperties.BatchAddUsesFirstKey | RedisSample.Persistent/RedisMemberPointRepository.cs:658-675 | the batch SetAdd succeeds only for a non-empty batch and adds every point, whichever member it names, to the first entity's set |
| RepositoryProperties.PairStoreOverwritesFirst | RedisSample.Persistent/RedisMemberPointRepository.cs:846-892 | the two-member store replaces the first member's set by the combination and leaves the second's as it was |
| RepositoryProperties.SetMoveConservesPoints | RedisSample.Persistent/RedisMemberPointRepository.cs:987-1001 | SetMove neither creates nor loses a point: the two sets together hold what they held |
| RepositoryProperties.ScoreOfAgreeingPairs | RedisSample.Persistent/RedisMemberPointRepository.cs:1219-1235 | a member named by several entries that agree on the score ends with that score |
| RepositoryProperties.SingleAddKeepsOneMember | RedisSample.Persistent/RedisMemberPointRepository.cs:1203-1217 | a sorted set written only by SortedSetAdd holds the one member "Point", scored by the last point |
| RepositoryProperties.BatchReAddKeepsMembers | RedisSample.Persistent/RedisMemberPointRepository.cs:1219-1235 | re-adding points already present adds no member and replies 0; each member keeps its point as score |
| RepositoryProperties.PairZStoreWritesSecond | RedisSample.Persistent/RedisMemberPointRepository.cs:1237-1267 | the two-member sorted-set store writes only the second member's key |
| RepositoryProperties.CombineSingleAddsSumsPoints | RedisSample.Persistent/RedisMemberPointRepository.cs:1237-1267 | combining two members built by SortedSetAdd, by union or intersection, gives the one member "Point" scored by the sum of their points |
| Calendar.SplitDays | RedisSample/Applibs/TimeStampHelper.cs:64-71 | a day count splits into 400-, 100-, 4- and 1-year periods and a day of the year that stays within its year's length |
| Calendar.MonthOf | RedisSample/Applibs/TimeStampHelper.cs:64-71 | the month found is the one whose range of days holds the day of the year |
| Calendar.DaysTable | RedisSample/Applibs/TimeStampHelper.cs:64-71 | the cumulative month table rises by at most 31 a month, ending at 365 or 366 |
| Calendar.Month | RedisSample/Applibs/TimeStampHelper.cs:69 | DateTime.Month is in 1..12 |
| Calendar.Day | RedisSample/Applibs/TimeStampHelper.cs:68 | DateTime.Day is in 1..31 |
| Calendar.Year | RedisSample/Applibs/TimeStampHelper.cs:71 | stated by DatePartRoundTrip: the year, month and day name the day the ticks fall on |
| Calendar.Hour | RedisSample/Applibs/TimeStampHelper.cs:67 | stated by MinutesFromFields: the hour and minute are the minutes elapsed in the day |
| Calendar.Minute | RedisSample/Applibs/TimeStampHelper.cs:66 | stated by MinutesFromFields and FieldsIgnoreSubMinute: the minute within the hour, unchanged by seconds and ticks |
| Calendar.DayOfWeekNumber | RedisSample/Applibs/TimeStampHelper.cs:86 | the day of week's number is in 0..6 and names that day back |
| Calendar.DayOfWeekName | RedisSample/Applibs/TimeStampHelper.cs:86 | the day of week's text is a capitalised name with no space |
| Calendar.DayOfWeekOf | RedisSample/Applibs/TimeStampHelper.cs:86 | stated by Cron5NumericFields and FieldsIgnoreSubMinute: the day of week has a number from 0 (Sunday) to 6 that the numeric cron expression writes, and seconds do not change it |
| Calendar.LeapPartsIsLeapYear | RedisSample/Applibs/TimeStampHelper.cs:64-71 | the leap year found from the periods is the Gregorian leap-year rule on the year |
| Calendar.DaysBeforeYearOfParts | RedisSample/Applibs/TimeStampHelper.cs:64-71 | the periods count exactly the days before the year |
| Calendar.DatePartRoundTrip | RedisSample/Applibs/TimeStampHelper.cs:64-71 | the year, month and day of any value form a valid date whose independent day count is the value's day number |
| Calendar.SameDaySameDate | RedisSample/Applibs/TimeStampHelper.cs:64-71 | values on the same day have the same year, month, day and day of week |
| Calendar.FieldsIgnoreSubMinute | RedisSample/Applibs/TimeStampHelper.cs:89-93 | dropping the seconds and below changes no field of the date or time |
| TimeStampHelper.Gtm | RedisSample/Applibs/TimeStampHelper.cs:95-98 | the epoch is a UTC value at the ticks of 1970-01-01 |
| TimeStampHelper.GtmFields | RedisSample/Applibs/TimeStampHelper.cs:95-98 | the epoch reads as 1970-01-01 00:00 |
| TimeStampHelper.AddTicks | RedisSample/Applibs/TimeStampHelper.cs:92 | adding ticks succeeds exactly when the result stays in DateTime's range, and keeps the kind |
| TimeStampHelper.AddMillisecondsInRange | RedisSample/Applibs/TimeStampHelper.cs:35-38 | adding milliseconds succeeds exactly when the result stays in range, moving the value by that many milliseconds |
| TimeStampHelper.AddMilliseconds | RedisSample/Applibs/TimeStampHelper.cs:17 | stated by AddMillisecondsInRange: present exactly when the moved value is in range, and then moved by that many milliseconds |
| TimeStampHelper.AddSecondsInRange | RedisSample/Applibs/TimeStampHelper.cs:32 | adding seconds succeeds exactly when the result stays in range, moving the value by that many seconds |
| TimeStampHelper.AddSeconds | RedisSample/Applibs/TimeStampHelper.cs:32 | stated by AddSecondsInRange |
| TimeStampHelper.ToUniversalTime | RedisSample/Applibs/TimeStampHelper.cs:40-43 | the result is UTC; a UTC value is kept, another one moves back by the local offset |
| TimeStampHelper.ToLocalTime | RedisSample/Applibs/TimeStampHelper.cs:15-18 | the result is local; a local value is kept, another one moves forward by the local offset |
| TimeStampHelper.LocalIfUnspecified | RedisSample/Applibs/TimeStampHelper.cs:22-26 | an unspecified value is marked local; the instant and any other kind are kept |
| TimeStampHelper.RoundToEven | RedisSample/Applibs/TimeStampHelper.cs:106 | the rounded quotient is the nearest integer to the exact one (strictly nearer than half a unit off a tie), exact on multiples, the floor or one above it, and even on a tie |
| TimeStampHelper.UtcDateTimeToUtcTimeStamp | RedisSample/Applibs/TimeStampHelper.cs:100-107 | a value that is not UTC is refused; otherwise the timestamp is within half a millisecond of the time since the epoch |
| TimeStampHelper.UtcNow | RedisSample/Applibs/TimeStampHelper.cs:7-13 | the timestamp of the clock's UTC reading |
| TimeStampHelper.TimeStampRoundTrip | RedisSample/Applibs/TimeStampHelper.cs:35-38 | ToUtcDateTime succeeds exactly in range, gives a UTC value, and that value's timestamp is the original one |
| TimeStampHelper.ToUtcDateTime | RedisSample/Applibs/TimeStampHelper.cs:35-38 | stated by TimeStampRoundTrip and DateTimeRoundTrip: inverse of the timestamp of a UTC value |
| TimeStampHelper.ToLocalDateTime | RedisSample/Applibs/TimeStampHelper.cs:15-18 | stated by LocalRoundTrip: reads back the local time whose timestamp was taken |
| TimeStampHelper.UnixSecondsAreMilliseconds | RedisSample/Applibs/TimeStampHelper.cs:30-33 | a Unix timestamp in seconds reads as the same local time as the millisecond timestamp a thousand times larger, and fails exactly outside years 1 to 9999 |
| TimeStampHelper.UnixTimeStampToLocalDateTime | RedisSample/Applibs/TimeStampHelper.cs:30-33 | stated by UnixSecondsAreMilliseconds |
| TimeStampHelper.DateTimeRoundTrip | RedisSample/Applibs/TimeStampHelper.cs:100-107 | a UTC value on a whole millisecond goes to a timestamp and back to itself |
| TimeStampHelper.ToUtcTimeStampOffset | RedisSample/Applibs/TimeStampHelper.cs:40-43 | a UTC value's timestamp ignores the time zone; a local one's is taken after moving it back by the offset |
| TimeStampHelper.ToUtcTimeStamp | RedisSample/Applibs/TimeStampHelper.cs:40-43 | stated by ToUtcTimeStampOffset and LocalRoundTrip: a UTC value's timestamp whatever the offset, a local value shifted by the offset first |
| TimeStampHelper.ParsedUnspecifiedIsLocal | RedisSample/Applibs/TimeStampHelper.cs:45-53 | a parsed value with no kind is read as local time by both string conversions |
| TimeStampHelper.ToLocalDateTimeOfParsed | RedisSample/Applibs/TimeStampHelper.cs:20-28 | stated by ParsedUnspecifiedIsLocal: an unspecified parsed value keeps its clock time as local |
| TimeStampHelper.ToUtcTimeStampOfParsed | RedisSample/Applibs/TimeStampHelper.cs:45-53 | stated by ParsedUnspecifiedIsLocal: an unspecified parsed value is taken as local, as ToUniversalTime would |
| TimeStampHelper.LocalRoundTrip | RedisSample/Applibs/TimeStampHelper.cs:15-43 | a local time on a whole millisecond, stored as a timestamp and read back in the same zone, is itself |
| TimeStampHelper.Truncate | RedisSample/Applibs/TimeStampHelper.cs:89-93 | a zero span keeps the value; otherwise the result is a multiple of the span's magnitude, at most the value and less than a span before it |
| TimeStampHelper.TruncateIsGreatest | RedisSample/Applibs/TimeStampHelper.cs:89-93 | the truncated value is the largest multiple of the span not after the value |
| TimeStampHelper.TruncateIdempotent | RedisSample/Applibs/TimeStampHelper.cs:89-93 | truncating twice is truncating once |
| TimeStampHelper.TruncateSign | RedisSample/Applibs/TimeStampHelper.cs:89-93 | the span's sign does not matter |
| TimeStampHelper.Split | RedisSample/Applibs/TimeStampHelper.cs:64 | a cron text has at least one field |
| TimeStampHelper.SplitJoin | RedisSample/Applibs/TimeStampHelper.cs:64 | fields with no space, joined by single spaces, split back into the same fields |
| TimeStampHelper.NumberField | RedisSample/Applibs/TimeStampHelper.cs:64-71 | a formatted number holds no space and parses back as itself |
| TimeStampHelper.SplitCron7 | RedisSample/Applibs/TimeStampHelper.cs:64-71 | the seven-field text splits back into its fields |
| TimeStampHelper.Cron7FieldsRead | RedisSample/Applibs/TimeStampHelper.cs:64-71 | the seven fields read back: second "0", each number as itself, day of week "?" |
| TimeStampHelper.Cron7Fields7 | RedisSample/Applibs/TimeStampHelper.cs:55-72 | ToCron7 gives seven fields: second 0, minute, hour, day, month, "?", year, of a valid date |
| TimeStampHelper.MinutesFromFields | RedisSample/Applibs/TimeStampHelper.cs:64-71 | the minute, hour and day number together give the value's whole minutes |
| TimeStampHelper.Cron7SameFields | RedisSample/Applibs/TimeStampHelper.cs:55-72 | equal ToCron7 texts carry equal minute, hour, day, month and year |
| TimeStampHelper.Cron7SameMinute | RedisSample/Applibs/TimeStampHelper.cs:55-72 | two values give the same ToCron7 text exactly when they fall in the same minute |
| TimeStampHelper.ToCron7 | RedisSample/Applibs/TimeStampHelper.cs:55-72 | stated by Cron7Fields7 and Cron7SameMinute: seven fields read back as the date's parts, and two values share an expression exactly when they fall in the same minute |
| TimeStampHelper.SameMinuteSameFields | RedisSample/Applibs/TimeStampHelper.cs:55-72 | values in the same minute give the same ToCron7 text |
| TimeStampHelper.Cron7IgnoresTruncation | RedisSample/Applibs/TimeStampHelper.cs:55-93 | truncating to the minute does not change the ToCron7 text |
| TimeStampHelper.SplitCron5 | RedisSample/Applibs/TimeStampHelper.cs:81-86 | the five-field text splits back into its fields |
| TimeStampHelper.Cron5FieldsRead | RedisSample/Applibs/TimeStampHelper.cs:81-86 | the five fields read back: four numbers as themselves and the day-of-week text |
| TimeStampHelper.Cron5DayIsName | RedisSample/Applibs/TimeStampHelper.cs:74-87 | ToCron5's fifth field is the day's English name, which is not a number |
| TimeStampHelper.ToCron5 | RedisSample/Applibs/TimeStampHelper.cs:74-87 | stated by Cron5DayIsName: five fields, the last the day's English name |
| TimeStampHelper.Cron5NumericFields | RedisSample/Applibs/TimeStampHelper.cs:74-87 | the numeric form gives five numeric fields, the fifth in 0..7 and naming the value's day of week |
| TimeStampHelper.ToCron5Numeric | RedisSample/Applibs/TimeStampHelper.cs:74-87 | stated by Cron5NumericFields: five fields, the last the day-of-week number |

## Left out

- Connections, `UseConnection`'s multiplexer and the exception plumbing are left out. Each call
  reads and writes its database's keyspace directly, and any fault becomes the reply's error.
- Batches and pipelining are left out. A batch runs its commands against one snapshot of the
  keyspace; interleaving with other clients is not modelled.
- Concurrency between clients is left out.
- Time-to-live timing is left out, because there is no clock in the store. Only the
  millisecond conversion, the refusal of a sub-millisecond expiry and the deletion on a
  non-positive timeout are modelled. A key does not lapse later.
- Repository.RedisMemberPointRepository.KeyExpire: for TimeSpan.MaxValue the reply of PERSIST
  says whether the key carried a timeout. The model keeps no timeouts, so it promises only that
  a true reply means the key exists.
- SetScan with a page offset is left out: its result depends on the order of the server's
  cursor enumeration. A positive page size changes only the number of round trips, since
  iterating to the end yields the same set.
- SortedSetIncrement and SortedSetDecrement throw NotImplementedException and are left out.
- Sorted-set scores are `double` in Redis; the model uses exact integers, so rounding of large
  sums is not modelled.
- TimeStampHelper.UtcDateTimeToUtcTimeStamp: rounds the exact quotient of ticks by 10000 to
  even. The source rounds the `double` TotalMilliseconds, the tick count times 0.0001, which
  for present-day instants is not exact. A sub-millisecond remainder near a tie, such as 4999 or
  5001 ticks, can then round the other way.
- The JSON reader accepts only the canonical text the writer produces. Other spellings that
  Newtonsoft would accept are read as a format fault.
- DateTime.Parse, the machine's time zone and the clock are parameters (`parsed`, `localOffset`,
  `nowTicks`). Daylight-saving changes of the offset are not modelled; the offset is fixed.
- Null arguments (a null array or list) are left out: the model's sequences are never null.
- DotNet.Quotient: only the two sign cases of the dividend with a positive divisor are stated,
  which are the only cases the timeouts and timestamps use.
- Repository.RedisMemberPointRepository.HashFindAll: a MemberId field that does not fit 32 bits
  is modelled as a conversion fault, with no further detail about the exception.
- RepositoryProperties.BatchAddUsesFirstKey: states the first entity's set only; that other
  members' keys are untouched follows from OtherMembersUntouched.

## Findings

| source | as written | input that shows it | evidently intended | confidence | as-written member | corrected member |
|---|---|---|---|---|---|---|
| RedisSample.Persistent/RedisMemberPointRepository.cs:131-132 | StringFind converts the stored number with Convert.ToInt32, though Point is a `long` and StringInsert stores any `long` | a point of 2147483648 (2^31) inserted with StringInsert; StringFind then faults with an overflow | convert with Convert.ToInt64, as StringGet and StringBatchGet do, so every inserted entity reads back | high, not executed | RepositoryProperties.FindRefusesLargePoint | RepositoryProperties.FindInt64AfterInsert |
| RedisSample.Persistent/RedisMemberPointRepository.cs:553-567 | ListRightPopLeftPush hands the moved value to the JSON reader without checking it, and a null value makes the reader throw | a source member with an empty or missing list; the call replies with an argument fault instead of null | check for no value and reply null, as ListLeftPop and ListRightPop do | high, not executed | RepositoryProperties.MoveFromEmptySourceFaults | RepositoryProperties.MovedReplyDiffersOnlyOnEmpty |
| RedisSample/Applibs/TimeStampHelper.cs:74-87 | ToCron5 formats the DayOfWeek enum, which writes the day's English name | any date, e.g. 1970-01-01 gives the fifth field "Thursday" | the day-of-week number 0-7 that the method's own comment describes (0 for Sunday) | medium, not executed | TimeStampHelper.Cron5DayIsName | TimeStampHelper.Cron5NumericFields |
