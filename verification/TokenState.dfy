/** The persistent state of the token cache: big-endian numbers, counted strings, and the entries in hash order. */
module TokenState {
  import opened Bytes
  import opened Wrappers
  import opened TokenKeys

  const SCHEMA_VERSION: nat := 2

  /** The JSON text of a result and its parser, which are not part of this model. */
  datatype Json = Json(encode: Token -> text, decode: text -> Option<Token>)

  // ---------------------------------------------------------------- numbers and strings

  function LowByte(n: int): byte {
    n % 256
  }

  function BigEndian(n: int): (r: text)
    ensures |r| == 4
  {
    [LowByte(n / 0x100_0000), LowByte(n / 0x1_0000), LowByte(n / 0x100), LowByte(n)]
  }

  function FromBigEndian(s: text): (r: nat)
    requires |s| == 4
    ensures r < TWO_32
  {
    0x100_0000 * (s[0] as int) + 0x1_0000 * (s[1] as int) + 0x100 * (s[2] as int) + s[3] as int
  }

  lemma DivTwice(n: int)
    ensures n / 0x1_0000 == n / 0x100 / 0x100 && n / 0x100_0000 == n / 0x1_0000 / 0x100
  {
  }

  /** Four bytes hold a number modulo 2^32, negative ones included. */
  lemma NumberComesBack(n: int)
    ensures FromBigEndian(BigEndian(n)) == n % TWO_32
  {
    DivTwice(n);
    var a, b, c := n / 0x100, n / 0x1_0000, n / 0x100_0000;
    assert n == 0x100 * a + n % 0x100;
    assert a == 0x100 * b + a % 0x100;
    assert b == 0x100 * c + b % 0x100;
    assert c == 0x100 * (c / 0x100) + c % 0x100;
    assert n == TWO_32 * (c / 0x100) + FromBigEndian(BigEndian(n));
  }

  function Counted(s: text): text {
    BigEndian(|s|) + s
  }

  function ToInt32(n: nat): int
    requires n < TWO_32
  {
    if n < 0x8000_0000 then n else n - TWO_32
  }

  /** A number at a position, and the position behind it; None where the original reads past the end. */
  function GetNumber(info: text, pos: int): Option<(nat, int)> {
    if 0 <= pos && pos + 4 <= |info| then Some((FromBigEndian(info[pos..pos + 4]), pos + 4)) else None
  }

  /** A counted string; the end position is computed modulo 2^32. */
  function GetText(info: text, pos: int): Option<(text, int)> {
    match GetNumber(info, pos)
    case None => None
    case Some((len, start)) =>
      var end := (start + len) % TWO_32;
      if end <= start then Some(([], ToInt32(end)))
      else if end <= |info| then Some((info[start..end], ToInt32(end)))
      else None
  }

  method Int2Uint8(number: int) returns (result: text)
    ensures result == BigEndian(number)
  {
    result := [];
    var divisor := 0x100_0000;
    for i := 0 to 4
      invariant divisor == [0x100_0000, 0x1_0000, 0x100, 1, 0][i]
      invariant result == BigEndian(number)[..i]
    {
      result := result + [LowByte(number / divisor)];
      divisor := divisor / 0x100;
    }
  }

  method Str2Uint8(str: text) returns (result: text)
    ensures result == Counted(str)
  {
    result := Int2Uint8(|str|);
    for i := 0 to |str|
      invariant result == BigEndian(|str|) + str[..i]
    {
      result := result + [str[i]];
    }
    assert str[..|str|] == str;
  }

  method GetIntNumber(info: text, indexPos: int) returns (r: Option<(nat, int)>)
    ensures r == GetNumber(info, indexPos)
  {
    var result: nat, pos: int := 0, indexPos;
    var weight: nat := 0x100_0000;
    for i := 0 to 4
      invariant pos == indexPos + i
      invariant weight == [0x100_0000, 0x1_0000, 0x100, 1, 0][i]
      invariant i > 0 ==> 0 <= indexPos && pos <= |info|
      invariant result == (if i > 0 then 0x100_0000 * (info[indexPos] as int) else 0)
                          + (if i > 1 then 0x1_0000 * (info[indexPos + 1] as int) else 0)
                          + (if i > 2 then 0x100 * (info[indexPos + 2] as int) else 0)
                          + (if i > 3 then info[indexPos + 3] as int else 0)
    {
      if pos < 0 || pos >= |info| {
        return None;
      }
      result := result + weight * (info[pos] as int);
      weight := weight / 0x100;
      pos := pos + 1;
    }
    return Some((result, pos));
  }

  method GetString(info: text, indexPos: int) returns (r: Option<(text, int)>)
    ensures r == GetText(info, indexPos)
  {
    var number := GetIntNumber(info, indexPos);
    if number == None {
      return None;
    }
    var (len, start) := number.value;
    var result := [];
    var i := start;
    var end := (start + len) % TWO_32;
    while i < end
      invariant start <= i <= |info|
      invariant end <= start ==> i == start
      invariant start < end ==> i <= end
      invariant result == info[start..i]
    {
      if i >= |info| {
        return None;
      }
      result := result + [info[i]];
      i := i + 1;
    }
    return Some((result, if end < 0x8000_0000 then end else end - 0x1_0000_0000));
  }

  // ---------------------------------------------------------------- entries

  /** The key's unique id is not written. */
  function ItemBytes(j: Json, s: Slot): text {
    Counted(s.key.authority) + (Counted(s.key.resource) + (Counted(s.key.clientId)
    + (BigEndian(s.key.subject) + Counted(j.encode(s.result)))))
  }

  function ItemsBytes(j: Json, order: seq<Slot>): text {
    if order == [] then [] else ItemBytes(j, order[0]) + ItemsBytes(j, order[1..])
  }

  function Serialized(j: Json, order: seq<Slot>): text {
    BigEndian(SCHEMA_VERSION) + (BigEndian(|order|) + ItemsBytes(j, order))
  }

  /** A state opens with the version and the number of entries, most significant byte first. */
  lemma StateOpens(j: Json, order: seq<Slot>)
    ensures var s, n := Serialized(j, order), |order|;
            |s| >= 8 && s[..8] == [0, 0, 0, 2, n / 0x100_0000 % 256, n / 0x1_0000 % 256, n / 0x100 % 256, n % 256]
  {
  }

  method PutItem(j: Json, key: Key, r: Token) returns (bytes: text)
    ensures bytes == ItemBytes(j, Slot(key, r))
  {
    hide BigEndian;
    var authority := Str2Uint8(key.authority);
    var resource := Str2Uint8(key.resource);
    var clientId := Str2Uint8(key.clientId);
    var subject := Int2Uint8(key.subject);
    var result := Str2Uint8(j.encode(r));
    bytes := authority;
    bytes := bytes + resource;
    bytes := bytes + clientId;
    bytes := bytes + subject;
    bytes := bytes + result;
  }

  lemma {:induction false} ItemsExtend(j: Json, order: seq<Slot>, s: Slot)
    ensures ItemsBytes(j, order + [s]) == ItemsBytes(j, order) + ItemBytes(j, s)
    decreases |order|
  {
    hide ItemBytes;
    if order != [] {
      assert (order + [s])[1..] == order[1..] + [s];
      ItemsExtend(j, order[1..], s);
    }
  }

  function ReadItem(j: Json, info: text, pos: int): Option<(Slot, int)> {
    match GetText(info, pos)
    case None => None
    case Some((authority, p1)) =>
      match GetText(info, p1)
      case None => None
      case Some((resource, p2)) =>
        match GetText(info, p2)
        case None => None
        case Some((clientId, p3)) =>
          match GetNumber(info, p3)
          case None => None
          case Some((subject, p4)) => ReadResult(j, info, p4, authority, resource, clientId, subject)
  }

  function ReadResult(j: Json, info: text, pos: int, authority: text, resource: text, clientId: text, subject: nat)
      : Option<(Slot, int)>
  {
    match GetText(info, pos)
    case None => None
    case Some((result, next)) =>
      match j.decode(result)
      case None => None
      case Some(r) => Some((Slot(KeyFor(authority, resource, clientId, subject, r), r), next))
  }

  method TakeItem(j: Json, info: text, pos: int) returns (r: Option<(Slot, int)>)
    ensures r == ReadItem(j, info, pos)
  {
    hide GetText, GetNumber;
    var authority := GetString(info, pos);
    if authority == None {
      return None;
    }
    var resource := GetString(info, authority.value.1);
    if resource == None {
      return None;
    }
    var clientId := GetString(info, resource.value.1);
    if clientId == None {
      return None;
    }
    var subject := GetIntNumber(info, clientId.value.1);
    if subject == None {
      return None;
    }
    var text := GetString(info, subject.value.1);
    if text == None {
      return None;
    }
    var result := j.decode(text.value.0);
    if result == None {
      return None;
    }
    var uniqueId := if result.value.user == None then [] else result.value.user.value;
    var key := Key(authority.value.0, resource.value.0, clientId.value.0, subject.value.0, uniqueId);
    return Some((Slot(key, result.value), text.value.1));
  }

  /** Inserting into the hash table keeps an entry that is already there. */
  function Insert(dict: map<Key, Slot>, s: Slot): map<Key, Slot> {
    if Identity(s.key) in dict then dict else dict[Identity(s.key) := s]
  }

  function InsertAll(slots: seq<Slot>, dict: map<Key, Slot>): map<Key, Slot>
    decreases |slots|
  {
    if slots == [] then dict else InsertAll(slots[1..], Insert(dict, slots[0]))
  }

  /** The dictionary afterwards, and whether all entries were read; entries before a bad one stay inserted. */
  function LoadItems(j: Json, info: text, pos: int, n: nat, dict: map<Key, Slot>): (map<Key, Slot>, bool)
    decreases n
  {
    if n == 0 then (dict, true)
    else
      match ReadItem(j, info, pos)
      case None => (dict, false)
      case Some((slot, next)) => LoadItems(j, info, next, n - 1, Insert(dict, slot))
  }

  /** No state clears the dictionary; a state of another schema version leaves it alone. */
  function Deserialized(j: Json, state: text, dict: map<Key, Slot>): (map<Key, Slot>, bool) {
    if state == [] then (map[], true)
    else
      match GetNumber(state, 0)
      case None => (dict, false)
      case Some((version, p1)) =>
        if version != SCHEMA_VERSION then (dict, true)
        else
          match GetNumber(state, p1)
          case None => (dict, false)
          case Some((count, p2)) => LoadItems(j, state, p2, count, dict)
  }

  // ---------------------------------------------------------------- reading back what was written

  predicate At(info: text, pos: nat, piece: text) {
    pos + |piece| <= |info| && info[pos..pos + |piece|] == piece
  }

  lemma AtSplit(info: text, pos: nat, a: text, b: text)
    requires At(info, pos, a + b)
    ensures At(info, pos, a) && At(info, pos + |a|, b)
  {
    var whole := info[pos..pos + |a + b|];
    assert whole[..|a|] == a && whole[|a|..] == b;
    assert info[pos..pos + |a|] == whole[..|a|];
    assert info[pos + |a|..pos + |a| + |b|] == whole[|a|..];
  }

  lemma NumberAt(info: text, pos: nat, n: nat)
    requires At(info, pos, BigEndian(n)) && n < TWO_32
    ensures GetNumber(info, pos) == Some((n, pos + 4))
  {
    NumberComesBack(n);
  }

  lemma TextAt(info: text, pos: nat, s: text)
    requires At(info, pos, Counted(s)) && |info| < 0x8000_0000
    ensures GetText(info, pos) == Some((s, pos + |Counted(s)|))
  {
    hide BigEndian, FromBigEndian;
    AtSplit(info, pos, BigEndian(|s|), s);
    NumberAt(info, pos, |s|);
  }

  function Derived(s: Slot): Slot {
    Slot(s.key.(uniqueId := UserId(s.result)), s.result)
  }

  predicate Decodes(j: Json, s: Slot) {
    s.key.subject < TWO_32 && j.decode(j.encode(s.result)) == Some(s.result)
  }

  lemma ResultAt(j: Json, info: text, pos: nat, s: Slot)
    requires At(info, pos, Counted(j.encode(s.result))) && |info| < 0x8000_0000 && Decodes(j, s)
    ensures ReadResult(j, info, pos, s.key.authority, s.key.resource, s.key.clientId, s.key.subject)
            == Some((Derived(s), pos + |Counted(j.encode(s.result))|))
  {
    hide At, GetText, Counted;
    TextAt(info, pos, j.encode(s.result));
  }

  /** An entry comes back with its unique id taken from its result. */
  lemma ItemAt(j: Json, info: text, pos: nat, s: Slot)
    requires At(info, pos, ItemBytes(j, s)) && |info| < 0x8000_0000 && Decodes(j, s)
    ensures ReadItem(j, info, pos) == Some((Derived(s), pos + |ItemBytes(j, s)|))
  {
    hide At, GetText, GetNumber, Counted, BigEndian, ReadResult, Derived;
    var result := Counted(j.encode(s.result));
    var subject := BigEndian(s.key.subject);
    var a, b, c := Counted(s.key.authority), Counted(s.key.resource), Counted(s.key.clientId);
    AtSplit(info, pos, a, b + (c + (subject + result)));
    AtSplit(info, pos + |a|, b, c + (subject + result));
    AtSplit(info, pos + |a| + |b|, c, subject + result);
    AtSplit(info, pos + |a| + |b| + |c|, subject, result);
    TextAt(info, pos, s.key.authority);
    TextAt(info, pos + |a|, s.key.resource);
    TextAt(info, pos + |a| + |b|, s.key.clientId);
    NumberAt(info, pos + |a| + |b| + |c|, s.key.subject);
    ResultAt(j, info, pos + |a| + |b| + |c| + 4, s);
  }

  function DerivedAll(order: seq<Slot>): (r: seq<Slot>)
    ensures |r| == |order|
    ensures forall i :: 0 <= i < |order| ==> r[i] == Derived(order[i])
  {
    seq(|order|, i requires 0 <= i < |order| => Derived(order[i]))
  }

  function AllDerived(dict: map<Key, Slot>): map<Key, Slot> {
    map id | id in dict :: Derived(dict[id])
  }

  predicate AllDecode(j: Json, order: seq<Slot>) {
    forall i :: 0 <= i < |order| ==> Decodes(j, order[i])
  }

  lemma {:induction false} ItemsAt(j: Json, info: text, pos: nat, order: seq<Slot>, dict: map<Key, Slot>)
    requires At(info, pos, ItemsBytes(j, order)) && |info| < 0x8000_0000 && AllDecode(j, order)
    ensures LoadItems(j, info, pos, |order|, dict) == (InsertAll(DerivedAll(order), dict), true)
    decreases |order|
  {
    hide At, ReadItem, ItemBytes, Derived, Insert, Decodes;
    if order != [] {
      AtSplit(info, pos, ItemBytes(j, order[0]), ItemsBytes(j, order[1..]));
      ItemAt(j, info, pos, order[0]);
      ItemsAt(j, info, pos + |ItemBytes(j, order[0])|, order[1..], Insert(dict, Derived(order[0])));
      assert DerivedAll(order)[1..] == DerivedAll(order[1..]);
    }
  }

  ghost predicate IsListed(s: Slot, dict: map<Key, Slot>) {
    Identity(s.key) in dict && dict[Identity(s.key)] == s
  }

  ghost predicate Within(order: seq<Slot>, id: Key) {
    exists i :: 0 <= i < |order| && Identity(order[i].key) == id
  }

  /** An enumeration of the dictionary, in whatever order the hash table yields. */
  ghost predicate Lists(order: seq<Slot>, dict: map<Key, Slot>) {
    && |order| == |dict|
    && (forall i :: 0 <= i < |order| ==> IsListed(order[i], dict))
    && (forall id :: id in dict ==> Within(order, id))
  }

  /** An enumeration of all but the rest. */
  ghost predicate Covers(order: seq<Slot>, dict: map<Key, Slot>, rest: set<Key>) {
    && |order| + |rest| == |dict|
    && (forall i :: 0 <= i < |order| ==> IsListed(order[i], dict))
    && (forall id :: id in dict && id !in rest ==> Within(order, id))
  }

  lemma CoversNone(dict: map<Key, Slot>)
    ensures Covers([], dict, dict.Keys)
  {
  }

  lemma CoversStep(order: seq<Slot>, dict: map<Key, Slot>, rest: set<Key>, id: Key)
    requires Covers(order, dict, rest) && id in rest && id in dict && WellKeyed(dict)
    ensures Covers(order + [dict[id]], dict, rest - {id})
  {
    hide Identity;
    var more := order + [dict[id]];
    assert more[|order|] == dict[id];
    forall k | k in dict && k !in rest - {id} ensures Within(more, k) {
      if k != id {
        var i :| 0 <= i < |order| && Identity(order[i].key) == k;
        assert more[i] == order[i];
      }
    }
  }

  lemma CoversAll(order: seq<Slot>, dict: map<Key, Slot>)
    requires Covers(order, dict, {})
    ensures Lists(order, dict)
  {
  }

  /** The same results under the same keys, up to the case of the keys. */
  ghost predicate SameEntries(a: map<Key, Slot>, b: map<Key, Slot>) {
    a.Keys == b.Keys && forall id :: id in a ==> a[id].result == b[id].result
  }

  ghost predicate OneOf(slots: seq<Slot>, id: Key, s: Slot) {
    exists i :: 0 <= i < |slots| && Identity(slots[i].key) == id && s == slots[i]
  }

  /** What a sequence of insertions leaves: each identity holds one of the slots inserted for it. */
  lemma {:induction false} Inserted(slots: seq<Slot>, dict: map<Key, Slot>)
    ensures forall id :: id in dict ==> id in InsertAll(slots, dict) && InsertAll(slots, dict)[id] == dict[id]
    ensures forall i :: 0 <= i < |slots| ==> Identity(slots[i].key) in InsertAll(slots, dict)
    ensures forall id :: id in InsertAll(slots, dict) && id !in dict ==> OneOf(slots, id, InsertAll(slots, dict)[id])
    decreases |slots|
  {
    hide Identity;
    if slots != [] {
      var rest, more := slots[1..], Insert(dict, slots[0]);
      var all := InsertAll(slots, dict);
      Inserted(rest, more);
      assert all == InsertAll(rest, more);
      forall i | 0 <= i < |slots| ensures Identity(slots[i].key) in all {
        if i > 0 {
          assert slots[i] == rest[i - 1];
        }
      }
      forall id | id in all && id !in dict
        ensures OneOf(slots, id, all[id])
      {
        if id in more {
          assert Identity(slots[0].key) == id && all[id] == slots[0];
        } else {
          var i :| 0 <= i < |rest| && Identity(rest[i].key) == id && all[id] == rest[i];
          assert slots[i + 1] == rest[i];
        }
      }
    }
  }

  lemma DerivedIdentity(s: Slot)
    ensures Derived(s).key.uniqueId == UserId(s.result)
    ensures EqualsIC(s.key.uniqueId, UserId(s.result)) ==> Identity(Derived(s).key) == Identity(s.key)
    ensures Identity(Derived(s).key).uniqueId == Lower(UserId(s.result))
  {
  }

  lemma LoadedIsDerived(order: seq<Slot>, id: Key)
    requires id in InsertAll(DerivedAll(order), map[])
    ensures var s := InsertAll(DerivedAll(order), map[])[id];
            Identity(s.key) == id && id.uniqueId == Lower(UserId(s.result))
  {
    hide Identity, Derived, InsertAll, Lower, UserId;
    Inserted(DerivedAll(order), map[]);
    var i :| 0 <= i < |order| && Identity(DerivedAll(order)[i].key) == id
             && InsertAll(DerivedAll(order), map[])[id] == DerivedAll(order)[i];
    DerivedIdentity(order[i]);
    assert DerivedAll(order)[i].result == order[i].result by {
      DerivedResult(order[i]);
    }
  }

  lemma DerivedResult(s: Slot)
    ensures Derived(s).result == s.result
  {
  }

  lemma AgreeingComesBack(order: seq<Slot>, dict: map<Key, Slot>)
    requires Lists(order, dict) && UniqueIdsAgree(dict)
    ensures InsertAll(DerivedAll(order), map[]) == AllDerived(dict)
  {
    hide Identity, Derived, DerivedAll, InsertAll, Lower, UserId, UniqueIdsAgree, OneOf, Lists;
    var loaded := InsertAll(DerivedAll(order), map[]);
    forall id | id in dict ensures id in loaded {
      ListedIsLoaded(order, dict, id);
    }
    forall id | id in loaded ensures id in dict && loaded[id] == Derived(dict[id]) {
      LoadedIsListed(order, dict, id);
    }
  }

  lemma ListedIsLoaded(order: seq<Slot>, dict: map<Key, Slot>, id: Key)
    requires Lists(order, dict) && UniqueIdsAgree(dict) && id in dict
    ensures id in InsertAll(DerivedAll(order), map[])
  {
    hide Identity, Derived, InsertAll, Lower, UserId, UniqueIdsAgree, OneOf;
    Inserted(DerivedAll(order), map[]);
    var i :| 0 <= i < |order| && Identity(order[i].key) == id;
    AgreeingIdentity(order, dict, i);
  }

  lemma LoadedIsListed(order: seq<Slot>, dict: map<Key, Slot>, id: Key)
    requires Lists(order, dict) && UniqueIdsAgree(dict) && id in InsertAll(DerivedAll(order), map[])
    ensures id in dict && InsertAll(DerivedAll(order), map[])[id] == Derived(dict[id])
  {
    hide Identity, Derived, InsertAll, Lower, UserId, UniqueIdsAgree, Lists;
    var all := DerivedAll(order);
    Inserted(all, map[]);
    var i :| 0 <= i < |all| && Identity(all[i].key) == id && InsertAll(all, map[])[id] == all[i];
    AgreeingIdentity(order, dict, i);
  }

  lemma AgreeingIdentity(order: seq<Slot>, dict: map<Key, Slot>, i: nat)
    requires Lists(order, dict) && UniqueIdsAgree(dict) && i < |order|
    ensures Identity(DerivedAll(order)[i].key) == Identity(order[i].key)
    ensures Identity(order[i].key) in dict && DerivedAll(order)[i] == Derived(dict[Identity(order[i].key)])
  {
    hide Identity, Derived, Lower, UserId;
    DerivedIdentity(order[i]);
    assert order[i] == dict[Identity(order[i].key)];
  }

  /**
   Serialising and deserialising into an empty cache gives the same entries, up to the case of the keys, exactly
   when the keys' unique ids are those of their results' users: the unique id itself is not written.
   */
  lemma StateRoundTrip(j: Json, order: seq<Slot>, dict: map<Key, Slot>)
    requires Lists(order, dict) && WellKeyed(dict) && AllDecode(j, order)
    requires |Serialized(j, order)| < 0x8000_0000
    ensures Deserialized(j, Serialized(j, order), map[]).1
    ensures SameEntries(dict, Deserialized(j, Serialized(j, order), map[]).0) <==> UniqueIdsAgree(dict)
    ensures UniqueIdsAgree(dict) ==> Deserialized(j, Serialized(j, order), map[]).0 == AllDerived(dict)
  {
    hide Identity, Derived, InsertAll, Lower, UserId, Decodes, AllDecode, ItemsBytes, Lists;
    var loaded := InsertAll(DerivedAll(order), map[]);
    SerializedLoads(j, order);
    if UniqueIdsAgree(dict) {
      AgreeingComesBack(order, dict);
      forall id | id in dict ensures id in loaded && dict[id].result == loaded[id].result {
        DerivedResult(dict[id]);
      }
      assert dict.Keys == loaded.Keys;
    }
    if SameEntries(dict, loaded) {
      forall id | id in dict ensures EqualsIC(dict[id].key.uniqueId, UserId(dict[id].result)) {
        assert id in loaded;
        LoadedIsDerived(order, id);
        IdentityUniqueId(dict[id].key);
      }
    }
  }

  lemma IdentityUniqueId(k: Key)
    ensures Identity(k).uniqueId == Lower(k.uniqueId)
  {
  }

  lemma SerializedLoads(j: Json, order: seq<Slot>)
    requires AllDecode(j, order)
    requires |Serialized(j, order)| < 0x8000_0000
    ensures Deserialized(j, Serialized(j, order), map[]) == (InsertAll(DerivedAll(order), map[]), true)
  {
    hide BigEndian, InsertAll, GetNumber, LoadItems, AllDecode, ItemsBytes, At;
    ItemsTakeBytes(j, order);
    var info := Serialized(j, order);
    var count, items := BigEndian(|order|), ItemsBytes(j, order);
    assert At(info, 0, info) by {
      WholeAt(info);
    }
    AtSplit(info, 0, BigEndian(SCHEMA_VERSION), count + items);
    AtSplit(info, 4, count, items);
    NumberAt(info, 0, SCHEMA_VERSION);
    NumberAt(info, 4, |order|);
    ItemsAt(j, info, 8, order, map[]);
  }

  lemma {:induction false} ItemsTakeBytes(j: Json, order: seq<Slot>)
    ensures |order| <= |ItemsBytes(j, order)|
  {
    hide ItemBytes;
    if order != [] {
      ItemTakesBytes(j, order[0]);
      ItemsTakeBytes(j, order[1..]);
    }
  }

  lemma ItemTakesBytes(j: Json, s: Slot)
    ensures |ItemBytes(j, s)| >= 20
  {
    hide BigEndian;
  }

  lemma WholeAt(info: text)
    ensures At(info, 0, info)
  {
  }
}
