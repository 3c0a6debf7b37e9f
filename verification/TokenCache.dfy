/** The token cache itself: a dictionary of shared, mutable authentication results. */
module TokenCache {
  import opened Wrappers
  import opened TokenKeys
  import opened TokenState
  import opened TokenRuns

  const EXPIRATION_MARGIN_IN_SECONDS: int := 300

  class AuthenticationResult {
    var accessToken: text
    var refreshToken: text
    const expiresOn: int
    const user: Option<text>
    const multi: bool
    const rest: text

    constructor (t: Token)
      ensures Value() == t
    {
      accessToken := t.accessToken;
      refreshToken := t.refreshToken;
      expiresOn := t.expiresOn;
      user := t.user;
      multi := t.multi;
      rest := t.rest;
    }

    function Value(): Token
      reads this
    {
      Token(accessToken, refreshToken, expiresOn, user, multi, rest)
    }
  }

  /** A key as spelled, and the result object stored under it. */
  datatype Entry = Entry(key: Key, result: AuthenticationResult)

  /** How many of the entries are of the resource. */
  ghost function CountResource(list: seq<Entry>, resource: text): nat {
    if list == [] then 0
    else (if EqualsIC(list[0].key.resource, resource) then 1 else 0) + CountResource(list[1..], resource)
  }

  ghost function FirstMulti(list: seq<Entry>): Option<Entry> {
    if list == [] then None
    else if list[0].result.multi then Some(list[0])
    else FirstMulti(list[1..])
  }

  /** One match for the resource yields the front of the list; several yield nothing. */
  ghost function Pick(list: seq<Entry>, resource: text): Option<Entry> {
    var quantity := CountResource(list, resource);
    if quantity == 1 then Some(list[0])
    else if quantity == 0 then FirstMulti(list)
    else None
  }

  lemma {:induction false} CountsSome(list: seq<Entry>, resource: text)
    ensures CountResource(list, resource) > 0
      <==> exists i :: 0 <= i < |list| && EqualsIC(list[i].key.resource, resource)
  {
    hide EqualsIC;
    if list != [] {
      CountsSome(list[1..], resource);
      if i :| 0 <= i < |list| && EqualsIC(list[i].key.resource, resource) {
        assert i > 0 ==> list[1..][i - 1] == list[i];
      }
      if i :| 0 <= i < |list| - 1 && EqualsIC(list[1..][i].key.resource, resource) {
        assert list[i + 1] == list[1..][i];
      }
    }
  }

  lemma {:induction false} FirstMultiInList(list: seq<Entry>)
    ensures var e := FirstMulti(list);
            e.Some? ==> e.value in list && e.value.result.multi
  {
    if list != [] {
      FirstMultiInList(list[1..]);
    }
  }

  lemma PickInList(list: seq<Entry>, resource: text)
    ensures var e := Pick(list, resource);
            && (e.Some? ==> e.value in list)
            && (PickServes(list, resource)
                <==> CountResource(list, resource) == 1 && EqualsIC(list[0].key.resource, resource))
  {
    hide EqualsIC;
    CountsSome(list, resource);
    FirstMultiInList(list);
  }

  /** The entry picked from this list is one of the requested resource. */
  ghost predicate PickServes(list: seq<Entry>, resource: text) {
    Pick(list, resource).Some? && EqualsIC(Pick(list, resource).value.key.resource, resource)
  }

  ghost predicate IsAnswer(dict: map<Key, Entry>, e: Entry, query: Key) {
    Identity(e.key) in dict && dict[Identity(e.key)] == e && Matches(query, Identity(e.key))
  }

  /** The entries that match a query, each once, in the order of the hash table. */
  ghost predicate Answers(dict: map<Key, Entry>, list: seq<Entry>, query: Key) {
    && (forall i :: 0 <= i < |list| ==> IsAnswer(dict, list[i], query))
    && (forall id :: id in dict && Matches(query, id) ==> dict[id] in list)
    && (forall i, j :: 0 <= i < j < |list| ==> list[i] != list[j])
  }

  lemma PickedIsAnswer(dict: map<Key, Entry>, list: seq<Entry>, query: Key)
    requires Answers(dict, list, query)
    ensures var e := Pick(list, query.resource);
            e.Some? ==> IsAnswer(dict, e.value, query)
  {
    PickInList(list, query.resource);
  }

  // Which entry a load finds, in terms of the dictionary alone.

  /** A single entry matches the query, and it is of the queried resource. */
  ghost predicate SoleAnswer(dict: map<Key, Entry>, query: Key) {
    && (exists id :: id in dict && Matches(query, id) && EqualsIC(dict[id].key.resource, query.resource))
    && (forall a, b :: a in dict && b in dict && Matches(query, a) && Matches(query, b) ==> a == b)
  }

  ghost predicate Keyed(dict: map<Key, Entry>) {
    forall id :: id in dict ==> Identity(dict[id].key) == id
  }

  /** Some list of the matching entries exists. */
  lemma AnswersExist(dict: map<Key, Entry>, query: Key) returns (list: seq<Entry>)
    requires Keyed(dict)
    ensures Answers(dict, list, query)
  {
    hide Matches, Identity;
    list := [];
    var rest := dict.Keys;
    while rest != {}
      invariant rest <= dict.Keys
      invariant forall i :: 0 <= i < |list| ==> IsAnswer(dict, list[i], query) && Identity(list[i].key) !in rest
      invariant forall id :: id in dict - rest && Matches(query, id) ==> dict[id] in list
      invariant forall i, j :: 0 <= i < j < |list| ==> list[i] != list[j]
    {
      var id :| id in rest;
      rest := rest - {id};
      if Matches(query, id) {
        list := list + [dict[id]];
      }
    }
  }

  /** The first two entries of a list may as well come the other way round. */
  lemma SwapAnswers(dict: map<Key, Entry>, list: seq<Entry>, query: Key)
    requires Answers(dict, list, query) && |list| >= 2
    ensures Answers(dict, [list[1], list[0]] + list[2..], query)
  {
    hide IsAnswer, Matches;
    var swapped := [list[1], list[0]] + list[2..];
    forall id | id in dict && Matches(query, id) ensures dict[id] in swapped {
      var i :| 0 <= i < |list| && list[i] == dict[id];
      assert swapped[if i == 0 then 1 else if i == 1 then 0 else i] == dict[id];
    }
  }

  lemma SoleIsServed(dict: map<Key, Entry>, list: seq<Entry>, query: Key)
    requires SoleAnswer(dict, query) && Answers(dict, list, query)
    ensures PickServes(list, query.resource)
  {
    hide Matches, EqualsIC, Identity, PickServes;
    var id :| id in dict && Matches(query, id) && EqualsIC(dict[id].key.resource, query.resource);
    assert forall i :: 0 <= i < |list| ==> IsAnswer(dict, list[i], query) && list[i] == dict[id];
    assert |list| == 1 by {
      assert dict[id] in list;
      assert list[0] == list[|list| - 1];
    }
    CountOne(list, query.resource);
    PickInList(list, query.resource);
  }

  /** No entry that matches the query is of the queried resource. */
  ghost predicate NoneOfResource(dict: map<Key, Entry>, query: Key) {
    forall id :: id in dict && Matches(query, id) ==> !EqualsIC(dict[id].key.resource, query.resource)
  }

  /** Two of the entries that match the query are of the queried resource. */
  ghost predicate SeveralOfResource(dict: map<Key, Entry>, query: Key) {
    exists a, b :: a in dict && b in dict && a != b && Matches(query, a) && Matches(query, b)
                   && EqualsIC(dict[a].key.resource, query.resource) && EqualsIC(dict[b].key.resource, query.resource)
  }

  /** The entry under this key matches the query and has a multi-resource refresh token. */
  ghost predicate IsFallback(dict: map<Key, Entry>, query: Key, id: Key) {
    id in dict && Matches(query, id) && dict[id].result.multi
  }

  /**
   What a load picks, in terms of the dictionary, for every hash order: an entry of the query if just one is of the
   resource, nothing if several are, and if none is, an entry with a multi-resource token, if there is one.
   */
  lemma PickFound(dict: map<Key, Entry>, list: seq<Entry>, query: Key)
    requires Keyed(dict) && Answers(dict, list, query)
    ensures NoneOfResource(dict, query) ==>
              var e := Pick(list, query.resource);
              && (e.Some? <==> exists id :: IsFallback(dict, query, id))
              && (e.Some? ==> IsFallback(dict, query, Identity(e.value.key)) && dict[Identity(e.value.key)] == e.value)
    ensures SeveralOfResource(dict, query) ==> Pick(list, query.resource) == None
    ensures !NoneOfResource(dict, query) && !SeveralOfResource(dict, query) ==>
              Pick(list, query.resource).Some? && IsAnswer(dict, Pick(list, query.resource).value, query)
  {
    hide Matches, EqualsIC, Identity, CountResource, FirstMulti;
    CountsSome(list, query.resource);
    PickedIsAnswer(dict, list, query);
    if NoneOfResource(dict, query) {
      FallbackFound(dict, list, query);
    } else {
      SomeCounted(dict, list, query);
      SeveralCounted(dict, list, query);
    }
  }

  lemma {:induction false} FirstMultiFound(list: seq<Entry>)
    ensures FirstMulti(list).Some? <==> exists i :: 0 <= i < |list| && list[i].result.multi
  {
    if list != [] {
      FirstMultiFound(list[1..]);
      if i :| 0 <= i < |list| && list[i].result.multi {
        assert i > 0 ==> list[1..][i - 1] == list[i];
      }
      if i :| 0 <= i < |list| - 1 && list[1..][i].result.multi {
        assert list[i + 1] == list[1..][i];
      }
    }
  }

  lemma FallbackFound(dict: map<Key, Entry>, list: seq<Entry>, query: Key)
    requires Answers(dict, list, query) && NoneOfResource(dict, query)
    ensures CountResource(list, query.resource) == 0
    ensures var e := FirstMulti(list);
            && (e.Some? <==> exists id :: IsFallback(dict, query, id))
            && (e.Some? ==> IsFallback(dict, query, Identity(e.value.key)) && dict[Identity(e.value.key)] == e.value)
  {
    hide Matches, EqualsIC, Identity, CountResource, FirstMulti;
    CountsSome(list, query.resource);
    assert forall i :: 0 <= i < |list| ==> IsAnswer(dict, list[i], query);
    FirstMultiFound(list);
    FirstMultiInList(list);
    if id :| IsFallback(dict, query, id) {
      assert dict[id] in list;
    }
    if i :| 0 <= i < |list| && list[i].result.multi {
      assert IsFallback(dict, query, Identity(list[i].key));
    }
  }

  lemma SomeCounted(dict: map<Key, Entry>, list: seq<Entry>, query: Key)
    requires Answers(dict, list, query) && !NoneOfResource(dict, query)
    ensures CountResource(list, query.resource) > 0
  {
    hide Matches, EqualsIC, Identity, CountResource, IsAnswer;
    CountsSome(list, query.resource);
    var id :| id in dict && Matches(query, id) && EqualsIC(dict[id].key.resource, query.resource);
    assert dict[id] in list;
  }

  lemma SeveralCounted(dict: map<Key, Entry>, list: seq<Entry>, query: Key)
    requires Keyed(dict) && Answers(dict, list, query)
    ensures CountResource(list, query.resource) > 1 <==> SeveralOfResource(dict, query)
  {
    hide Matches, EqualsIC, Identity, CountResource;
    if CountResource(list, query.resource) > 1 {
      var i, j := CountsTwo(list, query.resource);
      assert IsAnswer(dict, list[i], query) && IsAnswer(dict, list[j], query) && list[i] != list[j];
    }
    if SeveralOfResource(dict, query) {
      var a, b :| a in dict && b in dict && a != b && Matches(query, a) && Matches(query, b)
        && EqualsIC(dict[a].key.resource, query.resource) && EqualsIC(dict[b].key.resource, query.resource);
      assert dict[a] != dict[b];
      var i :| 0 <= i < |list| && list[i] == dict[a];
      var j :| 0 <= j < |list| && list[j] == dict[b];
      if i < j {
        TwoCounted(list, query.resource, i, j);
      } else {
        TwoCounted(list, query.resource, j, i);
      }
    }
  }

  lemma {:induction false} TwoCounted(list: seq<Entry>, resource: text, i: nat, j: nat)
    requires i < j < |list| && EqualsIC(list[i].key.resource, resource) && EqualsIC(list[j].key.resource, resource)
    ensures CountResource(list, resource) > 1
  {
    hide EqualsIC;
    if i > 0 {
      TwoCounted(list[1..], resource, i - 1, j - 1);
    } else {
      CountsSome(list[1..], resource);
      assert list[1..][j - 1] == list[j];
    }
  }

  /** One more entry counted, as the loop does. */
  lemma {:induction false} CountNext(list: seq<Entry>, resource: text, i: nat)
    requires i < |list|
    ensures CountResource(list[..i + 1], resource)
         == CountResource(list[..i], resource) + if EqualsIC(list[i].key.resource, resource) then 1 else 0
  {
    hide EqualsIC;
    if i == 0 {
      assert list[..1][1..] == [] && list[..0] == [];
    } else {
      CountNext(list[1..], resource, i - 1);
      assert list[..i + 1][1..] == list[1..][..i] && list[..i][1..] == list[1..][..i - 1];
    }
  }

  lemma {:induction false} FirstMultiAt(list: seq<Entry>, i: nat)
    requires i <= |list| && forall k :: 0 <= k < i ==> !list[k].result.multi
    ensures FirstMulti(list) == if i < |list| && list[i].result.multi then Some(list[i]) else FirstMulti(list[i..])
  {
    if i == 0 {
      assert list[0..] == list;
    } else {
      FirstMultiAt(list[1..], i - 1);
      assert list[1..][i - 1..] == list[i..];
    }
  }

  lemma CountOne(list: seq<Entry>, resource: text)
    requires |list| == 1 && EqualsIC(list[0].key.resource, resource)
    ensures CountResource(list, resource) == 1
  {
    assert list[1..] == [];
  }

  lemma ServedIsFront(dict: map<Key, Entry>, list: seq<Entry>, query: Key)
    requires Answers(dict, list, query)
    requires forall l: seq<Entry> :: Answers(dict, l, query) ==> PickServes(l, query.resource)
    ensures |list| == 1 && EqualsIC(list[0].key.resource, query.resource)
  {
    hide EqualsIC, Answers, PickServes;
    assert PickServes(list, query.resource);
    PickInList(list, query.resource);
    if |list| >= 2 {
      var swapped := [list[1], list[0]] + list[2..];
      SwapAnswers(dict, list, query);
      assert PickServes(swapped, query.resource);
      PickInList(swapped, query.resource);
      CountBoth(list, query.resource);
      assert false;
    }
  }

  lemma CountBoth(list: seq<Entry>, resource: text)
    requires |list| >= 2 && EqualsIC(list[0].key.resource, resource) && EqualsIC(list[1].key.resource, resource)
    ensures CountResource(list, resource) >= 2
  {
    hide EqualsIC;
    assert list[1..][0] == list[1];
  }

  /**
   The code takes a single match of the resource to stand at the front. Whatever the hash order, a load finds an
   entry of the requested resource exactly when a single entry matches the query at all, and is of that resource.
   */
  lemma PickExact(dict: map<Key, Entry>, query: Key)
    requires Keyed(dict)
    ensures (forall list: seq<Entry> :: Answers(dict, list, query) ==> PickServes(list, query.resource))
       <==> SoleAnswer(dict, query)
  {
    hide Answers, PickServes, EqualsIC, Matches;
    if SoleAnswer(dict, query) {
      forall list: seq<Entry> | Answers(dict, list, query) ensures PickServes(list, query.resource) {
        hide SoleAnswer;
        SoleIsServed(dict, list, query);
      }
    }
    if forall list: seq<Entry> :: Answers(dict, list, query) ==> PickServes(list, query.resource) {
      var list := AnswersExist(dict, query);
      ServedIsFront(dict, list, query);
      OnlyAnswer(dict, list, query);
    }
  }

  lemma OnlyAnswer(dict: map<Key, Entry>, list: seq<Entry>, query: Key)
    requires Keyed(dict) && Answers(dict, list, query)
    requires |list| == 1 && EqualsIC(list[0].key.resource, query.resource)
    ensures SoleAnswer(dict, query)
  {
    hide EqualsIC, Matches, Identity;
    assert IsAnswer(dict, list[0], query);
    forall a | a in dict && Matches(query, a) ensures a == Identity(list[0].key) {
      assert dict[a] in list;
    }
  }

  /** Two tokens of one client and user: a load of the second resource can be served with the first. */
  lemma PickMisses(one: AuthenticationResult, other: AuthenticationResult)
    ensures var a, b := Key([], [97], [99], 0, [100]), Key([], [98], [99], 0, [100]);
            var dict := map[a := Entry(a, one), b := Entry(b, other)];
            Answers(dict, [dict[a], dict[b]], b) && Pick([dict[a], dict[b]], b.resource) == Some(dict[a])
            && !EqualsIC(dict[a].key.resource, b.resource)
  {
    var a, b := Key([], [97], [99], 0, [100]), Key([], [98], [99], 0, [100]);
    PlainIsIdentity(a);
    PlainIsIdentity(b);
    var dict := map[a := Entry(a, one), b := Entry(b, other)];
    var list := [dict[a], dict[b]];
    assert Lower([97])[0] == 97 && Lower([98])[0] == 98;
    MatchesIdentity(b, b);
    assert forall i :: 0 <= i < 2 ==> IsAnswer(dict, list[i], b);
    assert list[0] != list[1] && list[1..] == [dict[b]];
    assert CountResource([dict[b]], b.resource) == 1;
  }

  /** Keys without capital letters are their own representatives. */
  lemma PlainIsIdentity(k: Key)
    requires HasNoCapital(k.authority) && HasNoCapital(k.resource) && HasNoCapital(k.clientId)
    requires HasNoCapital(k.uniqueId)
    ensures Identity(k) == k
  {
    PlainIsLower(k.authority);
    PlainIsLower(k.resource);
    PlainIsLower(k.clientId);
    PlainIsLower(k.uniqueId);
  }

  predicate HasNoCapital(s: text) {
    forall i :: 0 <= i < |s| ==> !(65 <= s[i] <= 90)
  }

  lemma PlainIsLower(s: text)
    requires HasNoCapital(s)
    ensures Lower(s) == s
  {
  }

  lemma {:induction false} CountsTwo(list: seq<Entry>, resource: text) returns (i: nat, j: nat)
    requires CountResource(list, resource) > 1
    ensures i < j < |list| && EqualsIC(list[i].key.resource, resource) && EqualsIC(list[j].key.resource, resource)
  {
    hide EqualsIC;
    CountsSome(list[1..], resource);
    if EqualsIC(list[0].key.resource, resource) {
      var k :| 0 <= k < |list| - 1 && EqualsIC(list[1..][k].key.resource, resource);
      i, j := 0, k + 1;
    } else {
      i, j := CountsTwo(list[1..], resource);
      i, j := i + 1, j + 1;
    }
  }

  lemma NamedMatch(query: Key, k: Key)
    requires Matches(query, Identity(k)) && query.clientId != [] && query.uniqueId != []
    requires EqualsIC(k.resource, query.resource)
    ensures Identity(k) == Identity(query)
  {
    MatchesIdentity(query, k);
  }

  /** A query that names its client and its user never matches several entries of one resource. */
  lemma NamedQueryHasOneMatch(dict: map<Key, Entry>, list: seq<Entry>, query: Key)
    requires Answers(dict, list, query) && query.clientId != [] && query.uniqueId != []
    ensures CountResource(list, query.resource) <= 1
  {
    hide EqualsIC, Matches, Identity, CountResource;
    if CountResource(list, query.resource) > 1 {
      var i, j := CountsTwo(list, query.resource);
      NamedMatch(query, list[i].key);
      NamedMatch(query, list[j].key);
      assert false;
    }
  }

  class TokenCache {
    var dictionary: map<Key, Entry>
    var hasStateChanged: bool

    ghost predicate Valid()
      reads this`dictionary
    {
      forall id :: id in dictionary ==> Identity(dictionary[id].key) == id
    }

    ghost function Objects(): set<AuthenticationResult>
      reads this`dictionary
    {
      set id | id in dictionary :: dictionary[id].result
    }

    /** No result object stands under two keys. */
    ghost predicate Unshared()
      reads this`dictionary
    {
      Distinct(dictionary)
    }

    ghost function View(): map<Key, Slot>
      reads this`dictionary, Objects()
    {
      map id | id in dictionary :: Slot(dictionary[id].key, dictionary[id].result.Value())
    }

    constructor ()
      ensures Valid() && dictionary == map[] && !hasStateChanged
    {
      dictionary := map[];
      hasStateChanged := false;
    }

    lemma MatchesSpelled(query: Key, k: Key)
      ensures Matches(query, k) <==>
                && EqualsIC(k.authority, query.authority)
                && (query.clientId == [] || EqualsIC(k.clientId, query.clientId))
                && (query.uniqueId == [] || EqualsIC(k.uniqueId, query.uniqueId))
                && k.subject == query.subject
    {
    }

    method QueryCache(query: Key) returns (list: seq<Entry>)
      requires Valid()
      ensures Answers(dictionary, list, query)
    {
      hide Matches, Identity, EqualsIC;
      list := [];
      var rest := dictionary.Keys;
      while rest != {}
        invariant rest <= dictionary.Keys
        invariant forall i :: 0 <= i < |list| ==> IsAnswer(dictionary, list[i], query) && Identity(list[i].key) !in rest
        invariant forall id :: id in dictionary - rest && Matches(query, id) ==> dictionary[id] in list
        invariant forall i, j :: 0 <= i < j < |list| ==> list[i] != list[j]
        decreases |rest|
      {
        var id :| id in rest;
        rest := rest - {id};
        var key := dictionary[id].key;
        MatchesIdentity(query, key);
        MatchesSpelled(query, key);
        if EqualsIC(key.authority, query.authority)
          && (query.clientId == [] || EqualsIC(key.clientId, query.clientId))
          && (query.uniqueId == [] || EqualsIC(key.uniqueId, query.uniqueId))
          && key.subject == query.subject {
          list := list + [dictionary[id]];
        }
      }
    }

    /** Some matching entry holds this object. */
    ghost predicate Holds(o: AuthenticationResult, query: Key)
      reads this`dictionary
    {
      exists id :: id in dictionary && dictionary[id].result == o && Matches(query, id)
    }

    /** An object has taken a token, or is unchanged. */
    ghost predicate Refresh(o: AuthenticationResult, was: Token, taken: bool, token: text)
      reads o
    {
      o.Value() == if taken then was.(refreshToken := token) else was
    }

    /** What an object is after the update: the objects of multi-resource entries take the token. */
    ghost predicate Updated(o: AuthenticationResult, was: Token, key: Key, r: Token)
      reads this`dictionary, o
    {
      Refresh(o, was, Propagates(r) && o.multi && Holds(o, key), r.refreshToken)
    }

    /** Every object is as the update leaves it, given all values from before. */
    ghost predicate AllUpdated(was: map<AuthenticationResult, Token>, key: Key, r: Token)
      reads this`dictionary, Objects()
    {
      forall o :: o in Objects() ==> o in was && Updated(o, was[o], key, r)
    }

    /** The values of all stored objects, and of one that is about to be stored. */
    ghost function Values(result: AuthenticationResult): map<AuthenticationResult, Token>
      reads this`dictionary, Objects(), result
    {
      map o | o in Objects() + {result} :: o.Value()
    }

    /** These are the values of those objects, and perhaps of others. */
    ghost predicate Records(was: map<AuthenticationResult, Token>, result: AuthenticationResult)
      reads this`dictionary, Objects(), result
    {
      forall o :: o in Objects() + {result} ==> o in was && was[o] == o.Value()
    }

    method UpdateCachedMrrtRefreshTokens(result: AuthenticationResult, key: Key,
        ghost was: map<AuthenticationResult, Token>)
      requires Valid() && key.uniqueId == UserId(result.Value()) && Records(was, result)
      modifies Objects()
      ensures AllUpdated(was, key, was[result])
    {
      hide Matches, Identity;
      if result.user.Some? && result.multi {
        var list := QueryCache(key);
        ghost var token := result.refreshToken;
        for i := 0 to |list|
          invariant result.refreshToken == token
          invariant forall o :: o in Objects() ==> Refresh(o, old(o.Value()), InFront(list, i, o), token)
        {
          if list[i].result.multi {
            list[i].result.refreshToken := result.refreshToken;
          }
        }
        forall o | o in Objects() ensures InFront(list, |list|, o) <==> o.multi && Holds(o, key) {
          if o.multi && Holds(o, key) {
            var id :| id in dictionary && dictionary[id].result == o && Matches(key, id);
            assert dictionary[id] in list;
          }
        }
      }
    }

    /** The hash table's find, then an update or an insertion. */
    method Replace(key: Key, result: AuthenticationResult)
      requires Valid()
      modifies this`dictionary
      ensures Valid() && dictionary == Put(old(dictionary), key, result) && Objects() <= old(Objects()) + {result}
    {
      hide Lower;
      EqualsIsIdentity(key, key);
      var id := Identity(key);
      if id in dictionary {
        dictionary := dictionary[id := Entry(dictionary[id].key, result)];
      } else {
        dictionary := dictionary[id := Entry(key, result)];
      }
    }

    /** Without shared objects, the update of the objects is the store on values. */
    lemma ViewStored(dict: map<Key, Entry>, was: map<AuthenticationResult, Token>, key: Key,
        result: AuthenticationResult)
      requires dictionary == Put(dict, key, result) && Unshared()
      requires forall id :: id in dict ==> dict[id].result in was
      requires result in was && AllUpdated(was, key, was[result])
      ensures View() == Stored(ValuesOf(dict, was), key, was[result])
    {
      hide Matches, Identity, Propagates;
      var v := Stored(ValuesOf(dict, was), key, was[result]);
      assert v.Keys == dictionary.Keys;
      forall id | id in dictionary ensures View()[id] == v[id] {
        var o := dictionary[id].result;
        assert Holds(o, key) <==> Matches(key, id);
        assert o in Objects() && Updated(o, was[o], key, was[result]);
      }
    }

    /** Stores a result and hands its refresh token on; without shared objects this is the store on values. */
    method StoreToCache(result: AuthenticationResult, authority: text, resource: text, clientId: text, subject: nat)
        returns (ghost key: Key, ghost was: map<AuthenticationResult, Token>)
      requires Valid()
      modifies this, Objects(), result
      ensures Valid() && hasStateChanged
      ensures was == old(Values(result))
      ensures key == Key(authority, resource, clientId, subject, if result.user.Some? then result.user.value else [])
      ensures dictionary == Put(old(dictionary), key, result) && AllUpdated(was, key, was[result])
      ensures Objects() <= old(Objects()) + {result}
      ensures Unshared() ==> View() == Stored(old(View()), key, was[result])
    {
      hide Matches, Identity, Lower, Stored, Put, Updated;
      was := Values(result);
      var uniqueId := if result.user == None then [] else result.user.value;
      var tokenCacheKey := Key(authority, resource, clientId, subject, uniqueId);
      key := tokenCacheKey;
      assert ValuesOf(dictionary, was) == View();
      Replace(tokenCacheKey, result);
      assert Records(was, result);
      UpdateCachedMrrtRefreshTokens(result, tokenCacheKey, was);
      hasStateChanged := true;
      if Unshared() {
        ViewStored(old(dictionary), was, key, result);
      }
    }

    /** Too near expiry, or of another resource than the one asked for. */
    predicate Stale(e: Entry, resource: text, now: int) {
      e.result.expiresOn <= now + EXPIRATION_MARGIN_IN_SECONDS || !EqualsIC(e.key.resource, resource)
    }

    /** What a load does to the entry it picks. */
    ghost function Effect(e: Entry, resource: text, now: int): Event
      reads e.result
    {
      if e.result.refreshToken == [] && (Stale(e, resource, now) || e.result.accessToken == [])
      then Erase(Identity(e.key))
      else if Stale(e, resource, now) then Blank(Identity(e.key))
      else Nothing
    }

    /** Uses the picked entry: a stale access token is emptied, and an entry without any token is removed. */
    method UseItem(e: Entry, resource: text, now: int) returns (result: AuthenticationResult?, ghost effect: Event)
      requires Valid() && Identity(e.key) in dictionary && dictionary[Identity(e.key)] == e
      modifies this, e.result`accessToken
      ensures effect == old(Effect(e, resource, now))
      ensures var was := old(e.result.Value());
              e.result.Value() == if effect == Nothing then was else was.(accessToken := [])
      ensures forall o :: o in old(Objects()) && o != e.result ==> o.Value() == old(o.Value())
      ensures e.result.accessToken == if Stale(e, resource, now) then [] else old(e.result.accessToken)
      ensures result == if effect.Erase? then null else e.result
      ensures Objects() <= old(Objects())
      ensures dictionary == if effect.Erase? then old(dictionary) - {Identity(e.key)} else old(dictionary)
      ensures hasStateChanged == (old(hasStateChanged) || result == null)
      ensures result != null ==> result.accessToken != [] || result.refreshToken != []
    {
      hide Identity, EqualsIC;
      effect := Effect(e, resource, now);
      result := e.result;
      if result.expiresOn <= now + EXPIRATION_MARGIN_IN_SECONDS || !EqualsIC(e.key.resource, resource) {
        result.accessToken := [];
      }
      if result.accessToken == [] && result.refreshToken == [] {
        dictionary := dictionary - {Identity(e.key)};
        hasStateChanged := true;
        result := null;
      }
    }

    lemma ViewIsValues(was: map<AuthenticationResult, Token>)
      requires forall o :: o in Objects() ==> o in was && was[o] == o.Value()
      ensures forall id :: id in dictionary ==> dictionary[id].result in was
      ensures ValuesOf(dictionary, was) == View()
    {
    }

    /** Using an item is its effect on values, when no object is shared. */
    lemma ViewUsed(dict: map<Key, Entry>, was: map<AuthenticationResult, Token>, e: Entry, effect: Event)
      requires Identity(e.key) in dict && dict[Identity(e.key)] == e && Distinct(dict)
      requires forall id :: id in dict ==> dict[id].result in was
      requires dictionary == if effect.Erase? then dict - {Identity(e.key)} else dict
      requires effect == Nothing || effect == Blank(Identity(e.key)) || effect == Erase(Identity(e.key))
      requires forall o :: o in Objects() && o != e.result ==> o.Value() == was[o]
      requires e.result.Value() == if effect == Nothing then was[e.result] else was[e.result].(accessToken := [])
      ensures Unshared() && View() == Apply(ValuesOf(dict, was), effect)
    {
      hide Identity;
      var v := Apply(ValuesOf(dict, was), effect);
      assert v.Keys == dictionary.Keys;
      forall id | id in dictionary ensures View()[id] == v[id] {
        assert dictionary[id].result in Objects();
      }
    }

    /** A single match of the resource stands for the front of the list; without any, the first multi-resource one. */
    method LoadSingleItemFromCache(query: Key) returns (item: Option<Entry>, ghost list: seq<Entry>)
      requires Valid()
      ensures Answers(dictionary, list, query) && item == Pick(list, query.resource)
      ensures item.Some? ==> IsAnswer(dictionary, item.value, query)
      ensures NoneOfResource(dictionary, query) ==>
                && (item.Some? <==> exists id :: IsFallback(dictionary, query, id))
                && (item.Some? ==> IsFallback(dictionary, query, Identity(item.value.key)))
      ensures SeveralOfResource(dictionary, query) ==> item == None
      ensures !NoneOfResource(dictionary, query) && !SeveralOfResource(dictionary, query) ==> item.Some?
    {
      hide Answers, IsAnswer, EqualsIC, CountResource, FirstMulti, NoneOfResource, SeveralOfResource, IsFallback;
      var items := QueryCache(query);
      list := items;
      PickedIsAnswer(dictionary, items, query);
      PickFound(dictionary, items, query);
      var quantity := CountEntries(items, query.resource);
      if quantity > 1 {
        return None, items;
      }
      if quantity == 1 {
        FrontCounted(items, query.resource);
        return Some(items[0]), items;
      }
      item := FindMulti(items);
    }

    method CountEntries(items: seq<Entry>, resource: text) returns (quantity: nat)
      ensures quantity == CountResource(items, resource)
    {
      hide EqualsIC;
      quantity := 0;
      for i := 0 to |items|
        invariant quantity == CountResource(items[..i], resource)
      {
        CountNext(items, resource, i);
        if EqualsIC(items[i].key.resource, resource) {
          quantity := quantity + 1;
        }
      }
      assert items[..|items|] == items;
    }

    method FindMulti(items: seq<Entry>) returns (item: Option<Entry>)
      ensures item == FirstMulti(items)
    {
      for i := 0 to |items|
        invariant forall k :: 0 <= k < i ==> !items[k].result.multi
      {
        if items[i].result.multi {
          FirstMultiAt(items, i);
          return Some(items[i]);
        }
      }
      FirstMultiAt(items, |items|);
      return None;
    }

    lemma FrontCounted(items: seq<Entry>, resource: text)
      requires CountResource(items, resource) == 1
      ensures items != [] && Pick(items, resource) == Some(items[0])
    {
    }

    lemma NothingApplied(v: map<Key, Slot>)
      ensures Apply(v, Nothing) == v
    {
    }

    /**
     Loads by the query and the resource. What is returned carries a token, and an access token only if it is valid
     beyond the margin and was stored for the resource under a key that matches.
     */
    method LoadFromCache(query: Key, now: int)
        returns (result: AuthenticationResult?, ghost list: seq<Entry>, ghost effect: Event)
      requires Valid()
      modifies this, Objects()
      ensures Valid() && Answers(old(dictionary), list, query)
      ensures Pick(list, query.resource) == None ==> effect == Nothing && result == null
      ensures effect == Nothing ==> unchanged(this`dictionary)
      ensures Objects() <= old(Objects())
      ensures var e := Pick(list, query.resource);
              e.Some? ==> Identity(e.value.key) in old(dictionary) && old(dictionary)[Identity(e.value.key)] == e.value
                          && effect == old(Effect(e.value, query.resource, now))
                          && result == if effect.Erase? then null else e.value.result
      ensures var e := Pick(list, query.resource);
              e.Some? ==>
                var o := e.value.result;
                && o.refreshToken == old(o.refreshToken)
                && o.accessToken == (if o.expiresOn > now + 300 && EqualsIC(e.value.key.resource, query.resource)
                                     then old(o.accessToken) else [])
                && (result == null <==> o.refreshToken == [] && o.accessToken == [])
      ensures old(NoneOfResource(dictionary, query)) && result != null ==>
                && result.accessToken == [] && result.refreshToken == old(result.refreshToken) != []
                && exists id :: old(IsFallback(dictionary, query, id)) && old(dictionary)[id].result == result
      ensures old(NoneOfResource(dictionary, query)) && result == null ==>
                || (forall id :: !old(IsFallback(dictionary, query, id)))
                || (exists id :: old(IsFallback(dictionary, query, id) && dictionary[id].result.refreshToken == []))
      ensures old(SeveralOfResource(dictionary, query)) ==> result == null && unchanged(this)
      ensures hasStateChanged == (old(hasStateChanged) || effect.Erase?)
      ensures old(Unshared()) ==> Unshared() && View() == Apply(old(View()), effect) && !effect.Store?
      ensures result != null ==> result.accessToken != [] || result.refreshToken != []
      ensures result != null && result.accessToken != []
        ==> result.expiresOn > now + EXPIRATION_MARGIN_IN_SECONDS && HoldsFor(result, query)
    {
      hide Matches, Identity, EqualsIC, Apply, Pick, Answers, Distinct, ValuesOf;
      ghost var view := View();
      NothingApplied(view);
      var item;
      item, list := LoadSingleItemFromCache(query);
      assert View() == view;
      if item == None {
        effect := Nothing;
        result := null;
      } else {
        ghost var was := map o | o in Objects() :: o.Value();
        ViewIsValues(was);
        result, effect := UseItem(item.value, query.resource, now);
        if old(Unshared()) {
          ViewUsed(old(dictionary), was, item.value, effect);
        }
      }
    }

    lemma ViewKeyed()
      requires Valid()
      ensures WellKeyed(View()) && View().Keys == dictionary.Keys
      ensures forall id :: id in dictionary ==> View()[id] == Slot(dictionary[id].key, dictionary[id].result.Value())
    {
      hide Identity;
    }

    /** Writes every entry, in the order of the hash table. */
    method Serialize(j: Json) returns (state: text)
      requires Valid()
      ensures exists order :: Lists(order, View()) && state == Serialized(j, order)
    {
      hide ItemBytes, BigEndian, Identity, Covers, WellKeyed, Valid, Lists;
      ViewKeyed();
      ghost var view := View();
      var items := [];
      var rest := dictionary.Keys;
      ghost var order := [];
      CoversNone(view);
      while rest != {}
        invariant rest <= dictionary.Keys && Covers(order, view, rest) && items == ItemsBytes(j, order)
        invariant View() == view
        decreases |rest|
      {
        var id :| id in rest;
        var bytes := PutItem(j, dictionary[id].key, dictionary[id].result.Value());
        items := items + bytes;
        ItemsExtend(j, order, view[id]);
        CoversStep(order, view, rest, id);
        rest := rest - {id};
        order := order + [view[id]];
      }
      CoversAll(order, view);
      var version := Int2Uint8(SCHEMA_VERSION);
      var count := Int2Uint8(|dictionary|);
      assert |dictionary| == |dictionary.Keys| == |view.Keys| == |view|;
      state := version + (count + items);
      SerializedIs(j, order, view, count);
      assert state == Serialized(j, order);
      assert View() == view;
    }

    lemma SerializedIs(j: Json, order: seq<Slot>, view: map<Key, Slot>, count: text)
      requires Lists(order, view) && count == BigEndian(|view|)
      ensures BigEndian(SCHEMA_VERSION) + (count + ItemsBytes(j, order)) == Serialized(j, order)
    {
      hide BigEndian;
    }

    /** The hash table's insertion keeps an entry that is already there. */
    method InsertResult(key: Key, r: Token)
      requires Valid()
      modifies this`dictionary
      ensures Valid() && fresh(Objects() - old(Objects()))
      ensures View() == Insert(old(View()), Slot(key, r))
      ensures old(Unshared()) ==> Unshared()
    {
      hide Identity;
      ghost var view := View();
      var result := new AuthenticationResult(r);
      if Identity(key) !in dictionary {
        dictionary := dictionary[Identity(key) := Entry(key, result)];
        assert forall id :: id in old(dictionary) ==> old(dictionary)[id].result in old(Objects());
      }
      assert View() == Insert(view, Slot(key, r)) by {
        hide Distinct;
      }
    }

    /** Reads a state into the dictionary; a failure leaves what was inserted before it. */
    method Deserialize(j: Json, state: text) returns (ok: bool)
      requires Valid()
      modifies this`dictionary
      ensures Valid() && fresh(Objects() - old(Objects()))
      ensures (View(), ok) == Deserialized(j, state, old(View()))
      ensures old(Unshared()) ==> Unshared()
    {
      hide GetNumber, ReadItem, Insert, View, Valid;
      if state == [] {
        Clear();
        return true;
      }
      var version := GetIntNumber(state, 0);
      if version == None {
        return false;
      }
      if version.value.0 != SCHEMA_VERSION {
        return true;
      }
      var count := GetIntNumber(state, version.value.1);
      if count == None {
        return false;
      }
      ok := DeserializeItems(j, state, count.value.1, count.value.0);
    }

    method Clear()
      modifies this`dictionary
      ensures Valid() && dictionary == map[] && View() == map[] && Unshared() && Objects() == {}
    {
      dictionary := map[];
    }

    method DeserializeItems(j: Json, state: text, start: int, count: nat) returns (ok: bool)
      requires Valid()
      modifies this`dictionary
      ensures Valid() && fresh(Objects() - old(Objects()))
      ensures (View(), ok) == LoadItems(j, state, start, count, old(View()))
      ensures old(Unshared()) ==> Unshared()
    {
      hide ReadItem, Insert, Valid;
      var curIndex := start;
      for i := 0 to count
        invariant Valid() && fresh(Objects() - old(Objects()))
        invariant old(Unshared()) ==> Unshared()
        invariant LoadItems(j, state, start, count, old(View())) == LoadItems(j, state, curIndex, count - i, View())
      {
        var item := TakeItem(j, state, curIndex);
        if item == None {
          return false;
        }
        InsertResult(item.value.0.key, item.value.0.result);
        curIndex := item.value.1;
      }
      return true;
    }

    /** An entry for the queried resource, under a matching key, holds this object. */
    ghost predicate HoldsFor(o: AuthenticationResult, query: Key)
      reads this`dictionary
    {
      exists id :: id in dictionary && dictionary[id].result == o && Matches(query, id)
                   && EqualsIC(dictionary[id].key.resource, query.resource)
    }
  }

  ghost predicate Distinct(dict: map<Key, Entry>) {
    forall a, b :: a in dict && b in dict && a != b ==> dict[a].result != dict[b].result
  }

  ghost function ValuesOf(dict: map<Key, Entry>, was: map<AuthenticationResult, Token>): map<Key, Slot>
    requires forall id :: id in dict ==> dict[id].result in was
  {
    map id | id in dict :: Slot(dict[id].key, was[dict[id].result])
  }

  function Put(dict: map<Key, Entry>, key: Key, result: AuthenticationResult): map<Key, Entry> {
    var id := Identity(key);
    dict[id := Entry(if id in dict then dict[id].key else key, result)]
  }

  /** A multi-resource entry among the first n of the list holds this object. */
  ghost predicate InFront(list: seq<Entry>, n: nat, o: AuthenticationResult)
    requires n <= |list|
  {
    o.multi && exists i :: 0 <= i < n && list[i].result == o
  }

  // ---------------------------------------------------------------- runs

  /** A caller stores a result of its own, or loads. */
  datatype Op =
    | DoStore(result: AuthenticationResult, authority: text, resource: text, clientId: text, subject: nat)
    | DoLoad(query: Key, now: int)

  /** The results that the first n operations store. */
  ghost function ResultsOf(ops: seq<Op>, n: nat): set<AuthenticationResult>
    requires n <= |ops|
  {
    set i | 0 <= i < n && ops[i].DoStore? :: ops[i].result
  }

  /** Every store brings its own object, as the token requests do. */
  ghost predicate OwnResults(ops: seq<Op>) {
    forall i, j :: 0 <= i < j < |ops| && ops[i].DoStore? && ops[j].DoStore? ==> ops[i].result != ops[j].result
  }

  lemma NextResult(ops: seq<Op>, i: nat)
    requires i < |ops| && OwnResults(ops)
    ensures ResultsOf(ops, i + 1) == ResultsOf(ops, i) + if ops[i].DoStore? then {ops[i].result} else {}
    ensures ops[i].DoStore? ==> ops[i].result !in ResultsOf(ops, i) && ops[i].result in ResultsOf(ops, |ops|)
    ensures forall k :: i < k < |ops| && ops[k].DoStore? ==> ops[k].result !in ResultsOf(ops, i + 1)
    ensures ResultsOf(ops, i + 1) <= ResultsOf(ops, |ops|)
  {
  }

  /** A store is recorded with the values it was given; a load is never recorded as a store. */
  predicate IsRecord(e: Event, op: Op, was: map<AuthenticationResult, Token>) {
    if op.DoStore? then
      op.result in was
      && e == Store(KeyFor(op.authority, op.resource, op.clientId, op.subject, was[op.result]), was[op.result])
    else !e.Store?
  }

  /** Results still to be stored are as they were. */
  ghost predicate Untouched(ops: seq<Op>, i: nat, was: map<AuthenticationResult, Token>)
    requires i <= |ops|
    reads ResultsOf(ops, |ops|)
  {
    forall o :: o in ResultsOf(ops, |ops|) && o !in ResultsOf(ops, i) ==> o in was && was[o] == o.Value()
  }

  ghost predicate UntouchedBut(ops: seq<Op>, i: nat, was: map<AuthenticationResult, Token>,
      stored: set<AuthenticationResult>, op: Op)
    requires i < |ops|
    reads ResultsOf(ops, |ops|)
  {
    forall o :: o in ResultsOf(ops, |ops|) && o !in ResultsOf(ops, i + 1)
      ==> o in was && was[o] == o.Value() && o !in stored && (op.DoStore? ==> o != op.result)
  }

  /** One call, on values. */
  method RunOne(cache: TokenCache, op: Op, ghost was: map<AuthenticationResult, Token>) returns (ghost e: Event)
    requires cache.Valid() && cache.Unshared()
    requires op.DoStore? ==> op.result !in cache.Objects() && op.result in was && was[op.result] == op.result.Value()
    modifies cache, cache.Objects(), if op.DoStore? then {op.result} else {}
    ensures cache.Valid() && cache.Unshared()
    ensures cache.Objects() <= old(cache.Objects()) + if op.DoStore? then {op.result} else {}
    ensures IsRecord(e, op, was) && cache.View() == Apply(old(cache.View()), e)
  {
    hide Identity, Stored, Matches, Answers, EqualsIC;
    match op
    case DoStore(result, authority, resource, clientId, subject) =>
      ghost var key, values;
      ghost var r := result.Value();
      key, values := cache.StoreToCache(result, authority, resource, clientId, subject);
      e := Store(key, r);
    case DoLoad(query, now) =>
      var found;
      ghost var list;
      found, list, e := cache.LoadFromCache(query, now);
  }

  /** Before operation i the cache holds results of earlier operations, and later ones are as they were. */
  ghost predicate Ready(cache: TokenCache, ops: seq<Op>, i: nat, was: map<AuthenticationResult, Token>)
    requires i <= |ops|
    reads cache`dictionary, ResultsOf(ops, |ops|)
  {
    && cache.Valid() && cache.Unshared()
    && cache.Objects() <= ResultsOf(ops, i) <= ResultsOf(ops, |ops|)
    && Untouched(ops, i, was)
  }

  method RunStep(cache: TokenCache, ops: seq<Op>, i: nat, ghost was: map<AuthenticationResult, Token>)
      returns (ghost e: Event)
    requires i < |ops| && OwnResults(ops) && Ready(cache, ops, i, was)
    modifies cache, ResultsOf(ops, |ops|)
    ensures Ready(cache, ops, i + 1, was) && IsRecord(e, ops[i], was)
    ensures cache.View() == Apply(old(cache.View()), e)
  {
    hide Apply, IsRecord, ResultsOf, OwnResults;
    NextResult(ops, i);
    assert UntouchedBut(ops, i, was, cache.Objects(), ops[i]);
    e := RunOne(cache, ops[i], was);
  }

  lemma RecordsWellStored(h: seq<Event>, ops: seq<Op>, was: map<AuthenticationResult, Token>)
    requires |h| == |ops| && forall i :: 0 <= i < |ops| ==> IsRecord(h[i], ops[i], was)
    ensures WellStored(h)
  {
  }

  /**
   Over every run from the empty cache, the dictionary is the replay of what was stored and what loads did, and the
   keys agree with the users.
   */
  method Run(cache: TokenCache, ops: seq<Op>)
      returns (ghost history: seq<Event>, ghost was: map<AuthenticationResult, Token>)
    requires cache.dictionary == map[] && OwnResults(ops)
    modifies cache, ResultsOf(ops, |ops|)
    ensures cache.Valid()
    ensures was == old(map o | o in ResultsOf(ops, |ops|) :: o.Value())
    ensures cache.View() == Replay(history) && |history| == |ops|
    ensures forall i :: 0 <= i < |ops| ==> IsRecord(history[i], ops[i], was)
    ensures WellStored(history) && UniqueIdsAgree(cache.View()) && WellKeyed(cache.View())
  {
    hide Apply, IsRecord, OwnResults;
    history := [];
    was := map o | o in ResultsOf(ops, |ops|) :: o.Value();
    for i := 0 to |ops|
      invariant Ready(cache, ops, i, was)
      invariant cache.View() == Replay(history)
      invariant |history| == i && forall k :: 0 <= k < i ==> IsRecord(history[k], ops[k], was)
    {
      hide Ready, ResultsOf;
      ghost var e;
      e := RunStep(cache, ops, i, was);
      assert (history + [e])[..i] == history;
      history := history + [e];
    }
    RecordsWellStored(history, ops, was);
    RunsAgree(history);
  }

  method Restore(j: Json, state: text) returns (cache: TokenCache, ok: bool)
    ensures fresh(cache) && cache.Valid() && (cache.View(), ok) == Deserialized(j, state, map[])
  {
    hide Deserialized;
    cache := new TokenCache();
    assert cache.View() == map[];
    ok := cache.Deserialize(j, state);
  }

  /**
   After any run the cache can be written out and read into a new one without loss: the run itself makes sure that
   the unique ids agree with the users, which is what the written state leaves out. The results' texts must parse
   back, and the state must fit the 31 bits of its index.
   */
  method SaveAndRestore(cache: TokenCache, ops: seq<Op>, j: Json)
      returns (restored: TokenCache, ok: bool, state: text, ghost order: seq<Slot>)
    requires cache.dictionary == map[] && OwnResults(ops)
    modifies cache, ResultsOf(ops, |ops|)
    ensures fresh(restored) && restored.Valid()
    ensures Lists(order, cache.View()) && state == Serialized(j, order)
    ensures AllDecode(j, order) && |state| < 0x8000_0000
      ==> ok && SameEntries(cache.View(), restored.View()) && restored.View() == AllDerived(cache.View())
  {
    hide Replay, IsRecord, WellStored, UniqueIdsAgree, WellKeyed, Lists, SameEntries, AllDerived, Serialized,
      Deserialized;
    ghost var history, was;
    history, was := Run(cache, ops);
    ghost var view := cache.View();
    state := cache.Serialize(j);
    assert cache.View() == view;
    order :| Lists(order, view) && state == Serialized(j, order);
    restored, ok := Restore(j, state);
    assert cache.View() == view;
    if AllDecode(j, order) && |state| < 0x8000_0000 {
      StateRoundTrip(j, order, view);
    }
  }
}
