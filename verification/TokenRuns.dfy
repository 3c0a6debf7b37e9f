/** Runs of the token cache on values: what stores and loads do to entries, and where refresh tokens end up. */
module TokenRuns {
  import opened TokenKeys

  /** The cache query: a resource is not asked for, and an empty client or unique id matches every one. */
  predicate Matches(query: Key, k: Key) {
    && EqualsIC(k.authority, query.authority)
    && (query.clientId == [] || EqualsIC(k.clientId, query.clientId))
    && (query.uniqueId == [] || EqualsIC(k.uniqueId, query.uniqueId))
    && k.subject == query.subject
  }

  lemma MatchesIdentity(query: Key, k: Key)
    ensures Matches(query, k) == Matches(query, Identity(k))
    ensures Identity(k) == Identity(query) ==> Matches(query, k)
  {
    LowerTwice(k.authority);
    LowerTwice(k.clientId);
    LowerTwice(k.uniqueId);
  }

  /** A result with a multi-resource refresh token and a user hands its token on. */
  predicate Propagates(r: Token) {
    r.user.Some? && r.multi
  }

  function Refreshed(s: Slot, token: text): Slot {
    Slot(s.key, s.result.(refreshToken := token))
  }

  function Propagate(v: map<Key, Slot>, key: Key, r: Token): map<Key, Slot> {
    if !Propagates(r) then v
    else map id | id in v :: if v[id].result.multi && Matches(key, id) then Refreshed(v[id], r.refreshToken) else v[id]
  }

  function Stored(v: map<Key, Slot>, key: Key, r: Token): map<Key, Slot> {
    var id := Identity(key);
    Propagate(v[id := Slot(if id in v then v[id].key else key, r)], key, r)
  }

  /** A load does nothing, empties an entry's access token, or removes an entry. */
  datatype Event = Nothing | Store(key: Key, result: Token) | Blank(id: Key) | Erase(id: Key)

  function Blanked(v: map<Key, Slot>, id: Key): map<Key, Slot> {
    if id in v then v[id := Slot(v[id].key, v[id].result.(accessToken := []))] else v
  }

  function Apply(v: map<Key, Slot>, e: Event): map<Key, Slot> {
    match e
    case Nothing => v
    case Store(key, result) => Stored(v, key, result)
    case Blank(id) => Blanked(v, id)
    case Erase(id) => v - {id}
  }

  /** The dictionary after a history that starts from an empty cache. */
  function Replay(h: seq<Event>): map<Key, Slot> {
    if h == [] then map[] else Apply(Replay(h[..|h| - 1]), h[|h| - 1])
  }

  predicate Stores(e: Event, id: Key) {
    e.Store? && Identity(e.key) == id
  }

  predicate Affects(e: Event, id: Key) {
    e.Store? && Propagates(e.result) && Matches(e.key, id)
  }

  /** j is the last store of this entry. */
  ghost predicate Owner(h: seq<Event>, j: nat, id: Key) {
    j < |h| && Stores(h[j], id) && forall l :: j < l < |h| ==> !Stores(h[l], id)
  }

  /** m is the last event, the store j itself or a later one, whose refresh token reached this entry. */
  ghost predicate Source(h: seq<Event>, j: nat, m: nat, id: Key) {
    j <= m < |h| && h[m].Store? && (m == j || Affects(h[m], id)) && forall l :: m < l < |h| ==> !Affects(h[l], id)
  }

  /** Up to the access token, which loads may empty. */
  predicate SameUpToAccess(a: Token, b: Token) {
    a.(accessToken := b.accessToken) == b
  }

  /** The entry's result is that of its owner, with the refresh token of its source when it is multi-resource. */
  ghost predicate Explains(h: seq<Event>, id: Key, r: Token, j: nat, m: nat) {
    && Owner(h, j, id)
    && h[j].Store? && r.multi == h[j].result.multi
    && (if r.multi then Source(h, j, m, id) else m == j)
    && h[m].Store?
    && SameUpToAccess(r, h[j].result.(refreshToken := h[m].result.refreshToken))
  }

  /** One event, seen from one entry. */
  lemma ApplyAt(v: map<Key, Slot>, e: Event, id: Key)
    requires id in Apply(v, e)
    ensures Stores(e, id) ==> Apply(v, e)[id].result == e.result
    ensures !Stores(e, id) ==> id in v
    ensures !Stores(e, id) && Affects(e, id) && v[id].result.multi
      ==> Apply(v, e)[id].result == v[id].result.(refreshToken := e.result.refreshToken)
    ensures !Stores(e, id) && !(Affects(e, id) && v[id].result.multi)
      ==> SameUpToAccess(Apply(v, e)[id].result, v[id].result)
  {
    hide Identity, Matches;
  }

  /**
   Over every run, each entry holds the result of its last store, and if its refresh token is multi-resource, the
   token of the latest store, from then on, that has such a token, a user, and a query that matches the entry.
   */
  lemma {:induction false} TokensConverge(h: seq<Event>, id: Key) returns (j: nat, m: nat)
    requires id in Replay(h)
    ensures Explains(h, id, Replay(h)[id].result, j, m)
    decreases |h|
  {
    hide Identity, Matches, Apply, Propagates;
    var front, e := h[..|h| - 1], h[|h| - 1];
    ApplyAt(Replay(front), e, id);
    if Stores(e, id) {
      j, m := |h| - 1, |h| - 1;
    } else {
      j, m := TokensConverge(front, id);
      ExplainsStep(front, e, id, Replay(front)[id].result, j, m);
      assert h == front + [e];
      if Replay(front)[id].result.multi && Affects(e, id) {
        m := |h| - 1;
      }
    }
  }

  /** An explanation carries over an event that does not store the entry. */
  lemma ExplainsStep(h: seq<Event>, e: Event, id: Key, r: Token, j: nat, m: nat)
    requires Explains(h, id, r, j, m) && !Stores(e, id)
    ensures !(Affects(e, id) && r.multi) ==> forall s :: SameUpToAccess(s, r) ==> Explains(h + [e], id, s, j, m)
    ensures Affects(e, id) && r.multi
      ==> Explains(h + [e], id, r.(refreshToken := e.result.refreshToken), j, |h|)
  {
    hide Stores, Affects;
    var g := h + [e];
    assert forall l :: 0 <= l < |h| ==> g[l] == h[l];
    assert g[|h|] == e;
    assert Owner(g, j, id);
    if Affects(e, id) {
      ReachesStores(e, id);
      assert Source(g, j, |h|, id);
    } else if r.multi {
      assert Source(g, j, m, id);
    }
  }

  lemma ReachesStores(e: Event, id: Key)
    requires Affects(e, id)
    ensures e.Store?
  {
  }

  // ---------------------------------------------------------------- groups

  predicate SameGroup(a: Key, b: Key) {
    a.authority == b.authority && a.clientId == b.clientId && a.subject == b.subject && a.uniqueId == b.uniqueId
  }

  /** The key of a store is made from its result's user. */
  ghost predicate WellStored(h: seq<Event>) {
    forall i :: 0 <= i < |h| && h[i].Store? ==> h[i].key.uniqueId == UserId(h[i].result)
  }

  ghost predicate AllNamed(h: seq<Event>) {
    forall i :: 0 <= i < |h| && h[i].Store? ==> h[i].key.clientId != [] && h[i].key.uniqueId != []
  }

  lemma GroupReached(e: Event, a: Key, b: Key)
    requires Affects(e, a) && e.key.clientId != [] && e.key.uniqueId != [] && SameGroup(a, b)
    ensures Affects(e, b)
  {
  }

  lemma OwnStoreReaches(e: Event, id: Key)
    requires Stores(e, id) && e.result.multi && e.key.uniqueId == UserId(e.result) && e.key.uniqueId != []
    ensures Affects(e, id)
  {
    MatchesIdentity(e.key, e.key);
  }

  lemma SourceReaches(h: seq<Event>, id: Key) returns (m: nat)
    requires id in Replay(h) && Replay(h)[id].result.multi && WellStored(h) && AllNamed(h)
    ensures m < |h| && Affects(h[m], id) && h[m].Store?
    ensures Replay(h)[id].result.refreshToken == h[m].result.refreshToken
    ensures forall l :: m < l < |h| ==> !Affects(h[l], id)
  {
    hide Replay, Stores, Affects;
    var j;
    j, m := TokensConverge(h, id);
    if m == j {
      OwnStoreReaches(h[j], id);
    }
  }

  /**
   When every store names its client and its user, all multi-resource entries of one authority, client, subject type
   and user hold one refresh token: that of the latest such store.
   */
  lemma GroupsConverge(h: seq<Event>, a: Key, b: Key) returns (m: nat)
    requires WellStored(h) && AllNamed(h)
    requires a in Replay(h) && b in Replay(h) && SameGroup(a, b)
    requires Replay(h)[a].result.multi && Replay(h)[b].result.multi
    ensures Replay(h)[a].result.refreshToken == Replay(h)[b].result.refreshToken
    ensures m < |h| && Affects(h[m], a) && h[m].Store?
    ensures Replay(h)[a].result.refreshToken == h[m].result.refreshToken
    ensures forall l :: m < l < |h| ==> !Affects(h[l], a)
  {
    hide Replay, Affects;
    m := SourceReaches(h, a);
    var n := SourceReaches(h, b);
    GroupReached(h[m], a, b);
    GroupReached(h[n], b, a);
  }

  /** Entries of other groups are left alone by a store that names its client and its user. */
  lemma OtherGroupsKept(v: map<Key, Slot>, key: Key, r: Token, id: Key)
    requires id in v && key.clientId != [] && key.uniqueId != [] && !SameGroup(id, Identity(key)) && Identity(id) == id
    ensures id in Stored(v, key, r) && Stored(v, key, r)[id] == v[id]
  {
    LowerTwice(key.authority);
    LowerTwice(key.clientId);
    LowerTwice(key.uniqueId);
    assert !Matches(key, id);
  }

  // ---------------------------------------------------------------- the invariant behind persistence

  lemma StoredAgrees(v: map<Key, Slot>, key: Key, r: Token)
    requires UniqueIdsAgree(v) && WellKeyed(v) && key.uniqueId == UserId(r)
    ensures UniqueIdsAgree(Stored(v, key, r)) && WellKeyed(Stored(v, key, r))
  {
    hide Matches, Lower;
    var id := Identity(key);
    if id in v {
      assert Identity(v[id].key).uniqueId == Lower(v[id].key.uniqueId);
    }
    assert Identity(key).uniqueId == Lower(key.uniqueId);
    var w := v[id := Slot(if id in v then v[id].key else key, r)];
    assert UniqueIdsAgree(w) && WellKeyed(w);
  }

  /** Over every run the unique ids of the keys agree with the users of the results. */
  lemma {:induction false} RunsAgree(h: seq<Event>)
    requires WellStored(h)
    ensures UniqueIdsAgree(Replay(h)) && WellKeyed(Replay(h))
  {
    hide Stored, Identity, Lower;
    if h != [] {
      var front, e := h[..|h| - 1], h[|h| - 1];
      RunsAgree(front);
      if e.Store? {
        StoredAgrees(Replay(front), e.key, e.result);
      }
    }
  }
}
