/** The in-memory list of protection policies: most recently used first, at most 32 entries. */
module PolicyCache {
  import opened Bytes
  import opened TokenKeys
  import opened Wrappers

  const MAX_CACHE_ENTRIES: nat := 32

  /** `serial` tells policy objects apart: every acquisition from the server makes a new one. */
  datatype Policy = Policy(license: text, requester: text, serial: nat)

  /** The licenses are equal, and so are the requesters up to case unless none is asked for. */
  ghost predicate IsMatch(p: Policy, license: text, requester: text) {
    p.license == license && (requester == [] || EqualsIC(requester, p.requester))
  }

  /** Index of the first match, or the length. */
  ghost function FindMatch(list: seq<Policy>, license: text, requester: text): (r: nat)
    ensures r <= |list|
    ensures forall i :: 0 <= i < r ==> !IsMatch(list[i], license, requester)
    ensures r < |list| ==> IsMatch(list[r], license, requester)
  {
    if list == [] || IsMatch(list[0], license, requester) then 0 else 1 + FindMatch(list[1..], license, requester)
  }

  ghost function ToFront(list: seq<Policy>, i: nat): (r: seq<Policy>)
    requires i < |list|
    ensures |r| == |list| && r[0] == list[i]
    ensures multiset(r) == multiset(list)
  {
    assert list == list[..i] + [list[i]] + list[i + 1..];
    [list[i]] + list[..i] + list[i + 1..]
  }

  ghost function Added(list: seq<Policy>, p: Policy): seq<Policy> {
    var more := [p] + list;
    if |more| > MAX_CACHE_ENTRIES then more[..|more| - 1] else more
  }

  ghost function LookedUp(list: seq<Policy>, license: text, requester: text): seq<Policy> {
    var i := FindMatch(list, license, requester);
    if i < |list| then ToFront(list, i) else list
  }

  // ---------------------------------------------------------------- the list in place

  class PolicyList {
    /** None until the first policy is added. */
    var policies: Option<seq<Policy>>

    constructor ()
      ensures Contents() == []
    {
      policies := None;
    }

    function Contents(): seq<Policy>
      reads this
    {
      if policies == None then [] else policies.value
    }

    /** Finds the most recently used match and moves it to the front. */
    method GetCachedProtectionPolicy(license: text, requester: text) returns (r: Option<Policy>)
      modifies this
      ensures Contents() == LookedUp(old(Contents()), license, requester)
      ensures var list := old(Contents());
              var i := FindMatch(list, license, requester);
              r == if i < |list| then Some(list[i]) else None
      ensures r.Some? ==>
                && r.value.license == license && (requester != [] ==> EqualsIC(r.value.requester, requester))
                && r.value in old(Contents()) && Contents()[0] == r.value
      ensures r.Some? <==> exists p :: p in old(Contents()) && Serves(p, license, requester)
      ensures r == None ==> Contents() == old(Contents())
    {
      hide IsMatch, EqualsIC, Serves;
      LookupFinds(Contents(), license, requester);
      if policies == None {
        return None;
      }
      var list := policies.value;
      var i := 0;
      while i < |list| && !(list[i].license == license
                            && (requester == [] || EqualsIC(requester, list[i].requester)))
        invariant 0 <= i <= |list|
        invariant policies == old(policies)
        invariant forall k :: 0 <= k < i ==> !IsMatch(list[k], license, requester)
      {
        MatchSpelled(list[i], license, requester);
        i := i + 1;
      }
      if i < |list| {
        MatchSpelled(list[i], license, requester);
      }
      FirstMatchUnique(list, license, requester, i);
      if i == |list| {
        return None;
      }
      var policy := list[i];
      if i != 0 {
        policies := Some([policy] + list[..i] + list[i + 1..]);
      } else {
        assert ToFront(list, 0) == list;
      }
      return Some(policy);
    }

    method AddProtectionPolicyToCache(p: Policy)
      modifies this
      ensures Contents() == Added(old(Contents()), p)
      ensures Contents()[0] == p
      ensures var list := old(Contents());
              Contents()[1..] == if |list| < 32 then list else list[..|list| - 1]
    {
      var list := Contents();
      list := [p] + list;
      if |list| > MAX_CACHE_ENTRIES {
        list := list[..|list| - 1];
      }
      policies := Some(list);
    }

    /** `fetched` is the policy that the server would return for this license and requester. */
    method Acquire(license: text, email: text, inMemory: bool, fetched: Policy) returns (p: Policy)
      requires fetched.license == license && fetched.requester == email
      modifies this
      ensures Contents() == Acquired(old(Contents()), license, email, inMemory, fetched)
      ensures p.license == license && (email != [] ==> EqualsIC(p.requester, email))
      ensures p == fetched || (p in old(Contents()) && Contents()[0] == p)
      ensures (exists q :: q in old(Contents()) && Serves(q, license, email)) ==> p in old(Contents())
      ensures !(exists q :: q in old(Contents()) && Serves(q, license, email)) ==>
                p == fetched && (!inMemory ==> Contents() == old(Contents())) && (inMemory ==> Contents()[0] == p)
      ensures (Unique(old(Contents())) && |old(Contents())| <= MAX_CACHE_ENTRIES)
                ==> Unique(Contents()) && |Contents()| <= MAX_CACHE_ENTRIES
    {
      hide Unique, ToFront, EqualsIC, Serves;
      var found := GetCachedProtectionPolicy(license, email);
      if Unique(old(Contents())) && |old(Contents())| <= MAX_CACHE_ENTRIES {
        AcquireKeepsUnique(old(Contents()), license, email, inMemory, fetched);
      }
      if found == None {
        p := fetched;
        OwnKey(p);
        AddedChanges(Contents(), p);
        if inMemory {
          AddProtectionPolicyToCache(p);
        }
      } else {
        p := found.value;
      }
    }
  }

  /** A policy answers a call: for a call with a requester it has the very key, for one without any policy will do. */
  ghost predicate Serves(p: Policy, license: text, email: text) {
    if email == [] then p.license == license else SameKey(p, Policy(license, email, 0))
  }

  lemma OwnKey(p: Policy)
    ensures EqualsIC(p.requester, p.requester)
  {
  }

  lemma AddedChanges(list: seq<Policy>, p: Policy)
    ensures Added(list, p)[0] == p
  {
  }

  lemma MatchSpelled(p: Policy, license: text, requester: text)
    ensures IsMatch(p, license, requester)
      <==> p.license == license && (requester == [] || EqualsIC(requester, p.requester))
    ensures IsMatch(p, license, requester) <==> Serves(p, license, requester)
    ensures EqualsIC(requester, p.requester) == EqualsIC(p.requester, requester)
  {
  }

  lemma LookupFinds(list: seq<Policy>, license: text, requester: text)
    ensures FindMatch(list, license, requester) < |list| <==> exists p :: p in list && Serves(p, license, requester)
  {
    hide IsMatch, Serves;
    var i := FindMatch(list, license, requester);
    if i < |list| {
      MatchSpelled(list[i], license, requester);
    }
    if p :| p in list && Serves(p, license, requester) {
      MatchSpelled(p, license, requester);
    }
  }

  lemma {:induction false} FirstMatchUnique(list: seq<Policy>, license: text, requester: text, i: nat)
    requires i <= |list|
    requires forall k :: 0 <= k < i ==> !IsMatch(list[k], license, requester)
    requires i < |list| ==> IsMatch(list[i], license, requester)
    ensures FindMatch(list, license, requester) == i
  {
    hide IsMatch;
    if i > 0 {
      FirstMatchUnique(list[1..], license, requester, i - 1);
    }
  }

  ghost function Acquired(list: seq<Policy>, license: text, email: text, inMemory: bool, fetched: Policy): seq<Policy> {
    if FindMatch(list, license, email) == |list| && inMemory then Added(list, fetched)
    else LookedUp(list, license, email)
  }

  // ---------------------------------------------------------------- one entry per license and requester

  ghost predicate SameKey(a: Policy, b: Policy) {
    a.license == b.license && EqualsIC(a.requester, b.requester)
  }

  ghost predicate Unique(list: seq<Policy>) {
    forall i, j :: 0 <= i < j < |list| ==> !SameKey(list[i], list[j])
  }

  /** Where an entry of the reordered list stood before. */
  function Before(i: nat, k: nat): nat {
    if k == 0 then i else if k <= i then k - 1 else k
  }

  lemma ToFrontAt(list: seq<Policy>, i: nat, k: nat)
    requires i < |list| && k < |list|
    ensures Before(i, k) < |list| && ToFront(list, i)[k] == list[Before(i, k)]
  {
  }

  lemma ToFrontUnique(list: seq<Policy>, i: nat)
    requires i < |list| && Unique(list)
    ensures Unique(ToFront(list, i))
  {
    hide ToFront;
    var r := ToFront(list, i);
    forall a, b | 0 <= a < b < |r| ensures !SameKey(r[a], r[b]) {
      ToFrontAt(list, i, a);
      ToFrontAt(list, i, b);
      SameKeySymmetric(list[Before(i, a)], list[Before(i, b)]);
    }
  }

  lemma SameKeySymmetric(a: Policy, b: Policy)
    ensures SameKey(a, b) == SameKey(b, a)
  {
  }

  /** No entry that survives an addition has this policy's key. */
  ghost predicate KeyIsFree(list: seq<Policy>, p: Policy) {
    forall i :: 0 <= i < Min(|list|, MAX_CACHE_ENTRIES - 1) ==> !SameKey(p, list[i])
  }

  /** Adding keeps entries unique exactly when none of the first 31 has the key of the new one. */
  lemma AddedUnique(list: seq<Policy>, p: Policy)
    requires Unique(list) && |list| <= MAX_CACHE_ENTRIES
    ensures Unique(Added(list, p)) <==> KeyIsFree(list, p)
  {
    hide SameKey;
    var r := Added(list, p);
    assert forall i {:trigger list[i]} :: 0 <= i < |r| - 1 ==> list[i] == r[i + 1];
    assert r[0] == p && |r| - 1 == Min(|list|, MAX_CACHE_ENTRIES - 1);
    assert forall i :: 1 <= i < |r| ==> r[i] == list[i - 1];
  }

  /** A policy whose key a lookup misses has a free key. */
  lemma MissIsFree(list: seq<Policy>, p: Policy)
    requires FindMatch(list, p.license, p.requester) == |list|
    ensures forall i :: 0 <= i < |list| ==> !SameKey(p, list[i])
  {
    hide IsMatch, SameKey;
    forall i | 0 <= i < |list| ensures !SameKey(p, list[i]) {
      if SameKey(p, list[i]) {
        MatchesOwnKey(p, list[i]);
        assert false;
      }
    }
  }

  /** One acquisition never stores two policies of one license and one requester. */
  lemma AcquireKeepsUnique(list: seq<Policy>, license: text, email: text, inMemory: bool, fetched: Policy)
    requires Unique(list) && |list| <= MAX_CACHE_ENTRIES && fetched.license == license && fetched.requester == email
    ensures var r := Acquired(list, license, email, inMemory, fetched);
            Unique(r) && |r| <= MAX_CACHE_ENTRIES
  {
    hide IsMatch, Unique, SameKey, ToFront;
    var i := FindMatch(list, license, email);
    if i < |list| {
      ToFrontUnique(list, i);
    } else {
      MissIsFree(list, fetched);
      AddedUnique(list, fetched);
    }
  }

  /** What one call of Acquire asks for; the server's answer to it would be the object with this serial. */
  datatype Call = Call(license: text, email: text, inMemory: bool, serial: nat)

  ghost function AcquireAll(calls: seq<Call>): seq<Policy> {
    if calls == [] then []
    else
      var c := calls[|calls| - 1];
      Acquired(AcquireAll(calls[..|calls| - 1]), c.license, c.email, c.inMemory, Policy(c.license, c.email, c.serial))
  }

  /** So over every run of one thread's acquisitions, with empty and other requesters in any mix, keys are unique. */
  lemma {:induction false} SequentialUnique(calls: seq<Call>)
    ensures Unique(AcquireAll(calls)) && |AcquireAll(calls)| <= 32
  {
    hide Acquired, Unique;
    if calls == [] {
      NothingUnique();
    } else {
      var c := calls[|calls| - 1];
      SequentialUnique(calls[..|calls| - 1]);
      var fetched := Policy(c.license, c.email, c.serial);
      AcquireKeepsUnique(AcquireAll(calls[..|calls| - 1]), c.license, c.email, c.inMemory, fetched);
    }
  }

  lemma NothingUnique()
    ensures Unique([])
  {
  }

  lemma MatchesOwnKey(a: Policy, b: Policy)
    requires SameKey(a, b)
    ensures IsMatch(b, a.license, a.requester)
  {
  }

  // ---------------------------------------------------------------- runs

  /** The two locked operations, in any interleaving of any number of acquisitions. */
  datatype Event = Lookup(license: text, requester: text) | Add(policy: Policy)

  ghost function Step(list: seq<Policy>, e: Event): seq<Policy> {
    match e
    case Lookup(license, requester) => LookedUp(list, license, requester)
    case Add(policy) => Added(list, policy)
  }

  ghost function Replay(h: seq<Event>): seq<Policy> {
    if h == [] then [] else Step(Replay(h[..|h| - 1]), h[|h| - 1])
  }

  /** What an event uses: the policy found, or the policy added. */
  ghost function UsedBy(list: seq<Policy>, e: Event): seq<Policy> {
    match e
    case Lookup(license, requester) =>
      var i := FindMatch(list, license, requester);
      if i < |list| then [list[i]] else []
    case Add(policy) => [policy]
  }

  /** The uses of a run, in order. */
  ghost function Uses(h: seq<Event>): seq<Policy> {
    if h == [] then [] else Uses(h[..|h| - 1]) + UsedBy(Replay(h[..|h| - 1]), h[|h| - 1])
  }

  /** Between threads the lookup and the addition are separate steps, and two can store the same key. */
  lemma InterleavingsDuplicate(p: Policy, q: Policy)
    requires SameKey(p, q) && p != q
    ensures var h := [Lookup(p.license, p.requester), Lookup(q.license, q.requester), Add(p), Add(q)];
            Replay(h) == [q, p] && !Unique(Replay(h))
  {
    hide SameKey;
    var a, b := Lookup(p.license, p.requester), Lookup(q.license, q.requester);
    var h := [a, b, Add(p), Add(q)];
    assert h[..3] == [a, b, Add(p)] && [a, b, Add(p)][..2] == [a, b] && [a, b][..1] == [a] && [a][..0] == [];
    assert Step([], a) == [] && Step([], b) == [] && Step([], Add(p)) == [p] && Step([p], Add(q)) == [q, p];
    assert Replay([a]) == [];
    assert Replay([a, b]) == [];
    assert Replay([a, b, Add(p)]) == [p];
    SameKeySymmetric(p, q);
    assert SameKey(Replay(h)[0], Replay(h)[1]);
  }

  /** Every state that a run passes through has unique keys. */
  ghost predicate AlwaysUnique(h: seq<Event>) {
    forall k :: 0 <= k <= |h| ==> Unique(Replay(h[..k]))
  }

  /** Every addition of a run finds its key free. */
  ghost predicate AddsAreFree(h: seq<Event>) {
    forall k :: 0 <= k < |h| && h[k].Add? ==> KeyIsFree(Replay(h[..k]), h[k].policy)
  }

  lemma {:induction false} ReplayBounded(h: seq<Event>)
    ensures |Replay(h)| <= MAX_CACHE_ENTRIES
  {
    hide FindMatch;
    if h != [] {
      ReplayBounded(h[..|h| - 1]);
    }
  }

  lemma ReplayStep(h: seq<Event>, k: nat)
    requires k < |h|
    ensures Replay(h[..k + 1]) == Step(Replay(h[..k]), h[k])
  {
    assert h[..k + 1][..k] == h[..k];
  }

  /** One event of a run keeps keys unique exactly when it is a lookup or finds its key free. */
  lemma StepUnique(h: seq<Event>, k: nat)
    requires k < |h| && Unique(Replay(h[..k]))
    ensures Unique(Replay(h[..k + 1])) <==> (h[k].Add? ==> KeyIsFree(Replay(h[..k]), h[k].policy))
  {
    hide Unique, Added, KeyIsFree, ToFront, Replay;
    ReplayStep(h, k);
    ReplayBounded(h[..k]);
    var list := Replay(h[..k]);
    match h[k]
    case Lookup(license, requester) =>
      if FindMatch(list, license, requester) < |list| {
        ToFrontUnique(list, FindMatch(list, license, requester));
      }
    case Add(policy) => AddedUnique(list, policy);
  }

  lemma {:induction false} UniqueUpTo(h: seq<Event>, k: nat)
    requires k <= |h| && AddsAreFree(h)
    ensures Unique(Replay(h[..k]))
  {
    hide Unique, Replay, KeyIsFree;
    if k == 0 {
      assert Replay([]) == [] by {
        NothingReplayed();
      }
      NothingUnique();
    } else {
      UniqueUpTo(h, k - 1);
      StepUnique(h, k - 1);
    }
  }

  lemma NothingReplayed()
    ensures Replay([]) == []
  {
  }

  /** Under any interleaving keys stay unique throughout exactly when every addition finds its key free. */
  lemma RunsUnique(h: seq<Event>)
    ensures AlwaysUnique(h) <==> AddsAreFree(h)
  {
    hide Unique, Replay, KeyIsFree;
    if AddsAreFree(h) {
      forall k | 0 <= k <= |h| ensures Unique(Replay(h[..k])) {
        UniqueUpTo(h, k);
      }
    }
    if AlwaysUnique(h) {
      forall k | 0 <= k < |h| && h[k].Add? ensures KeyIsFree(Replay(h[..k]), h[k].policy) {
        assert Unique(Replay(h[..k])) && Unique(Replay(h[..k + 1]));
        StepUnique(h, k);
      }
    }
  }

  /** The addition at k follows its own lookup at l, which missed, and no other addition of its key comes between. */
  ghost predicate Undisturbed(h: seq<Event>, l: nat, k: nat)
    requires l < k < |h| && h[k].Add?
  {
    var p := h[k].policy;
    && h[l] == Lookup(p.license, p.requester)
    && FindMatch(Replay(h[..l]), p.license, p.requester) == |Replay(h[..l])|
    && forall m :: l < m < k && h[m].Add? ==> !SameKey(p, h[m].policy)
  }

  /** Entries come from the list before or from an addition. */
  lemma {:induction false} EntriesSince(h: seq<Event>, l: nat, k: nat, q: Policy)
    requires l <= k <= |h| && q in Replay(h[..k])
    ensures q in Replay(h[..l]) || exists m :: l <= m < k && h[m] == Add(q)
    decreases k
  {
    hide Replay, Step;
    if l < k {
      ReplayStep(h, k - 1);
      StepEntries(Replay(h[..k - 1]), h[k - 1], q);
      if q in Replay(h[..k - 1]) {
        EntriesSince(h, l, k - 1, q);
      }
    }
  }

  lemma StepEntries(list: seq<Policy>, e: Event, q: Policy)
    requires q in Step(list, e)
    ensures q in list || e == Add(q)
  {
    hide ToFront, FindMatch;
    if e.Lookup? {
      var i := FindMatch(list, e.license, e.requester);
      if i < |list| {
        assert multiset(ToFront(list, i)) == multiset(list);
        assert q in multiset(ToFront(list, i));
      }
    }
  }

  /** In particular when acquisitions of one key do not overlap: the code's own lookup then makes sure it is free. */
  lemma UndisturbedUnique(h: seq<Event>)
    requires forall k :: 0 <= k < |h| && h[k].Add? ==> exists l :: 0 <= l < k && Undisturbed(h, l, k)
    ensures AlwaysUnique(h)
  {
    hide Replay, FindMatch, SameKey, AlwaysUnique;
    forall k | 0 <= k < |h| && h[k].Add? ensures KeyIsFree(Replay(h[..k]), h[k].policy) {
      var l :| 0 <= l < k && Undisturbed(h, l, k);
      UndisturbedIsFree(h, l, k);
    }
    RunsUnique(h);
  }

  lemma UndisturbedIsFree(h: seq<Event>, l: nat, k: nat)
    requires l < k < |h| && h[k].Add? && Undisturbed(h, l, k)
    ensures KeyIsFree(Replay(h[..k]), h[k].policy)
  {
    hide Replay, FindMatch, SameKey;
    var p, list := h[k].policy, Replay(h[..k]);
    MissIsFree(Replay(h[..l]), p);
    forall i | 0 <= i < |list| ensures !SameKey(p, list[i]) {
      EntriesSince(h, l, k, list[i]);
      if list[i] !in Replay(h[..l]) {
        var m :| l <= m < k && h[m] == Add(list[i]);
      }
    }
  }

  /** When a policy was last used; -1 if never. */
  function Last(uses: seq<Policy>, p: Policy): (r: int)
    ensures -1 <= r < |uses|
    ensures r >= 0 <==> p in uses
    ensures r >= 0 ==> uses[r] == p
  {
    if uses == [] then -1
    else if uses[|uses| - 1] == p then |uses| - 1
    else Last(uses[..|uses| - 1], p)
  }

  lemma LastStep(uses: seq<Policy>, p: Policy, q: Policy)
    ensures Last(uses + [p], q) == if q == p then |uses| else Last(uses, q)
  {
    assert (uses + [p])[..|uses|] == uses;
  }

  /** The most recently used policies in order of last use, and none evicted while there was room. */
  ghost predicate IsLru(uses: seq<Policy>, list: seq<Policy>) {
    && |list| <= MAX_CACHE_ENTRIES
    && (forall i :: 0 <= i < |list| ==> list[i] in uses)
    && (forall i, j :: 0 <= i < j < |list| ==> Last(uses, list[i]) > Last(uses, list[j]))
    && (forall p :: p in uses && p !in list ==> |list| == MAX_CACHE_ENTRIES && OlderThanAll(uses, p, list))
  }

  ghost predicate OlderThanAll(uses: seq<Policy>, p: Policy, list: seq<Policy>) {
    forall i :: 0 <= i < |list| ==> Last(uses, p) < Last(uses, list[i])
  }

  lemma HitKeepsLru(uses: seq<Policy>, list: seq<Policy>, i: nat)
    requires IsLru(uses, list) && i < |list|
    ensures IsLru(uses + [list[i]], ToFront(list, i))
  {
    hide Last, ToFront;
    var r, p, more := ToFront(list, i), list[i], uses + [list[i]];
    forall a | 0 <= a < |r| ensures r[a] in more && (a > 0 ==> r[a] != p && Last(more, r[a]) == Last(uses, r[a])) {
      ToFrontAt(list, i, a);
      LastStep(uses, p, r[a]);
    }
    LastStep(uses, p, p);
    forall a, b | 0 <= a < b < |r| ensures Last(more, r[a]) > Last(more, r[b]) {
      ToFrontAt(list, i, a);
      ToFrontAt(list, i, b);
      LastBelow(uses, r[b]);
    }
    forall q | q in more && q !in r ensures |r| == MAX_CACHE_ENTRIES && OlderThanAll(more, q, r) {
      assert q !in list by {
        assert multiset(list) == multiset(r);
        assert q in multiset(list) <==> q in list;
        assert q in multiset(r) <==> q in r;
      }
      LastStep(uses, p, q);
      HitOlder(uses, list, i, q);
    }
  }

  lemma LastBelow(uses: seq<Policy>, p: Policy)
    ensures Last(uses, p) < |uses|
  {
  }

  lemma HitOlder(uses: seq<Policy>, list: seq<Policy>, i: nat, q: Policy)
    requires i < |list| && q !in list && OlderThanAll(uses, q, list)
    ensures OlderThanAll(uses + [list[i]], q, ToFront(list, i))
  {
    hide Last, ToFront;
    var r := ToFront(list, i);
    LastStep(uses, list[i], q);
    forall a | 0 <= a < |r| ensures Last(uses + [list[i]], q) < Last(uses + [list[i]], r[a]) {
      ToFrontAt(list, i, a);
      LastStep(uses, list[i], r[a]);
      LastBelow(uses, q);
    }
  }

  lemma AddKeepsLru(uses: seq<Policy>, list: seq<Policy>, p: Policy)
    requires IsLru(uses, list) && p !in uses
    ensures IsLru(uses + [p], Added(list, p))
  {
    hide Last;
    var r, more := Added(list, p), uses + [p];
    assert forall a :: 1 <= a < |r| ==> r[a] == list[a - 1];
    assert r[0] == p;
    forall q ensures Last(more, q) == (if q == p then |uses| else Last(uses, q)) && Last(uses, q) < |uses| {
      LastStep(uses, p, q);
      LastBelow(uses, q);
    }
    forall q | q in more && q !in r ensures |r| == MAX_CACHE_ENTRIES && OlderThanAll(more, q, r) {
      AddedRest(list, p, q);
    }
  }

  lemma AddedRest(list: seq<Policy>, p: Policy, q: Policy)
    requires q !in Added(list, p) && |list| <= MAX_CACHE_ENTRIES
    ensures q != p
    ensures q in list ==> |list| == MAX_CACHE_ENTRIES && q == list[|list| - 1]
  {
    var r := Added(list, p);
    assert r[0] == p;
    assert forall i {:trigger list[i]} :: 0 <= i < |r| - 1 ==> list[i] == r[i + 1];
    assert forall i :: 0 <= i < |r| - 1 ==> list[i] != q;
  }

  /**
   After every run, however the acquisitions interleave, the list holds the most recently used policies in order of
   last use, at most 32 of them, and every other policy ever used is older than all of these. Every addition brings a
   policy object of its own.
   */
  lemma {:induction false} ListIsLru(h: seq<Event>)
    requires forall i, j :: 0 <= i < j < |h| && h[i].Add? && h[j].Add? ==> h[i].policy != h[j].policy
    ensures IsLru(Uses(h), Replay(h))
    ensures forall p :: p in Uses(h) ==> Add(p) in h
  {
    hide IsLru, Added, ToFront;
    if h == [] {
      NothingIsLru();
    } else {
      var front, e := h[..|h| - 1], h[|h| - 1];
      ListIsLru(front);
      UsedInList(Uses(front), Replay(front));
      match e
      case Lookup(license, requester) =>
        var i := FindMatch(Replay(front), license, requester);
        if i < |Replay(front)| {
          HitKeepsLru(Uses(front), Replay(front), i);
        }
        assert Uses(front) + [] == Uses(front);
      case Add(policy) =>
        assert policy in Uses(front) ==> Add(policy) in front;
        AddKeepsLru(Uses(front), Replay(front), policy);
    }
  }

  lemma NothingIsLru()
    ensures IsLru([], [])
  {
  }

  lemma UsedInList(uses: seq<Policy>, list: seq<Policy>)
    requires IsLru(uses, list)
    ensures forall i :: 0 <= i < |list| ==> list[i] in uses
  {
  }

  /** A lookup that hits returns the match that was used last, among all policies ever used. */
  lemma LookupFindsMostRecent(h: seq<Event>, license: text, requester: text, p: Policy)
    requires forall i, j :: 0 <= i < j < |h| && h[i].Add? && h[j].Add? ==> h[i].policy != h[j].policy
    requires p in Uses(h) && IsMatch(p, license, requester)
    requires FindMatch(Replay(h), license, requester) < |Replay(h)|
    ensures Last(Uses(h), p) <= Last(Uses(h), Replay(h)[FindMatch(Replay(h), license, requester)])
  {
    hide Last, Uses, Replay, IsMatch;
    ListIsLru(h);
    var list := Replay(h);
    if p in list {
      var k :| 0 <= k < |list| && list[k] == p;
      assert k >= FindMatch(list, license, requester);
    }
  }
}
