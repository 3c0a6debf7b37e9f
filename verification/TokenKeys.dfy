/** Keys of the token cache: compared without regard to ASCII case, and hashed through their lower-case text. */
module TokenKeys {
  import opened Bytes
  import opened Wrappers

  /** Characters are bytes. */
  type text = seq<byte>

  /** `subject` is the number behind the enumeration: 0 user, 1 client, 2 user plus client. */
  datatype Key = Key(authority: text, resource: text, clientId: text, subject: nat, uniqueId: text)

  /** What the cache reads of an authentication result; `rest` stands for its remaining fields. */
  datatype Token = Token(accessToken: text, refreshToken: text, expiresOn: int, user: Option<text>, multi: bool,
                         rest: text)

  function LowerByte(b: byte): byte {
    if 65 <= b <= 90 then b + 32 else b
  }

  function Lower(s: text): (r: text)
    ensures |r| == |s|
    ensures forall i :: 0 <= i < |s| ==> r[i] == LowerByte(s[i])
  {
    seq(|s|, i requires 0 <= i < |s| => LowerByte(s[i]))
  }

  predicate EqualsIC(a: text, b: text) {
    Lower(a) == Lower(b)
  }

  /** Equal up to the case of the letters A to Z, byte by byte. */
  lemma EqualsICExact(a: text, b: text)
    ensures EqualsIC(a, b) <==>
              && |a| == |b|
              && forall i :: 0 <= i < |a| ==>
                   || a[i] == b[i]
                   || (65 <= a[i] <= 90 && b[i] == a[i] + 32)
                   || (65 <= b[i] <= 90 && a[i] == b[i] + 32)
  {
    if EqualsIC(a, b) {
      forall i | 0 <= i < |a|
        ensures || a[i] == b[i] || (65 <= a[i] <= 90 && b[i] == a[i] + 32) || (65 <= b[i] <= 90 && a[i] == b[i] + 32)
      {
        assert Lower(a)[i] == Lower(b)[i];
      }
    }
  }

  predicate Equals(a: Key, b: Key) {
    && EqualsIC(a.authority, b.authority)
    && EqualsIC(a.resource, b.resource)
    && EqualsIC(a.clientId, b.clientId)
    && EqualsIC(a.uniqueId, b.uniqueId)
    && a.subject == b.subject
  }

  /** The representative of a key's class: the model's dictionary is a map over representatives. */
  function Identity(k: Key): Key {
    Key(Lower(k.authority), Lower(k.resource), Lower(k.clientId), k.subject, Lower(k.uniqueId))
  }

  lemma LowerTwice(s: text)
    ensures Lower(Lower(s)) == Lower(s)
  {
    forall i | 0 <= i < |s| ensures Lower(Lower(s))[i] == Lower(s)[i] {
    }
  }

  /** The classes of Equals are the fibres of Identity, and a representative lies in its own class. */
  lemma EqualsIsIdentity(a: Key, b: Key)
    ensures Equals(a, b) <==> Identity(a) == Identity(b)
    ensures Equals(Identity(a), a) && Identity(Identity(a)) == Identity(a)
  {
    LowerTwice(a.authority);
    LowerTwice(a.resource);
    LowerTwice(a.clientId);
    LowerTwice(a.uniqueId);
  }

  const DELIM: text := [58, 58, 58]

  function Decimal(n: nat): text {
    if n < 10 then [48 + n] else Decimal(n / 10) + [48 + n % 10]
  }

  /** The text whose hash is a key's hash code. */
  function HashText(k: Key): text {
    Lower(k.authority) + DELIM + Lower(k.resource) + DELIM + Lower(k.clientId) + DELIM + Lower(k.uniqueId) + DELIM
    + Decimal(k.subject)
  }

  /** Equal keys have equal hash codes, as the hash table needs; unequal keys can share the whole text. */
  lemma HashRespectsEquals(a: Key, b: Key)
    ensures Equals(a, b) ==> HashText(a) == HashText(b)
    ensures var x, y := Key([97, 58, 58, 58, 98], [], [], 0, []), Key([97], [98, 58, 58, 58], [], 0, []);
            !Equals(x, y) && HashText(x) == HashText(y)
  {
    var x, y := Key([97, 58, 58, 58, 98], [], [], 0, []), Key([97], [98, 58, 58, 58], [], 0, []);
    assert Lower(x.authority) == x.authority && Lower(y.authority) == y.authority;
    assert Lower(y.resource) == y.resource && Lower([]) == [];
    assert x.authority + DELIM + [] == y.authority + DELIM + y.resource;
  }

  lemma {:induction false} DecimalTells(m: nat, n: nat)
    ensures Decimal(m) == Decimal(n) ==> m == n
  {
    if m >= 10 && n >= 10 && Decimal(m) == Decimal(n) {
      var a, b := Decimal(m / 10), Decimal(n / 10);
      assert Decimal(m)[..|a|] == a && Decimal(n)[..|b|] == b;
      DecimalTells(m / 10, n / 10);
    } else {
      DecimalNotEmpty(m);
      DecimalNotEmpty(n);
    }
  }

  lemma DecimalNotEmpty(n: nat)
    ensures |Decimal(n)| >= 1 && (n >= 10 ==> |Decimal(n)| >= 2) && (n < 10 ==> |Decimal(n)| == 1)
  {
  }

  predicate NoColon(s: text) {
    58 !in s
  }

  lemma FirstColon(a: text, x: text)
    requires NoColon(a)
    ensures var s := a + DELIM + x;
            && s[|a|] == 58 && (forall i :: 0 <= i < |a| ==> s[i] != 58)
            && s[..|a|] == a && s[|a| + 3..] == x
  {
  }

  /** A text without a colon ends at the first colon behind it. */
  lemma SplitAtColon(a: text, b: text, x: text, y: text)
    requires NoColon(a) && NoColon(b) && a + DELIM + x == b + DELIM + y
    ensures a == b && x == y
  {
    hide NoColon;
    FirstColon(a, x);
    FirstColon(b, y);
    assert |a| == |b|;
  }

  lemma LowerNoColon(s: text)
    requires NoColon(s)
    ensures NoColon(Lower(s))
  {
  }

  /** Keys without colons share the hashed text only when they are equal. */
  lemma HashTells(a: Key, b: Key)
    requires NoColon(a.authority) && NoColon(a.resource) && NoColon(a.clientId) && NoColon(a.uniqueId)
    requires NoColon(b.authority) && NoColon(b.resource) && NoColon(b.clientId) && NoColon(b.uniqueId)
    ensures HashText(a) == HashText(b) <==> Equals(a, b)
  {
    hide NoColon, Lower, Decimal;
    if HashText(a) == HashText(b) {
      var a4, b4 := Decimal(a.subject), Decimal(b.subject);
      var a3, b3 := Lower(a.uniqueId) + DELIM + a4, Lower(b.uniqueId) + DELIM + b4;
      var a2, b2 := Lower(a.clientId) + DELIM + a3, Lower(b.clientId) + DELIM + b3;
      var a1, b1 := Lower(a.resource) + DELIM + a2, Lower(b.resource) + DELIM + b2;
      HashTextSplits(a, a1, a2, a3);
      HashTextSplits(b, b1, b2, b3);
      LowerNoColons(a);
      LowerNoColons(b);
      SplitAtColon(Lower(a.authority), Lower(b.authority), a1, b1);
      SplitAtColon(Lower(a.resource), Lower(b.resource), a2, b2);
      SplitAtColon(Lower(a.clientId), Lower(b.clientId), a3, b3);
      SplitAtColon(Lower(a.uniqueId), Lower(b.uniqueId), a4, b4);
      DecimalTells(a.subject, b.subject);
    }
  }

  lemma HashTextSplits(k: Key, k1: text, k2: text, k3: text)
    requires k3 == Lower(k.uniqueId) + DELIM + Decimal(k.subject)
    requires k2 == Lower(k.clientId) + DELIM + k3 && k1 == Lower(k.resource) + DELIM + k2
    ensures HashText(k) == Lower(k.authority) + DELIM + k1
  {
    hide Lower, Decimal;
  }

  lemma LowerNoColons(k: Key)
    requires NoColon(k.authority) && NoColon(k.resource) && NoColon(k.clientId) && NoColon(k.uniqueId)
    ensures NoColon(Lower(k.authority)) && NoColon(Lower(k.resource)) && NoColon(Lower(k.clientId))
    ensures NoColon(Lower(k.uniqueId))
  {
    hide NoColon, Lower;
    LowerNoColon(k.authority);
    LowerNoColon(k.resource);
    LowerNoColon(k.clientId);
    LowerNoColon(k.uniqueId);
  }

  function UserId(r: Token): text {
    if r.user.Some? then r.user.value else []
  }

  /** The key under which a result is stored takes its unique id from the result's user. */
  function KeyFor(authority: text, resource: text, clientId: text, subject: nat, r: Token): Key {
    Key(authority, resource, clientId, subject, UserId(r))
  }

  /** A dictionary entry: the key as first spelled, and the result now stored under it. */
  datatype Slot = Slot(key: Key, result: Token)

  ghost predicate WellKeyed(dict: map<Key, Slot>) {
    forall id :: id in dict ==> Identity(dict[id].key) == id
  }

  /** Every key's unique id is that of its result's user, up to case. */
  ghost predicate UniqueIdsAgree(dict: map<Key, Slot>) {
    forall id :: id in dict ==> EqualsIC(dict[id].key.uniqueId, UserId(dict[id].result))
  }
}
