/**
 Names in tags. The scanner compares a name with the characters behind a tag's bracket and looks at the one that
 follows; here this is the same as taking the whole word that stands there and comparing it.
 */
module XmlNames {

  // ---------------------------------------------------------------- characters

  function LowerChar(c: char): char {
    if 'A' <= c <= 'Z' then c + 32 as char else c
  }

  predicate IsAlnum(c: char) {
    'a' <= c <= 'z' || 'A' <= c <= 'Z' || '0' <= c <= '9'
  }

  /** The pattern stands at position i, up to case. */
  predicate Stands(s: string, i: nat, pattern: string) {
    i + |pattern| <= |s| && forall k :: 0 <= k < |pattern| ==> LowerChar(s[i + k]) == LowerChar(pattern[k])
  }

  /** The name stands at position i, and no letter or digit follows it. */
  predicate DoesTagMatch(s: string, i: nat, name: string) {
    Stands(s, i, name) && (i + |name| < |s| ==> !IsAlnum(s[i + |name|]))
  }

  // ---------------------------------------------------------------- words

  /** A letter or a digit, by its code. */
  ghost predicate IsNameChar(c: char) {
    48 <= c as int <= 57 || 65 <= c as int <= 90 || 97 <= c as int <= 122
  }

  ghost predicate SameLetter(a: char, b: char) {
    || a == b
    || (65 <= a as int <= 90 && b as int == a as int + 32)
    || (65 <= b as int <= 90 && a as int == b as int + 32)
  }

  ghost predicate SameUpToCase(a: string, b: string) {
    |a| == |b| && forall k :: 0 <= k < |a| ==> SameLetter(a[k], b[k])
  }

  /** The longest run of letters and digits from position i on. */
  ghost function Run(s: string, i: nat): (r: string)
    requires i <= |s|
    ensures i + |r| <= |s| && s[i..i + |r|] == r
    ensures forall k :: 0 <= k < |r| ==> IsNameChar(r[k])
    ensures i + |r| < |s| ==> !IsNameChar(s[i + |r|])
    decreases |s| - i
  {
    if i < |s| && IsNameChar(s[i]) then [s[i]] + Run(s, i + 1) else ""
  }

  /** The letters and digits that a name ends with. */
  ghost function Word(name: string): (w: string)
    ensures |w| <= |name| && name[|name| - |w|..] == w
    ensures forall k :: 0 <= k < |w| ==> IsNameChar(w[k])
    ensures |w| < |name| ==> !IsNameChar(name[|name| - |w| - 1])
  {
    if name == "" || !IsNameChar(name[|name| - 1]) then "" else Word(name[..|name| - 1]) + [name[|name| - 1]]
  }

  /** The name stands at i as a whole: what precedes its last word, and then a word equal to it. */
  ghost predicate IsNamedAt(s: string, i: nat, name: string) {
    var w := Word(name);
    var p := name[..|name| - |w|];
    i + |p| <= |s| && SameUpToCase(s[i..i + |p|], p) && SameUpToCase(Run(s, i + |p|), w)
  }

  lemma LowerSpelled(c: char, d: char)
    ensures LowerChar(c) == LowerChar(d) <==> SameLetter(c, d)
    ensures IsAlnum(c) <==> IsNameChar(c)
    ensures SameLetter(c, d) ==> (IsNameChar(c) <==> IsNameChar(d))
  {
  }

  lemma StandsSpelled(s: string, i: nat, pattern: string)
    ensures Stands(s, i, pattern) <==> i + |pattern| <= |s| && SameUpToCase(s[i..i + |pattern|], pattern)
  {
    hide LowerChar, SameLetter;
    if i + |pattern| <= |s| {
      var r := s[i..i + |pattern|];
      forall k | 0 <= k < |r|
        ensures r[k] == s[i + k] && (LowerChar(r[k]) == LowerChar(pattern[k]) <==> SameLetter(r[k], pattern[k]))
      {
        LowerSpelled(r[k], pattern[k]);
      }
      if SameUpToCase(r, pattern) {
        forall k | 0 <= k < |pattern| ensures LowerChar(s[i + k]) == LowerChar(pattern[k]) {
          assert r[k] == s[i + k];
        }
      }
    }
  }

  /** A word stands at j and ends there exactly when it is the run that stands at j. */
  lemma WordStands(s: string, j: nat, w: string)
    requires j <= |s| && forall k :: 0 <= k < |w| ==> IsNameChar(w[k])
    ensures DoesTagMatch(s, j, w) <==> SameUpToCase(Run(s, j), w)
  {
    hide Stands, LowerChar, IsAlnum, SameLetter, IsNameChar;
    var r := Run(s, j);
    StandsSpelled(s, j, w);
    if DoesTagMatch(s, j, w) {
      var t := s[j..j + |w|];
      forall k | 0 <= k < |t| ensures IsNameChar(t[k]) {
        LowerSpelled(t[k], w[k]);
      }
      if j + |w| < |s| {
        LowerSpelled(s[j + |w|], s[j + |w|]);
      }
      RunIs(s, j, t);
    }
    if SameUpToCase(r, w) && j + |w| < |s| {
      LowerSpelled(s[j + |w|], s[j + |w|]);
    }
  }

  lemma {:induction false} RunIs(s: string, j: nat, t: string)
    requires j + |t| <= |s| && s[j..j + |t|] == t
    requires (forall k :: 0 <= k < |t| ==> IsNameChar(t[k])) && (j + |t| < |s| ==> !IsNameChar(s[j + |t|]))
    ensures Run(s, j) == t
    decreases |t|
  {
    hide IsNameChar;
    if t != "" {
      assert s[j] == t[0] && s[j + 1..j + |t|] == t[1..];
      RunIs(s, j + 1, t[1..]);
    }
  }

  lemma StandsSplit(s: string, i: nat, p: string, w: string)
    ensures Stands(s, i, p + w) <==> Stands(s, i, p) && Stands(s, i + |p|, w)
  {
    hide LowerChar;
    var name := p + w;
    if Stands(s, i, p) && Stands(s, i + |p|, w) {
      forall k | 0 <= k < |name| ensures LowerChar(s[i + k]) == LowerChar(name[k]) {
        if k >= |p| {
          var l := k - |p|;
          assert LowerChar(s[i + |p| + l]) == LowerChar(w[l]);
        }
      }
    }
    if Stands(s, i, name) {
      forall k | 0 <= k < |p| ensures LowerChar(s[i + k]) == LowerChar(p[k]) {
        assert name[k] == p[k];
      }
      forall k | 0 <= k < |w| ensures LowerChar(s[i + |p| + k]) == LowerChar(w[k]) {
        var l := |p| + k;
        assert LowerChar(s[i + l]) == LowerChar(name[l]) && name[l] == w[k];
      }
    }
  }

  /** What the scanner compares is whole names, for every name. */
  lemma NameExact(s: string, i: nat, name: string)
    ensures DoesTagMatch(s, i, name) <==> IsNamedAt(s, i, name)
  {
    hide Stands, Run, Word, SameUpToCase, LowerChar, IsAlnum, IsNameChar;
    var w := Word(name);
    var p := name[..|name| - |w|];
    assert p + w == name;
    StandsSplit(s, i, p, w);
    StandsSpelled(s, i, p);
    if i + |p| <= |s| {
      WordStands(s, i + |p|, w);
    }
  }

  /** For names of letters and digits: the run behind the bracket, and behind the slash of an ender, is the name. */
  lemma PlainNames(s: string, i: nat, name: string)
    requires i <= |s| && forall k :: 0 <= k < |name| ==> IsNameChar(name[k])
    ensures DoesTagMatch(s, i, name) <==> SameUpToCase(Run(s, i), name)
    ensures DoesTagMatch(s, i, "/" + name) <==> i < |s| && s[i] == '/' && SameUpToCase(Run(s, i + 1), name)
  {
    hide Run, Word, SameUpToCase, IsAlnum, IsNameChar, Stands;
    WordStands(s, i, name);
    StandsSplit(s, i, "/", name);
    SlashStands(s, i);
    if i < |s| {
      WordStands(s, i + 1, name);
    }
  }

  lemma SlashStands(s: string, i: nat)
    ensures Stands(s, i, "/") <==> i < |s| && s[i] == '/'
  {
    if i < |s| {
      LowerSpelled(s[i], '/');
      assert s[i + 0] == s[i] && "/"[0] == '/';
      assert Stands(s, i, "/") ==> LowerChar(s[i + 0]) == LowerChar("/"[0]);
    }
  }
}
