/**
 The settings file: a map from paths to values, printed as groups of lines with percent-escaped names, and
 parsed back line by line from 1024-byte chunks. Characters are 8-bit.
 */
module IniFile {
  import opened Bytes

  // ---------------------------------------------------------------- names

  predicate IsPlain(c: char) {
    'a' <= c <= 'z' || 'A' <= c <= 'Z' || '0' <= c <= '9' || c == '-' || c == '_'
  }

  predicate IsHexDigit(c: char) {
    '0' <= c <= '9' || 'a' <= c <= 'f' || 'A' <= c <= 'F'
  }

  function HexDigit(n: nat): (c: char)
    requires n < 16
    ensures IsHexDigit(c) && HexValue(c) == n
  {
    if n < 10 then '0' + n as char else 'a' + (n - 10) as char
  }

  function HexValue(c: char): (n: nat)
    requires IsHexDigit(c)
    ensures n < 16
  {
    if c <= '9' then c as int - '0' as int
    else if c <= 'F' then c as int - 'A' as int + 10
    else c as int - 'a' as int + 10
  }

  /** Characters are signed: one above 127 prints as a long negative number, of which two digits are kept. */
  function Encode(c: char): string {
    if IsPlain(c) then [c]
    else if c as int < 128 then ['%', HexDigit(c as int / 16), HexDigit(c as int % 16)]
    else "%ff"
  }

  const LOWER_DIGITS: string := "0123456789abcdef"
  const UPPER_DIGITS: string := "0123456789ABCDEF"

  /** Which characters are digits, and of which value. */
  lemma DigitsExact(c: char)
    ensures IsHexDigit(c) <==> c in LOWER_DIGITS || c in UPPER_DIGITS
    ensures IsHexDigit(c) ==> c == LOWER_DIGITS[HexValue(c)] || c == UPPER_DIGITS[HexValue(c)]
  {
    if IsHexDigit(c) {
      DigitFound(c);
    }
  }

  lemma DigitFound(c: char)
    requires IsHexDigit(c)
    ensures c == LOWER_DIGITS[HexValue(c)] || c == UPPER_DIGITS[HexValue(c)]
  {
  }

  /** Which characters stand for themselves, and what the others are printed as. */
  lemma EncodeExact(c: char)
    ensures var n := c as int;
            if 97 <= n <= 122 || 65 <= n <= 90 || 48 <= n <= 57 || n == 45 || n == 95 then Encode(c) == [c]
            else if n < 128 then Encode(c) == ['%', LOWER_DIGITS[n / 16], LOWER_DIGITS[n % 16]]
            else Encode(c) == ['%', 'f', 'f']
  {
    if c as int < 128 {
      DigitPrinted(c as int / 16);
      DigitPrinted(c as int % 16);
    }
  }

  lemma DigitPrinted(n: nat)
    requires n < 16
    ensures HexDigit(n) == LOWER_DIGITS[n]
  {
  }

  function EncodePath(name: string): string {
    if name == "" then "" else Encode(name[0]) + EncodePath(name[1..])
  }

  /** The decoder: in the start state, behind a percent sign, or behind a percent sign and one digit. */
  datatype Decoder = Decoder(state: nat, first: char, out: string)

  const START: Decoder := Decoder(0, '\0', "")

  function DecodeChar(d: Decoder, input: char): Decoder {
    var c := if input == '/' then '\\' else input;
    if d.state == 0 then
      if c != '%' then d.(out := d.out + [c]) else d.(state := 1)
    else if d.state == 1 then
      if !IsHexDigit(c) then d.(out := d.out + ['%', c], state := 0) else d.(first := c, state := 2)
    else
      if !IsHexDigit(c) || !IsHexDigit(d.first) then d.(out := d.out + ['%', d.first, c], state := 0)
      else d.(out := d.out + [(16 * HexValue(d.first) + HexValue(c)) as char], state := 0)
  }

  function DecodeAll(d: Decoder, s: string): Decoder
    decreases s
  {
    if s == "" then d else DecodeAll(DecodeChar(d, s[0]), s[1..])
  }

  function Finish(d: Decoder): string {
    if d.state == 1 then d.out + "%" else if d.state == 2 then d.out + ['%', d.first] else d.out
  }

  function DecodePath(s: string): string {
    Finish(DecodeAll(START, s))
  }

  lemma {:induction false} DecodeConcat(d: Decoder, a: string, b: string)
    ensures DecodeAll(d, a + b) == DecodeAll(DecodeAll(d, a), b)
    decreases a
  {
    if a == "" {
      assert a + b == b;
    } else {
      assert (a + b)[1..] == a[1..] + b;
      DecodeConcat(DecodeChar(d, a[0]), a[1..], b);
    }
  }

  /** The characters that survive being written and read: 7-bit ones, and the one that prints as "ff". */
  predicate Survives(c: char) {
    c as int < 128 || c as int == 255
  }

  predicate AllSurvive(s: string) {
    forall i :: 0 <= i < |s| ==> Survives(s[i])
  }

  predicate Is8Bit(s: string) {
    forall i :: 0 <= i < |s| ==> s[i] as int < 256
  }

  function Survivors(s: string): (r: string)
    ensures |r| == |s|
    ensures forall i :: 0 <= i < |s| ==> r[i] == if Survives(s[i]) then s[i] else 255 as char
  {
    if s == "" then "" else [if Survives(s[0]) then s[0] else 255 as char] + Survivors(s[1..])
  }

  /** From the start state the decoder takes one encoded character back and is in the start state again. */
  lemma EncodeDecodes(d: Decoder, c: char)
    requires d.state == 0 && c as int < 256
    ensures var e := DecodeAll(d, Encode(c));
            e.state == 0 && e.out == d.out + Survivors([c])
  {
    var s := Encode(c);
    if |s| == 3 {
      var d1 := DecodeChar(d, s[0]);
      var d2 := DecodeChar(d1, s[1]);
      var d3 := DecodeChar(d2, s[2]);
      assert s[1..][0] == s[1] && s[1..][1..][0] == s[2] && s[1..][1..][1..] == "";
      assert DecodeAll(d2, s[2..]) == d3;
      assert DecodeAll(d, s) == DecodeAll(d1, s[1..]) == DecodeAll(d2, s[1..][1..]) == DecodeAll(d3, s[1..][1..][1..]);
    } else {
      assert s[1..] == "";
    }
  }

  lemma SurvivorsStep(s: string)
    requires s != ""
    ensures Survivors(s) == Survivors([s[0]]) + Survivors(s[1..])
  {
    hide Survives;
    assert [s[0]][1..] == "";
    assert Survivors([s[0]]) == [if Survives(s[0]) then s[0] else 255 as char];
  }

  lemma {:induction false} PathDecodes(d: Decoder, s: string)
    requires d.state == 0 && Is8Bit(s)
    ensures DecodeAll(d, EncodePath(s)).state == 0
    ensures DecodeAll(d, EncodePath(s)).out == d.out + Survivors(s)
    decreases s
  {
    hide Encode, Survives, Survivors, DecodeChar;
    if s == "" {
      assert d.out + Survivors(s) == d.out;
    } else {
      SurvivorsStep(s);
      EncodeDecodes(d, s[0]);
      DecodeConcat(d, Encode(s[0]), EncodePath(s[1..]));
      PathDecodes(DecodeAll(d, Encode(s[0])), s[1..]);
      assert d.out + Survivors([s[0]]) + Survivors(s[1..]) == d.out + (Survivors([s[0]]) + Survivors(s[1..]));
    }
  }

  /** A name comes back exactly when all its characters survive. */
  lemma NameRoundTrip(s: string)
    requires Is8Bit(s)
    ensures DecodePath(EncodePath(s)) == Survivors(s)
    ensures DecodePath(EncodePath(s)) == s <==> AllSurvive(s)
  {
    PathDecodes(START, s);
    assert "" + Survivors(s) == Survivors(s);
    if !AllSurvive(s) {
      var i :| 0 <= i < |s| && !Survives(s[i]);
      assert Survivors(s)[i] != s[i];
    }
  }

  // ---------------------------------------------------------------- lines

  predicate IsSpace(c: char) {
    c == ' ' || 9 <= c as int <= 13
  }

  function TrimLeft(s: string): string {
    if s != "" && IsSpace(s[0]) then TrimLeft(s[1..]) else s
  }

  function TrimRight(s: string): string {
    if s != "" && IsSpace(s[|s| - 1]) then TrimRight(s[..|s| - 1]) else s
  }

  function Trim(s: string): string {
    TrimRight(TrimLeft(s))
  }

  /** Trimming takes away blanks and control characters 9 to 13 at both ends, and nothing else. */
  lemma {:induction false} TrimExact(s: string) returns (i: nat, j: nat)
    ensures i <= j <= |s| && Trim(s) == s[i..j]
    ensures forall k :: 0 <= k < i || j <= k < |s| ==> s[k] as int == 32 || 9 <= s[k] as int <= 13
    ensures i < j ==> !(s[i] as int == 32 || 9 <= s[i] as int <= 13)
    ensures i < j ==> !(s[j - 1] as int == 32 || 9 <= s[j - 1] as int <= 13)
  {
    i := TrimLeftExact(s);
    j := i;
    var t := TrimLeft(s);
    assert t == s[i..];
    j := TrimRightExact(t);
    assert t[..j] == s[i..i + j];
    forall k | i + j <= k < |s| ensures s[k] as int == 32 || 9 <= s[k] as int <= 13 {
      assert s[k] == t[k - i];
    }
    if j > 0 {
      assert s[i] == t[0] && s[i + j - 1] == t[j - 1];
    }
    j := i + j;
  }

  lemma {:induction false} TrimLeftExact(s: string) returns (i: nat)
    ensures i <= |s| && TrimLeft(s) == s[i..]
    ensures forall k :: 0 <= k < i ==> s[k] as int == 32 || 9 <= s[k] as int <= 13
    ensures i < |s| ==> !(s[i] as int == 32 || 9 <= s[i] as int <= 13)
  {
    if s != "" && IsSpace(s[0]) {
      i := TrimLeftExact(s[1..]);
      assert s[1..][i..] == s[i + 1..];
      assert forall k :: 1 <= k < i + 1 ==> s[k] == s[1..][k - 1];
      i := i + 1;
    } else {
      i := 0;
    }
  }

  lemma {:induction false} TrimRightExact(s: string) returns (j: nat)
    ensures j <= |s| && TrimRight(s) == s[..j]
    ensures forall k :: j <= k < |s| ==> s[k] as int == 32 || 9 <= s[k] as int <= 13
    ensures j > 0 ==> !(s[j - 1] as int == 32 || 9 <= s[j - 1] as int <= 13)
    ensures s != "" && !(s[0] as int == 32 || 9 <= s[0] as int <= 13) ==> j > 0
  {
    if s != "" && IsSpace(s[|s| - 1]) {
      var t := s[..|s| - 1];
      j := TrimRightExact(t);
      assert forall k :: 0 <= k < |t| ==> s[k] == t[k];
      assert t[..j] == s[..j];
    } else {
      j := |s|;
      assert s[..j] == s;
    }
  }

  predicate Trimmed(s: string) {
    s == "" || (!IsSpace(s[0]) && !IsSpace(s[|s| - 1]))
  }

  /** The first position of c from `from` on, or the length. */
  function Find(s: string, c: char, from: nat): (r: nat)
    requires from <= |s|
    ensures from <= r <= |s|
    ensures forall i :: from <= i < r ==> s[i] != c
    ensures r < |s| ==> s[r] == c
    decreases |s| - from
  {
    if from == |s| || s[from] == c then from else Find(s, c, from + 1)
  }

  /** What one line does: change the group, set a value, or nothing. */
  datatype Effect = Nothing | Group(group: string) | Set(key: string, value: string)

  ghost function ParseLine(input: string): Effect {
    var line := Trim(input);
    if line == "" then Nothing
    else if line[0] == '[' then
      var end := Find(line, ']', 1);
      if end == |line| then Nothing
      else
        var group := Trim(line[1..end]);
        Group(if group == "" then "General" else group)
    else
      var end := Find(line, '=', 0);
      if end == |line| then Nothing else Set(Trim(line[..end]), Trim(line[end + 1..]))
  }

  /** A line that opens with no bracket sets a value exactly when it has an equals sign. */
  lemma LineExact(input: string)
    ensures var line := Trim(input);
            && (line == "" ==> ParseLine(input) == Nothing)
            && (line != "" && line[0] != '[' ==> (ParseLine(input).Set? <==> '=' in line) && !ParseLine(input).Group?)
            && (line != "" && line[0] == '[' ==> (ParseLine(input).Group? <==> ']' in line) && !ParseLine(input).Set?)
  {
    hide Trim;
  }

  function GroupAfter(group: string, e: Effect): string {
    if e.Group? then e.group else group
  }

  function MapAfter(group: string, m: map<string, string>, e: Effect): map<string, string> {
    if e.Set? then m[DecodePath(group + "\\" + e.key) := e.value] else m
  }

  /** The newline-terminated lines of a text, one after another; what follows the last newline is dropped. */
  ghost function LoadText(text: string, group: string, m: map<string, string>): map<string, string>
    decreases |text|
  {
    var end := Find(text, '\n', 0);
    if end == |text| then m
    else
      var e := ParseLine(text[..end]);
      LoadText(text[end + 1..], GroupAfter(group, e), MapAfter(group, m, e))
  }

  lemma LoadOneLine(line: string, rest: string, group: string, m: map<string, string>)
    requires NoNewline(line)
    ensures var e := ParseLine(line);
            LoadText(line + "\n" + rest, group, m) == LoadText(rest, GroupAfter(group, e), MapAfter(group, m, e))
  {
    hide ParseLine;
    var text := line + "\n" + rest;
    assert text[|line|] == '\n';
    assert Find(text, '\n', 0) == |line|;
    assert text[..|line|] == line && text[|line| + 1..] == rest;
  }

  // ---------------------------------------------------------------- the parser and the settings as objects

  class NameCoder {
    var first: char
    var state: nat
    var out: string

    ghost function Value(): Decoder
      reads this
    {
      Decoder(state, first, out)
    }

    constructor ()
      ensures Value() == START
    {
      first, state, out := '\0', 0, "";
    }

    method Decode(input: char)
      modifies this
      ensures Value() == DecodeChar(old(Value()), input)
    {
      var c := input;
      if c == '/' {
        c := '\\';
      }
      if state == 0 {
        if c != '%' {
          out := out + [c];
        } else {
          state := 1;
        }
      } else if state == 1 {
        if !IsHexDigit(c) {
          out := out + ['%', c];
          state := 0;
        } else {
          first := c;
          state := 2;
        }
      } else {
        state := 0;
        if !IsHexDigit(c) || !IsHexDigit(first) {
          out := out + ['%', first, c];
        } else {
          out := out + [(16 * HexValue(first) + HexValue(c)) as char];
        }
      }
    }

    method DecodeFinish() returns (r: string)
      modifies this
      ensures r == Finish(old(Value()))
    {
      if state == 1 {
        out := out + ['%'];
      } else if state == 2 {
        out := out + ['%', first];
      }
      state := 0;
      r := out;
    }
  }

  method DecodePathOf(name: string) returns (r: string)
    ensures r == DecodePath(name)
  {
    hide DecodeChar;
    var coder := new NameCoder();
    assert name[0..] == name;
    for i := 0 to |name|
      invariant DecodeAll(START, name) == DecodeAll(coder.Value(), name[i..])
    {
      assert name[i..][1..] == name[i + 1..];
      coder.Decode(name[i]);
    }
    r := coder.DecodeFinish();
  }

  /** Groups and names are escaped one character after another. */
  method EncodePathOf(name: string) returns (path: string)
    ensures path == EncodePath(name)
  {
    hide Encode;
    path := "";
    assert name[0..] == name;
    for i := 0 to |name|
      invariant path + EncodePath(name[i..]) == EncodePath(name)
    {
      assert name[i..][0] == name[i] && name[i..][1..] == name[i + 1..];
      ghost var before, rest := path, EncodePath(name[i + 1..]);
      path := path + Encode(name[i]);
      assert before + (Encode(name[i]) + rest) == path + rest;
    }
    assert path + "" == path;
  }

  /** A slash becomes a backslash; a path without either gets a group. */
  method DecodeUserPathOf(name: string) returns (path: string)
    ensures path == DecodeUserPath(name)
  {
    path := "";
    var ingroup := false;
    for i := 0 to |name|
      invariant |path| == i && path == Backslashes(name)[..i]
      invariant ingroup <==> '\\' in path
    {
      var c := name[i];
      if c == '/' {
        c := '\\';
      }
      if c == '\\' {
        ingroup := true;
      }
      path := path + [c];
    }
    if !ingroup {
      path := "General\\" + path;
    }
  }

  class Parser {
    var group: string

    constructor ()
      ensures group == "General"
    {
      group := "General";
    }

    method Parse(input: string) returns (e: Effect)
      modifies this
      ensures e == ParseLine(input)
      ensures group == GroupAfter(old(group), e)
    {
      var line := Trim(input);
      if line == "" {
        return Nothing;
      }
      if line[0] == '[' {
        var end := Find(line, ']', 1);
        if end == |line| {
          return Nothing;
        }
        group := Trim(line[1..end]);
        if group == "" {
          group := "General";
        }
        return Group(group);
      }
      var end := Find(line, '=', 0);
      if end == |line| {
        return Nothing;
      }
      return Set(Trim(line[..end]), Trim(line[end + 1..]));
    }
  }

  const BUFFER_SIZE: nat := 1024

  class Settings {
    var kvMap: map<string, string>

    /** Every stored path has a group, which is what saving asserts. */
    ghost predicate Grouped()
      reads this
    {
      forall path :: path in kvMap ==> HasGroup(path)
    }

    /** New settings are what their file says. */
    constructor (file: string)
      ensures kvMap == LoadText(file, "General", map[]) && Grouped()
    {
      kvMap := map[];
      new;
      Load(file);
    }

    function GetValue(key: string, defaultValue: string): string
      reads this
    {
      var path := DecodeUserPath(key);
      if path in kvMap then kvMap[path] else defaultValue
    }

    /** The value is found under every spelling of the key, every other key answers as before, and saving stays safe. */
    method SetValue(key: string, value: string)
      modifies this
      ensures forall other, default :: GetValue(other, default)
                == if SameEntry(other, key) then value else old(GetValue(other, default))
      ensures old(Grouped()) ==> Grouped()
      ensures forall path :: path in kvMap && path !in old(kvMap) ==> HasGroup(path)
    {
      hide DecodeUserPath, HasGroup, SameEntry;
      UserPathHasGroup(key);
      forall other ensures SameEntry(other, key) <==> DecodeUserPath(other) == DecodeUserPath(key) {
        SameEntryPaths(other, key);
      }
      var path := DecodeUserPathOf(key);
      kvMap := kvMap[path := value];
    }

    /** Prints the entries of the map in the order in which they are enumerated. */
    method Save(entries: seq<Entry>) returns (file: string)
      requires Enumerates(entries, kvMap) && Grouped()
      ensures file == SaveText(entries, "")
    {
      hide SaveText, EntryLine, GroupName, SubpathOf, GroupOf, HasGroup, Heading, EncodePath, Find;
      file := "";
      var currentGroup := "";
      assert entries[0..] == entries && "" + SaveText(entries, "") == SaveText(entries, "");
      for i := 0 to |entries|
        invariant SaveText(entries, "") == file + SaveText(entries[i..], currentGroup)
      {
        ghost var e, current, before := entries[i], currentGroup, file;
        KeySplits(e);
        SaveStep(entries[i..], current);
        assert entries[i..][1..] == entries[i + 1..];
        var pos := Find(entries[i].key, '\\', 0);
        var group := EncodePathOf(entries[i].key[..pos]);
        var subpath := EncodePathOf(entries[i].key[pos + 1..]);
        if currentGroup != group {
          if currentGroup != "" {
            file := file + "\n";
          }
          currentGroup := group;
          file := file + "[";
          file := file + group;
          file := file + "]\n";
        }
        HeadingPrinted(before, file, group, current);
        ghost var headed := file;
        file := file + subpath;
        file := file + " = ";
        file := file + entries[i].value;
        file := file + "\n";
        EntryPrinted(headed, file, subpath, entries[i].value);
        ghost var rest := SaveText(entries[i + 1..], group);
        Regroup(before, Heading(group, current), EntryLine(e) + "\n", rest);
      }
      EmptySaved(currentGroup);
      assert file + "" == file;
    }

    /** Hands the lines that end in `buff` to the parser; yields the start of the line that does not. */
    method TakeChunk(parser: Parser, start: string, buff: string, ghost behind: string) returns (line: string)
      requires NoNewline(start)
      modifies this, parser
      ensures NoNewline(line)
      ensures LoadText(start + (buff + behind), old(parser.group), old(kvMap))
           == LoadText(line + behind, parser.group, kvMap)
    {
      hide ParseLine, MapAfter, GroupAfter, LoadText;
      line := start;
      var beg := 0;
      ghost var all := LoadText(start + (buff + behind), parser.group, kvMap);
      assert buff[0..] == buff;
      var end := Find(buff, '\n', beg);
      while end < |buff|
        invariant beg <= end <= |buff| && end == Find(buff, '\n', beg)
        invariant NoNewline(line)
        invariant all == LoadText(line + (buff[beg..] + behind), parser.group, kvMap)
        decreases |buff| - beg
      {
        ghost var rest, group := buff[end + 1..] + behind, parser.group;
        CutLine(line, buff, behind, beg, end);
        line := line + buff[beg..end];
        LoadOneLine(line, rest, group, kvMap);
        var e := parser.Parse(line);
        SetKeepsGroup(group, kvMap, e);
        kvMap := Store(kvMap, parser.group, e);
        beg := end + 1;
        line := "";
        assert "" + (buff[beg..] + behind) == rest;
        end := Find(buff, '\n', beg);
      }
      assert line + (buff[beg..] + behind) == (line + buff[beg..end]) + behind;
      line := line + buff[beg..end];
    }

    /** Reads the file in chunks; a line may spread over any number of them. */
    method Load(file: string)
      modifies this
      ensures kvMap == LoadText(file, "General", old(kvMap))
      ensures old(Grouped()) ==> Grouped()
    {
      hide LoadText, HasGroup;
      if Grouped() {
        LoadedHaveGroups(file, "General", kvMap);
      }
      var parser := new Parser();
      var line := "";
      var position := 0;
      ghost var all := LoadText(file, "General", kvMap);
      assert "" + file[0..] == file;
      while position < |file|
        invariant position <= |file| && NoNewline(line)
        invariant all == LoadText(line + file[position..], parser.group, kvMap)
      {
        var length := Min(BUFFER_SIZE, |file| - position);
        var buff := file[position..position + length];
        ghost var behind := file[position + length..];
        assert file[position..] == buff + behind;
        line := TakeChunk(parser, line, buff, behind);
        position := position + length;
      }
      LoadUnterminated(line + file[position..], parser.group, kvMap);
    }
  }

  predicate NoNewline(s: string) {
    forall i :: 0 <= i < |s| ==> s[i] != '\n'
  }

  lemma CutLine(line: string, buff: string, behind: string, beg: nat, end: nat)
    requires beg <= end < |buff| && buff[end] == '\n'
    ensures line + (buff[beg..] + behind) == (line + buff[beg..end]) + "\n" + (buff[end + 1..] + behind)
  {
  }

  lemma SetKeepsGroup(group: string, m: map<string, string>, e: Effect)
    ensures MapAfter(GroupAfter(group, e), m, e) == MapAfter(group, m, e)
  {
  }

  /** Stores a parsed value under its decoded path. */
  method Store(m: map<string, string>, group: string, e: Effect) returns (r: map<string, string>)
    ensures r == MapAfter(group, m, e)
  {
    r := m;
    if e.Set? {
      var path := DecodePathOf(group + "\\" + e.key);
      r := m[path := e.value];
    }
  }

  lemma LoadUnterminated(text: string, group: string, m: map<string, string>)
    requires NoNewline(text)
    ensures LoadText(text, group, m) == m
  {
  }

  // ---------------------------------------------------------------- printing

  datatype Entry = Entry(key: string, value: string)

  /** A user path gets backslashes and, without a group, the group General. */
  function DecodeUserPath(name: string): string {
    var path := Backslashes(name);
    if '\\' in path then path else "General\\" + path
  }

  function Backslashes(name: string): (r: string)
    ensures |r| == |name|
  {
    seq(|name|, i requires 0 <= i < |name| => if name[i] == '/' then '\\' else name[i])
  }

  /** A key stands for this path: its own characters with backslashes for slashes, behind General if there is none. */
  ghost predicate StandsFor(key: string, path: string) {
    if '/' in key || '\\' in key then
      |path| == |key| && forall i :: 0 <= i < |key| ==> path[i] == if key[i] == '/' then '\\' else key[i]
    else path == "General\\" + key
  }

  lemma UserPathExact(key: string, path: string)
    ensures StandsFor(key, path) <==> DecodeUserPath(key) == path
  {
    var p := Backslashes(key);
    assert '\\' in p <==> '/' in key || '\\' in key by {
      if i :| 0 <= i < |key| && (key[i] == '/' || key[i] == '\\') {
        assert p[i] == '\\';
      }
    }
    if '/' !in key && '\\' !in key {
      assert p == key;
    }
  }

  /** A lookup yields the value of the path that the key stands for, and the default when there is none. */
  lemma GetValueExact(s: Settings, key: string, default: string)
    ensures (forall path :: path in s.kvMap ==> !StandsFor(key, path)) ==> s.GetValue(key, default) == default
    ensures forall path :: path in s.kvMap && StandsFor(key, path) ==> s.GetValue(key, default) == s.kvMap[path]
  {
    hide StandsFor, DecodeUserPath;
    forall path | path in s.kvMap ensures StandsFor(key, path) <==> DecodeUserPath(key) == path {
      UserPathExact(key, path);
    }
  }

  /** Every stored key has a group, so saving never meets a key without one. */
  predicate HasGroup(key: string) {
    Find(key, '\\', 0) < |key|
  }

  lemma UserPathHasGroup(name: string)
    ensures HasGroup(DecodeUserPath(name))
  {
    var path := DecodeUserPath(name);
    assert '\\' in path by {
      if '\\' !in Backslashes(name) {
        assert path[7] == '\\';
      }
    }
  }

  /** Two user keys that differ only in slashes or in naming the group General. */
  predicate SameEntry(a: string, b: string) {
    var x, y := Backslashes(a), Backslashes(b);
    || x == y
    || ('\\' !in x && y == "General\\" + x)
    || ('\\' !in y && x == "General\\" + y)
  }

  /** Such keys and no others share a path. */
  lemma SameEntryPaths(a: string, b: string)
    ensures SameEntry(a, b) <==> DecodeUserPath(a) == DecodeUserPath(b)
  {
    hide Backslashes;
    var x, y := Backslashes(a), Backslashes(b);
    assert ("General\\" + x)[7] == '\\' && ("General\\" + y)[7] == '\\';
    assert ("General\\" + x)[8..] == x && ("General\\" + y)[8..] == y;
  }

  /** A decoder never swallows a backslash, whatever it is in the middle of. */
  lemma {:induction false} BackslashStays(d: Decoder, s: string)
    requires '\\' in s || '\\' in d.out
    ensures '\\' in DecodeAll(d, s).out
    decreases |s|
  {
    if s != "" {
      BackslashStaysOne(d, s[0]);
      BackslashStays(DecodeChar(d, s[0]), s[1..]);
    }
  }

  lemma BackslashStaysOne(d: Decoder, c: char)
    ensures c == '\\' || '\\' in d.out ==> '\\' in DecodeChar(d, c).out
  {
    hide IsHexDigit, HexValue;
    NoHexBackslash();
  }

  lemma NoHexBackslash()
    ensures !IsHexDigit('\\')
  {
  }

  lemma HasBackslash(s: string)
    ensures HasGroup(s) <==> '\\' in s
  {
  }

  /** So every path that is loaded has a group too, from any file. */
  lemma {:induction false} LoadedHaveGroups(text: string, group: string, m: map<string, string>)
    requires forall path :: path in m ==> HasGroup(path)
    ensures forall path :: path in LoadText(text, group, m) ==> HasGroup(path)
    decreases |text|
  {
    hide ParseLine, HasGroup, DecodePath;
    var end := Find(text, '\n', 0);
    if end < |text| {
      var e := ParseLine(text[..end]);
      if e.Set? {
        DecodedHasGroup(group, e.key);
      }
      LoadedHaveGroups(text[end + 1..], GroupAfter(group, e), MapAfter(group, m, e));
    }
  }

  lemma DecodedHasGroup(group: string, key: string)
    ensures HasGroup(DecodePath(group + "\\" + key))
  {
    hide DecodeAll, HasGroup;
    var path := group + "\\" + key;
    assert path[|group|] == '\\';
    BackslashStays(START, path);
    FinishKeeps(DecodeAll(START, path));
    HasBackslash(DecodePath(path));
  }

  lemma FinishKeeps(d: Decoder)
    requires '\\' in d.out
    ensures '\\' in Finish(d)
  {
  }

  function GroupOf(key: string): string {
    key[..Find(key, '\\', 0)]
  }

  function SubpathOf(key: string): string
    requires HasGroup(key)
  {
    key[Find(key, '\\', 0) + 1..]
  }

  ghost function GroupName(key: string): string {
    EncodePath(GroupOf(key))
  }

  /** A heading, set off by an empty line unless it is the first, when the group changes. */
  ghost function Heading(group: string, current: string): string {
    if current == group then "" else (if current == "" then "" else "\n") + ("[" + group + "]") + "\n"
  }

  ghost function EntryLine(e: Entry): string
    requires HasGroup(e.key)
  {
    EncodePath(SubpathOf(e.key)) + " = " + e.value
  }

  ghost function EntryText(e: Entry, current: string): string
    requires HasGroup(e.key)
  {
    Heading(GroupName(e.key), current) + EntryLine(e) + "\n"
  }

  ghost function SaveText(entries: seq<Entry>, current: string): string
    requires forall i :: 0 <= i < |entries| ==> HasGroup(entries[i].key)
    decreases entries
  {
    if entries == [] then ""
    else EntryText(entries[0], current) + SaveText(entries[1..], GroupName(entries[0].key))
  }

  lemma SaveStep(entries: seq<Entry>, current: string)
    requires entries != [] && forall i :: 0 <= i < |entries| ==> HasGroup(entries[i].key)
    ensures var e := entries[0];
            SaveText(entries, current) == Heading(GroupName(e.key), current) + (EntryLine(e) + "\n")
                                          + SaveText(entries[1..], GroupName(e.key))
  {
    hide Heading, EntryLine, GroupName, HasGroup;
    var e, h := entries[0], Heading(GroupName(entries[0].key), current);
    assert h + EntryLine(e) + "\n" == h + (EntryLine(e) + "\n");
  }

  lemma EmptySaved(current: string)
    ensures SaveText([], current) == ""
  {
  }

  lemma KeySplits(e: Entry)
    requires HasGroup(e.key)
    ensures var pos := Find(e.key, '\\', 0);
            && pos < |e.key|
            && GroupName(e.key) == EncodePath(e.key[..pos])
            && EntryLine(e) == EncodePath(e.key[pos + 1..]) + " = " + e.value
  {
    hide EncodePath;
  }

  lemma HeadingPrinted(before: string, file: string, group: string, current: string)
    requires file == if current == group then before
                     else (if current == "" then before else before + "\n") + "[" + group + "]\n"
    ensures file == before + Heading(group, current)
  {
    if current == "" {
      assert before + "[" + group + "]\n" == before + (("[" + group + "]") + "\n");
    } else if current != group {
      assert before + "\n" + "[" + group + "]\n" == before + ("\n" + ("[" + group + "]") + "\n");
    }
  }

  lemma Regroup(a: string, b: string, c: string, d: string)
    ensures a + (b + c + d) == a + b + c + d
  {
  }

  lemma EntryPrinted(before: string, file: string, name: string, value: string)
    requires file == before + name + " = " + value + "\n"
    ensures file == before + ((name + " = " + value) + "\n")
  {
  }

  /** An enumeration of the map's entries. */
  ghost predicate Enumerates(entries: seq<Entry>, m: map<string, string>) {
    && (forall i :: 0 <= i < |entries| ==> entries[i].key in m && m[entries[i].key] == entries[i].value)
    && (forall k :: k in m ==> exists i :: 0 <= i < |entries| && entries[i].key == k)
  }

  // ---------------------------------------------------------------- what the parser makes of printed lines

  predicate NameChar(c: char) {
    IsPlain(c) || c == '%'
  }

  lemma {:induction false} EncodedName(s: string)
    ensures forall i :: 0 <= i < |EncodePath(s)| ==> NameChar(EncodePath(s)[i])
    ensures s != "" ==> EncodePath(s) != ""
  {
    if s != "" {
      EncodedName(s[1..]);
      assert forall i :: 0 <= i < |Encode(s[0])| ==> NameChar(Encode(s[0])[i]);
    }
  }

  predicate IsName(s: string) {
    forall i :: 0 <= i < |s| ==> NameChar(s[i])
  }

  lemma TrimmedStays(s: string)
    requires Trimmed(s)
    ensures Trim(s) == s
  {
  }

  lemma NameTrimmed(s: string)
    requires IsName(s)
    ensures Trimmed(s) && NoNewline(s)
  {
  }

  lemma HeadingParses(group: string)
    requires IsName(group)
    ensures ParseLine("[" + group + "]") == Group(if group == "" then "General" else group)
    ensures NoNewline("[" + group + "]")
  {
    var line := "[" + group + "]";
    NameTrimmed(group);
    TrimmedStays(group);
    TrimmedStays(line);
    assert line[1..|line| - 1] == group;
    assert forall i :: 1 <= i < |line| - 1 ==> line[i] != ']' by {
      forall i | 1 <= i < |line| - 1 ensures line[i] != ']' {
        assert line[i] == group[i - 1];
      }
    }
  }

  lemma EmptyLineParses()
    ensures ParseLine("") == Nothing
  {
  }

  lemma {:induction false} TrimRightAfter(a: string, b: string)
    requires a != "" && !IsSpace(a[|a| - 1])
    ensures TrimRight(a + b) == a + TrimRight(b)
    decreases b
  {
    if b == "" || !IsSpace(b[|b| - 1]) {
      if b == "" {
        assert a + b == a;
      }
    } else {
      assert (a + b)[..|a + b| - 1] == a + b[..|b| - 1];
      TrimRightAfter(a, b[..|b| - 1]);
    }
  }

  lemma SpaceTrims(v: string)
    requires Trimmed(v)
    ensures Trim(" " + v) == v
    ensures TrimRight(" " + v) == if v == "" then "" else " " + v
    ensures Trim(TrimRight(" " + v)) == v
  {
    var s := " " + v;
    TrimmedStays(v);
    assert s[1..] == v;
    if v == "" {
      assert s[..0] == "";
    }
  }

  /** The line of an entry up to its equals sign, as it stands after trimming. */
  function LineHead(name: string): (h: string)
    ensures h != "" && h[|h| - 1] == '='
  {
    if name == "" then "=" else name + " ="
  }

  lemma LineTrims(name: string, value: string)
    requires Trimmed(name)
    ensures Trim(name + " = " + value) == LineHead(name) + TrimRight(" " + value)
  {
    var line, head := name + " = " + value, LineHead(name);
    assert TrimLeft(line) == head + (" " + value) by {
      if name == "" {
        assert line[0] == ' ' && line[1..] == "=" + (" " + value);
        assert TrimLeft(line[1..]) == line[1..];
      } else {
        assert line[0] == name[0] && line == head + (" " + value);
      }
    }
    TrimRightAfter(head, " " + value);
  }

  lemma HeadEnds(name: string, rest: string)
    requires IsName(name)
    ensures var line := LineHead(name) + rest;
            Find(line, '=', 0) == |LineHead(name)| - 1 && line[0] != '['
  {
    var head := LineHead(name);
    var line := head + rest;
    var end := Find(line, '=', 0);
    assert line[|head| - 1] == '=';
    forall i | 0 <= i < |head| - 1 ensures line[i] != '=' {
      assert line[i] == head[i];
      assert i < |name| ==> NameChar(name[i]);
    }
    if name != "" {
      assert line[0] == name[0];
    }
  }

  /** A printed entry is parsed into its name and value. */
  lemma EntryParses(name: string, value: string)
    requires IsName(name) && Trimmed(value)
    ensures ParseLine(name + " = " + value) == Set(name, value)
  {
    hide Trim, TrimRight, TrimLeft, Find, IsName, IsSpace;
    var head, rest := LineHead(name), TrimRight(" " + value);
    NameTrimmed(name);
    LineTrims(name, value);
    HeadEnds(name, rest);
    SpaceTrims(value);
    NameSpaceTrims(name);
    var line := head + rest;
    assert line[|head|..] == rest;
    assert line[..|head| - 1] == if name == "" then "" else name + " ";
  }

  lemma NameSpaceTrims(name: string)
    requires Trimmed(name)
    ensures Trim(name + " ") == name
    ensures Trim("") == ""
  {
    if name != "" {
      TrimRightAfter(name, " ");
      assert (name + " ")[0] == name[0];
      assert " "[..0] == "";
    } else {
      assert name + " " == " ";
      assert " "[1..] == "";
    }
  }

  // ---------------------------------------------------------------- loading what was saved

  function EffectiveGroup(name: string): string {
    if name == "" then "General" else name
  }

  /** The path under which a saved key comes back: an empty group becomes General. */
  function PathOf(key: string): string
    requires HasGroup(key)
  {
    EffectiveGroup(Survivors(GroupOf(key))) + "\\" + Survivors(SubpathOf(key))
  }

  lemma {:induction false} PlainEncodes(s: string)
    requires forall i :: 0 <= i < |s| ==> IsPlain(s[i])
    ensures EncodePath(s) == s
  {
    if s != "" {
      PlainEncodes(s[1..]);
      assert [s[0]] + s[1..] == s;
    }
  }

  /** Group and subpath decode one after the other, because the decoder is in its start state at the backslash. */
  lemma JoinDecodes(group: string, sub: string)
    requires Is8Bit(group) && Is8Bit(sub)
    ensures DecodePath(EncodePath(group) + "\\" + EncodePath(sub)) == Survivors(group) + "\\" + Survivors(sub)
  {
    hide DecodeAll, EncodePath, Survivors, Is8Bit;
    var g, s := EncodePath(group), EncodePath(sub);
    PathDecodes(START, group);
    var d := DecodeAll(START, g);
    assert d.out == Survivors(group);
    DecodeConcat(START, g + "\\", s);
    DecodeConcat(START, g, "\\");
    BackslashDecodes(d);
    PathDecodes(DecodeAll(d, "\\"), sub);
  }

  lemma PathComesBack(key: string)
    requires HasGroup(key) && Is8Bit(key)
    ensures DecodePath(EffectiveGroup(GroupName(key)) + "\\" + EncodePath(SubpathOf(key))) == PathOf(key)
  {
    hide DecodePath, EncodePath, Survivors, Find;
    var group := GroupOf(key);
    EncodedName(group);
    GeneralEncodes();
    NothingEncodes();
    if group == "" {
      JoinDecodes("General", SubpathOf(key));
    } else {
      JoinDecodes(group, SubpathOf(key));
    }
  }

  lemma NothingEncodes()
    ensures EncodePath("") == "" && Survivors("") == ""
  {
  }

  lemma GeneralEncodes()
    ensures EncodePath("General") == "General" && Survivors("General") == "General"
  {
    PlainEncodes("General");
  }

  lemma BackslashDecodes(d: Decoder)
    requires d.state == 0
    ensures DecodeAll(d, "\\").state == 0 && DecodeAll(d, "\\").out == d.out + "\\"
  {
    assert "\\"[1..] == "";
  }

  /** Values that a line can carry. */
  predicate GoodValue(v: string) {
    Trimmed(v) && NoNewline(v)
  }

  lemma HeadingLines(group: string, current: string)
    requires current != group
    ensures var line := "[" + group + "]";
            Heading(group, current) == if current == "" then line + "\n" else "" + "\n" + (line + "\n")
  {
  }

  /** A heading sets the group, whether it was printed or not. */
  lemma LoadHeading(group: string, current: string, rest: string, m: map<string, string>)
    requires IsName(group)
    ensures LoadText(Heading(group, current) + rest, EffectiveGroup(current), m)
         == LoadText(rest, EffectiveGroup(group), m)
  {
    hide ParseLine, LoadText, IsName;
    if current == group {
      assert "" + rest == rest;
    } else {
      hide Heading;
      HeadingLines(group, current);
      var line := "[" + group + "]";
      HeadingParses(group);
      LoadOneLine(line, rest, EffectiveGroup(current), m);
      if current == "" {
        assert Heading(group, current) + rest == line + "\n" + rest;
      } else {
        EmptyLineParses();
        LoadOneLine("", line + "\n" + rest, EffectiveGroup(current), m);
        assert Heading(group, current) + rest == "" + "\n" + (line + "\n" + rest);
      }
    }
  }

  /** A printed entry stores its value under the path that its key comes back as. */
  lemma LoadEntry(e: Entry, current: string, rest: string, m: map<string, string>)
    requires HasGroup(e.key) && Is8Bit(e.key) && GoodValue(e.value)
    ensures LoadText(EntryText(e, current) + rest, EffectiveGroup(current), m)
         == LoadText(rest, EffectiveGroup(GroupName(e.key)), m[PathOf(e.key) := e.value])
  {
    hide LoadText, Heading, EncodePath, DecodePath, Find, ParseLine;
    var group, name, line := GroupName(e.key), EncodePath(SubpathOf(e.key)), EntryLine(e);
    EncodedName(GroupOf(e.key));
    EncodedName(SubpathOf(e.key));
    NameTrimmed(name);
    LoadHeading(group, current, line + "\n" + rest, m);
    assert EntryText(e, current) + rest == Heading(group, current) + (line + "\n" + rest);
    EntryParses(name, e.value);
    assert NoNewline(line);
    LoadOneLine(line, rest, EffectiveGroup(group), m);
    PathComesBack(e.key);
  }

  /** The map that the entries come back as. */
  function StoreAll(entries: seq<Entry>, m: map<string, string>): map<string, string>
    requires forall i :: 0 <= i < |entries| ==> HasGroup(entries[i].key)
    decreases entries
  {
    if entries == [] then m else StoreAll(entries[1..], m[PathOf(entries[0].key) := entries[0].value])
  }

  lemma {:induction false} LoadSaved(entries: seq<Entry>, current: string, m: map<string, string>)
    requires forall i :: 0 <= i < |entries| ==> HasGroup(entries[i].key) && Is8Bit(entries[i].key)
    requires forall i :: 0 <= i < |entries| ==> GoodValue(entries[i].value)
    ensures LoadText(SaveText(entries, current), EffectiveGroup(current), m) == StoreAll(entries, m)
    decreases entries
  {
    hide LoadText, EntryText, GroupName, PathOf;
    if entries == [] {
      LoadUnterminated("", EffectiveGroup(current), m);
    } else {
      var e := entries[0];
      LoadEntry(e, current, SaveText(entries[1..], GroupName(e.key)), m);
      LoadSaved(entries[1..], GroupName(e.key), m[PathOf(e.key) := e.value]);
    }
  }

  // ---------------------------------------------------------------- when everything comes back

  /** Keys that come back as they were. */
  predicate Keeps(key: string) {
    GroupOf(key) != "" && AllSurvive(key)
  }

  lemma KeyParts(key: string)
    requires HasGroup(key)
    ensures key == GroupOf(key) + "\\" + SubpathOf(key)
    ensures AllSurvive(key) <==> AllSurvive(GroupOf(key)) && AllSurvive(SubpathOf(key))
  {
    var g, s := GroupOf(key), SubpathOf(key);
    assert key == g + "\\" + s;
    forall i | 0 <= i < |key| ensures key[i] == if i < |g| then g[i] else if i == |g| then '\\' else s[i - |g| - 1] {
    }
    if AllSurvive(g) && AllSurvive(s) {
      forall i | 0 <= i < |key| ensures Survives(key[i]) {
      }
    }
    if AllSurvive(key) {
      forall i | 0 <= i < |s| ensures Survives(s[i]) {
        assert s[i] == key[i + |g| + 1];
      }
    }
  }

  lemma SurvivorsSame(s: string)
    ensures Survivors(s) == s <==> AllSurvive(s)
    ensures Survivors(Survivors(s)) == Survivors(s)
    ensures '\\' !in s ==> '\\' !in Survivors(s)
  {
    if !AllSurvive(s) {
      var i :| 0 <= i < |s| && !Survives(s[i]);
      assert Survivors(s)[i] != s[i];
    }
  }

  /** Where a key splits is where its first backslash is. */
  lemma SplitsAt(g: string, s: string)
    requires '\\' !in g
    ensures var key := g + "\\" + s;
            HasGroup(key) && GroupOf(key) == g && SubpathOf(key) == s
  {
    var key := g + "\\" + s;
    assert key[|g|] == '\\';
    var end := Find(key, '\\', 0);
    assert forall i {:trigger key[i]} :: 0 <= i < |g| ==> key[i] == g[i];
    assert key[..|g|] == g && key[|g| + 1..] == s;
  }

  lemma PathOfPath(key: string)
    requires HasGroup(key)
    ensures HasGroup(PathOf(key)) && PathOf(PathOf(key)) == PathOf(key)
    ensures PathOf(key) == key <==> Keeps(key)
  {
    hide Find, Survivors, Survives, AllSurvive, GroupOf, SubpathOf, HasGroup;
    var g, s := GroupOf(key), SubpathOf(key);
    KeyParts(key);
    SurvivorsSame(g);
    SurvivorsSame(s);
    NothingEncodes();
    GeneralEncodes();
    GroupHasNoBackslash(key);
    EffectiveHasNoBackslash(g);
    SplitsAt(g, s);
    SplitsAt(EffectiveGroup(Survivors(g)), Survivors(s));
    if PathOf(key) == key {
      assert EffectiveGroup(Survivors(g)) == g && Survivors(s) == s;
    }
  }

  lemma EffectiveHasNoBackslash(g: string)
    requires '\\' !in g
    ensures '\\' !in EffectiveGroup(Survivors(g))
  {
    hide Survives;
    BackslashIsPlain(g);
  }

  lemma BackslashIsPlain(g: string)
    requires '\\' !in g
    ensures '\\' !in Survivors(g)
  {
    hide Survives;
    forall i | 0 <= i < |g| ensures Survivors(g)[i] != '\\' {
      assert g[i] != '\\';
    }
  }

  lemma GroupHasNoBackslash(key: string)
    ensures '\\' !in GroupOf(key)
  {
  }

  lemma {:induction false} TrimmedByTrim(s: string)
    requires NoNewline(s)
    ensures GoodValue(Trim(s))
  {
    LeftTrimmed(s);
    RightTrimmed(TrimLeft(s));
  }

  lemma {:induction false} LeftTrimmed(s: string)
    ensures TrimLeft(s) == "" || !IsSpace(TrimLeft(s)[0])
    ensures NoNewline(s) ==> NoNewline(TrimLeft(s))
  {
    if s != "" && IsSpace(s[0]) {
      LeftTrimmed(s[1..]);
    }
  }

  lemma {:induction false} RightTrimmed(s: string)
    ensures TrimRight(s) == "" || !IsSpace(TrimRight(s)[|TrimRight(s)| - 1])
    ensures TrimRight(s) <= s
    ensures NoNewline(s) ==> NoNewline(TrimRight(s))
  {
    if s != "" && IsSpace(s[|s| - 1]) {
      RightTrimmed(s[..|s| - 1]);
    }
  }

  lemma ValuesParsedGood(line: string)
    requires NoNewline(line)
    ensures ParseLine(line).Set? ==> GoodValue(ParseLine(line).value)
  {
    hide Trim, GoodValue;
    TrimmedByTrim(line);
    var t := Trim(line);
    if ParseLine(line).Set? {
      var rest := t[Find(t, '=', 0) + 1..];
      assert NoNewline(rest) by { NoNewlineAfter(t, Find(t, '=', 0) + 1); }
      TrimmedByTrim(rest);
    }
  }

  lemma NoNewlineAfter(t: string, i: nat)
    requires GoodValue(t) && i <= |t|
    ensures NoNewline(t[i..])
  {
  }

  /** No text loads a value that a line cannot carry. */
  lemma {:induction false} LoadedValuesGood(text: string, group: string, m: map<string, string>)
    requires forall k :: k in m ==> GoodValue(m[k])
    ensures forall k :: k in LoadText(text, group, m) ==> GoodValue(LoadText(text, group, m)[k])
    decreases |text|
  {
    hide ParseLine, GoodValue;
    var end := Find(text, '\n', 0);
    if end < |text| {
      var e := ParseLine(text[..end]);
      ValuesParsedGood(text[..end]);
      LoadedValuesGood(text[end + 1..], GroupAfter(group, e), MapAfter(group, m, e));
    }
  }

  lemma {:induction false} StoredPaths(entries: seq<Entry>, m: map<string, string>)
    requires forall i :: 0 <= i < |entries| ==> HasGroup(entries[i].key)
    requires forall k :: k in m ==> HasGroup(k) && PathOf(k) == k
    ensures forall k :: k in StoreAll(entries, m) ==> HasGroup(k) && PathOf(k) == k
    decreases entries
  {
    hide PathOf, HasGroup;
    if entries != [] {
      PathOfPath(entries[0].key);
      StoredPaths(entries[1..], m[PathOf(entries[0].key) := entries[0].value]);
    }
  }

  lemma {:induction false} StoredKept(entries: seq<Entry>, part: map<string, string>, whole: map<string, string>)
    requires forall i :: 0 <= i < |entries| ==> HasGroup(entries[i].key) && PathOf(entries[i].key) == entries[i].key
    requires forall i :: 0 <= i < |entries| ==> entries[i].key in whole && whole[entries[i].key] == entries[i].value
    requires forall k :: k in part ==> k in whole && part[k] == whole[k]
    ensures var r := StoreAll(entries, part);
            && (forall k :: k in r ==> k in whole && r[k] == whole[k])
            && (forall k :: k in part ==> k in r)
            && (forall i :: 0 <= i < |entries| ==> entries[i].key in r)
    decreases entries
  {
    hide PathOf, HasGroup;
    if entries != [] {
      var e := entries[0];
      StoredKept(entries[1..], part[e.key := e.value], whole);
      assert forall i :: 0 < i < |entries| ==> entries[i] == entries[1..][i - 1];
    }
  }

  /** Every path comes back as itself exactly when it keeps. */
  lemma PathsKeep(entries: seq<Entry>)
    requires forall i :: 0 <= i < |entries| ==> HasGroup(entries[i].key)
    ensures forall i :: 0 <= i < |entries| ==> (PathOf(entries[i].key) == entries[i].key <==> Keeps(entries[i].key))
  {
    hide PathOf, HasGroup, Keeps;
    forall i | 0 <= i < |entries| ensures PathOf(entries[i].key) == entries[i].key <==> Keeps(entries[i].key) {
      PathOfPath(entries[i].key);
    }
  }

  lemma KeptComesBack(entries: seq<Entry>, m: map<string, string>)
    requires Enumerates(entries, m)
    requires forall i :: 0 <= i < |entries| ==> HasGroup(entries[i].key) && Is8Bit(entries[i].key)
    requires forall i :: 0 <= i < |entries| ==> Keeps(entries[i].key) && GoodValue(entries[i].value)
    ensures LoadText(SaveText(entries, ""), "General", map[]) == m
  {
    hide LoadText, SaveText, PathOf, HasGroup, GoodValue, Keeps, Is8Bit, StoreAll;
    PathsKeep(entries);
    LoadSaved(entries, "", map[]);
    StoredKept(entries, map[], m);
  }

  lemma BackIsKept(entries: seq<Entry>, m: map<string, string>)
    requires Enumerates(entries, m)
    requires forall i :: 0 <= i < |entries| ==> HasGroup(entries[i].key) && Is8Bit(entries[i].key)
    requires LoadText(SaveText(entries, ""), "General", map[]) == m
    ensures forall i :: 0 <= i < |entries| ==> Keeps(entries[i].key) && GoodValue(entries[i].value)
  {
    hide LoadText, SaveText, PathOf, HasGroup, GoodValue, Keeps, Is8Bit, StoreAll;
    PathsKeep(entries);
    LoadedValuesGood(SaveText(entries, ""), "General", map[]);
    assert forall i :: 0 <= i < |entries| ==> GoodValue(entries[i].value);
    LoadSaved(entries, "", map[]);
    StoredPaths(entries, map[]);
  }

  /**
   Loading what was saved gives the same map back exactly when every key has a non-empty group and only
   surviving characters, and every value is trimmed and has no newline.
   */
  lemma SettingsRoundTrip(entries: seq<Entry>, m: map<string, string>)
    requires Enumerates(entries, m)
    requires forall i :: 0 <= i < |entries| ==> HasGroup(entries[i].key) && Is8Bit(entries[i].key)
    ensures LoadText(SaveText(entries, ""), "General", map[]) == m
       <==> forall i :: 0 <= i < |entries| ==> Keeps(entries[i].key) && GoodValue(entries[i].value)
  {
    hide LoadText, SaveText, HasGroup, GoodValue, Keeps, Is8Bit, Enumerates;
    if LoadText(SaveText(entries, ""), "General", map[]) == m {
      BackIsKept(entries, m);
    }
    if forall i :: 0 <= i < |entries| ==> Keeps(entries[i].key) && GoodValue(entries[i].value) {
      KeptComesBack(entries, m);
    }
  }
}
