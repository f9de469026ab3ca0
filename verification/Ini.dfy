/** INI files: the sections of keys and values, their printing and their parsing. Text has no
    NUL characters. */
module Ini {

  type Keys = map<string, string>
  type Sections = map<string, Keys>

  /** Size of the line buffer: a line read holds one character less. */
  const BUFFER_SIZE := 4096
  const LINE_MAX := BUFFER_SIZE - 1
  const SECTION_MAX := 512

  predicate NameChar(c: char)
  {
    'a' <= c <= 'z' || 'A' <= c <= 'Z' || '0' <= c <= '9' || c == '-' || c == '_' || c == '.' || c == ' '
  }

  predicate VerifyName(name: string)
  {
    name != [] && forall i :: 0 <= i < |name| ==> NameChar(name[i])
  }

  // ---- Reading ----

  /** How many characters one read takes: up to and with a newline, but no more than fit. */
  function LineEnd(text: string, from: nat): (n: nat)
    requires from <= |text| && from <= LINE_MAX
    ensures from <= n <= |text| && n <= LINE_MAX
    ensures text != [] && LINE_MAX > 0 && from == 0 ==> n > 0
    ensures forall i :: from <= i < n - 1 ==> text[i] != '\n'
    decreases LINE_MAX - from
  {
    if from == |text| || from == LINE_MAX then from
    else if text[from] == '\n' then from + 1
    else LineEnd(text, from + 1)
  }

  function Stripped(line: string): string
  {
    if line != [] && line[|line| - 1] == '\n' then line[..|line| - 1] else line
  }

  /** How many of the first characters may be in a name. */
  function NameLength(s: string): (n: nat)
    ensures n <= |s| && (forall i :: 0 <= i < n ==> NameChar(s[i])) && (n < |s| ==> !NameChar(s[n]))
  {
    if s == [] || !NameChar(s[0]) then 0
    else
      var n := 1 + NameLength(s[1..]);
      assert forall i :: 1 <= i < n ==> s[i] == s[1..][i - 1];
      n
  }

  /** Where the first '=' stands. */
  function EqualSign(s: string): (n: nat)
    ensures n <= |s| && (n < |s| ==> s[n] == '=') && forall i :: 0 <= i < n ==> s[i] != '='
  {
    if s == [] || s[0] == '=' then 0
    else
      var n := 1 + EqualSign(s[1..]);
      assert forall i :: 1 <= i < n ==> s[i] == s[1..][i - 1];
      n
  }

  /** The keys of a section, none if it does not exist yet. */
  function KeysOf(m: Sections, section: string): Keys
  {
    if section in m then m[section] else map[]
  }

  /** The current section and the sections after one line. */
  function TakeLine(line: string, cur: string, m: Sections): (string, Sections)
  {
    if |line| >= 2 && line[0] == '/' && line[1] == '/' then (cur, m)
    else
      var s := Stripped(line);
      if s != [] && s[0] == '[' then
        var name := s[1..1 + NameLength(s[1..])];
        if VerifyName(name) then (name, if name in m then m else m[name := map[]]) else ([], m)
      else
        var n := EqualSign(s);
        if cur == [] || n == |s| || !VerifyName(s[..n]) then (cur, m)
        else (cur, m[cur := KeysOf(m, cur)[s[..n] := s[n + 1..]]])
  }

  function ParseFrom(text: string, cur: string, m: Sections): Sections
    decreases |text|
  {
    if text == [] then m
    else
      var n := LineEnd(text, 0);
      var (cur', m') := TakeLine(text[..n], cur, m);
      ParseFrom(text[n..], cur', m')
  }

  const LOWER := "abcdefghijklmnopqrstuvwxyz"
  const UPPER := "ABCDEFGHIJKLMNOPQRSTUVWXYZ"

  /** The characters of a name: letters, digits, '-', '_', '.' and the blank. */
  lemma NameCharIs(c: char)
    ensures NameChar(c) <==> c in LOWER || c in UPPER || c in "0123456789" || c in "-_. "
  {
    LowerIs(c);
    UpperIs(c);
    if '0' <= c <= '9' {
      assert "0123456789"[(c as int) - 48] == c;
    }
    hide *;
    assert "-_. "[0] == '-' && "-_. "[1] == '_' && "-_. "[2] == '.' && "-_. "[3] == ' ';
  }

  lemma LowerIs(c: char)
    ensures 'a' <= c <= 'z' <==> c in LOWER
  {
    if 'a' <= c <= 'z' {
      assert LOWER[(c as int) - 97] == c;
    }
  }

  lemma UpperIs(c: char)
    ensures 'A' <= c <= 'Z' <==> c in UPPER
  {
    if 'A' <= c <= 'Z' {
      assert UPPER[(c as int) - 65] == c;
    }
  }

  /** The line reads s, with or without a line break behind it. */
  predicate Reads(line: string, s: string)
  {
    line == s + "\n" || (line == s && (s == [] || s[|s| - 1] != '\n'))
  }

  lemma ReadsStripped(line: string, s: string)
    requires Reads(line, s)
    ensures Stripped(line) == s
    ensures |line| >= 2 && line[0] == '/' && line[1] == '/' <==> "//" <= s
  {}

  /** A comment does nothing, nor does a line without '=' or one before any section, unless it
      starts a section. */
  lemma NothingRead(line: string, s: string, cur: string, m: Sections)
    requires Reads(line, s)
    requires "//" <= s || (!("[" <= s) && (cur == [] || '=' !in s))
    ensures TakeLine(line, cur, m) == (cur, m)
  {
    ReadsStripped(line, s);
    hide Stripped, Reads, NameLength, VerifyName;
    if '=' !in s {
      var n := EqualSign(s);
      hide EqualSign;
      assert n == |s|;
    }
  }

  /** A line that starts with '[' makes the longest name behind it the current section, which is
      created if need be; if there is none, no section is current. */
  lemma SectionRead(line: string, s: string, n: nat, cur: string, m: Sections)
    requires Reads(line, s) && "[" <= s && 1 <= n <= |s|
    requires (forall i :: 1 <= i < n ==> NameChar(s[i])) && (n < |s| ==> !NameChar(s[n]))
    ensures TakeLine(line, cur, m)
         == if n == 1 then ([], m) else (s[1..n], if s[1..n] in m then m else m[s[1..n] := map[]])
  {
    ReadsStripped(line, s);
    hide NameChar, Stripped, Reads, EqualSign;
    var k := NameLength(s[1..]);
    hide NameLength;
    assert forall i :: 0 <= i < |s| - 1 ==> s[1..][i] == s[i + 1];
    assert forall i :: 0 <= i < n - 1 ==> s[1..n][i] == s[i + 1];
    assert k == n - 1;
  }

  /** In a section, what stands before the first '=' is the key, if it is a name, and what stands
      behind it the value. */
  lemma EntryRead(line: string, s: string, n: nat, cur: string, m: Sections)
    requires Reads(line, s) && !("//" <= s) && !("[" <= s) && cur != []
    requires n < |s| && s[n] == '=' && '=' !in s[..n]
    ensures TakeLine(line, cur, m)
         == if n == 0 || exists i :: 0 <= i < n && !NameChar(s[i]) then (cur, m)
            else (cur, m[cur := (if cur in m then m[cur] else map[])[s[..n] := s[n + 1..]]])
  {
    ReadsStripped(line, s);
    hide NameChar, Stripped, Reads, NameLength;
    var e := EqualSign(s);
    hide EqualSign;
    assert forall i :: 0 <= i < n ==> s[..n][i] == s[i];
    assert e == n;
  }

  // ---- What a file can hold ----

  /** Names that verify, and values that fit with their key into one line. */
  ghost predicate Clean(m: Sections)
  {
    forall name :: name in m ==> VerifyName(name) && CleanKeys(m[name])
  }

  ghost predicate CleanKeys(keys: Keys)
  {
    forall key :: key in keys ==> CleanEntry(key, keys[key])
  }

  predicate CleanEntry(key: string, value: string)
  {
    VerifyName(key) && '\n' !in value && |key| + 1 + |value| <= LINE_MAX
  }

  lemma TakeLineClean(text: string, cur: string, m: Sections)
    requires text != [] && Clean(m) && (cur == [] || VerifyName(cur))
    ensures var (cur', m') := TakeLine(text[..LineEnd(text, 0)], cur, m);
            Clean(m') && (cur' == [] || VerifyName(cur'))
  {
    hide Clean, VerifyName, NameLength, EqualSign, Stripped, LineEnd;
    var s := Stripped(text[..LineEnd(text, 0)]);
    StrippedLine(text);
    var n := EqualSign(s);
    if n < |s| && VerifyName(s[..n]) && cur != [] {
      EntryClean(s, n, cur, m);
    }
    if s != [] {
      var name := s[1..1 + NameLength(s[1..])];
      if VerifyName(name) {
        NewSectionClean(name, m);
      }
    }
  }

  lemma StrippedLine(text: string)
    requires text != []
    ensures var s := Stripped(text[..LineEnd(text, 0)]);
      |s| <= LINE_MAX && forall i :: 0 <= i < |s| ==> s[i] != '\n'
  {}

  lemma EntryClean(s: string, n: nat, cur: string, m: Sections)
    requires |s| <= LINE_MAX && (forall i :: 0 <= i < |s| ==> s[i] != '\n') && n < |s|
    requires Clean(m) && VerifyName(cur) && VerifyName(s[..n])
    ensures Clean(m[cur := KeysOf(m, cur)[s[..n] := s[n + 1..]]])
  {
    assert '\n' !in s[n + 1..];
    assert CleanEntry(s[..n], s[n + 1..]);
    assert CleanKeys(KeysOf(m, cur));
    hide VerifyName;
  }

  lemma NewSectionClean(name: string, m: Sections)
    requires Clean(m) && VerifyName(name)
    ensures Clean(m[name := map[]])
  {}

  /** Whatever the text, only clean sections are parsed from it. */
  lemma {:induction false} ParseClean(text: string, cur: string, m: Sections)
    requires Clean(m) && (cur == [] || VerifyName(cur))
    ensures Clean(ParseFrom(text, cur, m))
    decreases |text|
  {
    if text != [] {
      var n := LineEnd(text, 0);
      var (cur', m') := TakeLine(text[..n], cur, m);
      TakeLineClean(text, cur, m);
      hide Clean, TakeLine;
      ParseClean(text[n..], cur', m');
    }
  }

  // ---- Printing ----

  function SectionLine(section: string): string { "[" + section + "]" }

  function EntryLine(key: string, value: string): string { key + "=" + value }

  function MakeSection(section: string): string { SectionLine(section) + "\n" }

  function MakeKeyValue(key: string, value: string): string { EntryLine(key, value) + "\n" }

  /** Keys with their values, and sections with their keys, in the order they are printed in. */
  type KeyList = seq<(string, string)>
  type Listing = seq<(string, KeyList)>

  function KeyText(keys: KeyList): string
  {
    if keys == [] then [] else MakeKeyValue(keys[0].0, keys[0].1) + KeyText(keys[1..])
  }

  function Text(sections: Listing): string
  {
    if sections == [] then []
    else MakeSection(sections[0].0) + KeyText(sections[0].1) + Text(sections[1..])
  }

  /** The map that keys, entered one after the other into another map, lead to. */
  function Enter(keys: KeyList, into: Keys): Keys
  {
    if keys == [] then into else Enter(keys[1..], into[keys[0].0 := keys[0].1])
  }

  function EnterAll(sections: Listing, into: Sections): Sections
  {
    if sections == [] then into
    else
      var (name, keys) := sections[0];
      EnterAll(sections[1..], into[name := Enter(keys, KeysOf(into, name))])
  }

  /** The sections that have keys. */
  function NonEmpty(m: Sections): Sections
  {
    map name | name in m && m[name] != map[] :: m[name]
  }

  /** The text is a print-out of these sections, in some order and without empty sections. */
  ghost predicate Printed(m: Sections, text: string)
  {
    exists l: Listing :: EnterAll(l, map[]) == NonEmpty(m) && Text(l) == text
                         && forall i :: 0 <= i < |l| ==> ListedFrom(l[i], NonEmpty(m))
  }

  /** The entry lists keys and values of the section it names. */
  ghost predicate ListedFrom(entry: (string, KeyList), m: Sections)
  {
    entry.0 in m && KeysFrom(entry.1, m[entry.0])
  }

  ghost predicate KeysFrom(keys: KeyList, all: Keys)
  {
    forall i :: 0 <= i < |keys| ==> keys[i].0 in all && all[keys[i].0] == keys[i].1
  }

  // ---- Parsing what was printed ----

  lemma {:induction false} LineEndAt(text: string, from: nat, n: nat)
    requires from <= n <= |text| && n <= LINE_MAX && forall i :: from <= i < n ==> text[i] != '\n'
    ensures n == LINE_MAX || n == |text| ==> LineEnd(text, from) == n
    ensures n < LINE_MAX && n < |text| && text[n] == '\n' ==> LineEnd(text, from) == n + 1
    decreases n - from
  {
    if from < n {
      LineEndAt(text, from + 1, n);
    }
  }

  /** A line break changes nothing about a line that is not empty. */
  lemma TakeLineBreak(line: string, cur: string, m: Sections)
    requires line != [] && '\n' !in line
    ensures TakeLine(line + "\n", cur, m) == TakeLine(line, cur, m)
    ensures TakeLine("\n", cur, m) == (cur, m)
  {
    assert Stripped(line + "\n") == line == Stripped(line);
    assert Stripped("\n") == [];
  }

  /** A printed line of at most LINE_MAX characters is parsed as one line, even if the line
      break no longer fits. */
  lemma ParseLine(line: string, rest: string, cur: string, m: Sections)
    requires line != [] && '\n' !in line && |line| <= LINE_MAX
    ensures var (cur', m') := TakeLine(line, cur, m);
            ParseFrom(line + "\n" + rest, cur, m) == ParseFrom(rest, cur', m')
  {
    hide TakeLine, LineEnd;
    var text, n := line + "\n" + rest, |line|;
    LineEndAt(text, 0, n);
    TakeLineBreak(line, cur, m);
    var (cur', m') := TakeLine(line, cur, m);
    if n < LINE_MAX {
      assert text[..n + 1] == line + "\n" && text[n + 1..] == rest;
    } else {
      assert text[..n] == line && text[n..] == "\n" + rest;
      LineEndAt("\n" + rest, 0, 0);
      assert ("\n" + rest)[..1] == "\n" && ("\n" + rest)[1..] == rest;
      TakeLineBreak(line, cur', m');
    }
  }

  /** A line that does not fit is parsed in pieces, as if each were a line. */
  lemma ParseLongLine(text: string, cur: string, m: Sections)
    requires |text| >= 4095 && forall i :: 0 <= i < 4095 ==> text[i] != '\n'
    ensures var (cur', m') := TakeLine(text[..4095], cur, m);
            ParseFrom(text, cur, m) == ParseFrom(text[4095..], cur', m')
  {
    hide TakeLine, LineEnd;
    LineEndAt(text, 0, 4095);
  }

  lemma TakeSection(name: string, cur: string, m: Sections)
    requires VerifyName(name)
    ensures TakeLine(SectionLine(name), cur, m) == (name, if name in m then m else m[name := map[]])
  {
    var s := SectionLine(name);
    assert Stripped(s) == s;
    assert s[1..] == name + "]";
    NameLengthIs(name + "]", |name|);
    assert s[1..1 + |name|] == name;
  }

  lemma {:induction false} NameLengthIs(s: string, n: nat)
    requires n < |s| && (forall i :: 0 <= i < n ==> NameChar(s[i])) && !NameChar(s[n])
    ensures NameLength(s) == n
  {
    if n > 0 {
      assert forall i :: 0 <= i < n - 1 ==> s[1..][i] == s[i + 1];
      NameLengthIs(s[1..], n - 1);
    }
  }

  /** The characters of a printed entry, one by one. */
  lemma EntryChars(key: string, value: string)
    ensures var s := EntryLine(key, value);
      && |s| == |key| + 1 + |value| && s[|key|] == '=' && s[..|key|] == key && s[|key| + 1..] == value
      && (forall i :: 0 <= i < |key| ==> s[i] == key[i])
      && (forall i :: |key| < i < |s| ==> s[i] == value[i - |key| - 1])
  {}

  lemma LineOfEntry(key: string, value: string)
    requires CleanEntry(key, value)
    ensures var s := EntryLine(key, value); s != [] && '\n' !in s && |s| <= LINE_MAX && Stripped(s) == s
  {
    EntryChars(key, value);
    hide EntryLine;
    var s := EntryLine(key, value);
    forall i | 0 <= i < |s|
      ensures s[i] != '\n'
    {
      if i < |key| {
        assert NameChar(key[i]);
      } else if i > |key| {
        assert s[i] in value;
      }
    }
  }

  lemma {:induction false} EqualSignAt(s: string, n: nat)
    requires n < |s| && s[n] == '=' && forall i :: 0 <= i < n ==> s[i] != '='
    ensures EqualSign(s) == n
  {
    if n > 0 {
      assert forall i :: 0 <= i < n - 1 ==> s[1..][i] == s[i + 1];
      EqualSignAt(s[1..], n - 1);
    }
  }

  lemma TakeKeyValue(key: string, value: string, cur: string, m: Sections)
    requires CleanEntry(key, value) && cur != []
    ensures TakeLine(EntryLine(key, value), cur, m) == (cur, m[cur := KeysOf(m, cur)[key := value]])
  {
    EntryChars(key, value);
    LineOfEntry(key, value);
    hide EntryLine, Stripped;
    var s := EntryLine(key, value);
    assert s[0] == key[0] && NameChar(key[0]);
    assert forall i :: 0 <= i < |key| ==> s[i] == key[i] && NameChar(key[i]);
    EqualSignAt(s, |key|);
  }

  /** Entries that can be parsed back. */
  predicate CleanKeyList(keys: KeyList)
  {
    forall i :: 0 <= i < |keys| ==> CleanEntry(keys[i].0, keys[i].1)
  }

  lemma {:induction false} ParseKeys(keys: KeyList, rest: string, cur: string, m: Sections)
    requires cur != [] && cur in m && CleanKeyList(keys)
    ensures ParseFrom(KeyText(keys) + rest, cur, m) == ParseFrom(rest, cur, m[cur := Enter(keys, m[cur])])
  {
    if keys == [] {
      assert KeyText(keys) + rest == rest && m[cur := m[cur]] == m;
    } else {
      var (key, value) := keys[0];
      var line, rest' := EntryLine(key, value), KeyText(keys[1..]) + rest;
      KeyTextStep(keys, rest);
      LineOfEntry(key, value);
      ParseLine(line, rest', cur, m);
      TakeKeyValue(key, value, cur, m);
      var m' := m[cur := m[cur][key := value]];
      assert m'[cur := Enter(keys[1..], m'[cur])] == m[cur := Enter(keys, m[cur])];
      hide TakeLine, ParseFrom, KeyText, EntryLine, Enter, CleanEntry;
      ParseKeys(keys[1..], rest, cur, m');
    }
  }

  lemma KeyTextStep(keys: KeyList, rest: string)
    requires keys != []
    ensures KeyText(keys) + rest == EntryLine(keys[0].0, keys[0].1) + "\n" + (KeyText(keys[1..]) + rest)
  {
    hide EntryLine;
    var line, more := EntryLine(keys[0].0, keys[0].1), KeyText(keys[1..]);
    assert (line + "\n" + more) + rest == line + "\n" + (more + rest);
  }

  predicate CleanListing(l: Listing)
  {
    forall i :: 0 <= i < |l| ==> VerifyName(l[i].0) && |l[i].0| < SECTION_MAX && CleanKeyList(l[i].1)
  }

  lemma FirstClean(l: Listing)
    requires CleanListing(l) && l != []
    ensures VerifyName(l[0].0) && |l[0].0| < SECTION_MAX && CleanKeyList(l[0].1) && CleanListing(l[1..])
  {}

  lemma {:induction false} ParseListing(l: Listing, cur: string, m: Sections)
    requires CleanListing(l)
    ensures ParseFrom(Text(l), cur, m) == EnterAll(l, m)
  {
    if l == [] {
      assert ParseFrom(Text(l), cur, m) == m;
    } else {
      EnterAllStep(l, m);
      FirstClean(l);
      hide ParseFrom, Text, Enter, EnterAll, CleanListing, CleanKeyList;
      ParseSection(l, cur, m);
      ParseListing(l[1..], l[0].0, m[l[0].0 := Enter(l[0].1, KeysOf(m, l[0].0))]);
    }
  }

  lemma ParseSection(l: Listing, cur: string, m: Sections)
    requires l != [] && VerifyName(l[0].0) && |l[0].0| < SECTION_MAX && CleanKeyList(l[0].1)
    ensures var (name, keys) := l[0];
            ParseFrom(Text(l), cur, m) == ParseFrom(Text(l[1..]), name, m[name := Enter(keys, KeysOf(m, name))])
  {
    TextStep(l);
    hide TakeLine, ParseFrom, KeyText, SectionLine, Text, Enter, CleanKeyList;
    var (name, keys) := l[0];
    LineOfSection(name);
    ParseLine(SectionLine(name), KeyText(keys) + Text(l[1..]), cur, m);
    TakeSection(name, cur, m);
    var m' := if name in m then m else m[name := map[]];
    ParseKeys(keys, Text(l[1..]), name, m');
    Overridden(m, name, KeysOf(m, name), Enter(keys, KeysOf(m, name)));
  }

  lemma Overridden(m: Sections, name: string, old_: Keys, keys: Keys)
    ensures m[name := old_][name := keys] == m[name := keys]
  {}

  lemma EnterAllStep(l: Listing, m: Sections)
    requires l != []
    ensures EnterAll(l, m) == EnterAll(l[1..], m[l[0].0 := Enter(l[0].1, KeysOf(m, l[0].0))])
  {
    hide Enter;
  }

  lemma TextStep(l: Listing)
    requires l != []
    ensures Text(l) == SectionLine(l[0].0) + "\n" + (KeyText(l[0].1) + Text(l[1..]))
  {
    hide SectionLine, KeyText;
    var a, b, c := SectionLine(l[0].0) + "\n", KeyText(l[0].1), Text(l[1..]);
    assert a + b + c == a + (b + c);
  }

  lemma LineOfSection(name: string)
    requires VerifyName(name) && |name| < SECTION_MAX
    ensures var s := SectionLine(name); s != [] && '\n' !in s && |s| <= LINE_MAX
  {
    var s := SectionLine(name);
    forall i | 0 <= i < |s|
      ensures s[i] != '\n'
    {
      if 0 < i < |s| - 1 {
        assert s[i] == name[i - 1] && NameChar(name[i - 1]);
      }
    }
  }

  /** Parsing a print-out gives the sections back, less the empty ones, exactly when they are
      clean: names that verify, values without line breaks, and key, '=' and value together no
      longer than LINE_MAX. */
  lemma RoundTrip(m: Sections, text: string)
    requires Printed(m, text) && forall name :: name in m ==> |name| < SECTION_MAX
    ensures ParseFrom(text, [], map[]) == NonEmpty(m) <==> Clean(NonEmpty(m))
  {
    ParseClean(text, [], map[]);
    if Clean(NonEmpty(m)) {
      var l: Listing :| EnterAll(l, map[]) == NonEmpty(m) && Text(l) == text
                        && forall i :: 0 <= i < |l| ==> ListedFrom(l[i], NonEmpty(m));
      ListingClean(l, m);
      ParseListing(l, [], map[]);
    }
  }

  lemma ListingClean(l: Listing, m: Sections)
    requires Clean(NonEmpty(m)) && forall i :: 0 <= i < |l| ==> ListedFrom(l[i], NonEmpty(m))
    requires forall name :: name in m ==> |name| < SECTION_MAX
    ensures CleanListing(l)
  {
    forall i | 0 <= i < |l|
      ensures VerifyName(l[i].0) && |l[i].0| < SECTION_MAX && CleanKeyList(l[i].1)
    {
      assert ListedFrom(l[i], NonEmpty(m)) && CleanKeys(NonEmpty(m)[l[i].0]);
      var keys := l[i].1;
      forall j | 0 <= j < |keys|
        ensures CleanEntry(keys[j].0, keys[j].1)
      {
        assert keys[j].0 in NonEmpty(m)[l[i].0];
      }
    }
  }

  /** Which values Set takes: those of up to BUFFER_SIZE characters with their key. */
  predicate Accepted(key: string, value: string)
  {
    VerifyName(key) && |key| + |value| + 1 <= BUFFER_SIZE
  }

  /** One character more than can be read back is accepted: a value that Set takes and that the
      parser then cuts short. */
  lemma AcceptedButCut()
    ensures var value := seq(BUFFER_SIZE - 2, _ => 'a');
      var l: Listing := [("s", [("k", value)])];
      var m: Sections := map["s" := map["k" := value]];
      Accepted("k", value) && Printed(m, Text(l)) && ParseFrom(Text(l), [], map[]) != NonEmpty(m)
  {
    var value := seq(BUFFER_SIZE - 2, _ => 'a');
    var l: Listing := [("s", [("k", value)])];
    var m: Sections := map["s" := map["k" := value]];
    hide Text;
    OneEntryPrinted("s", "k", value);
    assert !CleanEntry("k", m["s"]["k"]);
    assert !CleanKeys(m["s"]);
    hide EnterAll, Printed, ParseFrom;
    RoundTrip(m, Text(l));
  }

  lemma OneEntryPrinted(name: string, key: string, value: string)
    ensures var m: Sections := map[name := map[key := value]];
      NonEmpty(m) == m && Printed(m, Text([(name, [(key, value)])]))
  {
    var keys: KeyList := [(key, value)];
    var l: Listing := [(name, keys)];
    var m: Sections := map[name := map[key := value]];
    hide Text;
    assert key in m[name];
    assert NonEmpty(m) == m;
    assert keys[1..] == [] && l[1..] == [];
    assert Enter(keys, map[]) == Enter([], map[key := value]);
    assert EnterAll(l, map[]) == EnterAll([], map[name := Enter(keys, map[])]) == m;
    assert ListedFrom(l[0], m);
  }

  // ---- The class ----

  datatype File = Missing | Contents(text: string)

  lemma {:induction false} EnterOneMore(keys: KeyList, more: KeyList, into: Keys)
    ensures Enter(keys + more, into) == Enter(more, Enter(keys, into))
    ensures KeyText(keys + more) == KeyText(keys) + KeyText(more)
  {
    if keys == [] {
      assert keys + more == more && [] + KeyText(more) == KeyText(more);
    } else {
      assert (keys + more)[1..] == keys[1..] + more;
      EnterOneMore(keys[1..], more, into[keys[0].0 := keys[0].1]);
      var a := MakeKeyValue(keys[0].0, keys[0].1);
      hide MakeKeyValue;
      assert a + (KeyText(keys[1..]) + KeyText(more)) == a + KeyText(keys[1..]) + KeyText(more);
    }
  }

  lemma {:induction false} EnterAllOneMore(l: Listing, more: Listing, into: Sections)
    ensures EnterAll(l + more, into) == EnterAll(more, EnterAll(l, into))
    ensures Text(l + more) == Text(l) + Text(more)
  {
    if l == [] {
      assert l + more == more && [] + Text(more) == Text(more);
    } else {
      assert (l + more)[1..] == l[1..] + more;
      EnterAllOneMore(l[1..], more, into[l[0].0 := Enter(l[0].1, KeysOf(into, l[0].0))]);
      var a := MakeSection(l[0].0) + KeyText(l[0].1);
      hide MakeSection, KeyText;
      assert a + (Text(l[1..]) + Text(more)) == a + Text(l[1..]) + Text(more);
    }
  }

  /** The non-empty sections among these names. */
  function Among(m: Sections, names: set<string>): Sections
  {
    map name | name in m && name in names && m[name] != map[] :: m[name]
  }

  lemma NothingPrinted(m: Sections)
    ensures Among(m, {}) == map[] == EnterAll([], map[]) && Text([]) == []
  {}

  lemma SkipStep(m: Sections, before: set<string>, name: string)
    requires name in m && m[name] == map[]
    ensures Among(m, before) == Among(m, before + {name})
  {}

  lemma AllPrinted(m: Sections)
    ensures Among(m, m.Keys) == NonEmpty(m)
  {}

  lemma SaveStep(m: Sections, before: set<string>, name: string, l: Listing, keys: KeyList)
    requires EnterAll(l, map[]) == Among(m, before) && forall i :: 0 <= i < |l| ==> ListedFrom(l[i], NonEmpty(m))
    requires name in m && name !in before && m[name] != map[]
    requires Enter(keys, map[]) == m[name] && KeysFrom(keys, m[name])
    ensures var l' := l + [(name, keys)];
      && EnterAll(l', map[]) == Among(m, before + {name})
      && Text(l') == Text(l) + MakeSection(name) + KeyText(keys)
      && forall i :: 0 <= i < |l'| ==> ListedFrom(l'[i], NonEmpty(m))
  {
    EnterAllOneMore(l, [(name, keys)], map[]);
    OneSection(name, keys, EnterAll(l, map[]));
    hide Text, EnterAll, Enter, KeyText, MakeSection;
    assert Among(m, before)[name := m[name]] == Among(m, before + {name});
    assert ListedFrom((name, keys), NonEmpty(m));
    assert Text(l) + (MakeSection(name) + KeyText(keys)) == Text(l) + MakeSection(name) + KeyText(keys);
  }

  class INI {
    var sections: Sections
    var currentSection: string

    constructor ()
      ensures sections == map[] && currentSection == []
    {
      sections, currentSection := map[], [];
    }

    method Select(section: string) returns (ok: bool)
      modifies this`currentSection
      ensures ok == (VerifyName(section) && section in sections)
      ensures currentSection == if ok then section else old(currentSection)
    {
      if !VerifyName(section) || section !in sections {
        return false;
      }
      currentSection := section;
      ok := true;
    }

    method Create(section: string) returns (ok: bool)
      modifies this
      ensures ok == (VerifyName(section) && section !in old(sections))
      ensures sections == if ok then old(sections)[section := map[]] else old(sections)
      ensures currentSection == if VerifyName(section) then section else old(currentSection)
    {
      if !VerifyName(section) {
        return false;
      }
      var selected := Select(section);
      if selected {
        return false;
      }
      currentSection := section;
      sections := sections[section := map[]];
      ok := true;
    }

    method Set(section: string, key: string, value: string) returns (ok: bool)
      modifies this`sections
      ensures ok == (VerifyName(section) && VerifyName(key) && |key| + |value| + 1 <= 4096)
      ensures sections ==
        if ok then
          old(sections)[section := (if section in old(sections) then old(sections)[section] else map[])[key := value]]
        else old(sections)
    {
      if !VerifyName(section) || !VerifyName(key) {
        return false;
      }
      if BUFFER_SIZE < |key| + |value| + 1 {
        return false;
      }
      sections := sections[section := KeysOf(sections, section)[key := value]];
      ok := true;
    }

    /** Looking a key up creates its section if there is none; what is printed stays the same. */
    method Get(section: string, key: string, def: string) returns (value: string)
      modifies this`sections
      ensures value == if VerifyName(section) && VerifyName(key) && section in old(sections) && key in old(sections)[section]
                       then old(sections)[section][key] else def
      ensures forall s, k :: s in sections && k in sections[s] <==> s in old(sections) && k in old(sections)[s]
      ensures NonEmpty(sections) == NonEmpty(old(sections))
      ensures forall text :: Printed(sections, text) <==> Printed(old(sections), text)
    {
      if !VerifyName(section) || !VerifyName(key) {
        return def;
      }
      if section !in sections {
        sections := sections[section := map[]];
      }
      assert NonEmpty(sections) == NonEmpty(old(sections));
      if key !in sections[section] {
        return def;
      }
      value := sections[section][key];
    }

    /** Reads a file line by line into the sections. */
    method Parse(file: File) returns (ok: bool)
      modifies this`sections
      ensures ok == file.Contents?
      ensures sections == if ok then ParseFrom(file.text, [], old(sections)) else old(sections)
    {
      if file.Missing? {
        return false;
      }
      var cur, rest := [], file.text;
      while rest != []
        invariant ParseFrom(rest, cur, sections) == ParseFrom(file.text, [], old(sections))
        decreases |rest|
      {
        var n := ReadLine(rest);
        cur := ParseOneLine(rest[..n], cur);
        rest := rest[n..];
      }
      ok := true;
    }

    /** How many characters the next line has, as far as it fits in the line buffer. */
    method ReadLine(text: string) returns (n: nat)
      requires text != []
      ensures n == LineEnd(text, 0)
    {
      n := 0;
      while n < |text| && n < LINE_MAX && text[n] != '\n'
        invariant 0 <= n <= |text| && n <= LINE_MAX && LineEnd(text, n) == LineEnd(text, 0)
      {
        n := n + 1;
      }
      if n < |text| && n < LINE_MAX {
        n := n + 1;
      }
    }

    method ParseOneLine(text: string, cur: string) returns (cur': string)
      modifies this`sections
      ensures (cur', sections) == TakeLine(text, cur, old(sections))
    {
      var line := text;
      if |line| >= 2 && line[0] == '/' && line[1] == '/' {
        return cur;
      }
      if line != [] && line[|line| - 1] == '\n' {
        line := line[..|line| - 1];
      }
      if line != [] && line[0] == '[' {
        cur' := [];
        var section := line[1..1 + NameLength(line[1..])];
        if !VerifyName(section) {
          return;
        }
        cur' := section;
        if section !in sections {
          sections := sections[section := map[]];
        }
      } else {
        if cur == [] {
          return cur;
        }
        var token := EqualSign(line);
        if token == |line| {
          return cur;
        }
        var key, value := line[..token], line[token + 1..];
        if !VerifyName(key) {
          return cur;
        }
        sections := sections[cur := KeysOf(sections, cur)[key := value]];
        cur' := cur;
      }
    }

    /** Prints the sections that have keys, in some order. */
    method Save() returns (text: string)
      ensures Printed(sections, text)
    {
      hide Text, EnterAll, Enter, KeyText, MakeSection, Among, NonEmpty, ListedFrom;
      text := [];
      ghost var l: Listing := [];
      var m := sections;
      var names := m.Keys;
      NothingPrinted(m);
      assert m.Keys - names == {};
      while names != {}
        invariant names <= m.Keys && Text(l) == text && EnterAll(l, map[]) == Among(m, m.Keys - names)
        invariant forall i :: 0 <= i < |l| ==> ListedFrom(l[i], NonEmpty(m))
        decreases |names|
      {
        var name :| name in names;
        ghost var before := m.Keys - names;
        names := names - {name};
        assert before + {name} == m.Keys - names;
        if m[name] != map[] {
          var part;
          ghost var keys;
          part, keys := SaveKeys(m[name]);
          SaveStep(m, before, name, l, keys);
          text := text + MakeSection(name) + part;
          l := l + [(name, keys)];
        } else {
          SkipStep(m, before, name);
        }
      }
      assert m.Keys - names == m.Keys;
      AllPrinted(m);
    }

    method SaveKeys(all: Keys) returns (text: string, ghost keys: KeyList)
      ensures KeyText(keys) == text && Enter(keys, map[]) == all && KeysFrom(keys, all)
    {
      text, keys := [], [];
      var names := all.Keys;
      while names != {}
        invariant names <= all.Keys && KeyText(keys) == text && KeysFrom(keys, all)
        invariant Enter(keys, map[]) == map k | k in all && k !in names :: all[k]
        decreases |names|
      {
        var key :| key in names;
        names := names - {key};
        EnterOneMore(keys, [(key, all[key])], map[]);
        OneKey(key, all[key], Enter(keys, map[]));
        text := text + MakeKeyValue(key, all[key]);
        keys := keys + [(key, all[key])];
      }
    }
  }

  lemma OneKey(key: string, value: string, into: Keys)
    ensures Enter([(key, value)], into) == into[key := value]
    ensures KeyText([(key, value)]) == MakeKeyValue(key, value)
  {
    var keys: KeyList := [(key, value)];
    hide MakeKeyValue;
    assert keys[1..] == [] && MakeKeyValue(key, value) + [] == MakeKeyValue(key, value);
  }

  lemma OneSection(name: string, keys: KeyList, into: Sections)
    ensures EnterAll([(name, keys)], into) == into[name := Enter(keys, KeysOf(into, name))]
    ensures Text([(name, keys)]) == MakeSection(name) + KeyText(keys)
  {
    var l: Listing := [(name, keys)];
    hide MakeSection, KeyText, Enter;
    assert l[1..] == [];
    assert MakeSection(name) + KeyText(keys) + [] == MakeSection(name) + KeyText(keys);
  }

  lemma CleanNonEmpty(m: Sections)
    ensures Clean(NonEmpty(m)) <==>
      forall name, key :: name in m && key in m[name] ==>
        VerifyName(name) && VerifyName(key) && '\n' !in m[name][key] && |key| + 1 + |m[name][key]| <= 4095
  {
    hide VerifyName;
    var n := NonEmpty(m);
    if Clean(n) {
      forall name, key | name in m && key in m[name]
        ensures VerifyName(name) && CleanEntry(key, m[name][key])
      {
        assert name in n && CleanKeys(n[name]);
      }
    } else {
      var name :| name in n && !(VerifyName(name) && CleanKeys(n[name]));
      var key :| key in n[name] && (VerifyName(name) ==> !CleanEntry(key, n[name][key]));
    }
  }

  /** Saving and reading back into a new object gives the sections that have keys exactly when all
      names and keys verify, no value has a line break, and key, '=' and value together have at most
      4095 characters. */
  method SaveAndParse(ini: INI) returns (back: INI)
    requires forall name :: name in ini.sections ==> |name| < SECTION_MAX
    ensures fresh(back)
    ensures var m := ini.sections;
      back.sections == (map name | name in m && m[name] != map[] :: m[name]) <==>
      forall name, key :: name in m && key in m[name] ==>
        VerifyName(name) && VerifyName(key) && '\n' !in m[name][key] && |key| + 1 + |m[name][key]| <= 4095
  {
    var text := ini.Save();
    back := new INI();
    var ok := back.Parse(Contents(text));
    RoundTrip(ini.sections, text);
    CleanNonEmpty(ini.sections);
  }
}
