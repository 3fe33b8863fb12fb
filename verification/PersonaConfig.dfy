/** The active persona in the shared config file, written and read line by line. */
module PersonaConfig {
  import opened Sequences
  import opened Environment

  /** The scanner gives up at the first line of this many bytes. */
  const SCAN_LIMIT := 65536

  // ---- text ----

  /** One character in front of some lines. */
  function Push(c: char, lines: seq<string>): (more: seq<string>)
    requires |lines| > 0
    ensures |more| > 0
  {
    if c == '\n' then [""] + lines else [[c] + lines[0]] + lines[1..]
  }

  function Split(s: string): (lines: seq<string>)
    ensures |lines| > 0
  {
    if |s| == 0 then [""] else Push(s[0], Split(s[1..]))
  }

  predicate Clean(lines: seq<string>) {
    forall l :: l in lines ==> '\n' !in l
  }

  lemma {:induction false} SplitClean(s: string)
    ensures Clean(Split(s))
  {
    if |s| > 0 { SplitClean(s[1..]); }
  }

  /** The lines that follow, each after its newline. */
  function Following(lines: seq<string>): string {
    if |lines| == 0 then "" else ['\n'] + lines[0] + Following(lines[1..])
  }

  function Join(lines: seq<string>): string
    requires |lines| > 0
  {
    lines[0] + Following(lines[1..])
  }

  lemma JoinPush(c: char, lines: seq<string>)
    requires |lines| > 0
    ensures Join(Push(c, lines)) == [c] + Join(lines)
  {
    var following := Following(lines[1..]);
    Associative([c], lines[0], following);
    if c == '\n' {
      assert Push(c, lines)[1..] == lines;
    } else {
      assert Push(c, lines)[1..] == lines[1..];
    }
  }

  lemma {:induction false} JoinSplit(s: string)
    ensures Join(Split(s)) == s
  {
    if |s| > 0 {
      JoinSplit(s[1..]);
      JoinPush(s[0], Split(s[1..]));
    }
  }

  lemma PushBefore(c: char, a: seq<string>, b: seq<string>)
    requires |a| > 0
    ensures Push(c, a + b) == Push(c, a) + b
  {
  }

  lemma {:induction false} SplitAt(s: string, t: string)
    ensures Split(s + "\n" + t) == Split(s) + Split(t)
  {
    var all := s + "\n" + t;
    if |s| == 0 {
      assert all[0] == '\n' && all[1..] == t;
    } else {
      SplitAt(s[1..], t);
      assert all[0] == s[0] && all[1..] == s[1..] + "\n" + t;
      PushBefore(s[0], Split(s[1..]), Split(t));
    }
  }

  lemma {:induction false} SplitLine(l: string)
    requires '\n' !in l
    ensures Split(l) == [l]
  {
    if |l| > 0 {
      assert forall c :: c in l[1..] ==> c in l;
      assert l[0] in l;
      SplitLine(l[1..]);
      assert [l[0]] + l[1..] == l && [l[1..]][1..] == [];
    }
  }

  lemma {:induction false} SplitJoin(lines: seq<string>)
    requires |lines| > 0 && Clean(lines)
    ensures Split(Join(lines)) == lines
  {
    SplitLine(lines[0]);
    if |lines| == 1 {
      assert lines[0] + "" == lines[0];
    } else {
      var more := lines[1..];
      SplitJoin(more);
      SplitAt(lines[0], Join(more));
      Associative(['\n'], more[0], Following(more[1..]));
      Associative(lines[0], ['\n'], Join(more));
    }
  }

  lemma {:induction false} FollowingSplit(a: seq<string>, b: seq<string>)
    ensures Following(a + b) == Following(a) + Following(b)
  {
    if |a| == 0 {
      assert a + b == b;
    } else {
      assert (a + b)[1..] == a[1..] + b;
      FollowingSplit(a[1..], b);
      Associative(['\n'] + a[0], Following(a[1..]), Following(b));
    }
  }

  lemma JoinAt(a: seq<string>, b: seq<string>)
    requires |a| > 0
    ensures Join(a + b) == Join(a) + Following(b)
  {
    assert (a + b)[1..] == a[1..] + b;
    FollowingSplit(a[1..], b);
    Associative(a[0], Following(a[1..]), Following(b));
  }

  predicate IsSpace(c: char) {
    var n := c as int;
    9 <= n <= 13 || n == 32 || n == 0x85 || n == 0xA0 || n == 0x1680 || 0x2000 <= n <= 0x200A
    || n == 0x2028 || n == 0x2029 || n == 0x202F || n == 0x205F || n == 0x3000
  }

  function TrimLeft(s: string): string {
    if |s| > 0 && IsSpace(s[0]) then TrimLeft(s[1..]) else s
  }

  function TrimRight(s: string): (t: string)
    ensures t <= s
    ensures |s| > 0 && !IsSpace(s[0]) ==> |t| > 0
  {
    if |s| > 0 && IsSpace(s[|s| - 1]) then TrimRight(s[..|s| - 1]) else s
  }

  function Trim(s: string): string {
    TrimRight(TrimLeft(s))
  }

  function ByteLen(s: string): nat {
    if |s| == 0 then 0
    else
      var n := s[0] as int;
      (if n < 0x80 then 1 else if n < 0x800 then 2 else if n < 0x10000 then 3 else 4) + ByteLen(s[1..])
  }

  lemma {:induction false} AsciiBytes(s: string)
    requires forall c :: c in s ==> c as int < 0x80
    ensures ByteLen(s) == |s|
  {
    if |s| > 0 {
      assert s[0] in s && forall c :: c in s[1..] ==> c in s;
      AsciiBytes(s[1..]);
    }
  }

  predicate Short(line: string) {
    ByteLen(line) < SCAN_LIMIT
  }

  /** The first line too long for the reader; the number of lines when there is none. */
  function LongAt(lines: seq<string>): (i: nat)
    ensures i <= |lines|
  {
    if |lines| == 0 || !Short(lines[0]) then 0 else 1 + LongAt(lines[1..])
  }

  predicate AllShort(lines: seq<string>) {
    LongAt(lines) == |lines|
  }

  lemma {:induction false} LongSplit(a: seq<string>, b: seq<string>)
    ensures LongAt(a + b) == if LongAt(a) < |a| then LongAt(a) else |a| + LongAt(b)
  {
    if |a| == 0 {
      assert a + b == b;
    } else {
      assert (a + b)[1..] == a[1..] + b;
      LongSplit(a[1..], b);
    }
  }

  lemma {:induction false} AllShortIff(lines: seq<string>)
    ensures AllShort(lines) <==> forall i :: 0 <= i < |lines| ==> Short(lines[i])
  {
    if |lines| > 0 {
      AllShortIff(lines[1..]);
      assert forall i :: 1 <= i < |lines| ==> lines[i] == lines[1..][i - 1];
    }
  }

  // ---- what a line is ----

  /** What a line says: a section header, a setting, or neither. */
  datatype Kind = Header(name: string) | Setting(key: string, value: string) | Neither

  function Unquote(v: string): string {
    if |v| >= 2 && v[0] == '"' && v[|v| - 1] == '"' then v[1..|v| - 1] else v
  }

  function KindOf(line: string): Kind {
    KindOfTrimmed(Trim(line))
  }

  function KindOfTrimmed(t: string): Kind {
    if |t| >= 2 && t[0] == '[' && t[|t| - 1] == ']' then Header(Trim(t[1..|t| - 1]))
    else
      var eq := Find(t, '=');
      if eq < |t| then Setting(Trim(t[..eq]), Unquote(Trim(t[eq + 1..]))) else Neither
  }

  function Outline(lines: seq<string>): seq<Kind> {
    seq(|lines|, i requires 0 <= i < |lines| => KindOf(lines[i]))
  }

  lemma OutlineSplit(a: seq<string>, b: seq<string>)
    ensures Outline(a + b) == Outline(a) + Outline(b)
  {
  }

  lemma OutlineCut(lines: seq<string>, n: nat)
    requires n <= |lines|
    ensures Outline(lines[..n]) == Outline(lines)[..n] && Outline(lines[n..]) == Outline(lines)[n..]
  {
  }

  function Section(kind: Kind, current: string): string {
    if kind.Header? then kind.name else current
  }

  /** The section in force after some lines. */
  function SectionAfter(kinds: seq<Kind>, current: string): string {
    if |kinds| == 0 then current else SectionAfter(kinds[1..], Section(kinds[0], current))
  }

  predicate Sets(kind: Kind, key: string) {
    kind.Setting? && kind.key == key
  }

  /** The first line that sets the key in the section; the number of lines when there is none. */
  function KeyAt(kinds: seq<Kind>, current: string, section: string, key: string): (i: nat)
    ensures i <= |kinds|
  {
    if |kinds| == 0 || (current == section && Sets(kinds[0], key)) then 0
    else 1 + KeyAt(kinds[1..], Section(kinds[0], current), section, key)
  }

  /** The first header of the section; the number of lines when there is none. */
  function HeaderAt(kinds: seq<Kind>, section: string): (i: nat)
    ensures i <= |kinds|
    ensures i < |kinds| ==> kinds[i] == Header(section)
  {
    if |kinds| == 0 || kinds[0] == Header(section) then 0 else 1 + HeaderAt(kinds[1..], section)
  }

  function ActiveAt(kinds: seq<Kind>): (i: nat)
    ensures i <= |kinds|
  {
    KeyAt(kinds, "", "persona", "active")
  }

  lemma {:induction false} SectionSplit(a: seq<Kind>, b: seq<Kind>, current: string)
    ensures SectionAfter(a + b, current) == SectionAfter(b, SectionAfter(a, current))
  {
    if |a| == 0 {
      assert a + b == b;
    } else {
      assert (a + b)[1..] == a[1..] + b;
      SectionSplit(a[1..], b, Section(a[0], current));
    }
  }

  lemma {:induction false} KeySplit(a: seq<Kind>, b: seq<Kind>, current: string, section: string, key: string)
    ensures var i := KeyAt(a, current, section, key);
      KeyAt(a + b, current, section, key)
      == if i < |a| then i else |a| + KeyAt(b, SectionAfter(a, current), section, key)
  {
    if |a| == 0 {
      assert a + b == b;
    } else {
      assert (a + b)[1..] == a[1..] + b;
      KeySplit(a[1..], b, Section(a[0], current), section, key);
    }
  }

  /** Where the key is found, its section is in force and nothing before sets it. */
  lemma {:induction false} KeyFound(kinds: seq<Kind>, current: string, section: string, key: string)
    requires KeyAt(kinds, current, section, key) < |kinds|
    ensures var i := KeyAt(kinds, current, section, key);
      && SectionAfter(kinds[..i], current) == section
      && KeyAt(kinds[..i], current, section, key) == i
      && Sets(kinds[i], key)
  {
    var i := KeyAt(kinds, current, section, key);
    if i > 0 {
      KeyFound(kinds[1..], Section(kinds[0], current), section, key);
      assert kinds[..i][1..] == kinds[1..][..i - 1];
    }
  }

  // ---- the written line ----

  /** What Go's quoting prints as it is, besides the quote and the backslash; wide says so
      for characters beyond ASCII. */
  predicate Printable(wide: char -> bool, c: char) {
    if c as int < 0x80 then 0x20 <= c as int < 0x7F else wide(c)
  }

  predicate Verbatim(wide: char -> bool, c: char) {
    Printable(wide, c) && c != '"' && c != '\\'
  }

  function HexDigit(n: nat): char
    requires n < 16
  {
    "0123456789abcdef"[n]
  }

  function Hex(n: nat, digits: nat): (s: string)
    ensures |s| == digits
    ensures forall c :: c in s ==> c in "0123456789abcdef"
  {
    if digits == 0 then "" else Hex(n / 16, digits - 1) + [HexDigit(n % 16)]
  }

  function EscapedChar(wide: char -> bool, c: char): string {
    var n := c as int;
    if c == '"' || c == '\\' then ['\\', c]
    else if Printable(wide, c) then [c]
    else if n == 7 then "\\a"
    else if n == 8 then "\\b"
    else if n == 12 then "\\f"
    else if n == 10 then "\\n"
    else if n == 13 then "\\r"
    else if n == 9 then "\\t"
    else if n == 11 then "\\v"
    else if n < 0x20 || n == 0x7F then "\\x" + Hex(n, 2)
    else if n < 0x10000 then "\\u" + Hex(n, 4)
    else "\\U" + Hex(n, 8)
  }

  function Escaped(wide: char -> bool, name: string): string {
    if |name| == 0 then "" else EscapedChar(wide, name[0]) + Escaped(wide, name[1..])
  }

  function Quote(value: string): string {
    "\"" + value + "\""
  }

  function ActiveLine(wide: char -> bool, name: string): string {
    "active = " + Quote(Escaped(wide, name))
  }

  lemma EscapedCharClean(wide: char -> bool, c: char)
    ensures '\n' !in EscapedChar(wide, c)
    ensures EscapedChar(wide, c) != ""
    ensures EscapedChar(wide, c) == [c] <==> Verbatim(wide, c)
    ensures !Verbatim(wide, c) ==> |EscapedChar(wide, c)| > 1
  {
  }

  /** Quoting leaves a name as it is exactly when every character of it prints as itself. */
  lemma {:induction false} EscapedIff(wide: char -> bool, name: string)
    ensures Escaped(wide, name) == name <==> forall c :: c in name ==> Verbatim(wide, c)
    ensures |Escaped(wide, name)| >= |name| && '\n' !in Escaped(wide, name)
  {
    if |name| > 0 {
      EscapedIff(wide, name[1..]);
      EscapedCharClean(wide, name[0]);
      assert name == [name[0]] + name[1..];
      if Verbatim(wide, name[0]) {
        assert Escaped(wide, name)[1..] == Escaped(wide, name[1..]);
      } else {
        assert |Escaped(wide, name)| > |name|;
        assert name[0] in name;
      }
    }
  }

  lemma TrimId(s: string)
    requires |s| > 0 && !IsSpace(s[0]) && !IsSpace(s[|s| - 1])
    ensures Trim(s) == s
  {
  }

  lemma TrimSpaceBefore(s: string)
    ensures Trim(" " + s) == Trim(s)
  {
    assert (" " + s)[1..] == s;
  }

  lemma TrimSpaceAfter(s: string)
    requires |s| > 0 && !IsSpace(s[0]) && !IsSpace(s[|s| - 1])
    ensures Trim(s + " ") == s
  {
    assert (s + " ")[..|s|] == s;
    assert TrimRight(s + " ") == TrimRight(s);
  }

  /** The written line sets active, and gives back the name as quoted. */
  lemma ActiveLineReads(wide: char -> bool, name: string)
    ensures '\n' !in ActiveLine(wide, name)
    ensures KindOf(ActiveLine(wide, name)) == Setting("active", Escaped(wide, name))
  {
    EscapedIff(wide, name);
    ActiveLineParts(Escaped(wide, name));
    SettingIs(ActiveLine(wide, name), 7, "active", Escaped(wide, name));
  }

  lemma SettingIs(line: string, eq: nat, key: string, value: string)
    requires eq < |line| && line[0] != '[' && Find(line, '=') == eq
    requires Trim(line[..eq]) == key && Trim(line[eq + 1..]) == Quote(value)
    ensures KindOfTrimmed(line) == Setting(key, value)
  {
    assert Quote(value)[1..|Quote(value)| - 1] == value;
  }

  lemma ActiveLineParts(value: string)
    ensures var line := "active = " + Quote(value);
      && Trim(line) == line && Find(line, '=') == 7
      && Trim(line[..7]) == "active" && Trim(line[8..]) == Quote(value)
  {
    var line := "active = " + Quote(value);
    TrimId(line);
    assert line[..8] == "active =";
    FindIs(line, '=', 7);
    assert line[..7] == "active" + " ";
    TrimSpaceAfter("active");
    assert line[8..] == " " + Quote(value);
    TrimSpaceBefore(Quote(value));
    TrimId(Quote(value));
  }

  lemma PersonaHeader()
    ensures KindOf("[persona]") == Header("persona") && KindOf("") == Neither
  {
    TrimId("[persona]");
    assert "[persona]"[1..8] == "persona";
    TrimId("persona");
  }

  // ---- the rewrite ----

  /** The text without its last newline. */
  function Bare(text: string): string {
    if |text| > 0 && text[|text| - 1] == '\n' then text[..|text| - 1] else text
  }

  /** The lines before the new key when the section has to be added. */
  function NewAbove(text: string): seq<string> {
    Split(Bare(text)) + (if |Trim(text)| > 0 then [""] else []) + ["[persona]"]
  }

  /** Where a rewrite puts its line: the lines before it and the lines after it. */
  function PlaceIn(lines: seq<string>, newAbove: seq<string>): (seq<string>, seq<string>) {
    var a, h := ActiveAt(Outline(lines)), HeaderAt(Outline(lines), "persona");
    if a < |lines| then (lines[..a], lines[a + 1..])
    else if h < |lines| then (lines[..h + 1], lines[h + 1..])
    else (newAbove, [""])
  }

  function Place(text: string): (seq<string>, seq<string>) {
    PlaceIn(Split(text), NewAbove(text))
  }

  function Rewritten(lines: seq<string>, newAbove: seq<string>, line: string): (out: seq<string>)
    ensures |out| > 0
  {
    var (above, below) := PlaceIn(lines, newAbove);
    above + [line] + below
  }

  function Merged(wide: char -> bool, text: string, name: string): string {
    Join(Rewritten(Split(text), NewAbove(text), ActiveLine(wide, name)))
  }

  const TITLE := "# aish config"

  /** The file written when there is none. */
  function Fresh(wide: char -> bool, name: string): string {
    TITLE + "\n" + "\n" + ("[persona]" + "\n" + ActiveLine(wide, name) + "\n")
  }

  /** The writer's scan for the active line, or else the section. */
  method Scan(kinds: seq<Kind>) returns (start: int, active: int)
    ensures active == if ActiveAt(kinds) < |kinds| then ActiveAt(kinds) else -1
    ensures active == -1 ==> start == if HeaderAt(kinds, "persona") < |kinds| then HeaderAt(kinds, "persona") else -1
  {
    start, active := -1, -1;
    var section := "";
    for i := 0 to |kinds|
      invariant active == -1
      invariant ActiveAt(kinds) == i + KeyAt(kinds[i..], section, "persona", "active")
      invariant start == -1 ==> HeaderAt(kinds, "persona") == i + HeaderAt(kinds[i..], "persona")
      invariant start != -1 ==> start == HeaderAt(kinds, "persona") < i
    {
      assert kinds[i..][0] == kinds[i] && kinds[i..][1..] == kinds[i + 1..];
      match kinds[i] {
        case Header(name) =>
          section := name;
          if section == "persona" && start == -1 {
            start := i;
          }
        case Setting(key, _) =>
          if section == "persona" && key == "active" {
            active := i;
            break;
          }
        case Neither =>
      }
    }
  }

  method MergeActivePersona(wide: char -> bool, existing: string, name: string) returns (r: string)
    ensures r == Merged(wide, existing, name)
  {
    var newActive := ActiveLine(wide, name);
    var lines := Split(existing);
    var start, active := Scan(Outline(lines));
    if active >= 0 || start >= 0 {
      r := RewriteLine(lines, NewAbove(existing), newActive, start, active);
    } else {
      r := AppendSection(existing, newActive);
    }
  }

  /** The first two cases of the rewrite. */
  method RewriteLine(lines: seq<string>, ghost newAbove: seq<string>, newActive: string, start: int, active: int)
    returns (text: string)
    requires active == if ActiveAt(Outline(lines)) < |lines| then ActiveAt(Outline(lines)) else -1
    requires active == -1 ==> 0 <= start < |lines| && start == HeaderAt(Outline(lines), "persona")
    ensures text == Join(Rewritten(lines, newAbove, newActive))
  {
    var out := lines;
    if active >= 0 {
      out := lines[active := newActive];
    } else {
      out := lines[..start + 1] + [newActive] + lines[start + 1..];
    }
    PlaceIs(lines, newAbove, newActive);
    assert out == Rewritten(lines, newAbove, newActive);
    text := Join(out);
  }

  /** The three cases of a rewrite, on the lines. */
  lemma PlaceIs(lines: seq<string>, newAbove: seq<string>, line: string)
    ensures var a, h := ActiveAt(Outline(lines)), HeaderAt(Outline(lines), "persona");
      Rewritten(lines, newAbove, line) ==
      if a < |lines| then lines[a := line]
      else if h < |lines| then lines[..h + 1] + [line] + lines[h + 1..]
      else newAbove + [line] + [""]
  {
    var a := ActiveAt(Outline(lines));
    PlaceInIs(lines, newAbove);
    if a < |lines| { ReplaceAt(lines, a, line); }
  }

  /** The three places of a rewrite. */
  lemma PlaceInIs(lines: seq<string>, newAbove: seq<string>)
    ensures var a, h := ActiveAt(Outline(lines)), HeaderAt(Outline(lines), "persona");
      PlaceIn(lines, newAbove) ==
      if a < |lines| then (lines[..a], lines[a + 1..])
      else if h < |lines| then (lines[..h + 1], lines[h + 1..])
      else (newAbove, [""])
  {
  }

  /** The last case of the rewrite: a new section at the end. */
  method AppendSection(existing: string, newActive: string) returns (text: string)
    ensures text == Join(NewAbove(existing) + [newActive] + [""])
  {
    text := existing;
    if |text| == 0 || text[|text| - 1] != '\n' {
      text := text + "\n";
    }
    assert text == Bare(existing) + "\n";
    BlankKeeps(existing);
    ghost var gap := if |Trim(existing)| > 0 then [""] else [];
    AppendedLines(Bare(existing), gap, newActive);
    OneFollowing(gap);
    if |Trim(text)| > 0 {
      text := text + "\n";
    }
    assert text == Bare(existing) + "\n" + Following(gap);
    text := text + ("[persona]" + "\n" + newActive + "\n");
  }

  lemma {:induction false} TrimNewline(s: string)
    ensures Trim(s + "\n") == Trim(s)
    decreases |s|
  {
    if |s| == 0 {
      assert TrimLeft("\n") == "";
    } else if IsSpace(s[0]) {
      TrimNewline(s[1..]);
      assert (s + "\n")[1..] == s[1..] + "\n";
    } else {
      assert (s + "\n")[..|s|] == s;
    }
  }

  lemma BlankKeeps(text: string)
    ensures Trim(Bare(text) + "\n") == Trim(text)
  {
    if Bare(text) == text {
      TrimNewline(text);
    } else {
      assert Bare(text) + "\n" == text;
    }
  }

  lemma FollowingOne(line: string, more: seq<string>)
    ensures Following([line] + more) == "\n" + line + Following(more)
  {
    assert ([line] + more)[1..] == more;
  }

  lemma FollowingThree(a: string, b: string)
    ensures Following([a, b, ""]) == "\n" + (a + "\n" + b + "\n")
  {
    FollowingOne("", []);
    FollowingOne(b, [""]);
    FollowingOne(a, [b, ""]);
    assert [""] + [] == [""] && [b] + [""] == [b, ""] && [a] + [b, ""] == [a, b, ""];
    assert "\n" + a + ("\n" + b + "\n") == "\n" + (a + "\n" + b + "\n");
  }

  lemma OneFollowing(gap: seq<string>)
    requires gap == [] || gap == [""]
    ensures Following(gap) == if |gap| == 0 then "" else "\n"
  {
    assert [""][1..] == [];
  }

  /** A newline may come before or after the gap, which is nothing or a newline itself. */
  lemma GapSwap(bare: string, gap: string, end: string)
    requires gap == "" || gap == "\n"
    ensures bare + gap + ("\n" + end) == bare + "\n" + gap + end
  {
    if gap == "" {
      assert bare + gap == bare && bare + "\n" + gap == bare + "\n";
      Associative(bare, "\n", end);
    } else {
      Associative(bare + "\n", "\n", end);
    }
  }

  /** The text that the last case appends to, and its lines. */
  lemma AppendedLines(bare: string, gap: seq<string>, line: string)
    requires gap == [] || gap == [""]
    ensures Join(Split(bare) + gap + ["[persona]"] + [line] + [""])
         == bare + "\n" + Following(gap) + ("[persona]" + "\n" + line + "\n")
  {
    var more := ["[persona]", line, ""];
    assert Split(bare) + gap + ["[persona]"] + [line] + [""] == Split(bare) + gap + more;
    JoinSplit(bare);
    JoinAt(Split(bare), gap);
    JoinAt(Split(bare) + gap, more);
    FollowingThree("[persona]", line);
    OneFollowing(gap);
    GapSwap(bare, Following(gap), "[persona]" + "\n" + line + "\n");
  }

  // ---- the reader ----

  /** What the reader finds: the value of the active line, unless an over-long line stops it. */
  function Reading(text: string): string {
    ReadingOf(Split(text))
  }

  function ReadingOf(lines: seq<string>): string {
    var kinds := Outline(lines);
    var a := ActiveAt(kinds);
    if a < LongAt(lines) && kinds[a].Setting? then kinds[a].value else ""
  }

  predicate IsComment(line: string) {
    var t := Trim(line);
    |t| == 0 || t[0] == '#'
  }

  lemma CommentIsNotActive(line: string)
    requires IsComment(line)
    ensures !KindOf(line).Header? && !Sets(KindOf(line), "active")
  {
    var t := Trim(line);
    var eq := Find(t, '=');
    if eq < |t| {
      var k := t[..eq];
      assert t[eq] == '=';
      assert k[0] == '#';
      assert TrimLeft(k) == k;
      assert TrimRight(k)[0] == '#';
    }
  }

  method ReadText(text: string) returns (value: string)
    ensures value == Reading(text)
  {
    var lines := Split(text);
    ghost var kinds := Outline(lines);
    var section := "";
    for i := 0 to |lines|
      invariant ActiveAt(kinds) == i + KeyAt(kinds[i..], section, "persona", "active")
      invariant LongAt(lines) == i + LongAt(lines[i..])
    {
      assert lines[i..][0] == lines[i] && lines[i..][1..] == lines[i + 1..];
      assert kinds[i..][0] == KindOf(lines[i]) && kinds[i..][1..] == kinds[i + 1..];
      if ByteLen(lines[i]) >= SCAN_LIMIT {
        return "";
      }
      if IsComment(lines[i]) {
        CommentIsNotActive(lines[i]);
        continue;
      }
      match KindOf(lines[i]) {
        case Header(name) => section := name;
        case Setting(key, v) =>
          if section == "persona" && key == "active" {
            return v;
          }
        case Neither =>
      }
    }
    value := "";
  }

  /** The config files, by home directory. */
  class Files {
    var texts: map<string, string>
    const wide: char -> bool

    constructor (wide: char -> bool)
      ensures texts == map[] && this.wide == wide
    {
      texts := map[];
      this.wide := wide;
    }

    method WriteActivePersona(home: string, name: string) returns (ok: bool)
      modifies this`texts
      ensures ok <==> home != "" && |name| > 0
      ensures !ok ==> texts == old(texts)
      ensures ok ==> texts == old(texts)[home :=
                       if home in old(texts) then Merged(wide, old(texts[home]), name) else Fresh(wide, name)]
    {
      if home == "" || |name| == 0 {
        return false;
      }
      if home !in texts {
        texts := texts[home := Fresh(wide, name)];
        return true;
      }
      var merged := MergeActivePersona(wide, texts[home], name);
      texts := texts[home := merged];
      ok := true;
    }

    method ReadActivePersona(home: string) returns (name: string)
      ensures name == if home != "" && home in texts then Reading(texts[home]) else ""
    {
      if home == "" || home !in texts {
        return "";
      }
      name := ReadText(texts[home]);
    }
  }

  // ---- the lens laws ----

  /** Lines that keep active unset and leave the reader inside the section. */
  predicate Opens(above: seq<string>) {
    SectionAfter(Outline(above), "") == "persona" && ActiveAt(Outline(above)) == |above|
  }

  lemma BareLines(text: string)
    ensures Split(text) == Split(Bare(text)) + if Bare(text) == text then [] else [""]
  {
    if Bare(text) != text {
      assert Bare(text) + "\n" + "" == text;
      SplitAt(Bare(text), "");
    }
  }

  lemma PlaceOpens(text: string)
    ensures Opens(Place(text).0)
  {
    if ActiveAt(Outline(Split(text))) == |Split(text)| {
      NewAboveOpens(text);
    }
    PlaceInOpens(Split(text), NewAbove(text));
  }

  lemma PlaceInOpens(lines: seq<string>, newAbove: seq<string>)
    requires ActiveAt(Outline(lines)) == |lines| ==> Opens(newAbove)
    ensures Opens(PlaceIn(lines, newAbove).0)
  {
    var kinds := Outline(lines);
    var a, h := ActiveAt(kinds), HeaderAt(kinds, "persona");
    if a < |lines| {
      KeyFound(kinds, "", "persona", "active");
      OutlineCut(lines, a);
    } else if h < |lines| {
      OutlineCut(lines, h + 1);
      HeaderOpens(kinds, h);
    }
  }

  lemma HeaderOpens(kinds: seq<Kind>, h: nat)
    requires ActiveAt(kinds) == |kinds| && h < |kinds| && kinds[h] == Header("persona")
    ensures SectionAfter(kinds[..h + 1], "") == "persona" && ActiveAt(kinds[..h + 1]) == h + 1
  {
    assert kinds == kinds[..h + 1] + kinds[h + 1..];
    KeySplit(kinds[..h + 1], kinds[h + 1..], "", "persona", "active");
    assert kinds[..h + 1] == kinds[..h] + [kinds[h]];
    SectionSplit(kinds[..h], [kinds[h]], "");
  }

  /** Blank lines and a header set no key. */
  lemma {:induction false} Quiet(kinds: seq<Kind>, current: string, section: string, key: string)
    requires forall k :: k in kinds ==> !k.Setting?
    ensures KeyAt(kinds, current, section, key) == |kinds|
  {
    if |kinds| > 0 {
      assert kinds[0] in kinds;
      Quiet(kinds[1..], Section(kinds[0], current), section, key);
    }
  }

  /** The lines that a new section adds around the new key. */
  lemma NewLines(text: string)
    ensures Outline(NewAbove(text)) ==
            Outline(Split(Bare(text))) + (if |Trim(text)| > 0 then [Neither] else []) + [Header("persona")]
  {
    PersonaHeader();
    var body, blank := Split(Bare(text)), if |Trim(text)| > 0 then [""] else [];
    OutlineSplit(body + blank, ["[persona]"]);
    OutlineSplit(body, blank);
  }

  /** What the lines say for a key of a section. */
  function Lookup(kinds: seq<Kind>, section: string, key: string): Kind {
    var i := KeyAt(kinds, "", section, key);
    if i < |kinds| then kinds[i] else Neither
  }

  /** A blank last line says nothing. */
  lemma BodyOutline(text: string)
    ensures Outline(Split(text)) == Outline(Split(Bare(text))) + if Bare(text) == text then [] else [Neither]
  {
    BareLines(text);
    PersonaHeader();
    OutlineSplit(Split(Bare(text)), [""]);
  }

  lemma BodyKey(text: string, section: string, key: string)
    ensures Lookup(Outline(Split(Bare(text))), section, key) == Lookup(Outline(Split(text)), section, key)
    ensures KeyAt(Outline(Split(text)), "", section, key) == |Split(text)| ==>
              KeyAt(Outline(Split(Bare(text))), "", section, key) == |Split(Bare(text))|
  {
    BodyOutline(text);
    QuietTail(Outline(Split(Bare(text))), if Bare(text) == text then [] else [Neither], section, key);
  }

  /** Lines that set no key, put last, change no lookup. */
  lemma QuietTail(body: seq<Kind>, tail: seq<Kind>, section: string, key: string)
    requires forall k :: k in tail ==> !k.Setting?
    ensures Lookup(body + tail, section, key) == Lookup(body, section, key)
    ensures KeyAt(body + tail, "", section, key) == |body + tail| <==> KeyAt(body, "", section, key) == |body|
  {
    Quiet(tail, SectionAfter(body, ""), section, key);
    KeySplit(body, tail, "", section, key);
  }

  lemma NewAboveOpens(text: string)
    requires ActiveAt(Outline(Split(text))) == |Split(text)|
    ensures Opens(NewAbove(text))
  {
    var body := Outline(Split(Bare(text)));
    var blank := if |Trim(text)| > 0 then [Neither] else [];
    var tail := blank + [Header("persona")];
    NewLines(text);
    BodyKey(text, "persona", "active");
    QuietTail(body, tail, "persona", "active");
    assert body + tail == body + blank + [Header("persona")];
    SectionSplit(body + blank, [Header("persona")], "");
  }

  lemma PlaceClean(text: string)
    ensures Clean(Place(text).0) && Clean(Place(text).1)
  {
    SplitClean(text);
    SplitClean(Bare(text));
    assert forall i :: 0 <= i < |"[persona]"| ==> "[persona]"[i] != '\n';
  }

  /** The rewritten text, line by line, with the written line where the reader will look. */
  lemma MergedLines(wide: char -> bool, text: string, name: string)
    ensures Split(Merged(wide, text, name)) == Place(text).0 + [ActiveLine(wide, name)] + Place(text).1
    ensures ActiveAt(Outline(Split(Merged(wide, text, name)))) == |Place(text).0|
  {
    var (above, below) := Place(text);
    PlaceClean(text);
    PlaceOpens(text);
    ActiveLineReads(wide, name);
    CleanJoin(above, ActiveLine(wide, name), below);
    OpenThenActive(above, ActiveLine(wide, name), below);
  }

  lemma CleanJoin(above: seq<string>, line: string, below: seq<string>)
    requires Clean(above) && Clean([line]) && Clean(below)
    ensures Split(Join(above + [line] + below)) == above + [line] + below
  {
    SplitJoin(above + [line] + below);
  }

  lemma OpenThenActive(above: seq<string>, line: string, below: seq<string>)
    requires Opens(above) && Sets(KindOf(line), "active")
    ensures ActiveAt(Outline(above + [line] + below)) == |above|
  {
    var more := [line] + below;
    assert above + [line] + below == above + more;
    OutlineSplit(above, more);
    KeySplit(Outline(above), Outline(more), "", "persona", "active");
    assert Outline(more)[0] == KindOf(line);
  }

  lemma ShortWith(above: seq<string>, line: string, below: seq<string>)
    ensures |above| < LongAt(above + [line] + below) <==> AllShort(above) && Short(line)
  {
    var more := [line] + below;
    assert above + [line] + below == above + more;
    LongSplit(above, more);
    assert more[0] == line;
  }

  lemma ReadPlaced(above: seq<string>, line: string, below: seq<string>, value: string)
    requires KindOf(line) == Setting("active", value)
    requires ActiveAt(Outline(above + [line] + below)) == |above|
    ensures ReadingOf(above + [line] + below) == if AllShort(above) && Short(line) then value else ""
  {
    ShortWith(above, line, below);
    assert Outline(above + [line] + below)[|above|] == KindOf(line);
  }

  /** Put-get: reading after a write gives the name as quoted exactly when no line up to the
      written one is too long for the reader; otherwise it gives nothing. */
  lemma ReadAfterWriteIff(wide: char -> bool, text: string, name: string)
    requires |name| > 0
    ensures Reading(Merged(wide, text, name)) == Escaped(wide, name)
       <==> AllShort(Place(text).0) && Short(ActiveLine(wide, name))
    ensures Reading(Merged(wide, text, name)) in [Escaped(wide, name), ""]
  {
    MergedLines(wide, text, name);
    ActiveLineReads(wide, name);
    EscapedIff(wide, name);
    ReadPlaced(Place(text).0, ActiveLine(wide, name), Place(text).1, Escaped(wide, name));
  }

  /** A persona name: lowercase letters, digits and dashes, not a dash first, at most 64. */
  predicate ValidName(name: string) {
    1 <= |name| <= 64 && name[0] != '-'
    && forall c :: c in name ==> 'a' <= c <= 'z' || '0' <= c <= '9' || c == '-'
  }

  lemma ValidNameLine(wide: char -> bool, name: string)
    requires ValidName(name)
    ensures Escaped(wide, name) == name && Short(ActiveLine(wide, name))
  {
    EscapedIff(wide, name);
    AsciiBytes(ActiveLine(wide, name));
  }

  /** The existing lines that stay before the written one. */
  function ExistingAbove(text: string): seq<string> {
    var lines := Split(text);
    var a, h := ActiveAt(Outline(lines)), HeaderAt(Outline(lines), "persona");
    if a < |lines| then lines[..a] else if h < |lines| then lines[..h + 1] else lines
  }

  /** For a valid name, the name itself comes back exactly when no existing line before
      the written one has 65536 bytes or more. */
  lemma ValidNameReadBackIff(wide: char -> bool, text: string, name: string)
    requires ValidName(name)
    ensures Reading(Merged(wide, text, name)) == name <==> AllShort(ExistingAbove(text))
  {
    ReadAfterWriteIff(wide, text, name);
    ValidNameLine(wide, name);
    NewAboveShort(text);
  }

  lemma ShortGap(body: seq<string>, gap: seq<string>)
    requires gap == [] || gap == [""]
    ensures AllShort(body + gap) <==> AllShort(body)
  {
    LongSplit(body, gap);
    assert |gap| == 1 ==> gap[1..] == [];
  }

  lemma NewAboveShort(text: string)
    ensures AllShort(NewAbove(text)) <==> AllShort(Split(text))
  {
    var body := Split(Bare(text));
    var gap := if |Trim(text)| > 0 then [""] else [];
    BareLines(text);
    ShortGap(body, if Bare(text) == text then [] else [""]);
    ShortHeader(body, gap);
  }

  lemma ShortHeader(body: seq<string>, gap: seq<string>)
    requires gap == [] || gap == [""]
    ensures AllShort(body + gap + ["[persona]"]) <==> AllShort(body)
  {
    HeaderIsShort("[persona]");
    ShortGap(body, gap);
    LongSplit(body + gap, ["[persona]"]);
  }

  lemma HeaderIsShort(line: string)
    requires line == "[persona]"
    ensures LongAt([line]) == 1
  {
    AsciiBytes(line);
  }

  /** A short line of text that is no header and no setting. */
  predicate Remark(line: string) {
    && 0 < |line| < SCAN_LIMIT && line[0] != '[' && !IsSpace(line[0]) && !IsSpace(line[|line| - 1])
    && forall i :: 0 <= i < |line| ==> line[i] != '\n' && line[i] != '=' && line[i] as int < 0x80
  }

  lemma TitleIsRemark()
    ensures Remark(TITLE)
  {
  }

  lemma RemarkLines(line: string)
    requires Remark(line)
    ensures Split(line) == [line] && Split(line + "\n") == [line, ""]
    ensures KindOf(line) == Neither && Short(line) && Trim(line + "\n") == line
  {
    SplitLine(line);
    SplitAt(line, "");
    assert line + "\n" + "" == line + "\n";
    TrimId(line);
    TrimNewline(line);
    FindIs(line, '=', |line|);
    AsciiBytes(line);
  }

  lemma NothingSet()
    ensures ActiveAt([Neither, Neither]) == 2 && HeaderAt([Neither, Neither], "persona") == 2
  {
    Quiet([Neither, Neither], "", "persona", "active");
    assert [Neither, Neither][1..] == [Neither];
    assert HeaderAt([Neither], "persona") == 1;
  }

  /** A text of one remark gets its section at the end. */
  lemma RemarkMerged(wide: char -> bool, remark: string, name: string)
    requires Remark(remark)
    ensures Merged(wide, remark + "\n", name) ==
            remark + "\n" + "\n" + ("[persona]" + "\n" + ActiveLine(wide, name) + "\n")
    ensures ExistingAbove(remark + "\n") == [remark, ""]
  {
    var text := remark + "\n";
    RemarkLines(remark);
    PersonaHeader();
    NothingSet();
    assert Outline([remark, ""]) == [Neither, Neither];
    assert Bare(text) == remark;
    PlaceIs([remark, ""], NewAbove(text), ActiveLine(wide, name));
    AppendedLines(remark, [""], ActiveLine(wide, name));
    OneFollowing([""]);
  }

  /** The file written when there is none is what a rewrite makes of its title line. */
  lemma FreshIsMerged(wide: char -> bool, name: string)
    ensures Fresh(wide, name) == Merged(wide, TITLE + "\n", name)
    ensures ExistingAbove(TITLE + "\n") == [TITLE, ""]
  {
    TitleIsRemark();
    RemarkMerged(wide, TITLE, name);
  }

  lemma TitleIsShort()
    ensures AllShort([TITLE, ""])
  {
    TitleIsRemark();
    RemarkLines(TITLE);
    AllShortIff([TITLE]);
    ShortGap([TITLE], [""]);
    assert [TITLE] + [""] == [TITLE, ""];
  }

  /** A valid name always reads back from the file written when there is none. */
  lemma FreshReads(wide: char -> bool, name: string)
    requires ValidName(name)
    ensures Reading(Fresh(wide, name)) == name
  {
    FreshIsMerged(wide, name);
    TitleIsShort();
    ValidNameReadBackIff(wide, TITLE + "\n", name);
  }

  /** A single line of filler. */
  lemma LongLine(text: string)
    requires |text| > 0 && forall i :: 0 <= i < |text| ==> text[i] == 'x'
    ensures Split(text) == [text] && KindOf(text) == Neither && (Short(text) <==> |text| < 65536)
  {
    AsciiBytes(text);
    SplitLine(text);
    TrimId(text);
    FindIs(text, '=', |text|);
  }

  /** Below a line of 65536 bytes or more the write is lost on the reader; below a shorter
      one it is not. */
  lemma LongLineHidesWrite(wide: char -> bool, n: nat)
    requires n > 0
    ensures Reading(Merged(wide, seq(n, _ => 'x'), "mentor")) == if n < 65536 then "mentor" else ""
  {
    var text := seq(n, _ => 'x');
    LongLine(text);
    assert Outline([text]) == [Neither];
    OnlyFiller(text);
    if n < 65536 {
      ValidNameReadBackIff(wide, text, "mentor");
    } else {
      HiddenWrite(wide, text, "mentor");
    }
  }

  lemma HiddenWrite(wide: char -> bool, text: string, name: string)
    requires ValidName(name) && !AllShort(ExistingAbove(text))
    ensures Reading(Merged(wide, text, name)) == ""
  {
    ReadAfterWriteIff(wide, text, name);
    ValidNameReadBackIff(wide, text, name);
    ValidNameLine(wide, name);
  }

  lemma OnlyFiller(text: string)
    requires Split(text) == [text] && Outline([text]) == [Neither]
    ensures ExistingAbove(text) == [text]
  {
    Quiet([Neither], "", "persona", "active");
    assert HeaderAt([Neither], "persona") == 1;
  }

  /** Put-put: the second of two writes wins, and leaves no trace of the first. */
  lemma WriteTwice(wide: char -> bool, text: string, a: string, b: string)
    ensures Merged(wide, Merged(wide, text, a), b) == Merged(wide, text, b)
  {
    MergedLines(wide, text, a);
    var (above, below) := Place(text);
    var lines := above + [ActiveLine(wide, a)] + below;
    assert lines[..|above|] == above && lines[|above| + 1..] == below;
  }

  /** Every line but the written one keeps its content and order: the active line is
      replaced, or one line comes after the section's first header, or the text grows at
      its end. */
  lemma OtherLinesKept(wide: char -> bool, text: string, name: string)
    ensures var lines, line := Split(text), ActiveLine(wide, name);
      var a, h := ActiveAt(Outline(lines)), HeaderAt(Outline(lines), "persona");
      if a < |lines| then Split(Merged(wide, text, name)) == lines[a := line]
      else if h < |lines| then Split(Merged(wide, text, name)) == lines[..h + 1] + [line] + lines[h + 1..]
      else text <= Merged(wide, text, name)
  {
    var line := ActiveLine(wide, name);
    MergedLines(wide, text, name);
    PlaceIs(Split(text), NewAbove(text), line);
    TextGrows(text, line);
  }

  lemma TextGrows(text: string, line: string)
    ensures text <= Join(NewAbove(text) + [line] + [""])
  {
    AppendedLines(Bare(text), if |Trim(text)| > 0 then [""] else [], line);
    assert text <= Bare(text) + "\n";
  }

  /** One line that is no header and does not set the key in force can come or go. */
  lemma SkipLine(above: seq<Kind>, line: Kind, below: seq<Kind>, section: string, key: string)
    requires !line.Header?
    requires !(SectionAfter(above, "") == section && Sets(line, key))
    ensures Lookup(above + [line] + below, section, key) == Lookup(above + below, section, key)
  {
    var more := [line] + below;
    KeySplit(above, below, "", section, key);
    KeySplit(above, more, "", section, key);
    KeySkips(line, below, SectionAfter(above, ""), section, key);
    Associative(above, [line], below);
  }

  lemma KeySkips(line: Kind, below: seq<Kind>, current: string, section: string, key: string)
    requires !line.Header? && !(current == section && Sets(line, key))
    ensures KeyAt([line] + below, current, section, key) == 1 + KeyAt(below, current, section, key)
  {
    assert ([line] + below)[1..] == below;
  }

  /** A write changes nothing that the file says for another key or another section. */
  lemma OtherKeysKept(wide: char -> bool, text: string, name: string, section: string, key: string)
    requires section != "persona" || key != "active"
    ensures Lookup(Outline(Split(Merged(wide, text, name))), section, key) == Lookup(Outline(Split(text)), section, key)
  {
    var (above, below) := Place(text);
    var line := ActiveLine(wide, name);
    MergedLines(wide, text, name);
    PlaceOpens(text);
    ActiveLineReads(wide, name);
    OutlineAround(above, line, below);
    SkipLine(Outline(above), KindOf(line), Outline(below), section, key);
    NewSectionSays(text, section, key);
    PlaceSays(Split(text), NewAbove(text), Place(text), section, key);
  }

  lemma OutlineAround(above: seq<string>, line: string, below: seq<string>)
    ensures Outline(above + [line] + below) == Outline(above) + [KindOf(line)] + Outline(below)
  {
  }

  /** The lines around a place say for a key what all the lines say. */
  predicate SaysSame(place: (seq<string>, seq<string>), lines: seq<string>, section: string, key: string) {
    KindsSay(Outline(place.0), Outline(place.1), Outline(lines), section, key)
  }

  predicate KindsSay(above: seq<Kind>, below: seq<Kind>, kinds: seq<Kind>, section: string, key: string) {
    Lookup(above + below, section, key) == Lookup(kinds, section, key)
  }

  /** Without its written line, a place says what the text says, but for the active persona. */
  lemma PlaceSays(lines: seq<string>, newAbove: seq<string>, place: (seq<string>, seq<string>), section: string, key: string)
    requires section != "persona" || key != "active"
    requires SaysSame((newAbove, [""]), lines, section, key) && place == PlaceIn(lines, newAbove)
    ensures SaysSame(place, lines, section, key)
  {
    PlaceOutline(lines, newAbove);
    AroundSays(Outline(lines), Outline(newAbove), Outline([""]), Outline(place.0), Outline(place.1), section, key);
  }

  /** What the lines around a place say. */
  lemma PlaceOutline(lines: seq<string>, newAbove: seq<string>)
    ensures var kinds, place := Outline(lines), PlaceIn(lines, newAbove);
      var a, h := ActiveAt(kinds), HeaderAt(kinds, "persona");
      if a < |kinds| then Outline(place.0) == kinds[..a] && Outline(place.1) == kinds[a + 1..]
      else if h < |kinds| then Outline(place.0) == kinds[..h + 1] && Outline(place.1) == kinds[h + 1..]
      else place == (newAbove, [""])
  {
    var a, h := ActiveAt(Outline(lines)), HeaderAt(Outline(lines), "persona");
    PlaceInIs(lines, newAbove);
    if a < |lines| {
      OutlineCut(lines, a);
      OutlineCut(lines, a + 1);
    } else if h < |lines| {
      OutlineCut(lines, h + 1);
    }
  }

  lemma AroundSays(kinds: seq<Kind>, newAbove: seq<Kind>, newBelow: seq<Kind>, above: seq<Kind>, below: seq<Kind>,
                   section: string, key: string)
    requires section != "persona" || key != "active"
    requires KindsSay(newAbove, newBelow, kinds, section, key)
    requires var a, h := ActiveAt(kinds), HeaderAt(kinds, "persona");
      if a < |kinds| then above == kinds[..a] && below == kinds[a + 1..]
      else if h < |kinds| then above == kinds[..h + 1] && below == kinds[h + 1..]
      else above == newAbove && below == newBelow
    ensures KindsSay(above, below, kinds, section, key)
  {
    if ActiveAt(kinds) < |kinds| {
      SkipActive(kinds, section, key);
    } else if HeaderAt(kinds, "persona") < |kinds| {
      CutAt(kinds, HeaderAt(kinds, "persona") + 1);
    }
  }

  lemma SkipActive(kinds: seq<Kind>, section: string, key: string)
    requires ActiveAt(kinds) < |kinds| && (section != "persona" || key != "active")
    ensures var a := ActiveAt(kinds); Lookup(kinds[..a] + kinds[a + 1..], section, key) == Lookup(kinds, section, key)
  {
    var a := ActiveAt(kinds);
    KeyFound(kinds, "", "persona", "active");
    SkipLine(kinds[..a], kinds[a], kinds[a + 1..], section, key);
    assert kinds[..a] + [kinds[a]] + kinds[a + 1..] == kinds;
  }

  lemma NewSectionSays(text: string, section: string, key: string)
    ensures SaysSame((NewAbove(text), [""]), Split(text), section, key)
  {
    var gap := if |Trim(text)| > 0 then [Neither] else [];
    NewLines(text);
    PersonaHeader();
    assert Outline([""]) == [Neither];
    NewTail(Outline(Split(Bare(text))), gap, section, key);
    BodyKey(text, section, key);
  }

  lemma NewTail(body: seq<Kind>, gap: seq<Kind>, section: string, key: string)
    requires gap == [] || gap == [Neither]
    ensures Lookup(body + gap + [Header("persona")] + [Neither], section, key) == Lookup(body, section, key)
  {
    var tail := gap + [Header("persona")] + [Neither];
    assert body + gap + [Header("persona")] + [Neither] == body + tail;
    QuietTail(body, tail, section, key);
  }

  // ---- lines written by hand ----

  predicate Blank(s: string) {
    forall c :: c in s ==> IsSpace(c)
  }

  /** Text with no white space at either end. */
  predicate Firm(s: string) {
    |s| > 0 ==> !IsSpace(s[0]) && !IsSpace(s[|s| - 1])
  }

  lemma {:induction false} BlankBefore(a: string, s: string)
    requires Blank(a)
    ensures TrimLeft(a + s) == TrimLeft(s)
  {
    if |a| == 0 {
      assert a + s == s;
    } else {
      assert a[0] in a && (a + s)[0] == a[0] && (a + s)[1..] == a[1..] + s;
      BlankBefore(a[1..], s);
    }
  }

  lemma {:induction false} BlankAfter(s: string, b: string)
    requires Blank(b)
    ensures TrimRight(s + b) == TrimRight(s)
  {
    if |b| == 0 {
      assert s + b == s;
    } else {
      var n := |b| - 1;
      assert b[n] in b && (s + b)[|s + b| - 1] == b[n] && (s + b)[..|s + b| - 1] == s + b[..n];
      BlankAfter(s, b[..n]);
    }
  }

  /** Trimming takes exactly the white space around a text. */
  lemma TrimAround(a: string, s: string, b: string)
    requires Blank(a) && Blank(b) && Firm(s)
    ensures Trim(a + s + b) == s
  {
    Associative(a, s, b);
    BlankBefore(a, s + b);
    if |s| == 0 {
      assert s + b == b + "" && TrimRight("") == "";
      BlankBefore(b, "");
    } else {
      BlankAfter(s, b);
    }
  }

  /** A section name in brackets, with any white space around both. */
  lemma HandHeader(a: string, b: string, name: string, c: string, d: string)
    requires Blank(a) && Blank(b) && Blank(c) && Blank(d) && Firm(name)
    ensures KindOf(a + ("[" + (b + name + c) + "]") + d) == Header(name)
  {
    var t := "[" + (b + name + c) + "]";
    TrimAround(a, t, d);
    assert t[1..|t| - 1] == b + name + c;
    TrimAround(b, name, c);
  }

  /** A value that stands in double quotes. */
  ghost predicate Quoted(v: string) {
    exists inner :: v == Quote(inner)
  }

  lemma UnquoteIs(v: string)
    ensures !Quoted(v) ==> Unquote(v) == v
    ensures Quoted(v) ==> v == Quote(Unquote(v))
  {
    if |v| >= 2 && v[0] == '"' && v[|v| - 1] == '"' {
      assert v == Quote(v[1..|v| - 1]);
    }
  }

  lemma KeyFirst(key: string, b: string, rest: string)
    requires Blank(b) && '=' !in key
    ensures Find(key + b + "=" + rest, '=') == |key + b|
  {
    var s := key + b + "=" + rest;
    assert forall k :: 0 <= k < |key| ==> s[k] == key[k] && key[k] in key;
    assert forall k :: |key| <= k < |key + b| ==> s[k] == b[k - |key|] && b[k - |key|] in b;
    FindIs(s, '=', |key + b|);
  }

  /** A key and a value around the first "=", with any white space around both: a value
      that is not in double quotes is read as it stands, one that is loses the quotes. */
  lemma HandSetting(a: string, key: string, b: string, c: string, value: string, d: string)
    requires Blank(a) && Blank(b) && Blank(c) && Blank(d) && Firm(key) && Firm(value)
    requires |key| > 0 && key[0] != '[' && '=' !in key
    ensures var kind := KindOf(a + (key + b + "=" + (c + value)) + d);
      && kind.Setting? && kind.key == key
      && (!Quoted(value) ==> kind.value == value)
      && (Quoted(value) ==> value == Quote(kind.value))
  {
    var told := if |value| == 0 then "" else c + value;
    HandTrimmed(a, key, b, c, value, d);
    KeyFirst(key, b, told);
    KeyAndValue(key, b, c, value);
    UnquoteIs(value);
  }

  /** What is left of the line once it is trimmed: a value that is empty takes its space along. */
  lemma HandTrimmed(a: string, key: string, b: string, c: string, value: string, d: string)
    requires Blank(a) && Blank(b) && Blank(c) && Blank(d) && Firm(key) && Firm(value) && |key| > 0
    ensures Trim(a + (key + b + "=" + (c + value)) + d) == key + b + "=" + if |value| == 0 then "" else c + value
  {
    var front := key + b + "=";
    if |value| == 0 {
      assert front + "" == front && c + value == c;
      assert a + (front + c) + d == a + front + (c + d);
      TrimAround(a, front, c + d);
    } else {
      TrimAround(a, front + (c + value), d);
    }
  }

  /** The two sides of the "=", each trimmed. */
  lemma KeyAndValue(key: string, b: string, c: string, value: string)
    requires Blank(b) && Blank(c) && Firm(key) && Firm(value)
    ensures var told := if |value| == 0 then "" else c + value;
      var t, eq := key + b + "=" + told, |key + b|;
      && Trim(t[..eq]) == key && Trim(t[eq + 1..]) == value
  {
    var told := if |value| == 0 then "" else c + value;
    var t, eq := key + b + "=" + told, |key + b|;
    assert t[..eq] == "" + key + b && t[eq + 1..] == told;
    TrimAround("", key, b);
    TrimAround(if |value| == 0 then "" else c, value, "");
    assert told == (if |value| == 0 then "" else c) + value + "";
  }

  /** A line that neither opens a section nor sets active. */
  predicate Idle(line: string) {
    !KindOf(line).Header? && !Sets(KindOf(line), "active")
  }

  lemma {:induction false} IdleStays(lines: seq<string>, current: string)
    requires forall l :: l in lines ==> Idle(l)
    ensures SectionAfter(Outline(lines), current) == current
    ensures KeyAt(Outline(lines), current, "persona", "active") == |lines|
  {
    if |lines| > 0 {
      assert lines[0] in lines;
      assert Outline(lines)[1..] == Outline(lines[1..]);
      IdleStays(lines[1..], current);
    }
  }

  lemma IdleOpens(above: seq<string>, header: string, between: seq<string>)
    requires ActiveAt(Outline(above)) == |above| && KindOf(header) == Header("persona")
    requires forall l :: l in between ==> Idle(l)
    ensures Opens(above + [header] + between)
  {
    var more := [header] + between;
    Associative(above, [header], between);
    OutlineSplit(above, more);
    OutlineSplit([header], between);
    SectionSplit(Outline(above), Outline(more), "");
    KeySplit(Outline(above), Outline(more), "", "persona", "active");
    assert Outline(more)[0] == Header("persona") && Outline(more)[1..] == Outline(between);
    IdleStays(between, "persona");
  }

  /** A file written by hand: after lines that set no persona and a spaced "[persona]",
      comments and other settings, the value of a spaced "active" line is what the reader
      finds, unless a line up to it is over-long. */
  lemma HandWritten(above: seq<string>, header: string, between: seq<string>,
                    a: string, b: string, c: string, value: string, d: string, below: seq<string>)
    requires Blank(a) && Blank(b) && Blank(c) && Blank(d) && Firm(value) && !Quoted(value)
    requires ActiveAt(Outline(above)) == |above| && KindOf(header) == Header("persona")
    requires forall l :: l in between ==> Idle(l)
    requires var line := a + ("active" + b + "=" + (c + value)) + d;
      Clean(above + [header] + between + [line] + below)
    ensures var line := a + ("active" + b + "=" + (c + value)) + d;
      Reading(Join(above + [header] + between + [line] + below)) ==
      if AllShort(above + [header] + between + [line]) then value else ""
  {
    var line := a + ("active" + b + "=" + (c + value)) + d;
    var before := above + [header] + between;
    HandSetting(a, "active", b, c, value, d);
    IdleOpens(above, header, between);
    OpenThenActive(before, line, below);
    ReadPlaced(before, line, below, value);
    LongSplit(before, [line]);
    SplitJoin(before + [line] + below);
  }

  /** Comments, blank lines and settings of other keys are idle. */
  lemma OthersIdle(line: string, a: string, key: string, b: string, c: string, value: string, d: string)
    requires Blank(a) && Blank(b) && Blank(c) && Blank(d) && Firm(key) && Firm(value)
    requires |key| > 0 && key[0] != '[' && '=' !in key && key != "active"
    ensures Idle(a + (key + b + "=" + (c + value)) + d)
    ensures IsComment(line) ==> Idle(line)
  {
    HandSetting(a, key, b, c, value, d);
    if IsComment(line) { CommentIsNotActive(line); }
  }
}
