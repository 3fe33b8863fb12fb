/** The environment table and variable expansion. */
module Environment {
  import opened Wrappers
  import opened Sequences

  // ---- the table: "KEY=VALUE" entries in insertion order ----

  function Prefix(name: string): string {
    name + "="
  }

  /** Position of the first entry that starts with name=; the length when there is none. */
  function Slot(vars: seq<string>, name: string): (i: nat)
    ensures i <= |vars|
    ensures i < |vars| ==> Prefix(name) <= vars[i]
    ensures forall k :: 0 <= k < i ==> !(Prefix(name) <= vars[k])
  {
    if vars == [] || Prefix(name) <= vars[0] then 0 else 1 + Slot(vars[1..], name)
  }

  function GetIn(vars: seq<string>, name: string): Option<string> {
    var i := Slot(vars, name);
    if name == "" || i == |vars| then None else Some(vars[i][|name| + 1..])
  }

  function SetIn(vars: seq<string>, name: string, value: string): seq<string> {
    var i := Slot(vars, name);
    if i == |vars| then vars + [Prefix(name) + value] else vars[i := Prefix(name) + value]
  }

  function UnsetIn(vars: seq<string>, name: string): seq<string> {
    var i := Slot(vars, name);
    if name == "" || i == |vars| then vars else vars[..i] + vars[i + 1..]
  }

  /** The entry at k is the first one of the name. */
  predicate First(vars: seq<string>, name: string, k: nat) {
    k < |vars| && name + "=" <= vars[k] && forall j :: 0 <= j < k ==> !(name + "=" <= vars[j])
  }

  predicate Has(vars: seq<string>, name: string) {
    exists k :: 0 <= k < |vars| && First(vars, name, k)
  }

  /** The first entry of the name is replaced where it stands, or a new one comes last. */
  predicate Puts(vars: seq<string>, vars': seq<string>, name: string, value: string) {
    && |vars'| == |vars| + (if Has(vars, name) then 0 else 1)
    && (forall k :: 0 <= k < |vars| ==> vars'[k] == if First(vars, name, k) then name + "=" + value else vars[k])
    && (!Has(vars, name) ==> vars'[|vars|] == name + "=" + value)
  }

  /** The first entry of the name goes, and nothing else. */
  ghost predicate Drops(vars: seq<string>, vars': seq<string>, name: string) {
    && (forall k :: 0 <= k < |vars| && First(vars, name, k) ==> vars' == vars[..k] + vars[k + 1..])
    && (!Has(vars, name) ==> vars' == vars)
  }

  lemma FirstSlot(vars: seq<string>, name: string)
    ensures Slot(vars, name) < |vars| ==> First(vars, name, Slot(vars, name))
    ensures forall k :: 0 <= k < |vars| && First(vars, name, k) ==> k == Slot(vars, name)
  {
  }

  lemma SetPuts(vars: seq<string>, name: string, value: string)
    ensures Puts(vars, SetIn(vars, name, value), name, value)
  {
    FirstSlot(vars, name);
  }

  lemma UnsetDrops(vars: seq<string>, name: string)
    ensures name != "" ==> Drops(vars, UnsetIn(vars, name), name)
    ensures name == "" ==> UnsetIn(vars, name) == vars
  {
    FirstSlot(vars, name);
  }

  lemma SlotIs(vars: seq<string>, name: string, i: nat)
    requires i <= |vars| && (i < |vars| ==> Prefix(name) <= vars[i])
    requires forall k :: 0 <= k < i ==> !(Prefix(name) <= vars[k])
    ensures Slot(vars, name) == i
  {
  }

  /** A set name reads back, and setting it never changes what another name reads, as long as
      neither contains '='. */
  lemma GetAfterSet(vars: seq<string>, name: string, value: string, other: string)
    requires name != "" && other != ""
    ensures GetIn(SetIn(vars, name, value), name) == Some(value)
    ensures '=' !in name && '=' !in other && other != name ==> GetIn(SetIn(vars, name, value), other) == GetIn(vars, other)
  {
    var i := Slot(vars, name);
    var after := SetIn(vars, name, value);
    assert after[i] == Prefix(name) + value;
    SlotIs(after, name, i);
    assert after[i][|name| + 1..] == value;
    if '=' !in name && '=' !in other && other != name {
      PlainNamesApart(name, other, value);
      if i < |vars| {
        assert vars[i] == Prefix(name) + vars[i][|name| + 1..];
        PlainNamesApart(name, other, vars[i][|name| + 1..]);
      }
      var k := Slot(vars, other);
      if k == |vars| && i == |vars| {
        SlotIs(after, other, k + 1);
      } else {
        SlotIs(after, other, k);
      }
    }
  }

  lemma PlainNamesApart(name: string, other: string, value: string)
    requires '=' !in name && '=' !in other && other != name
    ensures !(Prefix(other) <= Prefix(name) + value)
  {
    var entry := Prefix(name) + value;
    assert entry[|name|] == '=' && Prefix(other)[|other|] == '=';
    assert forall i :: 0 <= i < |name| ==> entry[i] == name[i] && name[i] in name;
    assert forall i :: 0 <= i < |other| ==> Prefix(other)[i] == other[i] && other[i] in other;
  }

  // ---- expansion ----

  predicate IsIdentStart(c: char) {
    c == '_' || 'A' <= c <= 'Z' || 'a' <= c <= 'z'
  }

  predicate IsIdentCont(c: char) {
    IsIdentStart(c) || '0' <= c <= '9'
  }

  predicate IsIdentifier(s: string) {
    s != "" && IsIdentStart(s[0]) && forall i :: 1 <= i < |s| ==> IsIdentCont(s[i])
  }

  function Digits(n: nat): string {
    var digit := ['0', '1', '2', '3', '4', '5', '6', '7', '8', '9'][n % 10];
    if n < 10 then [digit] else Digits(n / 10) + [digit]
  }

  function Itoa(n: int): string {
    if n < 0 then "-" + Digits(-n) else Digits(n)
  }

  /** Position of c in s; the length when it is absent. */
  function Find(s: string, c: char): (i: nat)
    ensures i <= |s|
    ensures i < |s| ==> s[i] == c
    ensures forall k :: 0 <= k < i ==> s[k] != c
  {
    if s == [] || s[0] == c then 0 else 1 + Find(s[1..], c)
  }

  /** Length of the run of identifier characters at the front of s. */
  function IdentRun(s: string): (n: nat)
    ensures n <= |s|
    ensures forall k :: 0 <= k < n ==> IsIdentCont(s[k])
    ensures n < |s| ==> !IsIdentCont(s[n])
  {
    if s == [] || !IsIdentCont(s[0]) then 0 else 1 + IdentRun(s[1..])
  }

  function ValueOf(vars: seq<string>, name: string): string {
    match GetIn(vars, name) case Some(v) => v case None => ""
  }

  function Braced(vars: seq<string>, exit: int, name: string): string {
    if name == "?" then Itoa(exit)
    else if IsIdentifier(name) then ValueOf(vars, name)
    else "${" + name + "}"
  }

  /** What a '$' outside single quotes turns into, and how much input it uses up; s is what
      follows the '$'. */
  function Dollar(vars: seq<string>, exit: int, s: string): (out: (string, nat))
    ensures out.1 <= |s|
  {
    if s == [] then ("$", 0)
    else if s[0] == '?' then (Itoa(exit), 1)
    else if s[0] == '{' then
      var end := Find(s[1..], '}');
      if end == |s| - 1 then ("$", 0) else (Braced(vars, exit, s[1..end + 1]), end + 2)
    else if IsIdentStart(s[0]) then (ValueOf(vars, s[..IdentRun(s)]), IdentRun(s))
    else ("$", 0)
  }

  /** What one turn of the loop writes, how much it reads, and the quote state after it. */
  datatype Turn = Turn(text: string, used: nat, inSingle: bool, inDouble: bool)

  function OneTurn(vars: seq<string>, exit: int, s: string, inSingle: bool, inDouble: bool): (t: Turn)
    requires s != []
    ensures 1 <= t.used <= |s|
  {
    if s[0] == '\'' && !inDouble then Turn([s[0]], 1, !inSingle, inDouble)
    else if s[0] == '"' && !inSingle then Turn([s[0]], 1, inSingle, !inDouble)
    else if inSingle || s[0] != '$' then Turn([s[0]], 1, inSingle, inDouble)
    else
      var d := Dollar(vars, exit, s[1..]);
      Turn(d.0, 1 + d.1, inSingle, inDouble)
  }

  function ExpandFrom(vars: seq<string>, exit: int, s: string, inSingle: bool, inDouble: bool): string
    decreases |s|
  {
    if s == [] then []
    else
      var t := OneTurn(vars, exit, s, inSingle, inDouble);
      t.text + ExpandFrom(vars, exit, s[t.used..], t.inSingle, t.inDouble)
  }

  lemma OneStep(vars: seq<string>, exit: int, s: string, inSingle: bool, inDouble: bool, t: Turn, out: string)
    requires s != [] && t == OneTurn(vars, exit, s, inSingle, inDouble)
    ensures out + ExpandFrom(vars, exit, s, inSingle, inDouble)
         == (out + t.text) + ExpandFrom(vars, exit, s[t.used..], t.inSingle, t.inDouble)
  {
    var more := ExpandFrom(vars, exit, s[t.used..], t.inSingle, t.inDouble);
    assert out + (t.text + more) == (out + t.text) + more;
  }

  /** Expand without its fast path. */
  function Expanded(vars: seq<string>, exit: int, input: string): string {
    ExpandFrom(vars, exit, input, false, false)
  }

  predicate Plain(s: string) {
    '$' !in s && '\'' !in s && '"' !in s
  }

  /** The fast path of Expand is right: without '$' and quotes nothing changes. */
  lemma {:induction false} PlainUnchanged(vars: seq<string>, exit: int, s: string)
    requires Plain(s)
    ensures Expanded(vars, exit, s) == s
  {
    if s != [] {
      assert s[0] in s && forall c :: c in s[1..] ==> c in s;
      PlainUnchanged(vars, exit, s[1..]);
    }
  }

  // ---- what a reference turns into ----

  /** A name: a letter or underscore, then letters, digits and underscores. */
  predicate IsName(name: string) {
    && |name| > 0 && !('0' <= name[0] <= '9')
    && forall i :: 0 <= i < |name| ==> Continues(name[i])
  }

  predicate Continues(c: char) {
    c == '_' || 'A' <= c <= 'Z' || 'a' <= c <= 'z' || '0' <= c <= '9'
  }

  /** What a name stands for: its value, or nothing when it is unset. */
  function Stands(vars: seq<string>, name: string): string {
    match GetIn(vars, name)
    case Some(value) => value
    case None => ""
  }

  /** Reading decimal digits. */
  function ReadDigits(s: string): int {
    if |s| == 0 then 0 else ReadDigits(s[..|s| - 1]) * 10 + (s[|s| - 1] as int - '0' as int)
  }

  /** s is the number in decimal: digits without a leading zero, and a minus if it is negative. */
  predicate IsDecimal(s: string, n: int) {
    if n < 0 then |s| > 0 && s[0] == '-' && IsDecimal(s[1..], -n)
    else
      && |s| > 0 && (forall i :: 0 <= i < |s| ==> '0' <= s[i] <= '9')
      && (s[0] == '0' ==> s == "0") && ReadDigits(s) == n
  }

  lemma {:induction false} DigitsAreDecimal(n: nat)
    ensures IsDecimal(Digits(n), n) && (n > 0 ==> Digits(n)[0] != '0')
  {
    var digit := ['0', '1', '2', '3', '4', '5', '6', '7', '8', '9'][n % 10];
    assert digit as int == '0' as int + n % 10;
    if n < 10 {
      assert [digit][..0] == [];
    } else {
      DigitsAreDecimal(n / 10);
      var s := Digits(n);
      assert s[..|s| - 1] == Digits(n / 10) && s[|s| - 1] == digit;
    }
  }

  lemma ItoaIsDecimal(n: int)
    ensures IsDecimal(Itoa(n), n)
  {
    if n < 0 {
      DigitsAreDecimal(-n);
      assert Itoa(n)[1..] == Digits(-n);
    } else {
      DigitsAreDecimal(n);
    }
  }

  lemma IsNameIff(name: string)
    ensures IsName(name) <==> IsIdentifier(name)
  {
  }

  lemma {:induction false} RunIs(name: string, post: string)
    requires forall i :: 0 <= i < |name| ==> Continues(name[i])
    requires |post| > 0 ==> !Continues(post[0])
    ensures IdentRun(name + post) == |name|
  {
    if |name| == 0 {
      assert name + post == post;
    } else {
      assert (name + post)[1..] == name[1..] + post;
      RunIs(name[1..], post);
    }
  }

  /** Outside single quotes, plain text comes out as it is. */
  lemma {:induction false} PlainFirst(vars: seq<string>, exit: int, pre: string, more: string, inDouble: bool)
    requires Plain(pre)
    ensures ExpandFrom(vars, exit, pre + more, false, inDouble) == pre + ExpandFrom(vars, exit, more, false, inDouble)
  {
    if |pre| == 0 {
      assert pre + more == more;
    } else {
      var c, rest := pre[0], pre[1..];
      assert c in pre && forall x :: x in rest ==> x in pre;
      CharFirst(vars, exit, c, rest + more, inDouble);
      PlainFirst(vars, exit, rest, more, inDouble);
      assert pre == [c] + rest;
      Associative([c], rest, more);
      Associative([c], rest, ExpandFrom(vars, exit, more, false, inDouble));
    }
  }

  lemma CharFirst(vars: seq<string>, exit: int, c: char, more: string, inDouble: bool)
    requires c != '$' && c != '\'' && c != '"'
    ensures ExpandFrom(vars, exit, [c] + more, false, inDouble) == [c] + ExpandFrom(vars, exit, more, false, inDouble)
  {
    assert ([c] + more)[1..] == more;
  }

  /** The text that a reference gives before a certain rest. */
  predicate Refers(vars: seq<string>, exit: int, ref: string, post: string, text: string) {
    |ref| > 0 && ref[0] == '$' && Dollar(vars, exit, ref[1..] + post) == (text, |ref| - 1)
  }

  lemma ReferenceFirst(vars: seq<string>, exit: int, ref: string, post: string, text: string, inDouble: bool)
    requires Refers(vars, exit, ref, post, text)
    ensures ExpandFrom(vars, exit, ref + post, false, inDouble) == text + ExpandFrom(vars, exit, post, false, inDouble)
  {
    var s := ref + post;
    assert s[0] == '$' && s[1..] == ref[1..] + post && s[|ref|..] == post;
    assert OneTurn(vars, exit, s, false, inDouble) == Turn(text, |ref|, false, inDouble);
  }

  lemma OneReference(vars: seq<string>, exit: int, pre: string, ref: string, post: string, text: string, inDouble: bool)
    requires Plain(pre) && Refers(vars, exit, ref, post, text)
    ensures ExpandFrom(vars, exit, pre + ref + post, false, inDouble)
         == pre + text + ExpandFrom(vars, exit, post, false, inDouble)
  {
    Associative(pre, ref, post);
    PlainFirst(vars, exit, pre, ref + post, inDouble);
    ReferenceFirst(vars, exit, ref, post, text, inDouble);
    Associative(pre, text, ExpandFrom(vars, exit, post, false, inDouble));
  }

  lemma OpenDouble(vars: seq<string>, exit: int, more: string)
    ensures Expanded(vars, exit, "\"" + more) == "\"" + ExpandFrom(vars, exit, more, false, true)
    ensures ExpandFrom(vars, exit, "\"" + more, false, true) == "\"" + Expanded(vars, exit, more)
  {
    assert ("\"" + more)[1..] == more;
  }

  /** Expansion turns a reference with plain text before it into this text, whatever follows;
      and a reference at the end of double quotes as well. */
  ghost predicate ExpandsTo(vars: seq<string>, exit: int, ref: string, post: string, text: string) {
    forall pre :: Plain(pre) ==> Expanded(vars, exit, pre + ref + post) == pre + text + Expanded(vars, exit, post)
  }

  ghost predicate ExpandsInDouble(vars: seq<string>, exit: int, ref: string, text: string) {
    forall pre, post :: Plain(pre) ==>
      Expanded(vars, exit, "\"" + (pre + ref + ("\"" + post))) == "\"" + (pre + text + ("\"" + Expanded(vars, exit, post)))
  }

  lemma RefersExpands(vars: seq<string>, exit: int, ref: string, post: string, text: string)
    requires Refers(vars, exit, ref, post, text)
    ensures ExpandsTo(vars, exit, ref, post, text)
  {
    forall pre | Plain(pre) ensures Expanded(vars, exit, pre + ref + post) == pre + text + Expanded(vars, exit, post) {
      OneReference(vars, exit, pre, ref, post, text, false);
    }
  }

  lemma RefersInDouble(vars: seq<string>, exit: int, ref: string, text: string)
    requires forall post :: Refers(vars, exit, ref, "\"" + post, text)
    ensures ExpandsInDouble(vars, exit, ref, text)
  {
    forall pre, post | Plain(pre)
      ensures Expanded(vars, exit, "\"" + (pre + ref + ("\"" + post))) == "\"" + (pre + text + ("\"" + Expanded(vars, exit, post)))
    {
      OneReference(vars, exit, pre, ref, "\"" + post, text, true);
      OpenDouble(vars, exit, post);
      OpenDouble(vars, exit, pre + ref + ("\"" + post));
    }
  }

  lemma NameRefers(vars: seq<string>, exit: int, name: string, post: string)
    requires IsName(name) && (|post| > 0 ==> !Continues(post[0]))
    ensures Refers(vars, exit, "$" + name, post, Stands(vars, name))
  {
    RunIs(name, post);
    assert ("$" + name)[1..] == name && (name + post)[..|name|] == name;
  }

  /** `$name` expands to what the name stands for, when what follows cannot continue the name;
      between double quotes, too. */
  lemma ExpandName(vars: seq<string>, exit: int, name: string, post: string)
    requires IsName(name) && (|post| > 0 ==> !Continues(post[0]))
    ensures ExpandsTo(vars, exit, "$" + name, post, Stands(vars, name))
    ensures ExpandsInDouble(vars, exit, "$" + name, Stands(vars, name))
  {
    NameRefers(vars, exit, name, post);
    RefersExpands(vars, exit, "$" + name, post, Stands(vars, name));
    forall more ensures Refers(vars, exit, "$" + name, "\"" + more, Stands(vars, name)) { NameRefers(vars, exit, name, "\"" + more); }
    RefersInDouble(vars, exit, "$" + name, Stands(vars, name));
  }

  lemma BraceRefers(vars: seq<string>, exit: int, inside: string, post: string)
    requires '}' !in inside
    ensures Refers(vars, exit, "${" + inside + "}", post, Braced(vars, exit, inside))
  {
    var ref := "${" + inside + "}";
    var s := ref[1..] + post;
    assert s[0] == '{' && s[1..] == inside + ("}" + post);
    assert forall k :: 0 <= k < |inside| ==> s[1..][k] == inside[k] && inside[k] in inside;
    assert s[1..][|inside|] == '}';
    FindIs(s[1..], '}', |inside|);
    assert s[1..|inside| + 1] == inside;
  }

  lemma BraceExpands(vars: seq<string>, exit: int, inside: string, post: string)
    requires '}' !in inside
    ensures ExpandsTo(vars, exit, "${" + inside + "}", post, Braced(vars, exit, inside))
    ensures ExpandsInDouble(vars, exit, "${" + inside + "}", Braced(vars, exit, inside))
  {
    BraceRefers(vars, exit, inside, post);
    RefersExpands(vars, exit, "${" + inside + "}", post, Braced(vars, exit, inside));
    forall more ensures Refers(vars, exit, "${" + inside + "}", "\"" + more, Braced(vars, exit, inside)) {
      BraceRefers(vars, exit, inside, "\"" + more);
    }
    RefersInDouble(vars, exit, "${" + inside + "}", Braced(vars, exit, inside));
  }

  /** `${name}` expands to what the name stands for, whatever follows. */
  lemma ExpandBraced(vars: seq<string>, exit: int, name: string, post: string)
    requires IsName(name)
    ensures ExpandsTo(vars, exit, "${" + name + "}", post, Stands(vars, name))
    ensures ExpandsInDouble(vars, exit, "${" + name + "}", Stands(vars, name))
  {
    forall c | c in name ensures c != '}' && c != '?' { }
    assert name != "?" by { assert "?"[0] == '?'; }
    BraceExpands(vars, exit, name, post);
    assert Braced(vars, exit, name) == Stands(vars, name);
  }

  /** Braces around anything but a name or `?` stay as they are. */
  lemma ExpandBadBraces(vars: seq<string>, exit: int, inside: string, post: string)
    requires '}' !in inside && inside != "?" && !IsName(inside)
    ensures ExpandsTo(vars, exit, "${" + inside + "}", post, "${" + inside + "}")
    ensures ExpandsInDouble(vars, exit, "${" + inside + "}", "${" + inside + "}")
  {
    BraceExpands(vars, exit, inside, post);
  }

  lemma StatusRefers(vars: seq<string>, exit: int, post: string)
    ensures Refers(vars, exit, "$?", post, Itoa(exit))
  {
    assert "$?"[1..] == "?" && ("?" + post)[0] == '?';
  }

  /** `$?` and `${?}` expand to the exit code in decimal. */
  lemma ExpandStatus(vars: seq<string>, exit: int, post: string) returns (text: string)
    ensures IsDecimal(text, exit)
    ensures ExpandsTo(vars, exit, "$?", post, text) && ExpandsInDouble(vars, exit, "$?", text)
    ensures ExpandsTo(vars, exit, "${?}", post, text) && ExpandsInDouble(vars, exit, "${?}", text)
  {
    text := Itoa(exit);
    ItoaIsDecimal(exit);
    StatusRefers(vars, exit, post);
    RefersExpands(vars, exit, "$?", post, text);
    forall more ensures Refers(vars, exit, "$?", "\"" + more, text) { StatusRefers(vars, exit, "\"" + more); }
    RefersInDouble(vars, exit, "$?", text);
    BraceExpands(vars, exit, "?", post);
    assert "${" + "?" + "}" == "${?}";
  }

  /** A dollar stays when nothing after it makes it a reference. */
  lemma ExpandLoneDollar(vars: seq<string>, exit: int, post: string)
    requires |post| > 0 ==> post[0] != '?' && (post[0] == '{' ==> '}' !in post) && (Continues(post[0]) ==> '0' <= post[0] <= '9')
    ensures ExpandsTo(vars, exit, "$", post, "$")
  {
    assert "$"[1..] + post == post;
    if |post| > 0 && post[0] == '{' {
      forall k | 0 <= k < |post| - 1 ensures post[1..][k] != '}' { assert post[k + 1] in post; }
      FindIs(post[1..], '}', |post| - 1);
    }
    RefersExpands(vars, exit, "$", post, "$");
  }

  /** Between single quotes text stays as it is, dollars and all. */
  lemma ExpandSingle(vars: seq<string>, exit: int, text: string, post: string)
    requires '\'' !in text
    ensures Expanded(vars, exit, "'" + text + "'" + post) == "'" + text + "'" + Expanded(vars, exit, post)
  {
    var s := "'" + text + "'" + post;
    assert s[1..] == text + ("'" + post);
    SingleStays(vars, exit, text, post);
    var rest := Expanded(vars, exit, post);
    assert "'" + (text + ("'" + rest)) == "'" + text + "'" + rest;
  }

  lemma {:induction false} SingleStays(vars: seq<string>, exit: int, text: string, post: string)
    requires '\'' !in text
    ensures ExpandFrom(vars, exit, text + ("'" + post), true, false) == text + ("'" + Expanded(vars, exit, post))
  {
    if |text| == 0 {
      assert text + ("'" + post) == "'" + post && ("'" + post)[1..] == post;
    } else {
      assert text[0] in text && forall c :: c in text[1..] ==> c in text;
      assert (text + ("'" + post))[1..] == text[1..] + ("'" + post);
      SingleStays(vars, exit, text[1..], post);
      assert text == [text[0]] + text[1..];
    }
  }

  /** After Set(name, value), `$name` expands to the value. */
  lemma SetExpands(vars: seq<string>, exit: int, name: string, value: string, post: string)
    requires IsName(name) && (|post| > 0 ==> !Continues(post[0]))
    ensures ExpandsTo(SetIn(vars, name, value), exit, "$" + name, post, value)
  {
    GetAfterSet(vars, name, value, name);
    ExpandName(SetIn(vars, name, value), exit, name, post);
  }

  class Env {
    var vars: seq<string>

    constructor ()
      ensures vars == []
    {
      vars := [];
    }

    /** Set fails on the empty name only. */
    method Set(name: string, value: string) returns (ok: bool)
      modifies this
      ensures ok <==> name != ""
      ensures vars == if ok then SetIn(old(vars), name, value) else old(vars)
    {
      if name == "" {
        return false;
      }
      ok := true;
      for i := 0 to |vars|
        invariant vars == old(vars)
        invariant forall k :: 0 <= k < i ==> !(Prefix(name) <= vars[k])
      {
        if Prefix(name) <= vars[i] {
          SlotIs(vars, name, i);
          vars := vars[i := Prefix(name) + value];
          return;
        }
      }
      SlotIs(vars, name, |vars|);
      vars := vars + [Prefix(name) + value];
    }

    method Get(name: string) returns (value: Option<string>)
      ensures value == GetIn(vars, name)
    {
      if name == "" {
        return None;
      }
      for i := 0 to |vars|
        invariant forall k :: 0 <= k < i ==> !(Prefix(name) <= vars[k])
      {
        if Prefix(name) <= vars[i] {
          SlotIs(vars, name, i);
          return Some(vars[i][|name| + 1..]);
        }
      }
      SlotIs(vars, name, |vars|);
      value := None;
    }

    method Unset(name: string)
      modifies this
      ensures vars == UnsetIn(old(vars), name)
    {
      if name == "" {
        return;
      }
      for i := 0 to |vars|
        invariant vars == old(vars)
        invariant forall k :: 0 <= k < i ==> !(Prefix(name) <= vars[k])
      {
        if Prefix(name) <= vars[i] {
          SlotIs(vars, name, i);
          vars := vars[..i] + vars[i + 1..];
          return;
        }
      }
      SlotIs(vars, name, |vars|);
    }

    method Expand(input: string, lastExit: int) returns (out: string)
      ensures out == Expanded(vars, lastExit, input)
    {
      if Plain(input) {
        PlainUnchanged(vars, lastExit, input);
        return input;
      }
      out := "";
      var inSingle, inDouble := false, false;
      var i := 0;
      ghost var rest := input;
      while i < |input|
        invariant 0 <= i <= |input| && rest == input[i..]
        invariant out + ExpandFrom(vars, lastExit, rest, inSingle, inDouble) == Expanded(vars, lastExit, input)
      {
        var turn := Take(input[i..], lastExit, inSingle, inDouble);
        OneStep(vars, lastExit, rest, inSingle, inDouble, turn, out);
        rest := rest[turn.used..];
        out := out + turn.text;
        inSingle, inDouble := turn.inSingle, turn.inDouble;
        i := i + turn.used;
      }
    }

    /** The body of the loop of Expand. */
    method Take(s: string, lastExit: int, inSingle: bool, inDouble: bool) returns (turn: Turn)
      requires s != []
      ensures turn == OneTurn(vars, lastExit, s, inSingle, inDouble)
    {
      var r := s[0];
      if r == '\'' && !inDouble {
        return Turn([r], 1, !inSingle, inDouble);
      }
      if r == '"' && !inSingle {
        return Turn([r], 1, inSingle, !inDouble);
      }
      if inSingle || r != '$' {
        return Turn([r], 1, inSingle, inDouble);
      }
      var text, used := ExpandDollar(s[1..], lastExit);
      turn := Turn(text, 1 + used, inSingle, inDouble);
    }

    /** The lookahead after a '$'. */
    method ExpandDollar(s: string, lastExit: int) returns (text: string, used: nat)
      ensures (text, used) == Dollar(vars, lastExit, s)
    {
      if s == [] {
        return "$", 0;
      }
      if s[0] == '?' {
        return Itoa(lastExit), 1;
      }
      if s[0] == '{' {
        var end := 1;
        while end < |s| && s[end] != '}'
          invariant 1 <= end <= |s|
          invariant forall k :: 1 <= k < end ==> s[k] != '}'
        {
          end := end + 1;
        }
        FindIs(s[1..], '}', end - 1);
        if end == |s| {
          return "$", 0;
        }
        return Braced(vars, lastExit, s[1..end]), end + 1;
      }
      if IsIdentStart(s[0]) {
        var j := 0;
        while j < |s| && IsIdentCont(s[j])
          invariant 0 <= j <= |s|
          invariant forall k :: 0 <= k < j ==> IsIdentCont(s[k])
        {
          j := j + 1;
        }
        assert j == IdentRun(s);
        var v := Get(s[..j]);
        return if v.Some? then v.value else "", j;
      }
      return "$", 0;
    }
  }

  lemma FindIs(s: string, c: char, i: nat)
    requires i <= |s| && (i < |s| ==> s[i] == c)
    requires forall k :: 0 <= k < i ==> s[k] != c
    ensures Find(s, c) == i
  {
  }

  /** FromSlice: entries without a name are skipped, later duplicates overwrite. */
  function FromEntries(initial: seq<string>): seq<string> {
    if initial == [] then []
    else
      var kv := initial[|initial| - 1];
      var before := FromEntries(initial[..|initial| - 1]);
      var eq := Find(kv, '=');
      if eq == 0 || eq == |kv| then before else SetIn(before, kv[..eq], kv[eq + 1..])
  }

  // ---- what the table means to a reader ----

  /** At most one entry carries the name. */
  predicate OneEntry(vars: seq<string>, name: string) {
    forall i, j :: 0 <= i < j < |vars| ==> !(Prefix(name) <= vars[i] && Prefix(name) <= vars[j])
  }

  /** No name is carried by two entries. */
  ghost predicate OneEach(vars: seq<string>) {
    forall name :: '=' !in name ==> OneEntry(vars, name)
  }

  lemma EntryOf(name: string, other: string, value: string)
    requires '=' !in name && '=' !in other
    ensures Prefix(other) <= Prefix(name) + value <==> other == name
  {
    if other != name { PlainNamesApart(name, other, value); }
  }

  /** Setting a name keeps one entry for each name. */
  lemma SetKeepsOneEach(vars: seq<string>, name: string, value: string)
    requires OneEach(vars) && '=' !in name
    ensures OneEach(SetIn(vars, name, value))
  {
    var after := SetIn(vars, name, value);
    var n := Slot(vars, name);
    forall other | '=' !in other ensures OneEntry(after, other) {
      EntryOf(name, other, value);
      forall i, j | 0 <= i < j < |after| ensures !(Prefix(other) <= after[i] && Prefix(other) <= after[j]) {
        assert OneEntry(vars, other);
        assert i != n ==> after[i] == vars[i];
        assert j != n ==> after[j] == vars[j];
      }
    }
  }

  lemma UnsetKeepsOneEach(vars: seq<string>, name: string)
    requires OneEach(vars)
    ensures OneEach(UnsetIn(vars, name))
  {
    forall other | '=' !in other ensures OneEntry(UnsetIn(vars, name), other) { assert OneEntry(vars, other); }
  }

  lemma {:induction false} FromEntriesOneEach(initial: seq<string>)
    ensures OneEach(FromEntries(initial))
  {
    if initial != [] {
      FromEntriesOneEach(initial[..|initial| - 1]);
      var kv := initial[|initial| - 1];
      var eq := Find(kv, '=');
      if 0 < eq < |kv| { SetKeepsOneEach(FromEntries(initial[..|initial| - 1]), kv[..eq], kv[eq + 1..]); }
    }
  }

  /** An unset name reads nothing if and only if at most one entry carried it; so it always
      does in a table that FromSlice, Set with plain names and Unset have built. */
  lemma GetAfterUnsetIff(vars: seq<string>, name: string)
    requires name != ""
    ensures GetIn(UnsetIn(vars, name), name) == None <==> OneEntry(vars, name)
  {
    var after, n := UnsetIn(vars, name), Slot(vars, name);
    if n < |vars| {
      var m := Slot(after, name);
      if m < |after| {
        assert m >= n && Prefix(name) <= vars[m + 1];
        assert !OneEntry(vars, name);
      } else {
        forall i, j | 0 <= i < j < |vars| ensures !(Prefix(name) <= vars[i] && Prefix(name) <= vars[j]) {
          if n < j { assert after[j - 1] == vars[j]; }
        }
      }
    }
  }

  /** Taking out an entry that does not carry the name leaves what the name reads. */
  lemma RemoveOther(vars: seq<string>, n: nat, other: string)
    requires n < |vars| && !(Prefix(other) <= vars[n])
    ensures GetIn(vars[..n] + vars[n + 1..], other) == GetIn(vars, other)
  {
    var k := Slot(vars, other);
    SlotIs(vars[..n] + vars[n + 1..], other, if n < k then k - 1 else k);
  }

  /** Unsetting a name leaves what every other name reads. */
  lemma UnsetOther(vars: seq<string>, name: string, other: string)
    requires '=' !in name && '=' !in other && other != name
    ensures GetIn(UnsetIn(vars, name), other) == GetIn(vars, other)
  {
    var n := Slot(vars, name);
    if name != "" && n < |vars| {
      var value := vars[n][|name| + 1..];
      assert vars[n] == Prefix(name) + value;
      EntryOf(name, other, value);
      RemoveOther(vars, n, other);
    }
  }

  /** What the last entry of the name says. */
  function LastEntry(initial: seq<string>, name: string): Option<string> {
    if initial == [] then None
    else
      var kv := initial[|initial| - 1];
      var eq := Find(kv, '=');
      if eq < |kv| && kv[..eq] == name then Some(kv[eq + 1..]) else LastEntry(initial[..|initial| - 1], name)
  }

  /** After FromSlice every name reads what its last entry says. */
  lemma {:induction false} GetAfterFromSlice(initial: seq<string>, name: string)
    requires name != "" && '=' !in name
    ensures GetIn(FromEntries(initial), name) == LastEntry(initial, name)
  {
    if initial != [] {
      var kv := initial[|initial| - 1];
      var eq := Find(kv, '=');
      GetAfterFromSlice(initial[..|initial| - 1], name);
      if 0 < eq < |kv| { GetAfterSet(FromEntries(initial[..|initial| - 1]), kv[..eq], kv[eq + 1..], name); }
    }
  }

  method FromSlice(initial: seq<string>) returns (e: Env)
    ensures fresh(e) && e.vars == FromEntries(initial)
  {
    e := new Env();
    for i := 0 to |initial|
      invariant fresh(e) && e.vars == FromEntries(initial[..i])
    {
      assert initial[..i + 1][..i] == initial[..i];
      var kv := initial[i];
      var eq := Find(kv, '=');
      if eq == 0 || eq == |kv| {
        continue;
      }
      var _ := e.Set(kv[..eq], kv[eq + 1..]);
    }
    assert initial[..|initial|] == initial;
  }
}
