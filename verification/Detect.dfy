/** Parsed pipelines, and which of their arguments a destructive command touches. */
module Pipelines {

  datatype Command = Command(name: string, args: seq<string>)

  datatype Pipeline = Pipeline(commands: seq<Command>, background: bool, tainted: bool)
}

module Detect {
  import opened Sequences
  import opened Pipelines

  const DESTRUCTIVE: set<string> := {"rm", "rmdir", "unlink", "shred", "srm", "truncate", "dd", "mv"}

  function ValueFlags(name: string): set<string> {
    if name == "truncate" then {"-s", "--size", "-r", "--reference"}
    else if name == "shred" then {"-n", "--iterations", "-s", "--size"}
    else {}
  }

  predicate IsFlag(a: string) {
    a != [] && a[0] == '-' && a != "-"
  }

  /** The positional arguments: flags are passed over, some with the value that follows
      them, until "--" makes everything positional. */
  function FileArgsFrom(args: seq<string>, valueFlags: set<string>, endOfOpts: bool, skipNext: bool): seq<string> {
    if |args| == 0 then []
    else
      var a, rest := args[0], args[1..];
      if skipNext then FileArgsFrom(rest, valueFlags, endOfOpts, false)
      else if endOfOpts then [a] + FileArgsFrom(rest, valueFlags, true, false)
      else if a == "--" then FileArgsFrom(rest, valueFlags, true, false)
      else if IsFlag(a) then FileArgsFrom(rest, valueFlags, false, '=' !in a && a in valueFlags)
      else [a] + FileArgsFrom(rest, valueFlags, false, false)
  }

  function FileArgs(args: seq<string>, valueFlags: set<string>): seq<string> {
    FileArgsFrom(args, valueFlags, false, false)
  }

  /** One argument read by the loop, which has out so far. */
  lemma ArgStep(out: seq<string>, args: seq<string>, valueFlags: set<string>, endOfOpts: bool, skipNext: bool)
    requires |args| > 0
    ensures var a, rest := args[0], args[1..];
      out + FileArgsFrom(args, valueFlags, endOfOpts, skipNext) ==
      if skipNext then out + FileArgsFrom(rest, valueFlags, endOfOpts, false)
      else if endOfOpts then out + [a] + FileArgsFrom(rest, valueFlags, true, false)
      else if a == "--" then out + FileArgsFrom(rest, valueFlags, true, false)
      else if IsFlag(a) then out + FileArgsFrom(rest, valueFlags, false, '=' !in a && a in valueFlags)
      else out + [a] + FileArgsFrom(rest, valueFlags, false, false)
  {
    Associative(out, [args[0]], FileArgsFrom(args[1..], valueFlags, endOfOpts, false));
  }

  /** extractFileArgs. */
  method ExtractFileArgs(args: seq<string>, valueFlags: set<string>) returns (out: seq<string>)
    ensures out == FileArgs(args, valueFlags) == PathArgs(args, valueFlags)
  {
    out := [];
    var endOfOpts, skipNext := false, false;
    ghost var rest := args;
    for i := 0 to |args|
      invariant rest == args[i..]
      invariant out + FileArgsFrom(rest, valueFlags, endOfOpts, skipNext) == FileArgs(args, valueFlags)
    {
      var a := args[i];
      ArgStep(out, rest, valueFlags, endOfOpts, skipNext);
      rest := rest[1..];
      if skipNext {
        skipNext := false;
      } else if endOfOpts {
        out := out + [a];
      } else if a == "--" {
        endOfOpts := true;
      } else if IsFlag(a) {
        if '=' !in a && a in valueFlags {
          skipNext := true;
        }
      } else {
        out := out + [a];
      }
    }
    assert out + [] == out;
    FileArgsArePaths(args, valueFlags);
  }

  predicate IsDestructive(pl: Pipeline) {
    exists i :: 0 <= i < |pl.commands| && pl.commands[i].name in DESTRUCTIVE
  }

  predicate HasMv(pl: Pipeline) {
    exists i :: 0 <= i < |pl.commands| && pl.commands[i].name == "mv"
  }

  function PairsOf(c: Command): seq<(string, string)> {
    var args := FileArgs(c.args, {});
    if c.name != "mv" || |args| < 2 then []
    else seq(|args| - 1, i requires 0 <= i < |args| - 1 => (args[i], args[|args| - 1]))
  }

  function AllPairs(commands: seq<Command>): seq<(string, string)> {
    if |commands| == 0 then [] else PairsOf(commands[0]) + AllPairs(commands[1..])
  }

  /** The pairs of one mv stage. */
  method StagePairs(c: Command) returns (out: seq<(string, string)>)
    requires c.name == "mv"
    ensures out == PairsOf(c)
  {
    out := [];
    var args := ExtractFileArgs(c.args, {});
    if |args| < 2 {
      return;
    }
    var dst := args[|args| - 1];
    for k := 0 to |args| - 1
      invariant out == PairsOf(c)[..k]
    {
      out := out + [(args[k], dst)];
    }
  }

  /** One more stage, with the pairs of the stages before it. */
  lemma PairsStep(out: seq<(string, string)>, commands: seq<Command>)
    requires |commands| > 0
    ensures out + AllPairs(commands) == out + PairsOf(commands[0]) + AllPairs(commands[1..])
    ensures commands[0].name != "mv" ==> out + PairsOf(commands[0]) == out
  {
    Associative(out, PairsOf(commands[0]), AllPairs(commands[1..]));
  }

  /** RenameTargets. */
  method RenameTargets(pl: Pipeline) returns (out: seq<(string, string)>)
    ensures out == AllPairs(pl.commands)
    ensures out == MovedOf(pl.commands)
    ensures MovesExactly(pl.commands, out)
  {
    out := [];
    ghost var rest := pl.commands;
    for i := 0 to |pl.commands|
      invariant rest == pl.commands[i..] && out + AllPairs(rest) == AllPairs(pl.commands)
    {
      var c := pl.commands[i];
      PairsStep(out, rest);
      rest := rest[1..];
      if c.name != "mv" {
        continue;
      }
      var pairs := StagePairs(c);
      out := out + pairs;
    }
    assert out + [] == out;
    PairsAre(pl.commands);
  }

  function OfArgs(args: seq<string>): seq<string> {
    if |args| == 0 then []
    else (if "of=" <= args[0] && args[0] != "of=" then [args[0][3..]] else []) + OfArgs(args[1..])
  }

  function TargetsOf(c: Command): seq<string> {
    if c.name !in DESTRUCTIVE then []
    else if c.name == "dd" then OfArgs(c.args)
    else if c.name == "mv" then
      var args := FileArgs(c.args, {});
      if |args| >= 2 then args[..|args| - 1] else []
    else FileArgs(c.args, ValueFlags(c.name))
  }

  function AllTargets(commands: seq<Command>): seq<string> {
    if |commands| == 0 then [] else TargetsOf(commands[0]) + AllTargets(commands[1..])
  }

  method StageTargets(c: Command) returns (out: seq<string>)
    requires c.name in DESTRUCTIVE
    ensures out == TargetsOf(c)
  {
    out := [];
    if c.name == "dd" {
      for k := 0 to |c.args|
        invariant out + OfArgs(c.args[k..]) == OfArgs(c.args)
      {
        assert c.args[k..][0] == c.args[k] && c.args[k..][1..] == c.args[k + 1..];
        Associative(out, [c.args[k][if "of=" <= c.args[k] then 3 else 0..]], OfArgs(c.args[k + 1..]));
        if "of=" <= c.args[k] && c.args[k] != "of=" {
          out := out + [c.args[k][3..]];
        }
      }
    } else if c.name == "mv" {
      var args := ExtractFileArgs(c.args, {});
      if |args| >= 2 {
        out := args[..|args| - 1];
      }
    } else {
      out := ExtractFileArgs(c.args, ValueFlags(c.name));
    }
  }

  /** TargetPaths. */
  method TargetPaths(pl: Pipeline) returns (out: seq<string>)
    ensures out == AllTargets(pl.commands)
    ensures out == TakenOf(pl.commands)
    ensures TakesExactly(pl.commands, out)
  {
    out := [];
    for i := 0 to |pl.commands|
      invariant out + AllTargets(pl.commands[i..]) == AllTargets(pl.commands)
    {
      var c := pl.commands[i];
      assert pl.commands[i..][0] == c && pl.commands[i..][1..] == pl.commands[i + 1..];
      if c.name !in DESTRUCTIVE {
        continue;
      }
      var targets := StageTargets(c);
      Associative(out, targets, AllTargets(pl.commands[i + 1..]));
      out := out + targets;
    }
    assert pl.commands[|pl.commands|..] == [];
    assert out + [] == out;
    TargetsAre(pl.commands);
  }

  lemma {:induction false} AfterEnd(args: seq<string>, valueFlags: set<string>)
    ensures FileArgsFrom(args, valueFlags, true, false) == args
  {
    if |args| > 0 { AfterEnd(args[1..], valueFlags); }
  }

  /** No "--" among the arguments ends the options, and the last one wants no value. */
  predicate StaysOpen(args: seq<string>, valueFlags: set<string>, skipNext: bool) {
    if |args| == 0 then !skipNext
    else
      var a, rest := args[0], args[1..];
      if skipNext then StaysOpen(rest, valueFlags, false)
      else a != "--" && StaysOpen(rest, valueFlags, IsFlag(a) && '=' !in a && a in valueFlags)
  }

  /** The first "--" that is not a flag's value ends the flags: what follows is taken for
      paths, all of it, and nothing that looks like a flag was taken for a path before it. */
  lemma {:induction false} AfterDashDash(before: seq<string>, after: seq<string>, valueFlags: set<string>, skipNext: bool)
    requires StaysOpen(before, valueFlags, skipNext)
    ensures FileArgsFrom(before + ["--"] + after, valueFlags, false, skipNext)
         == FileArgsFrom(before, valueFlags, false, skipNext) + after
    ensures forall a :: a in FileArgsFrom(before, valueFlags, false, skipNext) ==> !IsFlag(a)
    decreases |before|
  {
    var args := before + ["--"] + after;
    if |before| == 0 {
      assert args[1..] == after;
      AfterEnd(after, valueFlags);
    } else {
      var a, rest := before[0], before[1..];
      assert args[0] == a && args[1..] == rest + ["--"] + after;
      AfterDashDash(rest, after, valueFlags, !skipNext && IsFlag(a) && '=' !in a && a in valueFlags);
    }
  }

  // ---- which arguments are paths, by their positions ----

  /** a starts with a dash and is not the dash alone. */
  predicate Dashed(a: string) {
    "-" <= a && |a| > 1
  }

  /** A "--" before position i has ended the options. */
  predicate Ended(args: seq<string>, valueFlags: set<string>, i: nat)
    requires i <= |args|
    decreases i, 1
  {
    i > 0 && (Ended(args, valueFlags, i - 1) || (args[i - 1] == "--" && !IsValue(args, valueFlags, i - 1)))
  }

  /** The argument at i is the value of the flag before it. */
  predicate IsValue(args: seq<string>, valueFlags: set<string>, i: nat)
    requires i <= |args|
    decreases i, 0
  {
    && i > 0 && !Ended(args, valueFlags, i - 1) && !IsValue(args, valueFlags, i - 1)
    && args[i - 1] != "--" && Dashed(args[i - 1]) && '=' !in args[i - 1] && args[i - 1] in valueFlags
  }

  /** The argument at i is a path: the options have ended, or it is neither a flag nor a value. */
  predicate Positional(args: seq<string>, valueFlags: set<string>, i: nat)
    requires i < |args|
  {
    Ended(args, valueFlags, i) || (!IsValue(args, valueFlags, i) && !Dashed(args[i]))
  }

  /** The path arguments before position n, in order. */
  function PathsUpto(args: seq<string>, valueFlags: set<string>, n: nat): seq<string>
    requires n <= |args|
  {
    if n == 0 then []
    else PathsUpto(args, valueFlags, n - 1) + if Positional(args, valueFlags, n - 1) then [args[n - 1]] else []
  }

  function PathArgs(args: seq<string>, valueFlags: set<string>): seq<string> {
    PathsUpto(args, valueFlags, |args|)
  }

  lemma EndedNoValue(args: seq<string>, valueFlags: set<string>, i: nat)
    requires i <= |args|
    ensures !(Ended(args, valueFlags, i) && IsValue(args, valueFlags, i))
  {
  }

  /** One argument read. */
  lemma StepTaken(args: seq<string>, valueFlags: set<string>, i: nat)
    requires i < |args|
    ensures var now := FileArgsFrom(args[i..], valueFlags, Ended(args, valueFlags, i), IsValue(args, valueFlags, i));
      var next := FileArgsFrom(args[i + 1..], valueFlags, Ended(args, valueFlags, i + 1), IsValue(args, valueFlags, i + 1));
      now == (if Positional(args, valueFlags, i) then [args[i]] else []) + next
  {
    var rest := args[i..];
    assert rest[0] == args[i] && rest[1..] == args[i + 1..];
    EndedNoValue(args, valueFlags, i);
  }

  lemma {:induction false} PathsSoFar(args: seq<string>, valueFlags: set<string>, i: nat)
    requires i <= |args|
    ensures PathsUpto(args, valueFlags, i)
          + FileArgsFrom(args[i..], valueFlags, Ended(args, valueFlags, i), IsValue(args, valueFlags, i))
         == FileArgs(args, valueFlags)
  {
    if i == 0 {
      assert args[0..] == args;
    } else {
      PathsSoFar(args, valueFlags, i - 1);
      StepTaken(args, valueFlags, i - 1);
      Associative(PathsUpto(args, valueFlags, i - 1), if Positional(args, valueFlags, i - 1) then [args[i - 1]] else [],
                  FileArgsFrom(args[i..], valueFlags, Ended(args, valueFlags, i), IsValue(args, valueFlags, i)));
    }
  }

  /** The flag loop picks exactly the arguments at path positions, in order. */
  lemma FileArgsArePaths(args: seq<string>, valueFlags: set<string>)
    ensures FileArgs(args, valueFlags) == PathArgs(args, valueFlags)
  {
    PathsSoFar(args, valueFlags, |args|);
    assert args[|args|..] == [];
    assert PathArgs(args, valueFlags) + [] == PathArgs(args, valueFlags);
  }

  predicate PathAt(args: seq<string>, valueFlags: set<string>, i: nat, a: string) {
    i < |args| && args[i] == a && Positional(args, valueFlags, i)
  }

  lemma {:induction false} PathsMembers(args: seq<string>, valueFlags: set<string>, n: nat, a: string)
    requires n <= |args|
    ensures a in PathsUpto(args, valueFlags, n) <==> exists i :: 0 <= i < n && PathAt(args, valueFlags, i, a)
  {
    if n > 0 {
      PathsMembers(args, valueFlags, n - 1, a);
      assert a in PathsUpto(args, valueFlags, n) <==> a in PathsUpto(args, valueFlags, n - 1) || PathAt(args, valueFlags, n - 1, a);
    }
  }

  /** The paths of one stage, command by command. */
  function StageTaken(c: Command): seq<string> {
    match c.name
    case "rm" => PathArgs(c.args, {})
    case "rmdir" => PathArgs(c.args, {})
    case "unlink" => PathArgs(c.args, {})
    case "srm" => PathArgs(c.args, {})
    case "shred" => PathArgs(c.args, {"-n", "--iterations", "-s", "--size"})
    case "truncate" => PathArgs(c.args, {"-s", "--size", "-r", "--reference"})
    case "dd" => OfArgs(c.args)
    case "mv" => var all := PathArgs(c.args, {}); if |all| >= 2 then all[..|all| - 1] else []
    case _ => []
  }

  lemma StageTakenIs(c: Command)
    ensures TargetsOf(c) == StageTaken(c)
  {
    FileArgsArePaths(c.args, {});
    FileArgsArePaths(c.args, ValueFlags(c.name));
  }

  /** The paths of a pipeline are those of its stages, one stage after the other. */
  function TakenOf(commands: seq<Command>): seq<string> {
    if |commands| == 0 then [] else StageTaken(commands[0]) + TakenOf(commands[1..])
  }

  // ---- which paths a pipeline without mv touches ----

  predicate NoMv(commands: seq<Command>) {
    forall k :: 0 <= k < |commands| ==> commands[k].name != "mv"
  }

  ghost predicate HasPath(args: seq<string>, valueFlags: set<string>, a: string) {
    exists i :: 0 <= i < |args| && PathAt(args, valueFlags, i, a)
  }

  /** a is a path argument of the stage. */
  ghost predicate Touches(c: Command, a: string) {
    match c.name
    case "rm" => HasPath(c.args, {}, a)
    case "rmdir" => HasPath(c.args, {}, a)
    case "unlink" => HasPath(c.args, {}, a)
    case "srm" => HasPath(c.args, {}, a)
    case "shred" => HasPath(c.args, {"-n", "--iterations", "-s", "--size"}, a)
    case "truncate" => HasPath(c.args, {"-s", "--size", "-r", "--reference"}, a)
    case "dd" => a != "" && ("of=" + a) in c.args
    case _ => false
  }

  ghost predicate Touched(commands: seq<Command>, a: string) {
    exists k :: 0 <= k < |commands| && Touches(commands[k], a)
  }

  lemma {:induction false} OfMembers(args: seq<string>, a: string)
    ensures a in OfArgs(args) <==> a != "" && ("of=" + a) in args
  {
    if |args| > 0 {
      OfMembers(args[1..], a);
      assert args == [args[0]] + args[1..];
      if "of=" <= args[0] { assert args[0] == "of=" + args[0][3..]; }
      assert ("of=" + a)[3..] == a;
    }
  }

  lemma PathTouches(args: seq<string>, valueFlags: set<string>, a: string)
    ensures a in PathArgs(args, valueFlags) <==> HasPath(args, valueFlags, a)
  {
    PathsMembers(args, valueFlags, |args|, a);
  }

  lemma StageTouches(c: Command, a: string)
    requires c.name != "mv"
    ensures a in StageTaken(c) <==> Touches(c, a)
  {
    match c.name
    case "rm" => PathTouches(c.args, {}, a);
    case "rmdir" => PathTouches(c.args, {}, a);
    case "unlink" => PathTouches(c.args, {}, a);
    case "srm" => PathTouches(c.args, {}, a);
    case "shred" => PathTouches(c.args, {"-n", "--iterations", "-s", "--size"}, a);
    case "truncate" => PathTouches(c.args, {"-s", "--size", "-r", "--reference"}, a);
    case "dd" => OfMembers(c.args, a);
    case _ =>
  }

  lemma TouchedRest(commands: seq<Command>, a: string)
    requires |commands| > 0
    ensures Touched(commands, a) <==> Touches(commands[0], a) || Touched(commands[1..], a)
  {
    if k :| 0 < k < |commands| && Touches(commands[k], a) { assert commands[1..][k - 1] == commands[k]; }
  }

  /** Exactly the path arguments of the stages are targets. */
  lemma {:induction false} TakenTouched(commands: seq<Command>, a: string)
    requires NoMv(commands)
    ensures a in TakenOf(commands) <==> Touched(commands, a)
  {
    if |commands| > 0 {
      StageTouches(commands[0], a);
      TakenTouched(commands[1..], a);
      TouchedRest(commands, a);
    }
  }

  lemma {:induction false} TargetsTaken(commands: seq<Command>)
    ensures AllTargets(commands) == TakenOf(commands)
  {
    if |commands| > 0 {
      StageTakenIs(commands[0]);
      TargetsTaken(commands[1..]);
    }
  }

  /** Without a mv stage, out has exactly the path arguments of the stages. */
  ghost predicate TakesExactly(commands: seq<Command>, out: seq<string>) {
    NoMv(commands) ==> forall a :: a in out <==> Touched(commands, a)
  }

  lemma TargetsAre(commands: seq<Command>)
    ensures AllTargets(commands) == TakenOf(commands)
    ensures TakesExactly(commands, AllTargets(commands))
  {
    TargetsTaken(commands);
    if NoMv(commands) {
      forall a ensures a in TakenOf(commands) <==> Touched(commands, a) { TakenTouched(commands, a); }
    }
  }

  // ---- which pairs mv moves ----

  function StageMoved(c: Command): seq<(string, string)> {
    var all := PathArgs(c.args, {});
    if c.name == "mv" && |all| >= 2 then seq(|all| - 1, k requires 0 <= k < |all| - 1 => (all[k], all[|all| - 1])) else []
  }

  function MovedOf(commands: seq<Command>): seq<(string, string)> {
    if |commands| == 0 then [] else StageMoved(commands[0]) + MovedOf(commands[1..])
  }

  /** The stage is a mv, s one of its path arguments and d a later one, after which there is none. */
  ghost predicate MovesPair(c: Command, s: string, d: string) {
    c.name == "mv" && exists i, j :: 0 <= i < j < |c.args| && LastPair(c.args, i, j, s, d)
  }

  ghost predicate LastPair(args: seq<string>, i: nat, j: nat, s: string, d: string) {
    PathAt(args, {}, i, s) && PathAt(args, {}, j, d) && forall k :: j < k < |args| ==> !Positional(args, {}, k)
  }

  ghost predicate Moved(commands: seq<Command>, s: string, d: string) {
    exists k :: 0 <= k < |commands| && MovesPair(commands[k], s, d)
  }

  /** The last path argument, and the ones before it. */
  lemma {:induction false} LastPath(args: seq<string>, n: nat) returns (j: nat)
    requires n <= |args| && PathsUpto(args, {}, n) != []
    ensures j < n && Positional(args, {}, j) && forall k :: j < k < n ==> !Positional(args, {}, k)
    ensures PathsUpto(args, {}, n) == PathsUpto(args, {}, j) + [args[j]]
  {
    if Positional(args, {}, n - 1) {
      j := n - 1;
    } else {
      j := LastPath(args, n - 1);
    }
  }

  lemma StageMovedMembers(c: Command, s: string, d: string)
    requires c.name == "mv"
    ensures (s, d) in StageMoved(c) <==>
            var all := PathArgs(c.args, {}); |all| >= 2 && d == all[|all| - 1] && s in all[..|all| - 1]
  {
    var all := PathArgs(c.args, {});
    if |all| >= 2 && d == all[|all| - 1] && s in all[..|all| - 1] {
      var k :| 0 <= k < |all| - 1 && all[..|all| - 1][k] == s;
      assert StageMoved(c)[k] == (s, d);
    }
  }

  /** The pairs of a mv with path arguments, when the last of them is at j. */
  lemma MovedBefore(c: Command, j: nat, s: string, d: string)
    requires c.name == "mv" && j < |c.args| && PathArgs(c.args, {}) == PathsUpto(c.args, {}, j) + [c.args[j]]
    ensures (s, d) in StageMoved(c) <==> d == c.args[j] && s in PathsUpto(c.args, {}, j)
  {
    var all, init := PathArgs(c.args, {}), PathsUpto(c.args, {}, j);
    assert all[..|all| - 1] == init && all[|all| - 1] == c.args[j];
    StageMovedMembers(c, s, d);
  }

  lemma StageMoves(c: Command, s: string, d: string)
    ensures (s, d) in StageMoved(c) <==> MovesPair(c, s, d)
  {
    if c.name == "mv" && |PathArgs(c.args, {})| > 0 {
      var j := LastPath(c.args, |c.args|);
      MovedBefore(c, j, s, d);
      PathsMembers(c.args, {}, j, s);
      PairAtLast(c, j, s, d);
    } else if c.name == "mv" {
      NoPaths(c, s, d);
    }
  }

  lemma NoPaths(c: Command, s: string, d: string)
    requires PathArgs(c.args, {}) == []
    ensures !MovesPair(c, s, d)
  {
    PathsMembers(c.args, {}, |c.args|, s);
    forall i, j | 0 <= i < j < |c.args| ensures !LastPair(c.args, i, j, s, d) { }
  }

  lemma PairAtLast(c: Command, j: nat, s: string, d: string)
    requires c.name == "mv" && j < |c.args| && Positional(c.args, {}, j)
    requires forall k :: j < k < |c.args| ==> !Positional(c.args, {}, k)
    ensures MovesPair(c, s, d) <==> d == c.args[j] && exists i :: 0 <= i < j && PathAt(c.args, {}, i, s)
  {
    if d == c.args[j] {
      if i :| 0 <= i < j && PathAt(c.args, {}, i, s) { assert LastPair(c.args, i, j, s, d); }
    }
    if i, l :| 0 <= i < l < |c.args| && LastPair(c.args, i, l, s, d) {
      assert l == j;
    }
  }

  lemma MovedRest(commands: seq<Command>, s: string, d: string)
    requires |commands| > 0
    ensures Moved(commands, s, d) <==> MovesPair(commands[0], s, d) || Moved(commands[1..], s, d)
  {
    if k :| 0 < k < |commands| && MovesPair(commands[k], s, d) { assert commands[1..][k - 1] == commands[k]; }
  }

  lemma {:induction false} MovedMembers(commands: seq<Command>, s: string, d: string)
    ensures (s, d) in MovedOf(commands) <==> Moved(commands, s, d)
  {
    if |commands| > 0 {
      StageMoves(commands[0], s, d);
      MovedMembers(commands[1..], s, d);
      MovedRest(commands, s, d);
    }
  }

  lemma {:induction false} PairsMoved(commands: seq<Command>)
    ensures AllPairs(commands) == MovedOf(commands)
  {
    if |commands| > 0 {
      FileArgsArePaths(commands[0].args, {});
      PairsMoved(commands[1..]);
    }
  }

  ghost predicate MovesExactly(commands: seq<Command>, out: seq<(string, string)>) {
    forall s, d :: (s, d) in out <==> Moved(commands, s, d)
  }

  lemma PairsAre(commands: seq<Command>)
    ensures AllPairs(commands) == MovedOf(commands)
    ensures MovesExactly(commands, AllPairs(commands))
  {
    PairsMoved(commands);
    forall s, d ensures (s, d) in MovedOf(commands) <==> Moved(commands, s, d) { MovedMembers(commands, s, d); }
  }

  /** The destructive commands, by name. */
  lemma DestructiveIff(pl: Pipeline)
    ensures IsDestructive(pl) <==>
            exists i :: 0 <= i < |pl.commands| && pl.commands[i].name in
              ["rm", "rmdir", "unlink", "shred", "srm", "truncate", "dd", "mv"]
  {
  }
}
