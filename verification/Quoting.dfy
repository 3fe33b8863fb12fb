/** Printing a pipeline so that Expand and Parse, one after the other, give it back. */
module Quoting {
  import opened Pipelines
  import opened Environment
  import opened Parser

  const CLOSE_QUOTE_OPEN := "'\"'\"'"

  /** A word between single quotes, each single quote in it moved to a double-quoted segment. */
  function Body(word: string): string {
    if word == "" then ""
    else (if word[0] == '\'' then CLOSE_QUOTE_OPEN else [word[0]]) + Body(word[1..])
  }

  function Quoted(word: string): string {
    "'" + Body(word) + "'"
  }

  function Words(words: seq<string>): string
    requires words != []
  {
    if |words| == 1 then Quoted(words[0]) else Quoted(words[0]) + " " + Words(words[1..])
  }

  function Stage(c: Command): string {
    Words([c.name] + c.args)
  }

  function Stages(commands: seq<Command>): string
    requires commands != []
  {
    if |commands| == 1 then Stage(commands[0]) else Stage(commands[0]) + " | " + Stages(commands[1..])
  }

  function Printed(pl: Pipeline): string
    requires pl.commands != []
  {
    Stages(pl.commands) + if pl.background then " &" else ""
  }

  // ---- expansion leaves it alone ----

  /** The expander in one quote state, as a function of the input that is left. */
  function Expander(vars: seq<string>, exit: int, inSingle: bool, inDouble: bool): string -> string {
    s => ExpandFrom(vars, exit, s, inSingle, inDouble)
  }

  /** Text that comes out as it went in, taking one state to another. */
  ghost predicate Passes(from: string -> string, s: string, to: string -> string) {
    forall rest :: from(s + rest) == s + to(rest)
  }

  lemma PassesJoin(f: string -> string, a: string, g: string -> string, b: string, h: string -> string)
    requires Passes(f, a, g) && Passes(g, b, h)
    ensures Passes(f, a + b, h)
  {
    forall rest ensures f(a + b + rest) == a + b + h(rest) {
      assert a + b + rest == a + (b + rest);
      assert g(b + rest) == b + h(rest);
    }
  }

  lemma PassesNothing(f: string -> string)
    ensures Passes(f, "", f)
  {
    forall rest ensures f("" + rest) == "" + f(rest) {
      assert "" + rest == rest;
    }
  }

  lemma CharPasses(vars: seq<string>, exit: int, c: char, inSingle: bool, inDouble: bool)
    requires c != '$' || inSingle
    ensures Passes(Expander(vars, exit, inSingle, inDouble), [c],
                   Expander(vars, exit,
                            if c == '\'' && !inDouble then !inSingle else inSingle,
                            if c == '"' && !inSingle then !inDouble else inDouble))
  {
    forall rest: string ensures ([c] + rest)[1..] == rest { }
  }

  /** The five characters that carry a single quote, one step at a time. */
  lemma PiecePasses(vars: seq<string>, exit: int)
    ensures Passes(Expander(vars, exit, true, false), CLOSE_QUOTE_OPEN, Expander(vars, exit, true, false))
  {
    var single, double, out := Expander(vars, exit, true, false), Expander(vars, exit, false, true), Expander(vars, exit, false, false);
    assert Passes(single, ['\''], out) by { CharPasses(vars, exit, '\'', true, false); }
    assert Passes(out, ['"'], double) by { CharPasses(vars, exit, '"', false, false); }
    assert Passes(double, ['\''], double) by { CharPasses(vars, exit, '\'', false, true); }
    assert Passes(double, ['"'], out) by { CharPasses(vars, exit, '"', false, true); }
    assert Passes(out, ['\''], single) by { CharPasses(vars, exit, '\'', false, false); }
    FiveChars(single, out, double, double, out, single);
  }

  lemma FiveChars(f0: string -> string, f1: string -> string, f2: string -> string,
                  f3: string -> string, f4: string -> string, f5: string -> string)
    requires Passes(f0, ['\''], f1) && Passes(f1, ['"'], f2) && Passes(f2, ['\''], f3)
    requires Passes(f3, ['"'], f4) && Passes(f4, ['\''], f5)
    ensures Passes(f0, CLOSE_QUOTE_OPEN, f5)
  {
    PassesJoin(f0, ['\''], f1, ['"'], f2);
    PassesJoin(f0, ['\''] + ['"'], f2, ['\''], f3);
    PassesJoin(f0, ['\''] + ['"'] + ['\''], f3, ['"'], f4);
    PassesJoin(f0, ['\''] + ['"'] + ['\''] + ['"'], f4, ['\''], f5);
    assert ['\''] + ['"'] + ['\''] + ['"'] + ['\''] == CLOSE_QUOTE_OPEN;
  }

  lemma {:induction false} BodyPasses(vars: seq<string>, exit: int, word: string)
    ensures Passes(Expander(vars, exit, true, false), Body(word), Expander(vars, exit, true, false))
    decreases |word|
  {
    var single := Expander(vars, exit, true, false);
    if word == "" {
      PassesNothing(single);
    } else {
      BodyPasses(vars, exit, word[1..]);
      if word[0] == '\'' {
        PiecePasses(vars, exit);
        PassesJoin(single, CLOSE_QUOTE_OPEN, single, Body(word[1..]), single);
      } else {
        CharPasses(vars, exit, word[0], true, false);
        PassesJoin(single, [word[0]], single, Body(word[1..]), single);
      }
    }
  }

  lemma QuotedPasses(vars: seq<string>, exit: int, word: string)
    ensures Passes(Expander(vars, exit, false, false), Quoted(word), Expander(vars, exit, false, false))
  {
    var single, out := Expander(vars, exit, true, false), Expander(vars, exit, false, false);
    CharPasses(vars, exit, '\'', false, false);
    BodyPasses(vars, exit, word);
    CharPasses(vars, exit, '\'', true, false);
    PassesJoin(out, "'", single, Body(word), single);
    PassesJoin(out, "'" + Body(word), single, "'", out);
  }

  lemma {:induction false} PlainPasses(vars: seq<string>, exit: int, s: string)
    requires Plain(s)
    ensures Passes(Expander(vars, exit, false, false), s, Expander(vars, exit, false, false))
    decreases |s|
  {
    var out := Expander(vars, exit, false, false);
    if s == "" {
      PassesNothing(out);
    } else {
      assert s[0] in s && forall c :: c in s[1..] ==> c in s;
      CharPasses(vars, exit, s[0], false, false);
      PlainPasses(vars, exit, s[1..]);
      PassesJoin(out, [s[0]], out, s[1..], out);
      assert [s[0]] + s[1..] == s;
    }
  }

  lemma {:induction false} WordsPass(vars: seq<string>, exit: int, words: seq<string>)
    requires words != []
    ensures Passes(Expander(vars, exit, false, false), Words(words), Expander(vars, exit, false, false))
  {
    var out := Expander(vars, exit, false, false);
    QuotedPasses(vars, exit, words[0]);
    if |words| > 1 {
      WordsPass(vars, exit, words[1..]);
      PlainPasses(vars, exit, " ");
      PassesJoin(out, Quoted(words[0]), out, " ", out);
      PassesJoin(out, Quoted(words[0]) + " ", out, Words(words[1..]), out);
    }
  }

  lemma {:induction false} StagesPass(vars: seq<string>, exit: int, commands: seq<Command>)
    requires commands != []
    ensures Passes(Expander(vars, exit, false, false), Stages(commands), Expander(vars, exit, false, false))
  {
    var out := Expander(vars, exit, false, false);
    WordsPass(vars, exit, [commands[0].name] + commands[0].args);
    if |commands| > 1 {
      StagesPass(vars, exit, commands[1..]);
      PlainPasses(vars, exit, " | ");
      PassesJoin(out, Stage(commands[0]), out, " | ", out);
      PassesJoin(out, Stage(commands[0]) + " | ", out, Stages(commands[1..]), out);
    }
  }

  /** A printed pipeline survives expansion unchanged, under any environment and exit code. */
  lemma ExpandKeepsPrinted(vars: seq<string>, exit: int, pl: Pipeline)
    requires pl.commands != []
    ensures Expanded(vars, exit, Printed(pl)) == Printed(pl)
  {
    var out := Expander(vars, exit, false, false);
    var tail := if pl.background then " &" else "";
    StagesPass(vars, exit, pl.commands);
    PlainPasses(vars, exit, tail);
    PassesJoin(out, Stages(pl.commands), out, tail, out);
    assert Printed(pl) + "" == Printed(pl);
    assert out(Printed(pl) + "") == Printed(pl) + out("");
  }

  // ---- the tokenizer gives the words back ----

  /** The tokenizer in one state, as a function of the input that is left. */
  function Lexer(tokens: seq<Token>, current: string, inWord: bool): string -> Result<seq<Token>> {
    s => TokensFrom(s, tokens, current, inWord)
  }

  /** Reading s takes one state to another. */
  ghost predicate Reads(from: string -> Result<seq<Token>>, s: string, to: string -> Result<seq<Token>>) {
    forall rest :: from(s + rest) == to(rest)
  }

  lemma ReadsJoin(f: string -> Result<seq<Token>>, a: string, g: string -> Result<seq<Token>>, b: string, h: string -> Result<seq<Token>>)
    requires Reads(f, a, g) && Reads(g, b, h)
    ensures Reads(f, a + b, h)
  {
    forall rest ensures f(a + b + rest) == h(rest) {
      assert a + b + rest == a + (b + rest);
      assert g(b + rest) == h(rest);
    }
  }

  lemma ReadsThree(f0: string -> Result<seq<Token>>, a: string, f1: string -> Result<seq<Token>>, b: string,
                   f2: string -> Result<seq<Token>>, c: string, f3: string -> Result<seq<Token>>)
    requires Reads(f0, a, f1) && Reads(f1, b, f2) && Reads(f2, c, f3)
    ensures Reads(f0, a + b + c, f3)
  {
    ReadsJoin(f0, a, f1, b, f2);
    ReadsJoin(f0, a + b, f2, c, f3);
  }

  /** A quoted segment without its own quote in it adds its contents to the word. */
  lemma SegmentReads(tokens: seq<Token>, current: string, inWord: bool, quote: char, inside: string)
    requires quote == '\'' || quote == '"'
    requires quote !in inside
    ensures Reads(Lexer(tokens, current, inWord), [quote] + inside + [quote], Lexer(tokens, current + inside, true))
  {
    forall rest ensures TokensFrom([quote] + inside + [quote] + rest, tokens, current, inWord) == TokensFrom(rest, tokens, current + inside, true) {
      var s := [quote] + inside + [quote] + rest;
      var n := |inside|;
      assert s[1..][n] == quote && forall k :: 0 <= k < n ==> s[1..][k] == inside[k];
      FindIs(s[1..], quote, n);
      assert s[1..n + 1] == inside && s[n + 2..] == rest;
    }
  }

  lemma {:induction false} BodyPlain(word: string, more: string)
    requires '\'' !in word
    ensures Body(word + more) == word + Body(more)
    decreases |word|
  {
    if word == "" {
      assert word + more == more;
    } else {
      assert word[0] in word && forall c :: c in word[1..] ==> c in word;
      assert (word + more)[1..] == word[1..] + more;
      BodyPlain(word[1..], more);
    }
  }

  /** A quoted word, cut after the first single quote in it. */
  lemma QuotedSplit(word: string, n: nat)
    requires n < |word| && word[n] == '\'' && '\'' !in word[..n]
    ensures Quoted(word) == ['\''] + word[..n] + ['\''] + (['"'] + "'" + ['"']) + Quoted(word[n + 1..])
  {
    var first, more := word[..n], word[n + 1..];
    assert word == first + ("'" + more);
    assert ("'" + more)[1..] == more;
    BodyPlain(first, "'" + more);
    assert Body("'" + more) == CLOSE_QUOTE_OPEN + Body(more);
  }

  lemma QuotedWhole(word: string)
    requires '\'' !in word
    ensures Quoted(word) == ['\''] + word + ['\'']
  {
    BodyPlain(word, "");
    assert word + "" == word;
  }

  /** The first segment of a quoted word, and the single quote after it. */
  lemma FirstReads(tokens: seq<Token>, current: string, inWord: bool, first: string)
    requires '\'' !in first
    ensures Reads(Lexer(tokens, current, inWord), ['\''] + first + ['\''] + (['"'] + "'" + ['"']),
                  Lexer(tokens, current + first + "'", true))
  {
    SegmentReads(tokens, current, inWord, '\'', first);
    SegmentReads(tokens, current + first, true, '"', "'");
    ReadsJoin(Lexer(tokens, current, inWord), ['\''] + first + ['\''],
              Lexer(tokens, current + first, true), ['"'] + "'" + ['"'],
              Lexer(tokens, current + first + "'", true));
  }

  /** A quoted word is read as that word, however many quotes it has in it. */
  lemma {:induction false} QuotedReads(tokens: seq<Token>, current: string, inWord: bool, word: string)
    ensures Reads(Lexer(tokens, current, inWord), Quoted(word), Lexer(tokens, current + word, true))
    decreases |word|
  {
    var n := Find(word, '\'');
    if n == |word| {
      QuotedWhole(word);
      SegmentReads(tokens, current, inWord, '\'', word);
    } else {
      var first, more := word[..n], word[n + 1..];
      var past := current + first + "'";
      QuotedSplit(word, n);
      FirstReads(tokens, current, inWord, first);
      QuotedReads(tokens, past, true, more);
      assert past + more == current + word;
      ReadsJoin(Lexer(tokens, current, inWord), ['\''] + first + ['\''] + (['"'] + "'" + ['"']),
                Lexer(tokens, past, true), Quoted(more), Lexer(tokens, current + word, true));
    }
  }

  lemma CharReads(tokens: seq<Token>, current: string, inWord: bool, c: char)
    requires c == '|' || c == '&' || IsSpace(c)
    ensures Reads(Lexer(tokens, current, inWord), [c],
                  Lexer(Flushed(tokens, current, inWord) + if c == '|' then [Pipe] else if c == '&' then [Amp] else [], "", false))
  {
    forall rest: string ensures ([c] + rest)[1..] == rest { }
    assert Flushed(tokens, current, inWord) + [] == Flushed(tokens, current, inWord);
  }

  function AsTokens(words: seq<string>): seq<Token> {
    seq(|words|, i requires 0 <= i < |words| => Word(words[i]))
  }

  lemma WordAndSpace(tokens: seq<Token>, word: string)
    ensures Reads(Lexer(tokens, "", false), Quoted(word) + " ", Lexer(tokens + [Word(word)], "", false))
  {
    QuotedReads(tokens, "", false, word);
    assert "" + word == word;
    CharReads(tokens, word, true, ' ');
    assert tokens + [Word(word)] + [] == tokens + [Word(word)];
    ReadsJoin(Lexer(tokens, "", false), Quoted(word), Lexer(tokens, word, true), " ", Lexer(tokens + [Word(word)], "", false));
  }

  lemma AsTokensCons(tokens: seq<Token>, words: seq<string>)
    requires |words| > 1
    ensures var last := |words| - 1;
      tokens + [Word(words[0])] + AsTokens(words[1..][..last - 1]) == tokens + AsTokens(words[..last])
  {
    var last := |words| - 1;
    assert words[1..][..last - 1] == words[1..last];
    assert AsTokens(words[..last]) == [Word(words[0])] + AsTokens(words[1..last]);
  }

  /** A printed stage is read as its words; the last one is still open. */
  lemma {:induction false} WordsRead(tokens: seq<Token>, words: seq<string>)
    requires words != []
    ensures Reads(Lexer(tokens, "", false), Words(words), Lexer(tokens + AsTokens(words[..|words| - 1]), words[|words| - 1], true))
    decreases |words|
  {
    if |words| == 1 {
      QuotedReads(tokens, "", false, words[0]);
      assert "" + words[0] == words[0];
      assert tokens + AsTokens(words[..0]) == tokens;
    } else {
      var next := tokens + [Word(words[0])];
      var last := |words| - 1;
      WordsRead(next, words[1..]);
      AsTokensCons(tokens, words);
      WordAndSpace(tokens, words[0]);
      ReadsJoin(Lexer(tokens, "", false), Quoted(words[0]) + " ", Lexer(next, "", false), Words(words[1..]),
                Lexer(tokens + AsTokens(words[..last]), words[last], true));
    }
  }

  function WordsOf(c: Command): seq<string> {
    [c.name] + c.args
  }

  /** The tokens of a pipeline: the words of the stages, with a pipe between stages. */
  function TokensOf(commands: seq<Command>): seq<Token>
    requires commands != []
  {
    if |commands| == 1 then AsTokens(WordsOf(commands[0]))
    else AsTokens(WordsOf(commands[0])) + [Pipe] + TokensOf(commands[1..])
  }

  lemma {:induction false} TokensEndInWord(commands: seq<Command>)
    requires commands != []
    ensures var all := TokensOf(commands); all != [] && all[|all| - 1].Word?
    ensures Amp !in TokensOf(commands)
  {
    if |commands| > 1 { TokensEndInWord(commands[1..]); }
  }

  /** The lexer when the last token of all is still open. */
  function Open(all: seq<Token>): string -> Result<seq<Token>>
    requires all != [] && all[|all| - 1].Word?
  {
    Lexer(all[..|all| - 1], all[|all| - 1].value, true)
  }

  lemma SpaceReads(tokens: seq<Token>, all: seq<Token>)
    requires all != [] && all[|all| - 1].Word?
    ensures Reads(Open(tokens + all), " ", Lexer(tokens + all, "", false))
  {
    var full := tokens + all;
    var n := |full| - 1;
    CharReads(full[..n], full[n].value, true, ' ');
    assert full[..n] + [Word(full[n].value)] + [] == full;
  }

  /** Outside a word, a pipe adds its token and a space adds nothing. */
  lemma OutsideReads(tokens: seq<Token>)
    ensures Reads(Lexer(tokens, "", false), "|", Lexer(tokens + [Pipe], "", false))
    ensures Reads(Lexer(tokens, "", false), " ", Lexer(tokens, "", false))
  {
    CharReads(tokens, "", false, '|');
    CharReads(tokens, "", false, ' ');
    assert tokens + [] == tokens;
  }

  lemma PipeReads(tokens: seq<Token>)
    ensures Reads(Lexer(tokens, "", false), "| ", Lexer(tokens + [Pipe], "", false))
  {
    var next := tokens + [Pipe];
    OutsideReads(tokens);
    OutsideReads(next);
    assert "|" + " " == "| ";
    ReadsJoin(Lexer(tokens, "", false), "|", Lexer(next, "", false), " ", Lexer(next, "", false));
  }

  lemma StageReads(tokens: seq<Token>, c: Command)
    ensures Reads(Lexer(tokens, "", false), Stage(c), Open(tokens + AsTokens(WordsOf(c))))
  {
    var words := WordsOf(c);
    var n := |words| - 1;
    var all := tokens + AsTokens(words);
    WordsRead(tokens, words);
    assert all[..|all| - 1] == tokens + AsTokens(words[..n]);
    assert all[|all| - 1] == Word(words[n]);
  }

  lemma {:induction false} StagesRead(tokens: seq<Token>, commands: seq<Command>)
    requires commands != []
    ensures TokensOf(commands) != [] && TokensOf(commands)[|TokensOf(commands)| - 1].Word?
    ensures Reads(Lexer(tokens, "", false), Stages(commands), Open(tokens + TokensOf(commands)))
    decreases |commands|
  {
    TokensEndInWord(commands);
    var first := AsTokens(WordsOf(commands[0]));
    StageReads(tokens, commands[0]);
    if |commands| > 1 {
      var next := tokens + first + [Pipe];
      StageAndPipe(tokens, commands[0]);
      StagesRead(next, commands[1..]);
      assert next + TokensOf(commands[1..]) == tokens + TokensOf(commands);
      ReadsJoin(Lexer(tokens, "", false), Stage(commands[0]) + " | ", Lexer(next, "", false),
                Stages(commands[1..]), Open(tokens + TokensOf(commands)));
    }
  }

  lemma StageAndPipe(tokens: seq<Token>, c: Command)
    ensures Reads(Lexer(tokens, "", false), Stage(c) + " | ", Lexer(tokens + AsTokens(WordsOf(c)) + [Pipe], "", false))
  {
    var words := AsTokens(WordsOf(c));
    var after := tokens + words;
    StageReads(tokens, c);
    SpaceReads(tokens, words);
    PipeReads(after);
    ReadsThree(Lexer(tokens, "", false), Stage(c), Open(after), " ", Lexer(after, "", false), "| ", Lexer(after + [Pipe], "", false));
    assert Stage(c) + " " + "| " == Stage(c) + " | ";
  }

  /** At the end of the input the open token is added. */
  lemma OpenAtEnd(all: seq<Token>)
    requires all != [] && all[|all| - 1].Word?
    ensures Open(all)("") == Ok(all)
  {
    assert all[..|all| - 1] + [Word(all[|all| - 1].value)] == all;
  }

  /** What is read of the whole input. */
  lemma ReadsAll(f: string -> Result<seq<Token>>, s: string, g: string -> Result<seq<Token>>)
    requires Reads(f, s, g)
    ensures f(s) == g("")
  {
    assert s + "" == s && f(s + "") == g("");
  }

  lemma StagesTokens(commands: seq<Command>)
    requires commands != []
    ensures Lexer([], "", false)(Stages(commands)) == Ok(TokensOf(commands))
  {
    var all := TokensOf(commands);
    StagesRead([], commands);
    OpenAtEnd(all);
    assert [] + all == all;
    ReadsAll(Lexer([], "", false), Stages(commands), Open(all));
  }

  /** A space and an ampersand close the last word and add the marker. */
  lemma MarkerReads(all: seq<Token>)
    requires all != [] && all[|all| - 1].Word?
    ensures Reads(Open(all), " &", Lexer(all + [Amp], "", false))
  {
    assert [] + all == all;
    SpaceReads([], all);
    CharReads(all, "", false, '&');
    assert " " + "&" == " &";
    ReadsJoin(Open(all), " ", Lexer(all, "", false), "&", Lexer(all + [Amp], "", false));
  }

  lemma BackgroundTokens(commands: seq<Command>)
    requires commands != []
    ensures Lexer([], "", false)(Stages(commands) + " &") == Ok(TokensOf(commands) + [Amp])
  {
    var all := TokensOf(commands);
    StagesRead([], commands);
    assert [] + all == all;
    MarkerReads(all);
    ReadsJoin(Lexer([], "", false), Stages(commands), Open(all), " &", Lexer(all + [Amp], "", false));
    ReadsAll(Lexer([], "", false), Stages(commands) + " &", Lexer(all + [Amp], "", false));
  }

  lemma PrintedTokens(pl: Pipeline)
    requires pl.commands != []
    ensures TokensFrom(Printed(pl), [], "", false) == Ok(TokensOf(pl.commands) + if pl.background then [Amp] else [])
  {
    if pl.background {
      BackgroundTokens(pl.commands);
      assert Lexer([], "", false)(Printed(pl)) == Ok(TokensOf(pl.commands) + [Amp]);
    } else {
      StagesTokens(pl.commands);
      assert Stages(pl.commands) + "" == Stages(pl.commands) && TokensOf(pl.commands) + [] == TokensOf(pl.commands);
      assert Lexer([], "", false)(Printed(pl)) == Ok(TokensOf(pl.commands));
    }
  }

  // ---- the parser gives the stages back ----

  lemma {:induction false} WordsSplit(words: seq<string>, more: seq<Token>, stages: seq<seq<string>>, current: seq<string>)
    ensures StagesFrom(AsTokens(words) + more, stages, current) == StagesFrom(more, stages, current + words)
    decreases |words|
  {
    if words == [] {
      assert AsTokens(words) + more == more && current + words == current;
    } else {
      var tokens := AsTokens(words) + more;
      assert tokens[0] == Word(words[0]) && tokens[1..] == AsTokens(words[1..]) + more;
      WordsSplit(words[1..], more, stages, current + [words[0]]);
      assert current + [words[0]] + words[1..] == current + words;
    }
  }

  function AllWords(commands: seq<Command>): seq<seq<string>> {
    seq(|commands|, i requires 0 <= i < |commands| => WordsOf(commands[i]))
  }

  lemma OneStageSplit(c: Command, more: seq<Token>, stages: seq<seq<string>>)
    ensures StagesFrom(AsTokens(WordsOf(c)), stages, []) == Ok((stages, WordsOf(c)))
    ensures StagesFrom(AsTokens(WordsOf(c)) + [Pipe] + more, stages, []) == StagesFrom(more, stages + [WordsOf(c)], [])
  {
    var words := WordsOf(c);
    var tokens := AsTokens(words);
    assert [] + words == words;
    WordsSplit(words, [], stages, []);
    assert tokens + [] == tokens;
    WordsSplit(words, [Pipe] + more, stages, []);
    assert tokens + ([Pipe] + more) == tokens + [Pipe] + more;
    assert ([Pipe] + more)[1..] == more;
  }

  lemma AllWordsCons(commands: seq<Command>, stages: seq<seq<string>>)
    requires |commands| > 1
    ensures var last := |commands| - 1;
      stages + [WordsOf(commands[0])] + AllWords(commands[1..][..last - 1]) == stages + AllWords(commands[..last])
  {
    var last := |commands| - 1;
    assert commands[1..][..last - 1] == commands[..last][1..];
    assert AllWords(commands[..last]) == [WordsOf(commands[0])] + AllWords(commands[..last][1..]);
  }

  lemma {:induction false} StagesSplit(commands: seq<Command>, stages: seq<seq<string>>)
    requires commands != []
    ensures var last := |commands| - 1;
      StagesFrom(TokensOf(commands), stages, []) == Ok((stages + AllWords(commands[..last]), WordsOf(commands[last])))
    decreases |commands|
  {
    if |commands| == 1 {
      OneStageSplit(commands[0], [], stages);
      assert stages + AllWords(commands[..0]) == stages;
    } else {
      OneStageSplit(commands[0], TokensOf(commands[1..]), stages);
      StagesSplit(commands[1..], stages + [WordsOf(commands[0])]);
      AllWordsCons(commands, stages);
    }
  }

  lemma AllStages(commands: seq<Command>)
    requires commands != []
    ensures var r := StagesFrom(TokensOf(commands), [], []);
      r.Ok? && r.value.1 != [] && r.value.0 + [r.value.1] == AllWords(commands)
  {
    StagesSplit(commands, []);
    var last := |commands| - 1;
    assert [] + AllWords(commands[..last]) == AllWords(commands[..last]);
    assert AllWords(commands[..last]) + [WordsOf(commands[last])] == AllWords(commands);
  }

  lemma CommandsBack(commands: seq<Command>)
    ensures Commands(AllWords(commands)) == commands
  {
    forall i | 0 <= i < |commands| ensures Commands(AllWords(commands))[i] == commands[i] {
      assert WordsOf(commands[i])[1..] == commands[i].args;
    }
  }

  /** The tokens of a pipeline that runs something. */
  function PipelineTokens(pl: Pipeline): seq<Token>
    requires pl.commands != []
  {
    TokensOf(pl.commands) + if pl.background then [Amp] else []
  }

  lemma StagedBack(pl: Pipeline)
    requires pl.commands != [] && !pl.tainted
    ensures Staged(PipelineTokens(pl)) == Ok(pl)
  {
    var all, tokens := TokensOf(pl.commands), PipelineTokens(pl);
    TokensEndInWord(pl.commands);
    AmpAtIs(tokens, |all|);
    assert tokens[..|all|] == all;
    AllStages(pl.commands);
    CommandsBack(pl.commands);
  }

  /** Quoting round trip: printing any non-empty pipeline of arbitrary words, expanding it
      under any environment and exit code, and parsing the result gives the pipeline back. */
  lemma RoundTrip(vars: seq<string>, exit: int, pl: Pipeline)
    requires pl.commands != [] && !pl.tainted
    ensures Expanded(vars, exit, Printed(pl)) == Printed(pl)
    ensures Parsed(Expanded(vars, exit, Printed(pl))) == Ok(pl)
  {
    ExpandKeepsPrinted(vars, exit, pl);
    PrintedTokens(pl);
    StagedBack(pl);
  }
}
