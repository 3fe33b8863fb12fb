/** What a line of input says, read off how it is spelled. */
module Grammar {
  import opened Pipelines
  import opened Environment
  import opened Parser
  import opened Quoting
  import opened Sequences

  // ---- the spelling of a line ----

  /** A part of a word: one character as it is, or text between two equal quotes. */
  datatype Piece = Bare(c: char) | Between(quote: char, text: string)

  /** A part of a line. */
  datatype Item = Text(pieces: seq<Piece>) | Space(c: char) | Bar | And

  predicate IsQuote(c: char) {
    c == '\'' || c == '"'
  }

  predicate GoodPiece(p: Piece) {
    match p
    case Bare(c) => !IsQuote(c) && c != '|' && c != '&' && !Parser.IsSpace(c)
    case Between(quote, text) => IsQuote(quote) && quote !in text
  }

  predicate GoodItem(item: Item) {
    match item
    case Text(pieces) => |pieces| > 0 && forall p :: p in pieces ==> GoodPiece(p)
    case Space(c) => Parser.IsSpace(c)
    case _ => true
  }

  /** Items that spell a line: two words never touch. */
  predicate Spells(items: seq<Item>) {
    && (forall item :: item in items ==> GoodItem(item))
    && forall i :: 0 <= i < |items| - 1 ==> !(items[i].Text? && items[i + 1].Text?)
  }

  function PieceText(p: Piece): string {
    match p
    case Bare(c) => [c]
    case Between(quote, text) => [quote] + text + [quote]
  }

  function PieceValue(p: Piece): string {
    match p
    case Bare(c) => [c]
    case Between(_, text) => text
  }

  function Spelling(pieces: seq<Piece>): string {
    if |pieces| == 0 then "" else Spelling(pieces[..|pieces| - 1]) + PieceText(pieces[|pieces| - 1])
  }

  /** The word that some pieces stand for. */
  function Value(pieces: seq<Piece>): string {
    if |pieces| == 0 then "" else Value(pieces[..|pieces| - 1]) + PieceValue(pieces[|pieces| - 1])
  }

  function ItemText(item: Item): string {
    match item
    case Text(pieces) => Spelling(pieces)
    case Space(c) => [c]
    case Bar => "|"
    case And => "&"
  }

  function ItemTokens(item: Item): seq<Token> {
    match item
    case Text(pieces) => [Word(Value(pieces))]
    case Space(_) => []
    case Bar => [Pipe]
    case And => [Amp]
  }

  function Line(items: seq<Item>): string {
    if |items| == 0 then "" else Line(items[..|items| - 1]) + ItemText(items[|items| - 1])
  }

  /** The tokens that a line stands for. */
  function Meaning(items: seq<Item>): seq<Token> {
    if |items| == 0 then [] else Meaning(items[..|items| - 1]) + ItemTokens(items[|items| - 1])
  }

  /** A quote that is never closed, and what comes after it. */
  predicate Unclosed(tail: string) {
    |tail| > 0 && IsQuote(tail[0]) && tail[0] !in tail[1..]
  }

  // ---- the tokenizer reads what is spelled ----

  lemma PieceReads(tokens: seq<Token>, current: string, inWord: bool, p: Piece)
    requires GoodPiece(p)
    ensures Reads(Lexer(tokens, current, inWord), PieceText(p), Lexer(tokens, current + PieceValue(p), true))
  {
    match p
    case Bare(c) =>
      forall rest: string ensures ([c] + rest)[1..] == rest { }
    case Between(quote, text) =>
      SegmentReads(tokens, current, inWord, quote, text);
  }

  lemma {:induction false} PiecesRead(tokens: seq<Token>, pieces: seq<Piece>)
    requires forall p :: p in pieces ==> GoodPiece(p)
    ensures Reads(Lexer(tokens, "", false), Spelling(pieces), Lexer(tokens, Value(pieces), |pieces| > 0))
  {
    if |pieces| == 0 {
      forall rest: string ensures "" + rest == rest { }
    } else {
      var n := |pieces| - 1;
      PiecesRead(tokens, pieces[..n]);
      PieceReads(tokens, Value(pieces[..n]), n > 0, pieces[n]);
      ReadsJoin(Lexer(tokens, "", false), Spelling(pieces[..n]), Lexer(tokens, Value(pieces[..n]), n > 0),
                PieceText(pieces[n]), Lexer(tokens, Value(pieces), true));
    }
  }

  predicate EndsInText(items: seq<Item>) {
    |items| > 0 && items[|items| - 1].Text?
  }

  /** The tokenizer after some items: a last word is still open. */
  function After(items: seq<Item>): string -> Result<seq<Token>> {
    var n := |items| - 1;
    if EndsInText(items) then Lexer(Meaning(items[..n]), Value(items[n].pieces), true)
    else Lexer(Meaning(items), "", false)
  }

  /** A separator closes the word before it. */
  lemma SeparatorReads(items: seq<Item>, item: Item)
    requires GoodItem(item) && !item.Text?
    ensures Reads(After(items), ItemText(item), Lexer(Meaning(items) + ItemTokens(item), "", false))
  {
    var c := ItemText(item)[0];
    assert ItemText(item) == [c];
    if EndsInText(items) {
      var n := |items| - 1;
      CharReads(Meaning(items[..n]), Value(items[n].pieces), true, c);
    } else {
      CharReads(Meaning(items), "", false, c);
    }
  }

  lemma {:induction false} LineReads(items: seq<Item>)
    requires Spells(items)
    ensures Reads(Lexer([], "", false), Line(items), After(items))
  {
    if |items| == 0 {
      forall rest: string ensures "" + rest == rest { }
    } else {
      var n := |items| - 1;
      var before, last := items[..n], items[n];
      assert GoodItem(last);
      SpellsBefore(items);
      LineReads(before);
      if last.Text? {
        PiecesRead(Meaning(before), last.pieces);
      } else {
        SeparatorReads(before, last);
      }
      ReadsJoin(Lexer([], "", false), Line(before), After(before), ItemText(last), After(items));
    }
  }

  lemma SpellsBefore(items: seq<Item>)
    requires Spells(items) && |items| > 0
    ensures Spells(items[..|items| - 1])
    ensures items[|items| - 1].Text? ==> !EndsInText(items[..|items| - 1])
  {
    var before := items[..|items| - 1];
    assert forall item :: item in before ==> item in items;
    assert forall i :: 0 <= i < |before| ==> before[i] == items[i];
  }

  lemma AfterAtEnd(items: seq<Item>)
    ensures After(items)("") == Ok(Meaning(items))
  {
  }

  /** Any spelling is read as the tokens it stands for; a quote after it that is never
      closed is an error. */
  lemma SpelledIsRead(items: seq<Item>, tail: string)
    requires Spells(items)
    ensures TokensFrom(Line(items), [], "", false) == Ok(Meaning(items))
    ensures Unclosed(tail) ==>
              TokensFrom(Line(items) + tail, [], "", false)
              == Err(if tail[0] == '\'' then UnterminatedSingle else UnterminatedDouble)
  {
    LineReads(items);
    ReadsAll(Lexer([], "", false), Line(items), After(items));
    AfterAtEnd(items);
    assert Lexer([], "", false)(Line(items) + tail) == After(items)(tail);
    if Unclosed(tail) {
      FindIs(tail[1..], tail[0], |tail| - 1);
    }
  }

  // ---- every line is spelled ----

  /** One more piece, in the last word or in a new one. */
  function WithPiece(items: seq<Item>, p: Piece): seq<Item> {
    var n := |items| - 1;
    if EndsInText(items) then items[..n] + [Text(items[n].pieces + [p])] else items + [Text([p])]
  }

  lemma SpellsMore(items: seq<Item>, item: Item)
    requires Spells(items) && GoodItem(item) && !(EndsInText(items) && item.Text?)
    ensures Spells(items + [item]) && Line(items + [item]) == Line(items) + ItemText(item)
  {
    var more := items + [item];
    assert more[..|items|] == items;
    forall i | 0 <= i < |more| - 1 ensures !(more[i].Text? && more[i + 1].Text?) {
      assert more[i] == items[i];
    }
  }

  lemma TextMore(pieces: seq<Piece>, p: Piece)
    requires (forall q :: q in pieces ==> GoodPiece(q)) && GoodPiece(p)
    ensures GoodItem(Text(pieces + [p])) && Spelling(pieces + [p]) == Spelling(pieces) + PieceText(p)
  {
    assert (pieces + [p])[..|pieces|] == pieces;
  }

  lemma WithPieceSpells(items: seq<Item>, p: Piece)
    requires Spells(items) && GoodPiece(p)
    ensures Spells(WithPiece(items, p)) && Line(WithPiece(items, p)) == Line(items) + PieceText(p)
  {
    if EndsInText(items) {
      var n := |items| - 1;
      assert items[n] in items && GoodItem(items[n]);
      SpellsBefore(items);
      LastWordMore(items[..n], items[n].pieces, p);
      InitAndLast(items);
    } else {
      NewWord(items, p);
    }
  }

  lemma LastWordMore(before: seq<Item>, pieces: seq<Piece>, p: Piece)
    requires Spells(before) && !EndsInText(before) && GoodItem(Text(pieces)) && GoodPiece(p)
    ensures Spells(before + [Text(pieces + [p])])
    ensures Line(before + [Text(pieces + [p])]) == Line(before + [Text(pieces)]) + PieceText(p)
  {
    TextMore(pieces, p);
    SpellsMore(before, Text(pieces + [p]));
    SpellsMore(before, Text(pieces));
    Associative(Line(before), Spelling(pieces), PieceText(p));
  }

  lemma NewWord(items: seq<Item>, p: Piece)
    requires Spells(items) && !EndsInText(items) && GoodPiece(p)
    ensures Spells(items + [Text([p])]) && Line(items + [Text([p])]) == Line(items) + PieceText(p)
  {
    TextMore([], p);
    assert [] + [p] == [p] && Spelling([]) + PieceText(p) == PieceText(p);
    SpellsMore(items, Text([p]));
  }

  lemma {:induction false} Covered(done: seq<Item>, s: string) returns (items: seq<Item>, tail: string)
    requires Spells(done)
    ensures Spells(items) && Line(done) + s == Line(items) + tail
    ensures tail == "" || Unclosed(tail)
    decreases |s|
  {
    if |s| == 0 || Unclosed(s) {
      return done, s;
    }
    var more, n := CoveredStep(done, s);
    assert Line(done) + s == Line(done) + s[..n] + s[n..] by { assert s[..n] + s[n..] == s; }
    items, tail := Covered(more, s[n..]);
  }

  /** The next item or piece of the line. */
  lemma CoveredStep(done: seq<Item>, s: string) returns (more: seq<Item>, n: nat)
    requires Spells(done) && |s| > 0 && !Unclosed(s)
    ensures 0 < n <= |s| && Spells(more) && Line(more) == Line(done) + s[..n]
  {
    if s[0] == '|' || s[0] == '&' || Parser.IsSpace(s[0]) {
      var item := if s[0] == '|' then Bar else if s[0] == '&' then And else Space(s[0]);
      SpellsMore(done, item);
      more, n := done + [item], 1;
      assert ItemText(item) == s[..1];
    } else {
      var p := PieceOf(s);
      WithPieceSpells(done, p);
      more, n := WithPiece(done, p), |PieceText(p)|;
    }
  }

  /** The piece at the front of a text that does not start with a separator. */
  lemma PieceOf(s: string) returns (p: Piece)
    requires |s| > 0 && !Unclosed(s) && s[0] != '|' && s[0] != '&' && !Parser.IsSpace(s[0])
    ensures GoodPiece(p) && 0 < |PieceText(p)| <= |s| && PieceText(p) == s[..|PieceText(p)|]
  {
    if IsQuote(s[0]) {
      var rest := s[1..];
      var end := Find(rest, s[0]);
      assert s[0] in rest;
      p := Between(s[0], rest[..end]);
      assert rest[end] == s[0] && s == [s[0]] + rest;
      assert PieceText(p) == s[..end + 2];
    } else {
      p := Bare(s[0]);
    }
  }

  /** A line and its spelling. */
  ghost predicate SpelledAs(s: string, tokens: seq<Token>) {
    exists items :: Spells(items) && Line(items) == s && Meaning(items) == tokens
  }

  /** The tokenizer succeeds exactly on the lines that are spelled with closed quotes, and
      gives the one meaning such a line has. */
  lemma TokensIff(s: string, tokens: seq<Token>)
    ensures TokensFrom(s, [], "", false) == Ok(tokens) <==> SpelledAs(s, tokens)
  {
    if SpelledAs(s, tokens) {
      var items :| Spells(items) && Line(items) == s && Meaning(items) == tokens;
      SpelledIsRead(items, "");
    }
    if TokensFrom(s, [], "", false) == Ok(tokens) {
      var items, tail := Covered([], s);
      assert Line([]) + s == s;
      SpelledIsRead(items, tail);
      assert tail == "" && Line(items) + "" == Line(items);
    }
  }

  // ---- the parser accepts exactly the printed token sequences ----

  /** Stages put back together, a pipe after each. */
  function Rejoined(stages: seq<seq<string>>): seq<Token> {
    if |stages| == 0 then [] else Rejoined(stages[..|stages| - 1]) + AsTokens(stages[|stages| - 1]) + [Pipe]
  }

  lemma AsTokensMore(words: seq<string>, word: string)
    ensures AsTokens(words + [word]) == AsTokens(words) + [Word(word)]
  {
  }

  lemma RejoinedMore(stages: seq<seq<string>>, last: seq<string>)
    ensures Rejoined(stages + [last]) == Rejoined(stages) + AsTokens(last) + [Pipe]
  {
    assert (stages + [last])[..|stages|] == stages;
  }

  lemma {:induction false} SplitRejoins(tokens: seq<Token>, stages: seq<seq<string>>, current: seq<string>)
    requires Amp !in tokens
    ensures var r := StagesFrom(tokens, stages, current);
      r.Ok? ==> Rejoined(r.value.0) + AsTokens(r.value.1) == Rejoined(stages) + AsTokens(current) + tokens
  {
    if tokens == [] {
      assert Rejoined(stages) + AsTokens(current) + [] == Rejoined(stages) + AsTokens(current);
    } else {
      var more := tokens[1..];
      assert tokens[0] in tokens && forall t :: t in more ==> t in tokens;
      assert tokens == [tokens[0]] + more;
      if tokens[0].Pipe? {
        if current != [] {
          SplitRejoins(more, stages + [current], []);
          RejoinedMore(stages, current);
          assert Rejoined(stages + [current]) + AsTokens([]) + more == Rejoined(stages) + AsTokens(current) + tokens;
        }
      } else {
        SplitRejoins(more, stages, current + [tokens[0].value]);
        AsTokensMore(current, tokens[0].value);
        assert Rejoined(stages) + AsTokens(current + [tokens[0].value]) + more == Rejoined(stages) + AsTokens(current) + tokens;
      }
    }
  }

  lemma {:induction false} TokensOfEnd(commands: seq<Command>, c: Command)
    requires |commands| > 0
    ensures TokensOf(commands + [c]) == TokensOf(commands) + [Pipe] + AsTokens(WordsOf(c))
  {
    var all := commands + [c];
    assert all[0] == commands[0] && all[1..] == commands[1..] + [c];
    if |commands| > 1 {
      TokensOfEnd(commands[1..], c);
    } else {
      assert all[1..] == [c];
    }
  }

  lemma {:induction false} RejoinedIs(stages: seq<seq<string>>, last: seq<string>)
    requires (forall i :: 0 <= i < |stages| ==> stages[i] != []) && last != []
    ensures TokensOf(Commands(stages + [last])) == Rejoined(stages) + AsTokens(last)
  {
    var c := Command(last[0], last[1..]);
    assert Commands(stages + [last]) == Commands(stages) + [c] && WordsOf(c) == last;
    if |stages| == 0 {
      assert Commands(stages) + [c] == [c];
    } else {
      var n := |stages| - 1;
      RejoinedIs(stages[..n], stages[n]);
      assert stages[..n] + [stages[n]] == stages;
      TokensOfEnd(Commands(stages), c);
    }
  }

  /** The parser accepts exactly the token sequences of the pipelines. */
  lemma StagedIff(all: seq<Token>, pl: Pipeline)
    requires pl.commands != []
    ensures Staged(all) == Ok(pl) <==> !pl.tainted && all == PipelineTokens(pl)
  {
    if !pl.tainted { StagedBack(pl); }
    if Staged(all) == Ok(pl) {
      var amp := AmpAt(all);
      var body := all[..amp];
      SplitRejoins(body, [], []);
      StagesNonEmpty(body, [], []);
      var (stages, last) := StagesFrom(body, [], []).value;
      RejoinedIs(stages, last);
      assert Rejoined([]) + AsTokens([]) + body == body;
      assert all == body + if pl.background then [Amp] else [];
    }
  }

  /** A stage is missing: a pipe that is first, last or next to another. */
  predicate Gap(body: seq<Token>) {
    exists i :: 0 <= i < |body| && body[i] == Pipe && (i == 0 || i == |body| - 1 || body[i - 1] == Pipe)
  }

  /** A pipe at i with nothing before it. */
  predicate FailsAt(tokens: seq<Token>, current: seq<string>, i: nat) {
    i < |tokens| && tokens[i] == Pipe && if i == 0 then current == [] else tokens[i - 1] == Pipe
  }

  predicate SplitFails(tokens: seq<Token>, current: seq<string>) {
    exists i :: 0 <= i < |tokens| && FailsAt(tokens, current, i)
  }

  lemma SplitFailsStep(tokens: seq<Token>, current: seq<string>, next: seq<string>)
    requires |tokens| > 0 && (tokens[0].Pipe? ==> current != [])
    requires next == [] <==> tokens[0].Pipe?
    ensures SplitFails(tokens, current) <==> SplitFails(tokens[1..], next)
  {
    var more := tokens[1..];
    if SplitFails(tokens, current) {
      var i :| 0 <= i < |tokens| && FailsAt(tokens, current, i);
      assert FailsAt(more, next, i - 1);
    }
    if SplitFails(more, next) {
      var i :| 0 <= i < |more| && FailsAt(more, next, i);
      assert FailsAt(tokens, current, i + 1);
    }
  }

  /** A split fails at a pipe with nothing before it; otherwise it ends without a word
      exactly when the last token is a pipe. */
  lemma {:induction false} SplitIff(tokens: seq<Token>, stages: seq<seq<string>>, current: seq<string>)
    requires Amp !in tokens
    ensures var r := StagesFrom(tokens, stages, current);
      && (r.Err? <==> SplitFails(tokens, current))
      && (r.Err? ==> r.error == EmptyStage)
      && (r.Ok? ==> (r.value.1 == [] <==> if |tokens| == 0 then current == [] else tokens[|tokens| - 1] == Pipe))
      && (r.Ok? ==> (r.value.0 == stages <==> Pipe !in tokens))
      && (r.Ok? ==> |r.value.0| >= |stages|)
  {
    if |tokens| > 0 {
      var more := tokens[1..];
      assert tokens[0] in tokens && forall t :: t in more ==> t in tokens;
      assert tokens == [tokens[0]] + more;
      if tokens[0].Pipe? {
        if current != [] {
          SplitIff(more, stages + [current], []);
          SplitFailsStep(tokens, current, []);
        } else {
          assert FailsAt(tokens, current, 0);
        }
      } else {
        SplitIff(more, stages, current + [tokens[0].value]);
        SplitFailsStep(tokens, current, current + [tokens[0].value]);
      }
    }
  }

  /** The tokens without a closing ampersand. */
  function Unamped(all: seq<Token>): seq<Token> {
    if |all| > 0 && all[|all| - 1] == Amp then all[..|all| - 1] else all
  }

  predicate EarlyAmp(all: seq<Token>) {
    exists i :: 0 <= i < |all| - 1 && all[i] == Amp
  }

  /** When each answer comes: an ampersand before the end, a lone one, a missing stage, no
      token at all; otherwise a pipeline that runs something. */
  lemma StagedErrors(all: seq<Token>)
    ensures Staged(all) == Err(AmpNotLast) <==> EarlyAmp(all)
    ensures Staged(all) == Err(AmpNoCommand) <==> all == [Amp]
    ensures Staged(all) == Err(EmptyStage) <==> !EarlyAmp(all) && Gap(Unamped(all))
    ensures Staged(all) == Ok(Pipeline([], false, false)) <==> all == []
  {
    var amp := AmpAt(all);
    if amp < |all| - 1 {
      assert EarlyAmp(all);
      assert all != [] && all != [Amp];
    } else {
      var body := Unamped(all);
      assert !EarlyAmp(all) && all[..amp] == body;
      SplitIff(body, [], []);
      StagesNonEmpty(body, [], []);
      GapIff(body);
    }
  }

  lemma GapIff(body: seq<Token>)
    ensures Gap(body) <==> SplitFails(body, []) || (|body| > 0 && body[|body| - 1] == Pipe)
  {
    if Gap(body) {
      var i :| 0 <= i < |body| && body[i] == Pipe && (i == 0 || i == |body| - 1 || body[i - 1] == Pipe);
      assert i < |body| - 1 ==> FailsAt(body, [], i);
    }
    if SplitFails(body, []) {
      var i :| 0 <= i < |body| && FailsAt(body, [], i);
      assert body[i] == Pipe;
    }
  }

  // ---- what a line is parsed to ----

  /** A spelled line and then a quote that is never closed. */
  ghost predicate LeftOpen(s: string, quote: char) {
    exists items, tail :: Spells(items) && Unclosed(tail) && tail[0] == quote && s == Line(items) + tail
  }

  lemma LeftOpenIff(s: string)
    ensures Parsed(s) == Err(UnterminatedSingle) <==> LeftOpen(s, '\'')
    ensures Parsed(s) == Err(UnterminatedDouble) <==> LeftOpen(s, '"')
  {
    forall items, tail | Spells(items) && Unclosed(tail) && s == Line(items) + tail
      ensures Parsed(s) == Err(if tail[0] == '\'' then UnterminatedSingle else UnterminatedDouble)
    {
      SpelledIsRead(items, tail);
    }
    var items, tail := Covered([], s);
    assert Line([]) + s == s;
    SpelledIsRead(items, tail);
    if tail == "" {
      assert Line(items) + "" == Line(items);
      StagedIsNoQuote(Meaning(items));
    }
  }

  lemma StagedIsNoQuote(all: seq<Token>)
    ensures Staged(all) != Err(UnterminatedSingle) && Staged(all) != Err(UnterminatedDouble)
  {
    var body := all[..AmpAt(all)];
    SplitIff(body, [], []);
  }

  /** A line is parsed to a pipeline exactly when it is a spelling of that pipeline's tokens;
      it is parsed to nothing exactly when it is a spelling of no token at all. */
  lemma ParseIff(s: string, pl: Pipeline)
    ensures pl.commands != [] ==>
              (Parsed(s) == Ok(pl) <==> !pl.tainted && SpelledAs(s, PipelineTokens(pl)))
    ensures Parsed(s) == Ok(Pipeline([], false, false)) <==> SpelledAs(s, [])
  {
    TokensIff(s, []);
    if pl.commands != [] { TokensIff(s, PipelineTokens(pl)); }
    var lexed := TokensFrom(s, [], "", false);
    if lexed.Ok? {
      StagedErrors(lexed.value);
      if pl.commands != [] { StagedIff(lexed.value, pl); }
    }
  }
}
