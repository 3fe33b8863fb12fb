/** Tokenizing and parsing one line of input. */
module Parser {
  import opened Pipelines
  import opened Environment

  datatype Token = Word(value: string) | Pipe | Amp

  datatype ParseError =
    | UnterminatedSingle
    | UnterminatedDouble
    | AmpNotLast
    | EmptyStage
    | AmpNoCommand

  datatype Result<+T> = Ok(value: T) | Err(error: ParseError)

  // ---- tokens ----

  predicate IsSpace(c: char) {
    c == ' ' || c == '\t' || c == '\n' || c == '\r'
  }

  function Flushed(tokens: seq<Token>, current: string, inWord: bool): seq<Token> {
    if inWord then tokens + [Word(current)] else tokens
  }

  /** The tokenizer over what is left of the input, with the tokens so far. */
  function TokensFrom(s: string, tokens: seq<Token>, current: string, inWord: bool): Result<seq<Token>>
    decreases |s|
  {
    if s == [] then Ok(Flushed(tokens, current, inWord))
    else if s[0] == '\'' || s[0] == '"' then
      var end := Find(s[1..], s[0]);
      if end == |s| - 1 then Err(if s[0] == '\'' then UnterminatedSingle else UnterminatedDouble)
      else TokensFrom(s[end + 2..], tokens, current + s[1..end + 1], true)
    else if s[0] == '|' then TokensFrom(s[1..], Flushed(tokens, current, inWord) + [Pipe], "", false)
    else if s[0] == '&' then TokensFrom(s[1..], Flushed(tokens, current, inWord) + [Amp], "", false)
    else if IsSpace(s[0]) then TokensFrom(s[1..], Flushed(tokens, current, inWord), "", false)
    else TokensFrom(s[1..], tokens, current + [s[0]], true)
  }

  method Tokenize(input: string) returns (r: Result<seq<Token>>)
    ensures r == TokensFrom(input, [], "", false)
  {
    var tokens: seq<Token>, current, inWord := [], "", false;
    var i := 0;
    ghost var rest := input;
    while i < |input|
      invariant 0 <= i <= |input| && rest == input[i..]
      invariant !inWord ==> current == ""
      invariant TokensFrom(rest, tokens, current, inWord) == TokensFrom(input, [], "", false)
    {
      var c := input[i];
      if c == '\'' || c == '"' {
        var end := CloseQuote(input, i);
        if end == |input| {
          QuoteStep(rest, tokens, current, inWord);
          return Err(if c == '\'' then UnterminatedSingle else UnterminatedDouble);
        }
        QuoteStep(rest, tokens, current, inWord);
        current := current + input[i + 1..end];
        inWord := true;
        rest := rest[end - i + 1..];
        i := end + 1;
      } else {
        CharStep(rest, tokens, current, inWord);
        if c == '|' || c == '&' || IsSpace(c) {
          tokens := Flushed(tokens, current, inWord);
          current, inWord := "", false;
          if c == '|' {
            tokens := tokens + [Pipe];
          } else if c == '&' {
            tokens := tokens + [Amp];
          }
        } else {
          current := current + [c];
          inWord := true;
        }
        rest := rest[1..];
        i := i + 1;
      }
    }
    r := Ok(Flushed(tokens, current, inWord));
  }

  lemma QuoteStep(s: string, tokens: seq<Token>, current: string, inWord: bool)
    requires |s| > 0 && (s[0] == '\'' || s[0] == '"')
    ensures var end := Find(s[1..], s[0]);
      TokensFrom(s, tokens, current, inWord) ==
      if end == |s| - 1 then Err(if s[0] == '\'' then UnterminatedSingle else UnterminatedDouble)
      else TokensFrom(s[end + 2..], tokens, current + s[1..end + 1], true)
  {
  }

  lemma CharStep(s: string, tokens: seq<Token>, current: string, inWord: bool)
    requires |s| > 0 && s[0] != '\'' && s[0] != '"'
    ensures var flushed := Flushed(tokens, current, inWord);
      TokensFrom(s, tokens, current, inWord) ==
      if s[0] == '|' then TokensFrom(s[1..], flushed + [Pipe], "", false)
      else if s[0] == '&' then TokensFrom(s[1..], flushed + [Amp], "", false)
      else if IsSpace(s[0]) then TokensFrom(s[1..], flushed, "", false)
      else TokensFrom(s[1..], tokens, current + [s[0]], true)
  {
  }

  /** The scan for the quote that closes the one at i; the length when there is none. */
  method CloseQuote(input: string, i: nat) returns (end: nat)
    requires i < |input|
    ensures end == i + 1 + Find(input[i..][1..], input[i])
    ensures i < end <= |input|
    ensures end < |input| ==> input[i..][1..end - i] == input[i + 1..end]
  {
    end := i + 1;
    while end < |input| && input[end] != input[i]
      invariant i + 1 <= end <= |input|
      invariant forall k :: i + 1 <= k < end ==> input[k] != input[i]
    {
      end := end + 1;
    }
    FindIs(input[i..][1..], input[i], end - i - 1);
  }

  // ---- stages ----

  /** Splitting words and pipes into stages; an empty stage is an error. */
  function StagesFrom(tokens: seq<Token>, stages: seq<seq<string>>, current: seq<string>): Result<(seq<seq<string>>, seq<string>)> {
    if tokens == [] then Ok((stages, current))
    else match tokens[0]
      case Pipe => if current == [] then Err(EmptyStage) else StagesFrom(tokens[1..], stages + [current], [])
      case Word(value) => StagesFrom(tokens[1..], stages, current + [value])
      case Amp => StagesFrom(tokens[1..], stages, current + [""])
  }

  function AmpAt(tokens: seq<Token>): (i: nat)
    ensures i <= |tokens|
    ensures i < |tokens| ==> tokens[i] == Amp
    ensures forall k :: 0 <= k < i ==> tokens[k] != Amp
  {
    if tokens == [] || tokens[0] == Amp then 0 else 1 + AmpAt(tokens[1..])
  }

  lemma AmpAtIs(tokens: seq<Token>, i: nat)
    requires i <= |tokens| && (i < |tokens| ==> tokens[i] == Amp)
    requires forall k :: 0 <= k < i ==> tokens[k] != Amp
    ensures AmpAt(tokens) == i
  {
  }

  function Commands(stages: seq<seq<string>>): seq<Command>
    requires forall i :: 0 <= i < |stages| ==> stages[i] != []
  {
    seq(|stages|, i requires 0 <= i < |stages| => Command(stages[i][0], stages[i][1..]))
  }

  lemma {:induction false} StagesNonEmpty(tokens: seq<Token>, stages: seq<seq<string>>, current: seq<string>)
    requires forall i :: 0 <= i < |stages| ==> stages[i] != []
    ensures var r := StagesFrom(tokens, stages, current);
      r.Ok? ==> forall i :: 0 <= i < |r.value.0| ==> r.value.0[i] != []
  {
    if tokens != [] {
      match tokens[0]
      case Pipe => if current != [] { StagesNonEmpty(tokens[1..], stages + [current], []); }
      case Word(value) => StagesNonEmpty(tokens[1..], stages, current + [value]);
      case Amp => StagesNonEmpty(tokens[1..], stages, current + [""]);
    }
  }

  function Parsed(input: string): Result<Pipeline> {
    match TokensFrom(input, [], "", false)
    case Err(e) => Err(e)
    case Ok(all) => Staged(all)
  }

  /** What the tokens of a line say. */
  function Staged(all: seq<Token>): Result<Pipeline> {
    var amp := AmpAt(all);
    if amp < |all| && amp != |all| - 1 then Err(AmpNotLast)
    else
      var background := amp < |all|;
      StagesNonEmpty(all[..amp], [], []);
      match StagesFrom(all[..amp], [], [])
      case Err(e) => Err(e)
      case Ok((stages, last)) =>
        if last == [] then
          if stages != [] then Err(EmptyStage)
          else if background then Err(AmpNoCommand)
          else Ok(Pipeline([], false, false))
        else Ok(Pipeline(Commands(stages + [last]), background, false))
  }

  method Parse(input: string) returns (r: Result<Pipeline>)
    ensures r == Parsed(input)
  {
    var lexed := Tokenize(input);
    if lexed.Err? {
      return Err(lexed.error);
    }
    var tokens := lexed.value;
    if tokens == [] {
      assert tokens[..0] == [];
      return Ok(Pipeline([], false, false));
    }
    var background := false;
    var n := 0;
    while n < |tokens| && tokens[n] != Amp
      invariant 0 <= n <= |tokens|
      invariant forall k :: 0 <= k < n ==> tokens[k] != Amp
    {
      n := n + 1;
    }
    AmpAtIs(tokens, n);
    if n < |tokens| {
      if n != |tokens| - 1 {
        return Err(AmpNotLast);
      }
      background := true;
    }
    var words := tokens[..n];
    var split := Split(words);
    if split.Err? {
      return Err(split.error);
    }
    StagesNonEmpty(words, [], []);
    var (stages, current) := split.value;
    if current == [] {
      if stages != [] {
        return Err(EmptyStage);
      }
      if background {
        return Err(AmpNoCommand);
      }
      return Ok(Pipeline([], false, false));
    }
    var all := stages + [current];
    var commands: seq<Command> := [];
    for i := 0 to |all|
      invariant commands == Commands(all)[..i]
    {
      commands := commands + [Command(all[i][0], all[i][1..])];
    }
    assert Commands(all)[..|all|] == Commands(all);
    r := Ok(Pipeline(commands, background, false));
  }

  /** The stage-splitting loop of Parse. */
  method Split(tokens: seq<Token>) returns (r: Result<(seq<seq<string>>, seq<string>)>)
    ensures r == StagesFrom(tokens, [], [])
  {
    var stages: seq<seq<string>>, current: seq<string> := [], [];
    for i := 0 to |tokens|
      invariant StagesFrom(tokens[i..], stages, current) == StagesFrom(tokens, [], [])
    {
      assert tokens[i..][0] == tokens[i] && tokens[i..][1..] == tokens[i + 1..];
      match tokens[i] {
        case Pipe =>
          if current == [] {
            return Err(EmptyStage);
          }
          stages := stages + [current];
          current := [];
        case Word(value) => current := current + [value];
        case Amp => current := current + [""];
      }
    }
    r := Ok((stages, current));
  }
}
