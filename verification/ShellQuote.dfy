/** Quoting a command for `sh -c`, and splitting a command line into words as the shell does. */
module ShellQuote {
  import opened ByteStrings

  const QUOTE := '\''
  const BACKSLASH := '\\'

  /** Each single quote becomes: close the quotes, an escaped quote, open them again. */
  function Requoted(command: string): string {
    if command == [] then []
    else if command[0] == QUOTE then [QUOTE, BACKSLASH, QUOTE, QUOTE] + Requoted(command[1..])
    else [command[0]] + Requoted(command[1..])
  }

  const LAUNCH := ["su", "2000", "sh", "-c"]

  /** The words, each followed by a space. */
  function Spaced(words: seq<string>): string {
    if words == [] then [] else words[0] + " " + Spaced(words[1..])
  }

  function BuildAdbShellCommand(command: string, hasRoot: bool): string {
    if hasRoot then Spaced(LAUNCH) + [QUOTE] + Requoted(command) + [QUOTE] else command
  }

  // ---- words, by sections 2.2.1 and 2.2.2 of the POSIX Shell Command Language ----

  predicate Blank(c: char) {
    c == ' ' || c == '\t'
  }

  /** Unquoted, these mean something to the shell or may do so. */
  predicate Special(c: char) {
    || c == '|' || c == '&' || c == ';' || c == '<' || c == '>' || c == '(' || c == ')' || c == '$' || c == '`'
    || c == '"' || c == '*' || c == '?' || c == '[' || c == '#' || c == '~' || c == '=' || c == '%' || c == '!'
    || c == '{' || c == '}' || c == '\n' || c == '\0'
  }

  /** Where the scan is: between words, in a word, or between single quotes. */
  datatype Mode = Between | InWord(word: string) | Quoted(word: string)

  function Begun(mode: Mode): string {
    if mode.Between? then [] else mode.word
  }

  /** The words of a line; none if a quote is left open or an unquoted character is special. */
  function Words(mode: Mode, line: string): Option<seq<string>>
    decreases |line|
  {
    if line == [] then
      match mode
      case Between => Some([])
      case InWord(w) => Some([w])
      case Quoted(_) => None
    else if mode.Quoted? then
      Words(if line[0] == QUOTE then InWord(mode.word) else Quoted(mode.word + [line[0]]), line[1..])
    else if line[0] == QUOTE then
      Words(Quoted(Begun(mode)), line[1..])
    else if line[0] == BACKSLASH then
      if |line| < 2 || line[1] == '\n' then None else Words(InWord(Begun(mode) + [line[1]]), line[2..])
    else if Special(line[0]) then None
    else if Blank(line[0]) then
      match Words(Between, line[1..])
      case None => None
      case Some(words) => Some((if mode.Between? then [] else [mode.word]) + words)
    else
      Words(InWord(Begun(mode) + [line[0]]), line[1..])
  }

  /** Closing, an escaped quote, opening: one quote more in the word. */
  lemma EscapedQuote(word: string, rest: string)
    ensures Words(Quoted(word), [QUOTE, BACKSLASH, QUOTE, QUOTE] + rest) == Words(Quoted(word + [QUOTE]), rest)
  {
    var l3 := [QUOTE] + rest;
    var l1 := [BACKSLASH, QUOTE] + l3;
    var l0 := [QUOTE, BACKSLASH, QUOTE, QUOTE] + rest;
    assert l0[1..] == l1 && l1[2..] == l3 && l3[1..] == rest;
    assert Words(InWord(word + [QUOTE]), l3) == Words(Quoted(word + [QUOTE]), rest);
    assert Words(InWord(word), l1) == Words(InWord(word + [QUOTE]), l3);
  }

  /** Inside quotes, the requoted command adds exactly the command to the word. */
  lemma {:induction false} RequotedAddsCommand(word: string, command: string, rest: string)
    ensures Words(Quoted(word), Requoted(command) + rest) == Words(Quoted(word + command), rest)
    decreases |command|
  {
    if command == [] {
      assert Requoted(command) + rest == rest && word + command == word;
    } else {
      var c, tail := command[0], Requoted(command[1..]) + rest;
      assert word + command == (word + [c]) + command[1..];
      RequotedAddsCommand(word + [c], command[1..], rest);
      if c == QUOTE {
        assert Requoted(command) + rest == [QUOTE, BACKSLASH, QUOTE, QUOTE] + tail;
        EscapedQuote(word, tail);
      } else {
        assert Requoted(command) + rest == [c] + tail;
        assert ([c] + tail)[1..] == tail;
      }
    }
  }

  lemma QuotedIsOneWord(command: string)
    ensures Words(Between, [QUOTE] + Requoted(command) + [QUOTE]) == Some([command])
  {
    var line := [QUOTE] + Requoted(command) + [QUOTE];
    assert line[1..] == Requoted(command) + [QUOTE];
    RequotedAddsCommand([], command, [QUOTE]);
    assert [] + command == command;
  }

  predicate Plain(word: string) {
    forall i | 0 <= i < |word| :: !Special(word[i]) && !Blank(word[i]) && word[i] != QUOTE && word[i] != BACKSLASH
  }

  /** A plain word and a blank in front of a line put that word in front of its words. */
  lemma {:induction false} PlainWordFirst(mode: Mode, word: string, line: string)
    requires Plain(word) && !mode.Quoted? && (mode.InWord? || word != [])
    ensures Words(mode, word + " " + line) ==
            match Words(Between, line)
            case None => None
            case Some(words) => Some([Begun(mode) + word] + words)
    decreases |word|
  {
    if word == [] {
      assert word + " " + line == " " + line && (" " + line)[1..] == line;
      assert Begun(mode) + word == mode.word;
    } else {
      var c, whole := word[0], word + " " + line;
      assert whole[0] == c && !Special(c) && !Blank(c) && c != QUOTE && c != BACKSLASH;
      assert whole[1..] == word[1..] + " " + line;
      PlainWordFirst(InWord(Begun(mode) + [word[0]]), word[1..], line);
      assert Begun(mode) + [word[0]] + word[1..] == Begun(mode) + word;
    }
  }

  lemma WordFirst(word: string, line: string, words: seq<string>)
    requires Plain(word) && word != [] && Words(Between, line) == Some(words)
    ensures Words(Between, word + " " + line) == Some([word] + words)
  {
    PlainWordFirst(Between, word, line);
    assert [] + word == word;
  }

  lemma {:induction false} SpacedWordsFirst(first: seq<string>, line: string, words: seq<string>)
    requires forall i | 0 <= i < |first| :: Plain(first[i]) && first[i] != []
    requires Words(Between, line) == Some(words)
    ensures Words(Between, Spaced(first) + line) == Some(first + words)
    decreases |first|
  {
    if first == [] {
      assert Spaced(first) + line == line && first + words == words;
    } else {
      SpacedWordsFirst(first[1..], line, words);
      WordFirst(first[0], Spaced(first[1..]) + line, first[1..] + words);
      assert Spaced(first) + line == first[0] + " " + (Spaced(first[1..]) + line);
      assert first + words == [first[0]] + (first[1..] + words);
    }
  }

  /** Without root the command is passed on as it is. */
  lemma CommandUnchangedWithoutRoot(command: string)
    ensures BuildAdbShellCommand(command, false) == command
  {
  }

  /** With root, the shell sees `su 2000 sh -c` and one more word, the command, whatever it holds. */
  lemma CommandIsOneWord(command: string)
    ensures Words(Between, BuildAdbShellCommand(command, true)) == Some(["su", "2000", "sh", "-c", command])
  {
    var line := [QUOTE] + Requoted(command) + [QUOTE];
    QuotedIsOneWord(command);
    SpacedWordsFirst(LAUNCH, line, [command]);
    assert LAUNCH + [command] == ["su", "2000", "sh", "-c", command];
    assert BuildAdbShellCommand(command, true) == Spaced(LAUNCH) + line;
  }
}
