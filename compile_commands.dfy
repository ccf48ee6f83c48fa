/**
 * Import of a compile_commands.json database. The tokenizer's output is
 * taken as given: a sequence of token texts, string literals with their
 * quotes. Each closing brace of an object that named a "file" and a
 * "command" yields one FileSettings, whose defines, undefs and include paths
 * come from the -D, -U and -I flags of the command.
 */
module CompileCommands {
  import opened Wrappers
  import opened Text
  import opened Compilation

  // ---- the flag scanner ----

  /** A flag: the character after the leading '-' or '/', and the rest of the word. */
  datatype Flag = Flag(kind: char, value: string)

  predicate IsFlagStart(c: char)
  {
    c == '/' || c == '-'
  }

  /**
   * The flags among the words `ws` (the space-separated words of a command
   * after the first). A word starting with '-' or '/' is a flag named by its
   * second character. A lone '-' or '/' takes the space as its kind and the
   * next word as its value, so that next word is never examined itself.
   */
  function WordFlags(ws: seq<string>): seq<Flag>
    decreases |ws|
  {
    if ws == [] then []
    else
      var w := ws[0];
      if w != "" && IsFlagStart(w[0]) then
        if |w| >= 2 then [Flag(w[1], w[2..])] + WordFlags(ws[1..])
        else if |ws| == 1 then []
        else [Flag(' ', ws[1])] + WordFlags(ws[2..])
      else WordFlags(ws[1..])
  }

  /** The flags of a command line; its first word (the compiler) is never one. */
  function CommandFlags(command: string): seq<Flag>
  {
    WordFlags(Split(command, ' ')[1..])
  }

  /** What the flags of one command contribute to its FileSettings. */
  datatype CompilerOptions = CompilerOptions(defines: string, undefs: set<string>, includePaths: seq<string>)

  /** -D appends the value and ';' to the defines, -U adds an undef, -I appends an include path; other flags are ignored. */
  function AddFlag(o: CompilerOptions, f: Flag): CompilerOptions
  {
    if f.kind == 'D' then o.(defines := o.defines + f.value + ";")
    else if f.kind == 'U' then o.(undefs := o.undefs + {f.value})
    else if f.kind == 'I' then o.(includePaths := o.includePaths + [f.value])
    else o
  }

  /** The options of a sequence of flags, applied in order. */
  function OptionsOf(fs: seq<Flag>): CompilerOptions
  {
    if fs == [] then CompilerOptions("", {}, [])
    else AddFlag(OptionsOf(fs[..|fs| - 1]), fs[|fs| - 1])
  }

  lemma AppendFlag(fs: seq<Flag>, f: Flag)
    ensures OptionsOf(fs + [f]) == AddFlag(OptionsOf(fs), f)
  {
    assert (fs + [f])[..|fs|] == fs;
  }

  /** A name is undefined exactly when some -U flag names it. */
  lemma {:induction false} UndefsAreUFlags(fs: seq<Flag>, u: string)
    ensures u in OptionsOf(fs).undefs <==> exists k :: 0 <= k < |fs| && fs[k] == Flag('U', u)
  {
    if fs != [] {
      var init := fs[..|fs| - 1];
      UndefsAreUFlags(init, u);
      if exists k :: 0 <= k < |init| && init[k] == Flag('U', u) {
        var k :| 0 <= k < |init| && init[k] == Flag('U', u);
        assert fs[k] == Flag('U', u);
      }
      if exists k :: 0 <= k < |fs| && fs[k] == Flag('U', u) {
        var k :| 0 <= k < |fs| && fs[k] == Flag('U', u);
        if k < |init| {
          assert init[k] == Flag('U', u);
        }
      }
    }
  }

  /** Include paths keep their command-line order: each -I flag adds exactly one entry at the end. */
  lemma {:induction false} IncludesOfAppend(fs: seq<Flag>, value: string)
    ensures OptionsOf(fs + [Flag('I', value)]).includePaths == OptionsOf(fs).includePaths + [value]
    ensures OptionsOf(fs + [Flag('I', value)]).defines == OptionsOf(fs).defines
  {
    AppendFlag(fs, Flag('I', value));
  }

  /**
   * The flags of the words after the one that position `pos` is in, read
   * character by character: the word-level CommandFlags restated as a walk
   * over positions (FlagsAfterIsWordFlags relates the two).
   */
  function FlagsAfter(command: string, pos: nat): seq<Flag>
    requires pos <= |command|
    decreases |command| - pos, 0
  {
    var space := IndexOfFrom(command, ' ', pos);
    if space == |command| then [] else FlagsFrom(command, space + 1)
  }

  /** The flags of the word starting at `start` and of all words after it. */
  function FlagsFrom(command: string, start: nat): seq<Flag>
    requires start <= |command|
    decreases |command| - start, 1
  {
    if start == |command| then []
    else if !IsFlagStart(command[start]) then FlagsAfter(command, start)
    else if start + 1 == |command| then []
    else
      var end := IndexOfFrom(command, ' ', start + 2);
      [Flag(command[start + 1], command[start + 2..end])] + FlagsAfter(command, end)
  }

  /** Moving past a space: the words after the current one are the words of the rest. */
  lemma NextWord(command: string, pos: nat, space: nat)
    requires pos <= space < |command| && command[space] == ' '
    requires forall k :: pos <= k < space ==> command[k] != ' '
    ensures Split(command[pos..], ' ')[1..] == Split(command[space + 1..], ' ')
  {
    SplitFrom(command, ' ', pos, space);
    SplitAfterSeparator(command, ' ', space);
  }

  /** The last word: nothing follows it. */
  lemma LastWord(command: string, pos: nat)
    requires pos <= |command|
    requires forall k :: pos <= k < |command| ==> command[k] != ' '
    ensures Split(command[pos..], ' ')[1..] == []
  {
    SplitNone(command[pos..], ' ');
  }

  /** A word that does not start with '/' or '-' (or is empty) contributes no flag. */
  lemma PlainWord(command: string, start: nat)
    requires start <= |command|
    requires start < |command| ==> !IsFlagStart(command[start])
    ensures WordFlags(Split(command[start..], ' ')) == WordFlags(Split(command[start..], ' ')[1..])
  {
    var space := IndexOfFrom(command, ' ', start);
    SplitFrom(command, ' ', start, space);
  }

  /** "-" or "/" as the last character of the command contributes no flag. */
  lemma TrailingFlagStart(command: string, start: nat)
    requires start + 1 == |command| && IsFlagStart(command[start])
    ensures WordFlags(Split(command[start..], ' ')) == []
  {
    assert command[start..] == [command[start]];
    SplitNone(command[start..], ' ');
  }

  /** A word of two or more characters starting with '/' or '-' is one flag. */
  lemma WordFlagsFlag(ws: seq<string>)
    requires ws != [] && |ws[0]| >= 2 && IsFlagStart(ws[0][0])
    ensures WordFlags(ws) == [Flag(ws[0][1], ws[0][2..])] + WordFlags(ws[1..])
  {
  }

  /** A lone '/' or '-' takes the next word as the value of the flag ' '. */
  lemma WordFlagsLone(ws: seq<string>)
    requires |ws| >= 2 && |ws[0]| == 1 && IsFlagStart(ws[0][0])
    ensures WordFlags(ws) == [Flag(' ', ws[1])] + WordFlags(ws[2..])
  {
  }

  /**
   * A word starting with '/' or '-' followed by one more character `F` and
   * the characters up to the next space contributes the flag `F` with that
   * value. When `F` is a space the value is the whole next word.
   */
  lemma FlagWord(command: string, start: nat, pos: nat)
    requires start + 2 <= pos <= |command| && IsFlagStart(command[start])
    requires forall k :: start + 2 <= k < pos ==> command[k] != ' '
    requires pos < |command| ==> command[pos] == ' '
    ensures WordFlags(Split(command[start..], ' ')) ==
      [Flag(command[start + 1], command[start + 2..pos])] + WordFlags(Split(command[pos..], ' ')[1..])
  {
    if command[start + 1] == ' ' {
      LoneFlagWord(command, start, pos);
    } else {
      SplitFrom(command, ' ', start, pos);
      var ws := Split(command[start..], ' ');
      assert ws[0] == command[start..pos];
      assert ws[1..] == Split(command[pos..], ' ')[1..];
      assert ws[0][1] == command[start + 1];
      assert ws[0][2..] == command[start + 2..pos];
      WordFlagsFlag(ws);
    }
  }

  lemma LoneFlagWord(command: string, start: nat, pos: nat)
    requires start + 2 <= pos <= |command| && IsFlagStart(command[start]) && command[start + 1] == ' '
    requires forall k :: start + 2 <= k < pos ==> command[k] != ' '
    requires pos < |command| ==> command[pos] == ' '
    ensures WordFlags(Split(command[start..], ' ')) ==
      [Flag(' ', command[start + 2..pos])] + WordFlags(Split(command[pos..], ' ')[1..])
  {
    var ws := Split(command[start..], ' ');
    var fval := command[start + 2..pos];
    var rest := Split(command[pos..], ' ')[1..];
    SeparatorAfterFirst(command, ' ', start);
    SplitFrom(command, ' ', start + 2, pos);
    assert ws == [[command[start]]] + ([fval] + rest);
    assert ws[2..] == rest;
    WordFlagsLone(ws);
  }

  /** The position-by-position walk and the word-by-word definition agree. */
  lemma {:induction false} FlagsAfterIsWordFlags(command: string, pos: nat)
    requires pos <= |command|
    ensures FlagsAfter(command, pos) == WordFlags(Split(command[pos..], ' ')[1..])
    decreases |command| - pos, 0
  {
    var space := IndexOfFrom(command, ' ', pos);
    if space == |command| {
      LastWord(command, pos);
    } else {
      NextWord(command, pos, space);
      FlagsFromIsWordFlags(command, space + 1);
    }
  }

  lemma {:induction false} FlagsFromIsWordFlags(command: string, start: nat)
    requires start <= |command|
    ensures FlagsFrom(command, start) == WordFlags(Split(command[start..], ' '))
    decreases |command| - start, 1
  {
    if start == |command| {
      PlainWord(command, start);
      LastWord(command, start);
    } else if !IsFlagStart(command[start]) {
      PlainWord(command, start);
      FlagsAfterIsWordFlags(command, start);
    } else if start + 1 == |command| {
      TrailingFlagStart(command, start);
    } else {
      var end := IndexOfFrom(command, ' ', start + 2);
      FlagWord(command, start, end);
      FlagsAfterIsWordFlags(command, end);
    }
  }

  /** The characters from `from` up to the next space or the end, and where they stop. */
  method ReadValue(command: string, from: nat) returns (fval: string, pos: nat)
    requires from <= |command|
    ensures from <= pos <= |command| && fval == command[from..pos]
    ensures forall k :: from <= k < pos ==> command[k] != ' '
    ensures pos < |command| ==> command[pos] == ' '
  {
    pos := from;
    fval := "";
    while pos < |command| && command[pos] != ' '
      invariant from <= pos <= |command|
      invariant fval == command[from..pos]
      invariant forall k :: from <= k < pos ==> command[k] != ' '
    {
      fval := fval + [command[pos]];
      pos := pos + 1;
    }
  }

  /**
   * The flag scan of one command string: after each space, a word starting
   * with '/' or '-' is read as a flag letter and a value running to the next
   * space.
   */
  method ScanCommand(command: string) returns (defines: string, undefs: set<string>, includePaths: seq<string>)
    ensures CompilerOptions(defines, undefs, includePaths) == OptionsOf(CommandFlags(command))
  {
    defines, undefs, includePaths := "", {}, [];
    ghost var done: seq<Flag> := [];
    var pos := 0;
    while true
      invariant pos <= |command|
      invariant done + FlagsAfter(command, pos) == FlagsAfter(command, 0)
      invariant CompilerOptions(defines, undefs, includePaths) == OptionsOf(done)
      decreases |command| - pos
    {
      var space := IndexOfFrom(command, ' ', pos);
      if space == |command| {
        assert done + [] == done;
        break;
      }
      pos := space + 1;
      if pos >= |command| {
        assert done + [] == done;
        break;
      }
      if command[pos] != '/' && command[pos] != '-' {
        continue;
      }
      pos := pos + 1;
      if pos >= |command| {
        assert done + [] == done;
        break;
      }
      var f := command[pos];
      var fval;
      ghost var start := pos - 1;
      fval, pos := ReadValue(command, pos + 1);
      assert pos == IndexOfFrom(command, ' ', start + 2) by {
        IndexOfFromIs(command, ' ', start + 2, pos);
      }
      if f == 'D' {
        defines := defines + fval + ";";
      } else if f == 'U' {
        undefs := undefs + {fval};
      } else if f == 'I' {
        includePaths := includePaths + [fval];
      }
      AppendFlag(done, Flag(f, fval));
      done := done + [Flag(f, fval)];
    }
    assert FlagsAfter(command, 0) == CommandFlags(command) by {
      FlagsAfterIsWordFlags(command, 0);
      assert command[0..] == command;
    }
  }

  /** A command of one word has no flags, whatever that word is. */
  lemma SingleWordHasNoFlags(command: string)
    requires ' ' !in command
    ensures CommandFlags(command) == []
  {
    SplitNone(command, ' ');
  }

  /** The first word is never examined: only the words after it decide the flags. */
  lemma FirstWordIgnored(first: string, rest: string)
    requires ' ' !in first
    ensures CommandFlags(first + " " + rest) == WordFlags(Split(rest, ' '))
  {
    var s := first + " " + rest;
    IndexOfIs(s, ' ', |first|);
    assert s[..|first|] == first && s[|first| + 1..] == rest;
  }

  /** Three words joined by single spaces split back into those words. */
  lemma SplitThree(a: string, b: string, c: string)
    requires ' ' !in a && ' ' !in b && ' ' !in c
    ensures Split(a + " " + b + " " + c, ' ') == [a, b, c]
  {
    assert [a, b, c][1..] == [b, c];
    assert [b, c][1..] == [c];
    assert Join([b, c], ' ') == b + " " + c;
    assert Join([a, b, c], ' ') == a + " " + (b + " " + c);
    assert a + " " + (b + " " + c) == a + " " + b + " " + c;
    SplitJoin([a, b, c], ' ');
  }

  /** A command of four words: the flags come from the last three. */
  lemma FourWordCommand(w0: string, w1: string, w2: string, w3: string)
    requires ' ' !in w0 && ' ' !in w1 && ' ' !in w2 && ' ' !in w3
    ensures CommandFlags(w0 + " " + w1 + " " + w2 + " " + w3) == WordFlags([w1, w2, w3])
  {
    var rest := w1 + " " + w2 + " " + w3;
    assert w0 + " " + w1 + " " + w2 + " " + w3 == w0 + " " + rest;
    FirstWordIgnored(w0, rest);
    SplitThree(w1, w2, w3);
  }

  /** The flags of "gcc -DFOO -Iinc a.c" are those of its last three words. */
  lemma ExampleCommandWords()
    ensures CommandFlags("gcc -DFOO -Iinc a.c") == WordFlags(["-DFOO", "-Iinc", "a.c"])
  {
    assert "gcc -DFOO -Iinc a.c" == "gcc" + " " + "-DFOO" + " " + "-Iinc" + " " + "a.c";
    FourWordCommand("gcc", "-DFOO", "-Iinc", "a.c");
  }

  lemma ExampleWordFlags()
    ensures WordFlags(["-DFOO", "-Iinc", "a.c"]) == [Flag('D', "FOO"), Flag('I', "inc")]
  {
    assert WordFlags(["a.c"]) == [];
    assert ["-DFOO", "-Iinc", "a.c"][1..] == ["-Iinc", "a.c"];
    assert ["-Iinc", "a.c"][1..] == ["a.c"];
    WordFlagsFlag(["-Iinc", "a.c"]);
    WordFlagsFlag(["-DFOO", "-Iinc", "a.c"]);
  }

  lemma ExampleOptions()
    ensures OptionsOf([Flag('D', "FOO"), Flag('I', "inc")]) == CompilerOptions("FOO;", {}, ["inc"])
  {
    AppendFlag([], Flag('D', "FOO"));
    assert [Flag('D', "FOO")] == [] + [Flag('D', "FOO")];
    AppendFlag([Flag('D', "FOO")], Flag('I', "inc"));
  }

  /** "gcc -DFOO -Iinc a.c" defines FOO and adds the include path inc. */
  lemma ExampleCommandFlags()
    ensures CommandFlags("gcc -DFOO -Iinc a.c") == [Flag('D', "FOO"), Flag('I', "inc")]
    ensures OptionsOf(CommandFlags("gcc -DFOO -Iinc a.c")) == CompilerOptions("FOO;", {}, ["inc"])
  {
    ExampleCommandWords();
    ExampleWordFlags();
    ExampleOptions();
  }

  /** A command of three words: the flags come from the last two. */
  lemma ThreeWordCommand(w0: string, w1: string, w2: string)
    requires ' ' !in w0 && ' ' !in w1 && ' ' !in w2
    ensures CommandFlags(w0 + " " + w1 + " " + w2) == WordFlags([w1, w2])
  {
    SplitThree(w0, w1, w2);
    assert [w0, w1, w2][1..] == [w1, w2];
  }

  /** The flags of "gcc -D FOO" are those of "-D FOO". */
  lemma SeparatedValueWords()
    ensures CommandFlags("gcc -D FOO") == WordFlags(["-D", "FOO"])
  {
    assert "gcc -D FOO" == "gcc" + " " + "-D" + " " + "FOO";
    ThreeWordCommand("gcc", "-D", "FOO");
  }

  lemma SeparatedValueWordFlags()
    ensures WordFlags(["-D", "FOO"]) == [Flag('D', "")]
  {
    assert ["-D", "FOO"][1..] == ["FOO"];
    assert WordFlags(["FOO"]) == [];
    WordFlagsFlag(["-D", "FOO"]);
    assert "-D"[1] == 'D' && "-D"[2..] == "";
  }

  /** A value separated from its flag by a space is not read: "-D FOO" defines the empty name. */
  lemma SeparatedValueNotRead()
    ensures CommandFlags("gcc -D FOO") == [Flag('D', "")]
    ensures OptionsOf(CommandFlags("gcc -D FOO")).defines == ";"
  {
    SeparatedValueWords();
    SeparatedValueWordFlags();
    AppendFlag([], Flag('D', ""));
    assert [Flag('D', "")] == [] + [Flag('D', "")];
  }

  // ---- the token walk ----

  /** A string-literal token as the tokenizer produces it, quotes included. */
  predicate IsStringToken(t: string)
  {
    |t| >= 2 && t[0] == '"' && t[|t| - 1] == '"'
  }

  /** The literal without its quotes. */
  function Unquote(t: string): string
    requires |t| >= 2
  {
    t[1..|t| - 1]
  }

  /** The pattern `%str% : %str% [,}]` at token `i`. */
  predicate MatchesPair(tokens: seq<string>, i: nat)
  {
    && i + 3 < |tokens|
    && IsStringToken(tokens[i])
    && tokens[i + 1] == ":"
    && IsStringToken(tokens[i + 2])
    && (tokens[i + 3] == "," || tokens[i + 3] == "}")
  }

  /** `values[key]` of a std::map: the empty string for an absent key. */
  function Lookup(values: map<string, string>, key: string): string
  {
    if key in values then values[key] else ""
  }

  /** An object that named a non-empty file and a non-empty command. */
  predicate Complete(values: map<string, string>)
  {
    Lookup(values, "file") != "" && Lookup(values, "command") != ""
  }

  /** The FileSettings emitted for a complete object. */
  function Record(values: map<string, string>, paths: PathHelpers): FileSettings
  {
    var o := OptionsOf(CommandFlags(Lookup(values, "command")));
    FileSettings(paths.fromNativeSeparators(Lookup(values, "file")), o.defines, o.undefs, o.includePaths, None)
  }

  /** The key/value pairs of the object being read, and the records emitted so far. */
  datatype Walk = Walk(values: map<string, string>, records: seq<FileSettings>)

  /** Token `i`: a key/value pair is stored; a closing brace emits a record if complete and clears the pairs. */
  function Step(w: Walk, tokens: seq<string>, i: nat, paths: PathHelpers): Walk
    requires i < |tokens|
  {
    if MatchesPair(tokens, i) then
      w.(values := w.values[Unquote(tokens[i]) := Unquote(tokens[i + 2])])
    else if tokens[i] == "}" then
      Walk(map[], w.records + (if Complete(w.values) then [Record(w.values, paths)] else []))
    else w
  }

  /**
   * One token of the import loop: a key/value pair is stored, and a closing
   * brace emits the record of a complete object and clears the pairs.
   */
  method StepToken(values: map<string, string>, tokens: seq<string>, i: nat, paths: PathHelpers)
    returns (next: map<string, string>, emit: seq<FileSettings>)
    requires i < |tokens|
    ensures Step(Walk(values, []), tokens, i, paths) == Walk(next, emit)
    ensures |emit| <= 1 && (emit != [] ==> tokens[i] == "}" && Complete(values))
  {
    next, emit := values, [];
    if MatchesPair(tokens, i) {
      var key := tokens[i];
      var value := tokens[i + 2];
      next := values[key[1..|key| - 1] := value[1..|value| - 1]];
    } else if tokens[i] == "}" {
      if Lookup(values, "file") != "" && Lookup(values, "command") != "" {
        var command := Lookup(values, "command");
        var defines, undefs, includePaths := ScanCommand(command);
        emit := [FileSettings(paths.fromNativeSeparators(Lookup(values, "file")), defines, undefs, includePaths, None)];
      }
      next := map[];
    }
  }

  /** A step appends its records to whatever the walk has emitted so far. */
  lemma StepAppends(w: Walk, tokens: seq<string>, i: nat, paths: PathHelpers)
    requires i < |tokens|
    ensures Step(w, tokens, i, paths).values == Step(Walk(w.values, []), tokens, i, paths).values
    ensures Step(w, tokens, i, paths).records == w.records + Step(Walk(w.values, []), tokens, i, paths).records
  {
  }

  /** The walk after the first `n` tokens. */
  function WalkTokens(tokens: seq<string>, n: nat, paths: PathHelpers): Walk
    requires n <= |tokens|
  {
    if n == 0 then Walk(map[], [])
    else Step(WalkTokens(tokens, n - 1, paths), tokens, n - 1, paths)
  }

  /** The records an import of `tokens` appends. */
  function Records(tokens: seq<string>, paths: PathHelpers): seq<FileSettings>
  {
    WalkTokens(tokens, |tokens|, paths).records
  }

  function CountCloses(tokens: seq<string>): nat
  {
    if tokens == [] then 0
    else CountCloses(tokens[..|tokens| - 1]) + (if tokens[|tokens| - 1] == "}" then 1 else 0)
  }

  /** At most one record per closing brace, and records once emitted stay as they are. */
  lemma {:induction false} RecordsPerClose(tokens: seq<string>, n: nat, m: nat, paths: PathHelpers)
    requires m <= n <= |tokens|
    ensures |WalkTokens(tokens, n, paths).records| <= CountCloses(tokens[..n])
    ensures WalkTokens(tokens, m, paths).records <= WalkTokens(tokens, n, paths).records
  {
    if n > 0 {
      RecordsPerClose(tokens, n - 1, if m == n then n - 1 else m, paths);
      assert tokens[..n][..n - 1] == tokens[..n - 1];
    }
  }

  /** The tokens of a string literal. */
  function Quote(s: string): string
  {
    "\"" + s + "\""
  }

  lemma QuoteUnquote(s: string)
    ensures IsStringToken(Quote(s)) && Unquote(Quote(s)) == s
    ensures Quote(s) != "}" && Quote(s) != "," && Quote(s) != ":"
  {
    assert Quote(s)[1..|Quote(s)| - 1] == s;
  }

  /** The tokens of `{"file": file, "command": command}`. */
  function ObjectTokens(file: string, command: string): seq<string>
  {
    ["{", Quote("file"), ":", Quote(file), ",", Quote("command"), ":", Quote(command), "}"]
  }

  /** One object with a non-empty file and command yields exactly one record. */
  lemma SingleObject(file: string, command: string, paths: PathHelpers)
    requires file != "" && command != ""
    ensures Records(ObjectTokens(file, command), paths) == [Record(map["file" := file, "command" := command], paths)]
  {
    var t := ObjectTokens(file, command);
    QuoteUnquote("file");
    QuoteUnquote(file);
    QuoteUnquote("command");
    QuoteUnquote(command);
    var m1 := map["file" := file];
    var m2 := map["file" := file, "command" := command];
    assert WalkTokens(t, 1, paths) == Walk(map[], []);
    assert MatchesPair(t, 1);
    assert WalkTokens(t, 2, paths) == Walk(m1, []);
    assert !MatchesPair(t, 2) && !MatchesPair(t, 3) && !MatchesPair(t, 4);
    assert WalkTokens(t, 3, paths) == Walk(m1, []);
    assert WalkTokens(t, 4, paths) == Walk(m1, []);
    assert WalkTokens(t, 5, paths) == Walk(m1, []);
    assert MatchesPair(t, 5);
    assert WalkTokens(t, 6, paths) == Walk(m2, []);
    assert !MatchesPair(t, 6) && !MatchesPair(t, 7) && !MatchesPair(t, 8);
    assert WalkTokens(t, 7, paths) == Walk(m2, []);
    assert WalkTokens(t, 8, paths) == Walk(m2, []);
    assert Lookup(m2, "file") == file && Lookup(m2, "command") == command;
  }

  /** The example of one object compiling a.c with -DFOO -Iinc. */
  lemma ExampleObject(paths: PathHelpers)
    ensures var r := Records(ObjectTokens("a.c", "gcc -DFOO -Iinc a.c"), paths);
      |r| == 1 && r[0].defines == "FOO;" && r[0].includePaths == ["inc"] &&
      r[0].filename == paths.fromNativeSeparators("a.c")
  {
    SingleObject("a.c", "gcc -DFOO -Iinc a.c", paths);
    ExampleCommandFlags();
  }

  /** The tokens of `{"file": file}`. */
  function FileOnlyTokens(file: string): seq<string>
  {
    ["{", Quote("file"), ":", Quote(file), "}"]
  }

  /** An object without a command yields nothing. */
  lemma ObjectWithoutCommand(file: string, paths: PathHelpers)
    ensures Records(FileOnlyTokens(file), paths) == []
  {
    var t := FileOnlyTokens(file);
    QuoteUnquote("file");
    QuoteUnquote(file);
    assert WalkTokens(t, 1, paths) == Walk(map[], []);
    assert WalkTokens(t, 2, paths) == Walk(map["file" := file], []);
    assert WalkTokens(t, 4, paths) == Walk(map["file" := file], []);
    assert !Complete(map["file" := file]);
  }
}
