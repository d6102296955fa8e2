/** Copyable commands: a POSIX shell splits the rendered text back into exactly the given arguments. */
module ShellQuoting {
  import opened Text

  // ----- Rendering -----

  predicate IsSafe(c: char)
  {
    || 'A' <= c <= 'Z' || 'a' <= c <= 'z' || '0' <= c <= '9'
    || c in {'_', '-', '.', '/', ':', ',', '=', '@', '+'}
  }

  predicate AllSafe(arg: string) { forall i :: 0 <= i < |arg| ==> IsSafe(arg[i]) }

  /** Every quote closes the quotation, is escaped, and opens it again. */
  function QuoteBody(arg: string): (s: string)
  {
    if arg == "" then []
    else (if arg[0] == '\'' then ['\'', '\\', '\'', '\''] else [arg[0]]) + QuoteBody(arg[1..])
  }

  function Quote(arg: string): (s: string)
  {
    if arg == "" then ['\'', '\'']
    else if AllSafe(arg) then arg
    else ['\''] + (QuoteBody(arg) + ['\''])
  }

  function QuoteAll(args: seq<string>): (parts: seq<string>)
    ensures |parts| == |args|
  {
    if args == [] then [] else [Quote(args[0])] + QuoteAll(args[1..])
  }

  function FormatCommand(args: seq<string>): (s: string)
  {
    Join(QuoteAll(args), [' '])
  }

  const VARIABLE: string := "CLOUDSDK_CONFIG="

  /** The command prefixed with a configuration directory, when one is given and not blank. */
  function FormatCloudsdkCommand(args: seq<string>, config: Option<string>): (s: string)
  {
    if config.None? || Trim(config.value) == "" then FormatCommand(args)
    else
      var dir := FormatCommand([Trim(config.value)]);
      var command := FormatCommand(args);
      if command == "" then VARIABLE + dir else VARIABLE + (dir + ([' '] + command))
  }

  // ----- Word splitting (sections 2.2 and 2.3 of the POSIX shell language) -----

  /** Characters with a meaning of their own outside quotation. */
  predicate IsActive(c: char)
  {
    c in {'|', '&', ';', '<', '>', '(', ')', '$', '`', '"', '*', '?', '[', ']', '#', '~', '%', '{', '}', '!', '\n'}
  }

  /** Where the reader stands: between words, inside one, or inside a quotation of one. */
  datatype Mode = Between | Word(current: string) | Quoted(current: string)

  function Current(mode: Mode): (w: string)
  {
    if mode.Between? then "" else mode.current
  }

  /** The words of a line; nothing if it is unterminated or anything in it is active. */
  function SplitWords(s: string, mode: Mode): (words: Option<seq<string>>)
  {
    if s == "" then
      match mode
      case Between => Some([])
      case Word(w) => Some([w])
      case Quoted(_) => None
    else if mode.Quoted? then
      SplitWords(s[1..], if s[0] == '\'' then Word(mode.current) else Quoted(mode.current + [s[0]]))
    else if s[0] == ' ' || s[0] == '\t' then
      var rest := SplitWords(s[1..], Between);
      if mode.Word? && rest.Some? then Some([mode.current] + rest.value) else rest
    else if s[0] == '\'' then SplitWords(s[1..], Quoted(Current(mode)))
    else if s[0] == '\\' then
      if |s| == 1 then None
      else if s[1] == '\n' then SplitWords(s[2..], mode)
      else SplitWords(s[2..], Word(Current(mode) + [s[1]]))
    else if IsActive(s[0]) then None
    else SplitWords(s[1..], Word(Current(mode) + [s[0]]))
  }

  /** Arguments of plain characters stay as they are; any other is put in quotes. */
  lemma QuoteExactly(arg: string)
    ensures arg != "" && (forall i :: 0 <= i < |arg| ==> IsPlain(arg[i] as int)) ==> Quote(arg) == arg
    ensures arg == "" || (exists i :: 0 <= i < |arg| && !IsPlain(arg[i] as int)) ==>
      |Quote(arg)| >= 2 && Quote(arg)[0] == '\'' && Quote(arg)[|Quote(arg)| - 1] == '\''
  {
    assert forall i :: 0 <= i < |arg| ==> (IsPlain(arg[i] as int) <==> IsSafe(arg[i]));
  }

  /** Letters, digits and `+ , - . / : = @ _`. */
  predicate IsPlain(n: int)
  {
    43 <= n <= 58 || n == 61 || 64 <= n <= 90 || n == 95 || 97 <= n <= 122
  }

  // ----- Reading what was rendered -----

  lemma {:induction false} ReadSafe(arg: string, rest: string, w: string)
    requires AllSafe(arg)
    ensures SplitWords(arg + rest, Word(w)) == SplitWords(rest, Word(w + arg))
  {
    if arg == "" {
      assert arg + rest == rest && w + arg == w;
    } else {
      var s := arg + rest;
      assert s[0] == arg[0] && s[1..] == arg[1..] + rest;
      assert IsSafe(arg[0]) && AllSafe(arg[1..]);
      ReadSafe(arg[1..], rest, w + [arg[0]]);
      assert (w + [arg[0]]) + arg[1..] == w + arg;
    }
  }

  /** Leaving, escaping and re-entering a quotation adds one quote to the word. */
  lemma ReadEscapedQuote(rest: string, w: string)
    ensures SplitWords(['\'', '\\', '\'', '\''] + rest, Quoted(w)) == SplitWords(rest, Quoted(w + ['\'']))
  {
    var s := ['\'', '\\', '\'', '\''] + rest;
    var t := ['\\', '\'', '\''] + rest;
    var u := ['\''] + rest;
    assert s[1..] == t && t[2..] == u && u[1..] == rest;
    assert SplitWords(s, Quoted(w)) == SplitWords(t, Word(w));
    assert SplitWords(t, Word(w)) == SplitWords(u, Word(w + ['\'']));
  }

  lemma {:induction false} ReadBody(arg: string, rest: string, w: string)
    ensures SplitWords(QuoteBody(arg) + (['\''] + rest), Quoted(w)) == SplitWords(rest, Word(w + arg))
  {
    var tail := ['\''] + rest;
    if arg == "" {
      assert QuoteBody(arg) + tail == tail && tail[1..] == rest && w + arg == w;
    } else {
      var body := QuoteBody(arg[1..]) + tail;
      ReadBody(arg[1..], rest, w + [arg[0]]);
      assert (w + [arg[0]]) + arg[1..] == w + arg;
      if arg[0] == '\'' {
        assert QuoteBody(arg) + tail == ['\'', '\\', '\'', '\''] + body;
        ReadEscapedQuote(body, w);
      } else {
        assert QuoteBody(arg) + tail == [arg[0]] + body;
        assert ([arg[0]] + body)[1..] == body;
      }
    }
  }

  /** A rendered argument is read as that argument, added to the word at hand. */
  lemma ReadQuoted(arg: string, rest: string, w: string)
    ensures SplitWords(Quote(arg) + rest, Word(w)) == SplitWords(rest, Word(w + arg))
  {
    if arg != "" && AllSafe(arg) {
      ReadSafe(arg, rest, w);
    } else {
      ReadBody(arg, rest, w);
      var body := QuoteBody(arg) + (['\''] + rest);
      assert Quote(arg) + rest == ['\''] + body;
      assert (['\''] + body)[1..] == body;
    }
  }

  /** A rendered argument always starts a word. */
  lemma StartsWord(arg: string, rest: string)
    ensures Quote(arg) != ""
    ensures SplitWords(Quote(arg) + rest, Between) == SplitWords(Quote(arg) + rest, Word(""))
  {
    var s := Quote(arg) + rest;
    assert s[0] == Quote(arg)[0];
    assert arg != "" && AllSafe(arg) ==> IsSafe(arg[0]);
  }

  lemma ReadSpace(rest: string, w: string)
    ensures SplitWords([' '] + rest, Word(w)) ==
      match SplitWords(rest, Between) case None => None case Some(words) => Some([w] + words)
  {
    assert ([' '] + rest)[1..] == rest;
  }

  /** A word is complete at the end of the line or before the remaining arguments. */
  lemma ReadTail(args: seq<string>, w: string)
    requires SplitWords(FormatCommand(args), Between) == Some(args)
    ensures SplitWords(if args == [] then "" else [' '] + FormatCommand(args), Word(w)) == Some([w] + args)
  {
    ReadSpace(FormatCommand(args), w);
    assert SplitWords("", Word(w)) == Some([w]);
    assert [w] + [] == [w];
  }

  /** The shell reads a rendered command as the arguments it was made from. */
  lemma {:induction false} FormatRoundTrip(args: seq<string>)
    ensures SplitWords(FormatCommand(args), Between) == Some(args)
  {
    if args != [] {
      var arg, rest := args[0], QuoteAll(args[1..]);
      JoinCons(Quote(arg), rest, [' ']);
      FormatRoundTrip(args[1..]);
      var tail := if rest == [] then "" else [' '] + FormatCommand(args[1..]);
      assert FormatCommand(args) == Quote(arg) + tail;
      StartsWord(arg, tail);
      ReadQuoted(arg, tail, "");
      assert "" + arg == arg;
      ReadTail(args[1..], arg);
      assert args == [arg] + args[1..];
    }
  }

  lemma CommandEmptyOnlyWithoutArgs(args: seq<string>)
    ensures FormatCommand(args) == "" <==> args == []
  {
    if args != [] {
      JoinCons(Quote(args[0]), QuoteAll(args[1..]), [' ']);
      StartsWord(args[0], "");
    }
  }

  /** The prefix is one more word in front: the variable with the trimmed directory, whatever that holds. */
  lemma CloudsdkRoundTrip(args: seq<string>, config: Option<string>)
    ensures SplitWords(FormatCloudsdkCommand(args, config), Between) ==
      if config.None? || Trim(config.value) == "" then Some(args)
      else Some([VARIABLE + Trim(config.value)] + args)
  {
    FormatRoundTrip(args);
    if config.Some? && Trim(config.value) != "" {
      var dir := Trim(config.value);
      assert QuoteAll([dir]) == [Quote(dir)];
      CommandEmptyOnlyWithoutArgs(args);
      var tail := if args == [] then "" else [' '] + FormatCommand(args);
      var text := FormatCloudsdkCommand(args, config);
      assert text == VARIABLE + (Quote(dir) + tail);
      ReadVariable(dir, tail);
      ReadTail(args, VARIABLE + dir);
    }
  }

  lemma ReadVariable(dir: string, tail: string)
    ensures SplitWords(VARIABLE + (Quote(dir) + tail), Between) == SplitWords(tail, Word(VARIABLE + dir))
  {
    var s := VARIABLE + (Quote(dir) + tail);
    assert s[0] == 'C';
    assert SplitWords(s, Between) == SplitWords(s, Word(""));
    ReadSafe(VARIABLE, Quote(dir) + tail, "");
    assert "" + VARIABLE == VARIABLE;
    ReadQuoted(dir, tail, VARIABLE);
  }

  // ----- Assignments in front of the command name -----

  predicate IsNameChar(c: char) { 'A' <= c <= 'Z' || 'a' <= c <= 'z' || '0' <= c <= '9' || c == '_' }

  predicate AssignmentAt(s: string, k: nat)
  {
    && 0 < k < |s| && s[k] == '=' && !('0' <= s[0] <= '9')
    && forall i :: 0 <= i < k ==> IsNameChar(s[i])
  }

  /** An unquoted name and an equals sign: the shell takes the word for an assignment (section 2.10.2, rule 7). */
  ghost predicate StartsAssignment(s: string) { exists k: nat :: AssignmentAt(s, k) }

  /** What follows the first blank plays no part. */
  lemma AssignmentInFront(a: string, tail: string)
    requires a != "" && (tail == "" || tail[0] == ' ')
    ensures StartsAssignment(a + tail) <==> StartsAssignment(a)
  {
    var s := a + tail;
    assert forall i :: 0 <= i < |a| ==> s[i] == a[i];
    assert tail != "" ==> s[|a|] == ' ';
    if k: nat :| AssignmentAt(s, k) {
      assert k < |a|;
      assert AssignmentAt(a, k);
    }
    if k: nat :| AssignmentAt(a, k) { assert AssignmentAt(s, k); }
  }

  /** The first argument is taken for an assignment exactly when it has that form and needs no quoting. */
  lemma AssignmentExactly(args: seq<string>)
    requires args != []
    ensures StartsAssignment(FormatCommand(args)) <==> AllSafe(args[0]) && StartsAssignment(args[0])
  {
    var quoted, rest := Quote(args[0]), QuoteAll(args[1..]);
    JoinCons(quoted, rest, [' ']);
    var tail := if rest == [] then "" else [' '] + Join(rest, [' ']);
    assert FormatCommand(args) == quoted + tail;
    StartsWord(args[0], tail);
    AssignmentInFront(quoted, tail);
    assert StartsAssignment(quoted) ==> quoted[0] != '\'';
    assert StartsAssignment(args[0]) ==> args[0] != "";
  }

  /** A first argument `A=b` is split off correctly and then read as an assignment. */
  lemma AssignmentExample(rest: seq<string>)
    ensures StartsAssignment(FormatCommand(["A=b"] + rest))
    ensures SplitWords(FormatCommand(["A=b"] + rest), Between) == Some(["A=b"] + rest)
  {
    var arg := "A=b";
    assert AssignmentAt(arg, 1);
    AssignmentExactly([arg] + rest);
    FormatRoundTrip([arg] + rest);
  }
}
