/**
 * The command-line parser (`duke.parser.Parser`): splits a line into a
 * lower-cased command word and its trimmed arguments, and builds the
 * command. Dates are not read here; the commands read them when they run.
 */
module Parser {
  import opened Text
  import opened Commands

  /** The range of a Java `int`. */
  const IntMin: int := -0x8000_0000
  const IntMax: int := 0x7fff_ffff

  /** A non-empty text that `trim` leaves as it is. */
  predicate Clean(s: string) {
    s != [] && !IsTrimmable(s[0]) && !IsTrimmable(s[|s| - 1])
  }

  // ---------------------------------------------------------------------
  // Command word and arguments
  // ---------------------------------------------------------------------

  /** `getCommandWord`: the trimmed line up to its first space, lower-cased. */
  function CommandWord(line: string): (r: string)
    ensures r == "" <==> IsTrimEmpty(line)
    ensures ' ' !in r
  {
    var s := Trim(line);
    var sp := IndexOfChar(s, ' ');
    var w := if sp == -1 then s else s[..sp];
    assert w != [] <==> s != [];
    var r := ToLower(w);
    assert ' ' !in r by {
      forall k | 0 <= k < |r| ensures r[k] != ' ' {
        assert w[k] in w;
      }
    }
    r
  }

  /** `getArguments`: what follows the first space of the trimmed line, trimmed; empty when there is no space. */
  function Arguments(line: string): (r: string)
    ensures r != [] ==> !IsTrimmable(r[0]) && !IsTrimmable(r[|r| - 1])
    ensures IsTrimEmpty(line) ==> r == ""
  {
    var s := Trim(line);
    var sp := IndexOfChar(s, ' ');
    if sp == -1 then "" else Trim(s[sp + 1..])
  }

  // ---------------------------------------------------------------------
  // Integer.parseInt
  // ---------------------------------------------------------------------

  /** An optional sign followed by at least one ASCII digit. */
  predicate Numeral(s: string) {
    if s != [] && (s[0] == '+' || s[0] == '-') then |s| >= 2 && AllDigits(s[1..])
    else s != [] && AllDigits(s)
  }

  function NumeralValue(s: string): int
    requires Numeral(s)
  {
    if s[0] == '-' then -(DigitsValue(s[1..]) as int)
    else if s[0] == '+' then DigitsValue(s[1..])
    else DigitsValue(s)
  }

  /** `Integer.parseInt`: a numeral whose value fits in an `int`, or nothing. */
  function ParseInt(s: string): (r: Option<int>)
    ensures r.Some? <==> Numeral(s) && IntMin <= NumeralValue(s) <= IntMax
    ensures r.Some? ==> r.value == NumeralValue(s)
  {
    if Numeral(s) && IntMin <= NumeralValue(s) <= IntMax then Some(NumeralValue(s)) else None
  }

  /** `parseOneBasedIndex`: the number the trimmed text spells, or -1 when it spells none. */
  function ParseOneBasedIndex(args: string): (r: int)
    ensures IsTrimEmpty(args) ==> r == -1
    ensures ParseInt(Trim(args)).None? ==> r == -1
    ensures ParseInt(Trim(args)).Some? ==> r == ParseInt(Trim(args)).value
    ensures IntMin <= r <= IntMax
  {
    var s := Trim(args);
    if s == "" then -1 else ParseInt(s).GetOr(-1)
  }

  /** Every `int` written in decimal reads back, with either sign. */
  lemma ParseIntRoundTrip(n: nat)
    ensures n <= IntMax ==> ParseInt(NatToDigits(n)) == Some(n)
    ensures n <= IntMax ==> ParseInt("+" + NatToDigits(n)) == Some(n)
    ensures n <= -IntMin ==> ParseInt("-" + NatToDigits(n)) == Some(-(n as int))
    ensures n > IntMax ==> ParseInt(NatToDigits(n)) == None
  {
    var ds := NatToDigits(n);
    DigitsOfNat(n);
    assert ("+" + ds)[1..] == ds && ("-" + ds)[1..] == ds;
    assert IsDigit(ds[0]);
  }

  /** The index of `mark`, `unmark` and `delete` reads back from its decimal form. */
  lemma IndexRoundTrip(n: nat)
    requires n <= IntMax
    ensures ParseOneBasedIndex(NatToDigits(n)) == n
  {
    var ds := NatToDigits(n);
    assert IsDigit(ds[0]) && IsDigit(ds[|ds| - 1]);
    TrimOfClean(ds);
    ParseIntRoundTrip(n);
  }

  // ---------------------------------------------------------------------
  // Deadline and event arguments
  // ---------------------------------------------------------------------

  /** `parseDeadlineArgs`: description and due text around the last `/by`, both required. */
  function ParseDeadlineArgs(args: string): (r: Option<(string, string)>)
    ensures LastIndexOf(args, "/by") < 0 ==> r.None?
    ensures r.Some? ==> r.value.0 != "" && r.value.1 != ""
    ensures r.Some? ==>
      var i := LastIndexOf(args, "/by");
      0 <= i && r.value.0 == Trim(args[..i]) && r.value.1 == Trim(args[i + 3..])
    ensures var i := LastIndexOf(args, "/by");
      0 <= i && Trim(args[..i]) != "" && Trim(args[i + 3..]) != "" ==> r.Some?
  {
    var i := LastIndexOf(args, "/by");
    if i < 0 then None
    else
      var desc := Trim(args[..i]);
      var due := Trim(args[i + 3..]);
      if desc == "" || due == "" then None else Some((desc, due))
  }

  /** No `/to` can start inside a `/from`: once the `/from` comes first, the text between them is well defined. */
  lemma FromEndsBeforeTo(s: string, i: int, j: int)
    requires OccursAt(s, "/from", i) && OccursAt(s, "/to", j) && i < j
    ensures i + 5 <= j
  {
    assert s[j] == s[j..j + 3][0] == '/';
    forall k | i < k < i + 5
      ensures s[k] != '/'
    {
      assert s[k] == s[i..i + 5][k - i];
    }
  }

  /** The pieces of event arguments once the last `/from` and `/to` are found. */
  function EventArgsAt(args: string, i: int, j: int): (r: Option<(string, string, string)>)
    requires -1 <= i <= |args| && -1 <= j <= |args|
    requires 0 <= i < j ==> OccursAt(args, "/from", i) && OccursAt(args, "/to", j)
  {
    if i < 0 || j < 0 || i >= j then None
    else
      FromEndsBeforeTo(args, i, j);
      var desc := Trim(args[..i]);
      var from := Trim(args[i + 5..j]);
      var to := Trim(args[j + 3..]);
      if desc == "" || from == "" || to == "" then None else Some((desc, from, to))
  }

  /**
   * `parseEventArgs`: description, start text and end text around the last
   * `/from` and the last `/to`. A `/to` after the `/from` always starts past
   * its end (`FromEndsBeforeTo`), so the cases below cover every text.
   */
  function ParseEventArgs(args: string): (r: Option<(string, string, string)>)
    ensures r.Some? ==>
      var i := LastIndexOf(args, "/from");
      var j := LastIndexOf(args, "/to");
      && 0 <= i && i + 5 <= j
      && r.value.0 == Trim(args[..i]) && r.value.1 == Trim(args[i + 5..j]) && r.value.2 == Trim(args[j + 3..])
      && r.value.0 != "" && r.value.1 != "" && r.value.2 != ""
    ensures LastIndexOf(args, "/from") < 0 || LastIndexOf(args, "/to") < 0 ==> r.None?
    ensures LastIndexOf(args, "/to") <= LastIndexOf(args, "/from") ==> r.None?
    ensures var i := LastIndexOf(args, "/from");
      var j := LastIndexOf(args, "/to");
      0 <= i && i + 5 <= j && Trim(args[..i]) != "" && Trim(args[i + 5..j]) != "" && Trim(args[j + 3..]) != "" ==> r.Some?
  {
    var i := LastIndexOf(args, "/from");
    var j := LastIndexOf(args, "/to");
    if 0 <= i < j then FromEndsBeforeTo(args, i, j); EventArgsAt(args, i, j) else EventArgsAt(args, i, j)
  }


  // ---------------------------------------------------------------------
  // The command
  // ---------------------------------------------------------------------

  /** The command words the parser knows; any other first word is an unknown command. */
  const CommandWords: set<string> :=
    {"", "bye", "list", "todo", "deadline", "event", "mark", "unmark", "delete", "on", "clear", "find"}

  /** The `switch` of `parseCommand`: the command a (lower-cased) word and its arguments build. */
  function CommandFor(word: string, args: string, line: string): (r: Command)
    ensures !r.UpdateCmd?
    ensures r.EmptyCmd? <==> word == ""
    ensures r.ExitCmd? <==> word == "bye"
    ensures r.UnknownCmd? ==> r.input == line
    ensures r.DeadlineCmd? ==> r.description != "" && r.dueText != ""
    ensures r.EventCmd? ==> r.description != "" && r.fromText != "" && r.toText != ""
    ensures r.ListCmd? <==> word == "list"
    ensures r.TodoCmd? <==> word == "todo"
    ensures r.TodoCmd? ==> r.description == args
    ensures word == "deadline" ==> (r.DeadlineCmd? <==> ParseDeadlineArgs(args).Some?)
    ensures r.DeadlineCmd? ==> word == "deadline" && ParseDeadlineArgs(args) == Some((r.description, r.dueText))
    ensures word == "event" ==> (r.EventCmd? <==> ParseEventArgs(args).Some?)
    ensures r.EventCmd? ==> word == "event" && ParseEventArgs(args) == Some((r.description, r.fromText, r.toText))
    ensures r.MarkCmd? <==> word == "mark" || word == "unmark"
    ensures r.MarkCmd? ==> r.mark == (word == "mark") && r.index == ParseOneBasedIndex(args)
    ensures r.DeleteCmd? <==> word == "delete"
    ensures r.DeleteCmd? ==> r.index == ParseOneBasedIndex(args)
    ensures r.AgendaCmd? <==> word == "on"
    ensures r.AgendaCmd? ==> r.dateText == args
    ensures r.ClearCmd? <==> word == "clear"
    ensures r.FindCmd? <==> word == "find"
    ensures r.FindCmd? ==> r.keyword == args
    ensures word !in CommandWords ==> r.UnknownCmd?
  {
    match word
    case "" => EmptyCmd
    case "bye" => ExitCmd
    case "list" => ListCmd
    case "todo" => TodoCmd(args)
    case "deadline" =>
      var parts := ParseDeadlineArgs(args);
      if parts.None? then UnknownCmd(line) else DeadlineCmd(parts.value.0, parts.value.1)
    case "event" =>
      var parts := ParseEventArgs(args);
      if parts.None? then UnknownCmd(line) else EventCmd(parts.value.0, parts.value.1, parts.value.2)
    case "mark" => MarkCmd(ParseOneBasedIndex(args), true)
    case "unmark" => MarkCmd(ParseOneBasedIndex(args), false)
    case "delete" => DeleteCmd(ParseOneBasedIndex(args))
    case "on" => AgendaCmd(args)
    case "clear" => ClearCmd
    case "find" => FindCmd(args)
    case _ => UnknownCmd(line)
  }

  /** `parseCommand`. There is no `update` word: that command never comes from a line. */
  function ParseCommand(line: string): (r: Command)
    ensures !r.UpdateCmd?
    ensures r.EmptyCmd? <==> IsTrimEmpty(line)
    ensures r.ExitCmd? <==> CommandWord(line) == "bye"
    ensures r.UnknownCmd? ==> r.input == line
    ensures r.DeadlineCmd? ==> r.description != "" && r.dueText != ""
    ensures r.EventCmd? ==> r.description != "" && r.fromText != "" && r.toText != ""
    ensures r.ListCmd? <==> CommandWord(line) == "list"
    ensures r.TodoCmd? <==> CommandWord(line) == "todo"
    ensures r.TodoCmd? ==> r.description == Arguments(line)
    ensures CommandWord(line) == "deadline" ==> (r.DeadlineCmd? <==> ParseDeadlineArgs(Arguments(line)).Some?)
    ensures r.DeadlineCmd? ==> CommandWord(line) == "deadline" && ParseDeadlineArgs(Arguments(line)) == Some((r.description, r.dueText))
    ensures CommandWord(line) == "event" ==> (r.EventCmd? <==> ParseEventArgs(Arguments(line)).Some?)
    ensures r.EventCmd? ==> CommandWord(line) == "event" && ParseEventArgs(Arguments(line)) == Some((r.description, r.fromText, r.toText))
    ensures r.MarkCmd? <==> CommandWord(line) == "mark" || CommandWord(line) == "unmark"
    ensures r.MarkCmd? ==> r.mark == (CommandWord(line) == "mark") && r.index == ParseOneBasedIndex(Arguments(line))
    ensures r.DeleteCmd? <==> CommandWord(line) == "delete"
    ensures r.DeleteCmd? ==> r.index == ParseOneBasedIndex(Arguments(line))
    ensures r.AgendaCmd? <==> CommandWord(line) == "on"
    ensures r.AgendaCmd? ==> r.dateText == Arguments(line)
    ensures r.ClearCmd? <==> CommandWord(line) == "clear"
    ensures r.FindCmd? <==> CommandWord(line) == "find"
    ensures r.FindCmd? ==> r.keyword == Arguments(line)
    ensures CommandWord(line) !in CommandWords ==> r.UnknownCmd?
  {
    CommandFor(CommandWord(line), Arguments(line), line)
  }

  // ---------------------------------------------------------------------
  // Reading back what a user would type
  // ---------------------------------------------------------------------

  /** Trimming a clean text padded with trimmable characters gives the text back. */
  lemma TrimPadded(pre: string, x: string, post: string)
    requires forall k :: 0 <= k < |pre| ==> IsTrimmable(pre[k])
    requires forall k :: 0 <= k < |post| ==> IsTrimmable(post[k])
    requires Clean(x)
    ensures Trim(pre + x + post) == x
  {
    var s := pre + x + post;
    var i := SkipLeading(s, 0);
    assert s[|pre|] == x[0];
    assert i == |pre|;
    var j := SkipTrailing(s, i, |s|);
    assert s[|pre| + |x| - 1] == x[|x| - 1];
    assert j == |pre| + |x|;
    assert s[i..j] == x;
  }

  /** A word of lower-case, non-blank characters. */
  predicate Word(w: string) {
    w != [] && forall k :: 0 <= k < |w| ==> !IsTrimmable(w[k]) && LowerChar(w[k]) == w[k]
  }

  /** A line made of a command word, one space and clean arguments splits back into the two. */
  lemma WordThenArguments(w: string, a: string)
    requires Word(w) && Clean(a)
    ensures CommandWord(w + " " + a) == w
    ensures Arguments(w + " " + a) == a
  {
    var line := w + " " + a;
    assert line[0] == w[0] && line[|line| - 1] == a[|a| - 1];
    TrimOfClean(line);
    var sp := IndexOfChar(line, ' ');
    assert line[|w|] == ' ';
    assert sp == |w|;
    assert line[..sp] == w && line[sp + 1..] == a;
    assert ToLower(w) == w;
    TrimOfClean(a);
  }

  /** Dropping a leading trimmable character does not change the trim. */
  lemma TrimSkipsTrimmable(c: char, x: string)
    requires IsTrimmable(c)
    ensures Trim([c] + x) == Trim(x)
  {
    var i := SkipLeading(x, 0);
    var j := SkipTrailing(x, i, |x|);
    assert Trim(x) == x[i..j];
    if i == j {
      TrimEmptyIff(x);
      TrimEmptyIff([c] + x);
    } else {
      var pre := [c] + x[..i];
      var post := x[j..];
      assert forall k :: 0 <= k < |pre| ==> IsTrimmable(pre[k]) by {
        forall k | 1 <= k < |pre| ensures IsTrimmable(pre[k]) {
          assert pre[k] == x[k - 1];
        }
      }
      assert forall k :: 0 <= k < |post| ==> IsTrimmable(post[k]) by {
        forall k | 0 <= k < |post| ensures IsTrimmable(post[k]) {
          assert post[k] == x[j + k];
        }
      }
      assert [c] + x == pre + x[i..j] + post;
      TrimPadded(pre, x[i..j], post);
    }
  }

  /** The first space of `w + rest` is the one that starts `rest`, when `w` has none. */
  lemma FirstSpaceAfterWord(s: string, w: string, rest: string)
    requires s == w + rest && ' ' !in w && rest != [] && rest[0] == ' '
    ensures IndexOfChar(s, ' ') == |w| && s[..|w|] == w && s[|w| + 1..] == rest[1..]
  {
    var sp := IndexOfChar(s, ' ');
    assert s[|w|] == ' ' && s[..|w|] == w;
  }

  /**
   * How any line splits: when the trimmed line is a space-free word `w`
   * followed by nothing or by a text `rest` that starts with a space, the
   * command word is `w` lower-cased and the arguments are `rest` trimmed.
   */
  lemma CommandLineSplit(line: string, w: string, rest: string)
    requires Trim(line) == w + rest && ' ' !in w
    requires rest == "" || rest[0] == ' '
    ensures CommandWord(line) == ToLower(w)
    ensures Arguments(line) == Trim(rest)
  {
    if rest == "" {
      assert Trim(line) == w;
    } else {
      WordThenSpace(line, w, rest);
    }
  }

  lemma WordThenSpace(line: string, w: string, rest: string)
    requires Trim(line) == w + rest && ' ' !in w
    requires rest != [] && rest[0] == ' '
    ensures CommandWord(line) == ToLower(w)
    ensures Arguments(line) == Trim(rest)
  {
    FirstSpaceAfterWord(Trim(line), w, rest);
    assert rest == [' '] + rest[1..];
    TrimSkipsTrimmable(' ', rest[1..]);
  }

  /** `p` is found at the separator when its first character does not recur in it and it does not occur after it. */
  lemma LastIndexOfSeparated(x: string, p: string, y: string)
    requires p != [] && p[0] != ' '
    requires forall k :: 1 <= k < |p| ==> p[k] != p[0]
    requires !Contains(y, p)
    ensures LastIndexOf(x + " " + p + " " + y, p) == |x| + 1
  {
    var s := x + " " + p + " " + y;
    assert s[|x| + 1..|x| + 1 + |p|] == p;
    assert OccursAt(s, p, |x| + 1);
    NothingAfterSeparator(x, p, y);
  }

  /** Past the separator's start, `p` occurs nowhere: not inside the separator, nor across its end, nor in `y`. */
  lemma NothingAfterSeparator(x: string, p: string, y: string)
    requires p != [] && p[0] != ' '
    requires forall k :: 1 <= k < |p| ==> p[k] != p[0]
    requires !Contains(y, p)
    ensures forall k :: |x| + 1 < k ==> !OccursAt(x + " " + p + " " + y, p, k)
  {
    var s := x + " " + p + " " + y;
    var off := |x| + |p| + 2;
    forall k | |x| + 1 < k && k + |p| <= |s|
      ensures !OccursAt(s, p, k)
    {
      if k < off {
        assert s[k..k + |p|][0] == s[k];
        if k < off - 1 {
          assert s[k] == p[k - |x| - 1];
        } else {
          assert s[k] == ' ';
        }
      } else {
        assert s[k..k + |p|] == y[k - off..k - off + |p|];
        assert !OccursAt(y, p, k - off);
      }
    }
  }

  /** `/from` cannot occur across the ` /to ` separator. */
  lemma NoFromAcrossTo(f: string, t: string)
    requires !Contains(f, "/from") && !Contains(t, "/from")
    ensures !Contains(f + " /to " + t, "/from")
  {
    var y := f + " /to " + t;
    forall k | 0 <= k <= |y| - 5
      ensures !OccursAt(y, "/from", k)
    {
      if k + 5 <= |f| {
        assert y[k..k + 5] == f[k..k + 5];
        assert !OccursAt(f, "/from", k);
      } else if k >= |f| + 5 {
        assert y[k..k + 5] == t[k - |f| - 5..k - |f|];
        assert !OccursAt(t, "/from", k - |f| - 5);
      } else if k <= |f| {
        assert y[k..k + 5][|f| - k] == y[|f|] == ' ';
      } else if k == |f| + 1 {
        assert y[k..k + 5][1] == y[|f| + 2] == 't';
      } else {
        assert y[k..k + 5][0] == y[k] != '/';
      }
    }
  }

  lemma ParseCommandTodo(line: string)
    requires CommandWord(line) == "todo"
    ensures ParseCommand(line) == TodoCmd(Arguments(line))
  {
  }

  /** `todo <description>` reads back as that description. */
  lemma ParseTodoLine(d: string)
    requires Clean(d)
    ensures ParseCommand("todo " + d) == TodoCmd(d)
  {
    var line := "todo " + d;
    assert line == "todo" + " " + d;
    WordThenArguments("todo", d);
    ParseCommandTodo(line);
  }

  lemma CommandForDeadline(args: string, line: string)
    requires ParseDeadlineArgs(args).Some?
    ensures CommandFor("deadline", args, line) == DeadlineCmd(ParseDeadlineArgs(args).value.0, ParseDeadlineArgs(args).value.1)
  {
  }

  lemma ParseCommandDeadline(line: string)
    requires CommandWord(line) == "deadline" && ParseDeadlineArgs(Arguments(line)).Some?
    ensures ParseCommand(line) ==
      DeadlineCmd(ParseDeadlineArgs(Arguments(line)).value.0, ParseDeadlineArgs(Arguments(line)).value.1)
  {
    CommandForDeadline(Arguments(line), line);
  }

  lemma CommandForEvent(args: string, line: string)
    requires ParseEventArgs(args).Some?
    ensures var e := ParseEventArgs(args).value;
      CommandFor("event", args, line) == EventCmd(e.0, e.1, e.2)
  {
  }

  lemma ParseCommandEvent(line: string)
    requires CommandWord(line) == "event" && ParseEventArgs(Arguments(line)).Some?
    ensures var e := ParseEventArgs(Arguments(line)).value;
      ParseCommand(line) == EventCmd(e.0, e.1, e.2)
  {
    CommandForEvent(Arguments(line), line);
  }

  lemma CommandForIndexed(args: string, line: string)
    ensures CommandFor("mark", args, line) == MarkCmd(ParseOneBasedIndex(args), true)
    ensures CommandFor("unmark", args, line) == MarkCmd(ParseOneBasedIndex(args), false)
    ensures CommandFor("delete", args, line) == DeleteCmd(ParseOneBasedIndex(args))
  {
  }

  /** The arguments `<description> /by <due>` split back into the two, whenever the due text has no `/by` of its own. */
  lemma DeadlineArgsRoundTrip(d: string, due: string)
    requires Clean(d) && Clean(due) && !Contains(due, "/by")
    ensures ParseDeadlineArgs(d + " /by " + due) == Some((d, due))
  {
    var args := d + " /by " + due;
    assert args == d + " " + "/by" + " " + due;
    LastIndexOfSeparated(d, "/by", due);
    var i := |d| + 1;
    assert args[..i] == "" + d + " " && args[i + 3..] == " " + due + "";
    TrimPadded("", d, " ");
    TrimPadded(" ", due, "");
  }

  /** `deadline <description> /by <due>` reads back, whenever the due text has no `/by` of its own. */
  lemma ParseDeadlineLine(d: string, due: string)
    requires Clean(d) && Clean(due) && !Contains(due, "/by")
    ensures ParseCommand("deadline " + d + " /by " + due) == DeadlineCmd(d, due)
  {
    var args := d + " /by " + due;
    var line := "deadline " + d + " /by " + due;
    assert line == "deadline" + " " + args;
    assert args[0] == d[0] && args[|args| - 1] == due[|due| - 1];
    WordThenArguments("deadline", args);
    DeadlineArgsRoundTrip(d, due);
    ParseCommandDeadline(line);
  }

  /** Where the last `/from` and the last `/to` of event arguments are. */
  lemma EventSeparators(d: string, from: string, to: string)
    requires !Contains(from, "/from") && !Contains(to, "/from") && !Contains(to, "/to")
    ensures LastIndexOf(d + " /from " + from + " /to " + to, "/from") == |d| + 1
    ensures LastIndexOf(d + " /from " + from + " /to " + to, "/to") == |d| + |from| + 8
  {
    var args := d + " /from " + from + " /to " + to;
    var y := from + " /to " + to;
    var x := d + " /from " + from;
    assert args == d + " " + "/from" + " " + y;
    assert args == x + " " + "/to" + " " + to;
    NoFromAcrossTo(from, to);
    LastIndexOfSeparated(d, "/from", y);
    LastIndexOfSeparated(x, "/to", to);
  }

  lemma ParseEventArgsAt(args: string, i: int, j: int, d: string, from: string, to: string)
    requires LastIndexOf(args, "/from") == i && LastIndexOf(args, "/to") == j && 0 <= i && i + 5 <= j <= |args| - 3
    requires Trim(args[..i]) == d && Trim(args[i + 5..j]) == from && Trim(args[j + 3..]) == to
    requires d != "" && from != "" && to != ""
    ensures ParseEventArgs(args) == Some((d, from, to))
  {
  }

  /** The three pieces of event arguments, each trimmed back to what was written. */
  lemma EventPieces(args: string, i: int, j: int, d: string, from: string, to: string)
    requires Clean(d) && Clean(from) && Clean(to)
    requires args == d + " /from " + from + " /to " + to && i == |d| + 1 && j == |d| + |from| + 8
    ensures 0 <= i <= j <= |args|
    ensures Trim(args[..i]) == d && Trim(args[i + 5..j]) == from && Trim(args[j + 3..]) == to
  {
    assert args[..i] == "" + d + " " by {
      assert args == (d + " ") + ("/from " + from + " /to " + to);
    }
    assert args[i + 5..j] == " " + from + " " by {
      assert args == (d + " /from") + (" " + from + " ") + ("/to " + to);
    }
    assert args[j + 3..] == " " + to + "" by {
      assert args == (d + " /from " + from + " /to") + (" " + to);
    }
    TrimPadded("", d, " ");
    TrimPadded(" ", from, " ");
    TrimPadded(" ", to, "");
  }

  lemma EventArgsRoundTrip(d: string, from: string, to: string)
    requires Clean(d) && Clean(from) && Clean(to)
    requires !Contains(from, "/from") && !Contains(to, "/from") && !Contains(to, "/to")
    ensures ParseEventArgs(d + " /from " + from + " /to " + to) == Some((d, from, to))
  {
    var args := d + " /from " + from + " /to " + to;
    var i := |d| + 1;
    var j := |d| + |from| + 8;
    assert LastIndexOf(args, "/from") == i && LastIndexOf(args, "/to") == j by {
      EventSeparators(d, from, to);
    }
    EventPieces(args, i, j, d, from, to);
    ParseEventArgsAt(args, i, j, d, from, to);
  }

  /** `event <description> /from <start> /to <end>` reads back under the same conditions. */
  lemma ParseEventLine(d: string, from: string, to: string)
    requires Clean(d) && Clean(from) && Clean(to)
    requires !Contains(from, "/from") && !Contains(to, "/from") && !Contains(to, "/to")
    ensures ParseCommand("event " + d + " /from " + from + " /to " + to) == EventCmd(d, from, to)
  {
    var args := d + " /from " + from + " /to " + to;
    var line := "event " + d + " /from " + from + " /to " + to;
    assert line == "event" + " " + args;
    assert args[0] == d[0] && args[|args| - 1] == to[|to| - 1];
    WordThenArguments("event", args);
    EventArgsRoundTrip(d, from, to);
    ParseCommandEvent(line);
  }

  /** A command word followed by a number in decimal splits back into the word and the number. */
  lemma WordThenNumber(w: string, n: nat)
    requires Word(w) && n <= IntMax
    ensures CommandWord(w + " " + NatToDigits(n)) == w
    ensures ParseOneBasedIndex(Arguments(w + " " + NatToDigits(n))) == n
  {
    var ds := NatToDigits(n);
    assert IsDigit(ds[0]) && IsDigit(ds[|ds| - 1]);
    WordThenArguments(w, ds);
    IndexRoundTrip(n);
  }

  /** A line whose command word is `w` builds what `w` builds from the line's arguments. */
  lemma ParseCommandOfWord(line: string, w: string)
    requires CommandWord(line) == w
    ensures ParseCommand(line) == CommandFor(w, Arguments(line), line)
  {
  }

  lemma MarkWordsAreWords()
    ensures Word("mark") && Word("unmark") && Word("delete")
  {
  }

  /** `delete <n>` reads back the number. */
  lemma ParseDeleteLine(n: nat)
    requires n <= IntMax
    ensures ParseCommand("delete " + NatToDigits(n)) == DeleteCmd(n)
  {
    var ds := NatToDigits(n);
    var line := "delete " + ds;
    assert line == "delete" + " " + ds;
    MarkWordsAreWords();
    WordThenNumber("delete", n);
    ParseCommandOfWord(line, "delete");
    CommandForIndexed(Arguments(line), line);
  }

  /** `mark <n>` reads back the number. */
  lemma ParseMarkLine(n: nat)
    requires n <= IntMax
    ensures ParseCommand("mark " + NatToDigits(n)) == MarkCmd(n, true)
  {
    var ds := NatToDigits(n);
    var line := "mark " + ds;
    assert line == "mark" + " " + ds;
    MarkWordsAreWords();
    WordThenNumber("mark", n);
    ParseCommandOfWord(line, "mark");
    CommandForIndexed(Arguments(line), line);
  }

  /** `unmark <n>` reads back the number. */
  lemma ParseUnmarkLine(n: nat)
    requires n <= IntMax
    ensures ParseCommand("unmark " + NatToDigits(n)) == MarkCmd(n, false)
  {
    var ds := NatToDigits(n);
    var line := "unmark " + ds;
    assert line == "unmark" + " " + ds;
    MarkWordsAreWords();
    WordThenNumber("unmark", n);
    ParseCommandOfWord(line, "unmark");
    CommandForIndexed(Arguments(line), line);
  }
}
