/** The `.env` loader and the database settings derived from it
    (website/config.php). The PHP superglobal `$_ENV` and the process
    environment that `putenv`/`getenv` work on are two separate maps. */
module Env {
  import opened Text

  // ------------------------------------------------------------- file()

  /** The index of the first newline of `s`, or `|s|` when there is none. */
  function LineEnd(s: string): (k: nat)
    ensures k <= |s|
    ensures '\n' !in s[..k]
    ensures k < |s| ==> s[k] == '\n'
  {
    if s == [] || s[0] == '\n' then 0
    else
      var k := LineEnd(s[1..]);
      assert s[..k + 1] == [s[0]] + s[1..][..k];
      k + 1
  }

  /** A line ended by a newline loses the '\r' of a "\r\n" line end. */
  function LineText(line: string): (r: string)
    ensures '\n' !in line ==> '\n' !in r
  {
    if line != [] && line[|line| - 1] == '\r' then line[..|line| - 1] else line
  }

  /** `file($path, FILE_IGNORE_NEW_LINES | FILE_SKIP_EMPTY_LINES)`: the
      lines of the text without their "\n" or "\r\n" ending, the lines left
      empty by that dropped. A last line without a newline is kept as it is,
      '\r' included. */
  function FileLines(content: string): (lines: seq<string>)
    ensures forall i :: 0 <= i < |lines| ==> lines[i] != "" && '\n' !in lines[i]
    decreases |content|
  {
    var k := LineEnd(content);
    if k == |content| then
      assert content[..k] == content;
      if content == "" then [] else [content]
    else
      var line := LineText(content[..k]);
      (if line == [] then [] else [line]) + FileLines(content[k + 1..])
  }

  /** A file made of `lines`, each ended by a newline. */
  function Join(lines: seq<string>): string
  {
    if lines == [] then [] else lines[0] + ("\n" + Join(lines[1..]))
  }

  lemma {:induction false} LineEndOf(head: string, rest: string)
    requires '\n' !in head
    ensures LineEnd(head + ("\n" + rest)) == |head|
    decreases |head|
  {
    if head != [] {
      assert (head + ("\n" + rest))[1..] == head[1..] + ("\n" + rest);
      LineEndOf(head[1..], rest);
    } else {
      assert head + ("\n" + rest) == "\n" + rest;
    }
  }

  /** Lines that survive `file()` unchanged: non-empty, without a newline,
      and not ending in '\r'. */
  ghost predicate ProperLines(lines: seq<string>)
  {
    forall i :: 0 <= i < |lines| ==>
      lines[i] != "" && '\n' !in lines[i] && lines[i][|lines[i]| - 1] != '\r'
  }

  /** The text before the first newline, with its line end, is read as
      `LineText` of it (or as nothing when that is empty). */
  lemma FileLinesOfHead(head: string, after: string)
    requires '\n' !in head
    ensures var t := LineText(head);
      FileLines(head + ("\n" + after)) == (if t == [] then [] else [t]) + FileLines(after)
  {
    var content := head + ("\n" + after);
    LineEndOf(head, after);
    assert content[..|head|] == head;
    assert content[|head| + 1..] == after;
  }

  /** A non-empty line and its newline are read as that line. */
  lemma FileLinesOfLine(head: string, after: string)
    requires head != "" && '\n' !in head && head[|head| - 1] != '\r'
    ensures FileLines(head + ("\n" + after)) == [head] + FileLines(after)
  {
    FileLinesOfHead(head, after);
  }

  /** "\r\n" ends a line just as "\n" does. */
  lemma CrlfEndsALine(head: string, after: string)
    requires head != "" && '\n' !in head && head[|head| - 1] != '\r'
    ensures FileLines(head + ("\r\n" + after)) == [head] + FileLines(after)
  {
    var h := head + "\r";
    assert h + ("\n" + after) == head + ("\r\n" + after);
    assert LineText(h) == head by { assert h[..|h| - 1] == head; }
    FileLinesOfHead(h, after);
  }

  /** A blank line of a CRLF file is skipped as well. */
  lemma BlankCrlfLineIsSkipped(rest: string)
    ensures FileLines("\r\n" + rest) == FileLines(rest)
  {
    assert "\r" + ("\n" + rest) == "\r\n" + rest;
    assert LineText("\r") == [] by { assert "\r"[..0] == []; }
    FileLinesOfHead("\r", rest);
  }

  /** Lines written ahead of any text are read back first. */
  lemma {:induction false} FileLinesAfterJoin(before: seq<string>, rest: string)
    requires ProperLines(before)
    ensures FileLines(Join(before) + rest) == before + FileLines(rest)
    decreases |before|
  {
    if before == [] {
      assert Join(before) + rest == rest;
    } else {
      var head, tail := before[0], before[1..];
      var after := Join(tail) + rest;
      assert ProperLines(tail) by {
        forall i | 0 <= i < |tail|
          ensures tail[i] != "" && '\n' !in tail[i] && tail[i][|tail[i]| - 1] != '\r'
        {
          assert tail[i] == before[i + 1];
        }
      }
      calc {
        FileLines(Join(before) + rest);
        { assert Join(before) + rest == head + ("\n" + after); }
        FileLines(head + ("\n" + after));
        { FileLinesOfLine(head, after); }
        [head] + FileLines(after);
        { FileLinesAfterJoin(tail, rest); }
        [head] + (tail + FileLines(rest));
        { assert before == [head] + tail; }
        before + FileLines(rest);
      }
    }
  }

  /** `FILE_SKIP_EMPTY_LINES`: a newline with nothing before it yields no line. */
  lemma EmptyLineIsSkipped(rest: string)
    ensures FileLines("\n" + rest) == FileLines(rest)
  {
    assert ("\n" + rest)[1..] == rest;
  }

  /** Reading back a file written line by line gives the lines, as long as
      none is empty, holds a newline or ends in '\r'. */
  lemma FileLinesOfJoin(lines: seq<string>)
    requires ProperLines(lines)
    ensures FileLines(Join(lines)) == lines
  {
    FileLinesAfterJoin(lines, "");
    assert Join(lines) + "" == Join(lines);
  }

  // ------------------------------------------------------ one line of .env

  /** `explode('=', $line, 2)`: the text before the first '=', and the
      text after it when there is one. */
  function SplitAtFirst(line: string): (r: (string, Option<string>))
    ensures '=' !in r.0
    ensures r.1.None? ==> r.0 == line
    ensures r.1.Some? ==> line == r.0 + "=" + r.1.value
  {
    if line == [] then ([], None)
    else if line[0] == '=' then
      assert line == [] + "=" + line[1..];
      ([], Some(line[1..]))
    else
      var (name, rest) := SplitAtFirst(line[1..]);
      assert line == [line[0]] + line[1..];
      ([line[0]] + name, rest)
  }

  /** The split is at the first '=': whatever follows it, '=' included,
      belongs to the value. */
  lemma {:induction false} SplitAtFirstEquals(name: string, value: string)
    requires '=' !in name
    ensures SplitAtFirst(name + "=" + value) == (name, Some(value))
    decreases |name|
  {
    var line := name + "=" + value;
    if name == [] {
      assert line == "=" + value && line[1..] == value;
    } else {
      assert line[1..] == name[1..] + "=" + value;
      SplitAtFirstEquals(name[1..], value);
      assert [name[0]] + name[1..] == name;
    }
  }

  /** What one line of the file asks for. */
  datatype Line = Skip | Assign(name: string, value: string)

  predicate IsComment(line: string)
    ensures IsComment(line) <==>
      exists k :: 0 <= k < |line| && line[k] == '#' && forall i :: 0 <= i < k ==> line[i] in PhpWhitespace
  {
    TrimSpec(line, PhpWhitespace);
    var k := TrimOffset(line, PhpWhitespace);
    assert Trim(line, PhpWhitespace) != [] ==> Trim(line, PhpWhitespace)[0] == line[k];
    assert forall j :: 0 <= j < |line| && line[j] == '#' && (forall i :: 0 <= i < j ==> line[i] in PhpWhitespace) ==>
      j == k && Trim(line, PhpWhitespace) != [];
    var t := Trim(line, PhpWhitespace);
    t != [] && t[0] == '#'
  }

  /** A comment line is skipped. Any other line is split at its first '=',
      and both halves are trimmed; a line without '=' has the value "". */
  function ParseLine(line: string): (r: Line)
    ensures r.Skip? <==> IsComment(line)
    ensures r.Assign? ==> r.name == Trim(SplitAtFirst(line).0, PhpWhitespace)
    ensures r.Assign? && SplitAtFirst(line).1.Some? ==> r.value == Trim(SplitAtFirst(line).1.value, PhpWhitespace)
    ensures r.Assign? && SplitAtFirst(line).1.None? ==> r.value == ""
  {
    if IsComment(line) then Skip
    else
      var (name, value) := SplitAtFirst(line);
      var n := Trim(name, PhpWhitespace);
      Assign(n, match value case Some(v) => Trim(v, PhpWhitespace) case None => "")
  }

  /** A trimmed name still holds no '=', so the split point is unambiguous. */
  lemma NameHasNoEquals(line: string)
    ensures ParseLine(line).Assign? ==> '=' !in ParseLine(line).name
  {
    if ParseLine(line).Assign? {
      var name := SplitAtFirst(line).0;
      var n := Trim(name, PhpWhitespace);
      var off := TrimOffset(name, PhpWhitespace);
      TrimSpec(name, PhpWhitespace);
      forall i | 0 <= i < |n| ensures n[i] != '=' {
        assert n[i] == name[off + i];
      }
    }
  }

  lemma ParseAssignment(name: string, value: string)
    requires '=' !in name && !IsComment(name + "=" + value)
    ensures ParseLine(name + "=" + value) == Assign(Trim(name, PhpWhitespace), Trim(value, PhpWhitespace))
  {
    SplitAtFirstEquals(name, value);
  }

  // ---------------------------------------------------------- the loader

  datatype EnvState = EnvState(superglobal: map<string, string>, process: map<string, string>)

  /** One iteration of the `foreach`. `None` is the `ValueError` that
      `putenv("=value")` throws for an empty name (it ends the script). */
  function Step(st: EnvState, line: string): (r: Option<EnvState>)
    ensures r.None? <==> ParseLine(line).Assign? && ParseLine(line).name == "" && "" !in st.superglobal
    ensures r.Some? ==> forall k :: k in st.superglobal ==>
      k in r.value.superglobal && r.value.superglobal[k] == st.superglobal[k]
  {
    match ParseLine(line)
    case Skip => Some(st)
    case Assign(name, value) =>
      if name in st.superglobal then Some(st)
      else if name == "" then None
      else Some(EnvState(st.superglobal[name := value], st.process[name := value]))
  }

  /** The state after the remaining lines, and whether a line threw. */
  datatype Applied = Applied(state: EnvState, failed: bool)

  function Run(st: EnvState, lines: seq<string>): (r: Applied)
    ensures forall k :: k in st.superglobal ==>
      k in r.state.superglobal && r.state.superglobal[k] == st.superglobal[k]
    decreases |lines|
  {
    if lines == [] then Applied(st, false)
    else match Step(st, lines[0])
      case None => Applied(st, true)
      case Some(next) => Run(next, lines[1..])
  }

  lemma {:induction false} RunAppend(st: EnvState, a: seq<string>, b: seq<string>)
    ensures Run(st, a + b) == if Run(st, a).failed then Run(st, a) else Run(Run(st, a).state, b)
    decreases |a|
  {
    if a == [] {
      assert a + b == b;
    } else {
      var ab := a + b;
      assert ab[0] == a[0] && ab[1..] == a[1..] + b;
      var next := Step(st, a[0]);
      if next.None? {
        assert Run(st, ab) == Applied(st, true);
        assert Run(st, a) == Applied(st, true);
      } else {
        RunAppend(next.value, a[1..], b);
        assert Run(st, ab) == Run(next.value, a[1..] + b);
        assert Run(st, a) == Run(next.value, a[1..]);
      }
    }
  }

  /** A name that is already in `$_ENV` is never overwritten, in `$_ENV`
      or in the process environment. */
  lemma {:induction false} RunKeepsExisting(st: EnvState, lines: seq<string>, name: string)
    requires name in st.superglobal
    ensures var r := Run(st, lines).state;
      && name in r.superglobal && r.superglobal[name] == st.superglobal[name]
      && (name in r.process <==> name in st.process)
      && (name in st.process ==> r.process[name] == st.process[name])
    decreases |lines|
  {
    if lines != [] {
      match Step(st, lines[0])
      case None =>
      case Some(next) => RunKeepsExisting(next, lines[1..], name);
    }
  }

  predicate Assigns(line: string, name: string)
  {
    ParseLine(line).Assign? && ParseLine(line).name == name
  }

  lemma {:induction false} RunLeavesUnassigned(st: EnvState, lines: seq<string>, name: string)
    requires name !in st.superglobal
    requires forall i :: 0 <= i < |lines| ==> !Assigns(lines[i], name)
    ensures name !in Run(st, lines).state.superglobal
    decreases |lines|
  {
    if lines != [] {
      match Step(st, lines[0])
      case None =>
      case Some(next) => RunLeavesUnassigned(next, lines[1..], name);
    }
  }

  /** Within one file the first assignment of a name wins, whatever
      follows it. */
  lemma FirstAssignmentWins(st: EnvState, before: seq<string>, line: string, after: seq<string>)
    requires ParseLine(line).Assign? && ParseLine(line).name != ""
    requires ParseLine(line).name !in st.superglobal
    requires forall i :: 0 <= i < |before| ==> !Assigns(before[i], ParseLine(line).name)
    requires !Run(st, before).failed
    ensures var r := Run(st, before + [line] + after).state;
      var name := ParseLine(line).name;
      name in r.superglobal && r.superglobal[name] == ParseLine(line).value &&
      name in r.process && r.process[name] == ParseLine(line).value
  {
    var name := ParseLine(line).name;
    var mid := Run(st, before).state;
    RunLeavesUnassigned(st, before, name);
    RunAppend(st, before, [line] + after);
    assert before + [line] + after == before + ([line] + after);
    var next := EnvState(mid.superglobal[name := ParseLine(line).value], mid.process[name := ParseLine(line).value]);
    assert Step(mid, line) == Some(next);
    assert ([line] + after)[1..] == after;
    RunKeepsExisting(next, after, name);
  }

  /** A line of spaces or tabs is not empty, so `file()` keeps it; its
      name trims to "" and `putenv("=")` stops the load. */
  lemma BlankLineStopsTheLoad(st: EnvState, line: string)
    requires line != [] && forall i :: 0 <= i < |line| ==> line[i] == ' ' || line[i] == '\t'
    requires "" !in st.superglobal
    ensures FileLines(line + "\n") == [line]
    ensures Run(st, [line]).failed
  {
    assert line + "\n" == line + ("\n" + "");
    assert line[|line| - 1] != '\r';
    FileLinesOfLine(line, "");
    TrimSpec(line, PhpWhitespace);
    assert Trim(line, PhpWhitespace) == "";
    assert '=' !in line;
    assert SplitAtFirst(line).1.None?;
    assert ParseLine(line) == Assign("", "");
  }

  /** A CRLF file with a blank line between two lines is read as those two
      lines: the line ends and the blank line go with the newlines. */
  lemma CrlfLinesAroundABlank(a: string, b: string)
    requires a != "" && '\n' !in a && a[|a| - 1] != '\r'
    requires b != "" && '\n' !in b && b[|b| - 1] != '\r'
    ensures FileLines(a + "\r\n\r\n" + b + "\r\n") == [a, b]
  {
    var tail := b + ("\r\n" + "");
    assert a + "\r\n\r\n" + b + "\r\n" == a + ("\r\n" + ("\r\n" + tail));
    CrlfEndsALine(a, "\r\n" + tail);
    BlankCrlfLineIsSkipped(tail);
    CrlfEndsALine(b, "");
    assert FileLines("") == [];
  }

  /** ... and, when both are assignments of different non-empty names,
      loading them into an empty environment sets both. */
  lemma CrlfFileLoads(a: string, b: string)
    requires a != "" && '\n' !in a && a[|a| - 1] != '\r'
    requires b != "" && '\n' !in b && b[|b| - 1] != '\r'
    requires ParseLine(a).Assign? && ParseLine(a).name != ""
    requires ParseLine(b).Assign? && ParseLine(b).name != "" && ParseLine(b).name != ParseLine(a).name
    ensures var x, y := ParseLine(a), ParseLine(b);
      var loaded := map[x.name := x.value, y.name := y.value];
      Run(EnvState(map[], map[]), FileLines(a + "\r\n\r\n" + b + "\r\n")) == Applied(EnvState(loaded, loaded), false)
  {
    CrlfLinesAroundABlank(a, b);
    var x, y := ParseLine(a), ParseLine(b);
    var s0 := EnvState(map[], map[]);
    var s1 := EnvState(map[x.name := x.value], map[x.name := x.value]);
    var loaded := map[x.name := x.value, y.name := y.value];
    assert Step(s0, a) == Some(s1);
    assert y.name !in s1.superglobal;
    assert Step(s1, b) == Some(EnvState(loaded, loaded));
    calc {
      Run(s0, [a, b]);
      { assert [a, b][1..] == [b]; }
      Run(s1, [b]);
      { assert [b][1..] == []; }
      Run(EnvState(loaded, loaded), []);
    }
  }

  /** What `loadEnv` ended with. `FileMissing` is the `die` of a missing
      file; `InvalidName` the uncaught `ValueError` of `putenv`. */
  datatype Outcome = Loaded | FileMissing | InvalidName

  class Environment {
    var superglobal: map<string, string>
    var process: map<string, string>

    constructor (superglobal: map<string, string>, process: map<string, string>)
      ensures this.superglobal == superglobal && this.process == process
    {
      this.superglobal := superglobal;
      this.process := process;
    }

    function State(): EnvState
      reads this
    {
      EnvState(superglobal, process)
    }

    /** `loadEnv($path)`; `file` is the file's text, `None` when it does
        not exist. */
    method LoadEnv(file: Option<string>) returns (outcome: Outcome)
      modifies this
      ensures file.None? ==> outcome == FileMissing && State() == old(State())
      ensures file.Some? ==>
        var r := Run(old(State()), FileLines(file.value));
        State() == r.state && (outcome == if r.failed then InvalidName else Loaded)
    {
      if file.None? {
        return FileMissing;
      }
      var lines := FileLines(file.value);
      var i := 0;
      while i < |lines|
        invariant 0 <= i <= |lines|
        invariant Run(EnvState(superglobal, process), lines[i..]) == Run(old(State()), lines)
        decreases |lines| - i
      {
        assert lines[i..][0] == lines[i] && lines[i..][1..] == lines[i + 1..];
        ghost var before := EnvState(superglobal, process);
        var parsed := ParseLine(lines[i]);
        if parsed.Assign? && parsed.name !in superglobal {
          if parsed.name == "" {
            assert Step(before, lines[i]) == None;
            return InvalidName;
          }
          process := process[parsed.name := parsed.value];
          superglobal := superglobal[parsed.name := parsed.value];
        }
        assert Step(before, lines[i]) == Some(EnvState(superglobal, process));
        i := i + 1;
      }
      outcome := Loaded;
    }
  }

  // ------------------------------------------------------ database settings

  /** `getenv($name) ?: $default`: `getenv` gives false for an unset name,
      and false, "" and "0" all select the default. */
  function GetenvOr(process: map<string, string>, name: string, default: string): (r: string)
    ensures name in process && !PhpEmpty(process[name]) ==> r == process[name]
    ensures (name !in process || PhpEmpty(process[name])) ==> r == default
  {
    if name in process && !PhpEmpty(process[name]) then process[name] else default
  }

  datatype DbConfig = DbConfig(host: string, user: string, password: string, name: string, port: string)

  /** `getenv(name)` is truthy: the variable is set and neither "" nor "0". */
  predicate Configured(process: map<string, string>, name: string)
  {
    name in process && !PhpEmpty(process[name])
  }

  /** The five `define`s: each field is the configured variable, or else its default. */
  function DbSettings(process: map<string, string>): (c: DbConfig)
    ensures c.host == (if Configured(process, "DB_HOST") then process["DB_HOST"] else "localhost")
    ensures c.user == (if Configured(process, "DB_USER") then process["DB_USER"] else "root")
    ensures c.password == (if Configured(process, "DB_PASSWORD") then process["DB_PASSWORD"] else "")
    ensures c.name == (if Configured(process, "DB_NAME") then process["DB_NAME"] else "english_dictionary")
    ensures c.port == (if Configured(process, "DB_PORT") then process["DB_PORT"] else "3306")
  {
    DbConfig(
      GetenvOr(process, "DB_HOST", "localhost"),
      GetenvOr(process, "DB_USER", "root"),
      GetenvOr(process, "DB_PASSWORD", ""),
      GetenvOr(process, "DB_NAME", "english_dictionary"),
      GetenvOr(process, "DB_PORT", "3306"))
  }

  /** Only the five variables matter: two environments that agree on them give the same settings. */
  lemma DbSettingsDependOnlyOnTheFive(p: map<string, string>, q: map<string, string>)
    requires forall n :: n in {"DB_HOST", "DB_USER", "DB_PASSWORD", "DB_NAME", "DB_PORT"} ==>
      (n in p <==> n in q) && (n in p ==> p[n] == q[n])
    ensures DbSettings(p) == DbSettings(q)
  {
    assert Configured(p, "DB_HOST") == Configured(q, "DB_HOST");
    assert Configured(p, "DB_USER") == Configured(q, "DB_USER");
    assert Configured(p, "DB_PASSWORD") == Configured(q, "DB_PASSWORD");
    assert Configured(p, "DB_NAME") == Configured(q, "DB_NAME");
    assert Configured(p, "DB_PORT") == Configured(q, "DB_PORT");
  }

  /** An unset environment gives the built-in defaults. */
  lemma DefaultSettings()
    ensures DbSettings(map[]) == DbConfig("localhost", "root", "", "english_dictionary", "3306")
  {
  }

  /** A password of "0" is falsy and is replaced by the empty default. */
  lemma ZeroPasswordIsDropped(process: map<string, string>)
    requires "DB_PASSWORD" in process && process["DB_PASSWORD"] == "0"
    ensures DbSettings(process).password == ""
  {
  }
}
