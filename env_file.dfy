/**
 * The `.env` loader that runs before configuration is read: the first
 * existing candidate file is read line by line and every `key=value` line is
 * stored into the process environment.
 */
module EnvFile {
  import opened Wrappers
  import opened Text

  /** One stored assignment. */
  datatype Entry = Entry(key: string, value: string)

  /** Index of the first occurrence of `c` in `s`, as `str.partition` finds it. */
  function FirstIndexOf(s: string, c: char): (i: nat)
    requires c in s
    ensures i < |s| && s[i] == c && c !in s[..i]
  {
    if s[0] == c then 0
    else
      assert c in s[1..] by { var j :| 0 <= j < |s| && s[j] == c; assert s[1..][j - 1] == c; }
      var i := 1 + FirstIndexOf(s[1..], c);
      assert s[..i] == [s[0]] + s[1..][..i - 1];
      i
  }

  /**
   * What one line of the file contributes, if anything. The line is stripped;
   * an empty line, a comment or a line without '=' is skipped; otherwise it is
   * split at its FIRST '=', the key is the stripped left part and the value is
   * the right part stripped of whitespace and then of surrounding quotes. A
   * line whose key strips to nothing is skipped too, which (since the line has
   * already been stripped) happens exactly when the line starts with '='.
   */
  function ParseLine(raw: string): (r: Option<Entry>)
    ensures r.Some? ==> r.value.key != []
  {
    var line := StripSpace(raw);
    if line != [] && line[0] != '#' && '=' in line then
      var i := FirstIndexOf(line, '=');
      var k := StripSpace(line[..i]);
      if k != [] then Some(Entry(k, Strip(StripSpace(line[i + 1..]), Quotes))) else None
    else
      None
  }

  /**
   * When a line is skipped and, otherwise, how it splits: at its first '=',
   * so the key never holds '=' while the value may.
   */
  lemma ParseLineSplitsAtFirstEquals(raw: string)
    ensures var line := StripSpace(raw);
            ParseLine(raw).None? <==> (line == [] || line[0] == '#' || line[0] == '=' || '=' !in line)
    ensures var line := StripSpace(raw);
            ParseLine(raw).Some? ==>
              exists i ::
                && 0 <= i < |line|
                && line[i] == '='
                && '=' !in line[..i]
                && ParseLine(raw).value.key == StripSpace(line[..i])
                && ParseLine(raw).value.value == Strip(StripSpace(line[i + 1..]), Quotes)
    ensures ParseLine(raw).Some? ==> '=' !in ParseLine(raw).value.key
  {
    var line := StripSpace(raw);
    StripRemovesExactlyTheEnds(raw, Whitespace);
    if line != [] && line[0] != '#' && '=' in line {
      var i := FirstIndexOf(line, '=');
      KeyStrip(line, i);
    }
  }

  /** The key part before the first '=' of a stripped line strips to nothing exactly when the '=' comes first. */
  lemma KeyStrip(line: string, i: nat)
    requires line != [] && !IsSpace(line[0])
    requires i < |line| && '=' !in line[..i]
    ensures StripSpace(line[..i]) == [] <==> i == 0
    ensures '=' !in StripSpace(line[..i])
  {
    var k := line[..i];
    var r := Strip(k, Whitespace);
    var a, b := StripBounds(k, Whitespace);
    if i > 0 {
      assert k[0] == line[0];
    }
    forall j | 0 <= j < |r| ensures r[j] != '=' {
      assert r[j] == k[a + j];
    }
  }

  /** The result of parsing every line of a file, in order. */
  function ParseLines(lines: seq<string>): (r: seq<Option<Entry>>)
    ensures |r| == |lines|
  {
    if lines == [] then [] else [ParseLine(lines[0])] + ParseLines(lines[1..])
  }

  lemma {:induction false} ParseLinesAt(lines: seq<string>, i: nat)
    requires i < |lines|
    ensures ParseLines(lines)[i] == ParseLine(lines[i])
  {
    if i > 0 {
      ParseLinesAt(lines[1..], i - 1);
    }
  }

  /** `os.environ[key] = value` for a parsed line, if it assigns anything. */
  function Store(env: map<string, string>, entry: Option<Entry>): map<string, string> {
    match entry
    case None => env
    case Some(e) => env[e.key := e.value]
  }

  /** The environment after the parsed lines have been stored in order. */
  function StoreAll(env: map<string, string>, entries: seq<Option<Entry>>): map<string, string>
    decreases |entries|
  {
    if entries == [] then env
    else Store(StoreAll(env, entries[..|entries| - 1]), entries[|entries| - 1])
  }

  /** Whether a parsed line stores a value under `key`. */
  predicate Assigns(entry: Option<Entry>, key: string) {
    entry.Some? && entry.value.key == key
  }

  /** The contents of the first candidate that exists, if any. */
  function FirstExisting(files: seq<Option<seq<string>>>): (r: Option<seq<string>>)
    ensures r.None? <==> forall i :: 0 <= i < |files| ==> files[i].None?
    ensures r.Some? ==> exists i :: 0 <= i < |files| && files[i] == r && forall j :: 0 <= j < i ==> files[j].None?
  {
    if files == [] then None
    else if files[0].Some? then files[0]
    else
      var r := FirstExisting(files[1..]);
      assert forall i :: 1 <= i < |files| ==> files[i] == files[1..][i - 1];
      r
  }

  /** The environment after loading: only the first existing file is read. */
  function Loaded(env: map<string, string>, files: seq<Option<seq<string>>>): map<string, string> {
    match FirstExisting(files)
    case None => env
    case Some(lines) => StoreAll(env, ParseLines(lines))
  }

  /** The loop over the lines of one file: store what each line assigns. */
  method LoadFile(environ: map<string, string>, lines: seq<string>) returns (env: map<string, string>)
    ensures env == StoreAll(environ, ParseLines(lines))
  {
    env := environ;
    ghost var parsed := ParseLines(lines);
    var i := 0;
    while i < |lines|
      invariant 0 <= i <= |lines|
      invariant env == StoreAll(environ, parsed[..i])
    {
      var entry := ParseLine(lines[i]);
      ghost var before := env;
      if entry.Some? {
        env := env[entry.value.key := entry.value.value];
      }
      assert env == Store(before, entry);
      ParseLinesAt(lines, i);
      assert parsed[i] == entry;
      StoreAllStep(environ, parsed, i);
      i := i + 1;
    }
    assert parsed[..i] == parsed;
  }

  lemma StoreAllStep(env: map<string, string>, entries: seq<Option<Entry>>, i: nat)
    requires i < |entries|
    ensures StoreAll(env, entries[..i + 1]) == Store(StoreAll(env, entries[..i]), entries[i])
  {
    assert entries[..i + 1][..i] == entries[..i];
  }

  /**
   * The loop over the candidate files: load the first one that exists and
   * stop. `files[i]` is the list of lines of the i-th candidate, or None when
   * it is not a file.
   */
  method LoadEnv(environ: map<string, string>, files: seq<Option<seq<string>>>) returns (env: map<string, string>)
    ensures env == Loaded(environ, files)
  {
    env := environ;
    var n := 0;
    while n < |files|
      invariant 0 <= n <= |files|
      invariant forall j :: 0 <= j < n ==> files[j].None?
      invariant env == environ
    {
      if files[n].Some? {
        env := LoadFile(environ, files[n].value);
        FirstExistingAt(files, n);
        break;
      }
      n := n + 1;
    }
  }

  lemma FirstExistingAt(files: seq<Option<seq<string>>>, n: nat)
    requires n < |files| && files[n].Some?
    requires forall j :: 0 <= j < n ==> files[j].None?
    ensures FirstExisting(files) == files[n]
  {
    var r := FirstExisting(files);
    var i :| 0 <= i < |files| && files[i] == r && forall j :: 0 <= j < i ==> files[j].None?;
  }

  /** A line that is blank, a comment, has no '=' or has an empty key leaves the environment as it was. */
  lemma SkippedLineKeepsEnv(env: map<string, string>, line: string)
    requires var l := StripSpace(line); l == [] || l[0] == '#' || l[0] == '=' || '=' !in l
    ensures Store(env, ParseLine(line)) == env
  {
    ParseLineSplitsAtFirstEquals(line);
  }

  /**
   * The loaded environment, key by key: a key is present when it was present
   * before or some line assigns it; its value is that of the LAST line that
   * assigns it, and a key no line assigns keeps its old value.
   */
  lemma {:induction false} LastAssignmentWins(env: map<string, string>, entries: seq<Option<Entry>>, key: string)
    ensures key in StoreAll(env, entries) <==>
              key in env || exists i :: 0 <= i < |entries| && Assigns(entries[i], key)
    ensures (forall i :: 0 <= i < |entries| ==> !Assigns(entries[i], key)) && key in env ==>
              StoreAll(env, entries)[key] == env[key]
    ensures (exists i :: 0 <= i < |entries| && Assigns(entries[i], key)) ==>
              exists i ::
                && 0 <= i < |entries|
                && Assigns(entries[i], key)
                && StoreAll(env, entries)[key] == entries[i].value.value
                && forall j :: i < j < |entries| ==> !Assigns(entries[j], key)
    decreases |entries|
  {
    if entries != [] {
      var n := |entries| - 1;
      var init := entries[..n];
      LastAssignmentWins(env, init, key);
      assert forall i :: 0 <= i < n ==> init[i] == entries[i];
      if !Assigns(entries[n], key) {
        if exists i :: 0 <= i < |entries| && Assigns(entries[i], key) {
          var i :| 0 <= i < |entries| && Assigns(entries[i], key);
          assert i < n;
          assert Assigns(init[i], key);
        }
      }
    }
  }

  /** A value keeps every '=' after the first one: `A=b=c` stores "b=c" under "A". */
  lemma ValueKeepsLaterEquals()
    ensures ParseLine("A=b=c") == Some(Entry("A", "b=c"))
  {
    var line := "A=b=c";
    StripExampleEquals();
    assert FirstIndexOf(line, '=') == 1;
    assert line[..1] == "A" && line[2..] == "b=c";
    StripExampleLetter();
    StripExampleLaterEquals();
  }

  lemma StripExampleEquals()
    ensures StripSpace("A=b=c") == "A=b=c"
  {
    var line := "A=b=c";
    assert !IsSpace('A') && !IsSpace('c');
    assert line[0..] == line && line[0..|line| - 0] == line;
  }

  lemma StripExampleLetter()
    ensures StripSpace("A") == "A"
  {
    assert !IsSpace('A');
    assert "A"[0..] == "A" && "A"[0..1] == "A";
  }

  lemma StripExampleLaterEquals()
    ensures Strip(StripSpace("b=c"), Quotes) == "b=c"
  {
    var rest := "b=c";
    assert !IsSpace('b') && !IsSpace('c');
    assert rest[0..] == rest && rest[0..|rest| - 0] == rest;
    assert StripSpace(rest) == rest;
    assert !IsQuote('b') && !IsQuote('c');
  }

  /** Whitespace around key and value, and quotes around the value, are removed. */
  lemma KeyAndValueTrimmed()
    ensures ParseLine(" H = 'v' ") == Some(Entry("H", "v"))
  {
    var line := "H = 'v'";
    StripExampleLine();
    assert FirstIndexOf(line, '=') == 2;
    assert line[..2] == "H " && line[3..] == " 'v'";
    StripExampleKey();
    StripExampleValue();
  }

  lemma StripExampleLine()
    ensures StripSpace(" H = 'v' ") == "H = 'v'"
  {
    var raw := " H = 'v' ";
    assert IsSpace(' ') && !IsSpace('H') && !IsSpace('\'');
    assert LeadingRun(raw, Whitespace) == 1;
    assert raw[1..] == "H = 'v'" + " ";
    assert TrailingRun(raw[1..], Whitespace) == 1;
  }

  lemma StripExampleKey()
    ensures StripSpace("H ") == "H"
  {
    assert IsSpace(' ') && !IsSpace('H');
    assert LeadingRun("H ", Whitespace) == 0 && "H "[0..] == "H ";
  }

  lemma StripExampleValue()
    ensures Strip(StripSpace(" 'v'"), Quotes) == "v"
  {
    assert " 'v'"[1..] == "'v'" && " 'v'"[1..4] == "'v'";
    assert !IsSpace('\'');
    assert LeadingRun("'v'", Whitespace) == 0;
    assert LeadingRun(" 'v'", Whitespace) == 1;
    assert TrailingRun("'v'", Whitespace) == 0;
    assert StripSpace(" 'v'") == "'v'";
    StripExampleQuotes();
  }

  lemma StripExampleQuotes()
    ensures Strip("'v'", Quotes) == "v"
  {
    assert IsQuote('\'') && !IsQuote('v');
    assert "'v'"[1..] == "v'" && "v'"[..1] == "v" && "'v'"[1..2] == "v";
    assert LeadingRun("v'", Quotes) == 0;
    assert LeadingRun("'v'", Quotes) == 1;
    assert TrailingRun("v", Quotes) == 0;
    assert TrailingRun("v'", Quotes) == 1;
  }
}
