/**
 * The Electron main process of main.js: where the Python agent is found,
 * the environment it is started with (the process environment overlaid with
 * a `.env` file), and the single-instance guard that the IPC handlers keep
 * in the module-level `pythonProcess` variable.
 */
module MainProcess {
  import opened Wrappers
  import opened Text

  /**
   * What the main process reads from its surroundings: whether the app is
   * packaged, `process.platform`, `process.resourcesPath`, the directory of
   * main.js, the user's home directory, `process.env`, and the files on disk
   * (path to contents; a path is present exactly when `fs.existsSync` holds).
   */
  datatype Host = Host(
    isPackaged: bool,
    platform: string,
    resourcesPath: string,
    appDir: string,
    homeDir: string,
    processEnv: map<string, string>,
    files: map<string, string>)

  // ---- Paths ----

  /** Node's `path` separator for the platform. */
  function Separator(platform: string): char
  {
    if platform == "win32" then '\\' else '/'
  }

  /** `path.join` of the given components (without normalisation). */
  function PathJoin(parts: seq<string>, platform: string): string
    requires |parts| >= 1
  {
    Join(parts, Separator(platform))
  }

  const BundleDir := "python-executable"

  function ExecutableName(platform: string): string
  {
    if platform == "win32" then "WebAgent.exe" else "WebAgent"
  }

  predicate EndsWith(s: string, suffix: string)
  {
    |suffix| <= |s| && s[|s| - |suffix|..] == suffix
  }

  /** getExecutablePath: the bundled executable when packaged, python3 otherwise. */
  function GetExecutablePath(h: Host): (r: string)
    ensures !h.isPackaged ==> r == "python3"
    ensures h.isPackaged ==> |h.resourcesPath| < |r| && r[..|h.resourcesPath|] == h.resourcesPath
    ensures h.isPackaged ==>
      EndsWith(r, [Separator(h.platform)] + BundleDir + [Separator(h.platform)] + ExecutableName(h.platform))
  {
    if h.isPackaged then
      var sep := Separator(h.platform);
      var r := PathJoin([h.resourcesPath, BundleDir, ExecutableName(h.platform)], h.platform);
      JoinThree(h.resourcesPath, BundleDir, ExecutableName(h.platform), sep);
      assert r == h.resourcesPath + [sep] + (BundleDir + [sep] + ExecutableName(h.platform));
      r
    else "python3"
  }

  /** A path joined from a base and two separator-free names has the base's
      components, then the two names. */
  lemma {:induction false} PathComponents(base: string, dir: string, name: string, platform: string)
    requires Separator(platform) !in dir && Separator(platform) !in name
    ensures Split(PathJoin([base, dir, name], platform), Separator(platform))
            == Split(base, Separator(platform)) + [dir, name]
  {
    var sep := Separator(platform);
    var tail := dir + [sep] + name;
    assert PathJoin([base, dir, name], platform) == base + [sep] + tail by {
      JoinThree(base, dir, name, sep);
    }
    SplitConcat(base, tail, sep);
    assert Split(tail, sep) == [dir, name] by {
      SplitAtFirst(dir, name, sep);
      SplitNoSeparator(name, sep);
    }
  }

  /** The packaged path's components are those of the resources path, then
      the bundle directory, then the executable. */
  lemma ExecutablePathComponents(h: Host)
    requires h.isPackaged
    ensures Split(GetExecutablePath(h), Separator(h.platform))
            == Split(h.resourcesPath, Separator(h.platform)) + [BundleDir, ExecutableName(h.platform)]
  {
    var sep := Separator(h.platform);
    assert sep !in BundleDir && sep !in ExecutableName(h.platform);
    PathComponents(h.resourcesPath, BundleDir, ExecutableName(h.platform), h.platform);
  }

  /** getExecutableArgs: no arguments when packaged, the agent script otherwise. */
  function GetExecutableArgs(h: Host): (r: seq<string>)
    ensures h.isPackaged <==> r == []
    ensures !h.isPackaged ==> r == [PathJoin([h.appDir, "webautomate_ai", "agent.py"], h.platform)]
  {
    if h.isPackaged then [] else [PathJoin([h.appDir, "webautomate_ai", "agent.py"], h.platform)]
  }

  /** Where the `.env` file is looked for: beside the bundled executable when
      packaged, in the agent's source directory otherwise. */
  function EnvPath(h: Host): (r: string)
    ensures h.isPackaged ==>
      Split(r, Separator(h.platform)) == Split(h.resourcesPath, Separator(h.platform)) + [BundleDir, ".env"]
    ensures !h.isPackaged ==>
      Split(r, Separator(h.platform)) == Split(h.appDir, Separator(h.platform)) + ["webautomate_ai", ".env"]
  {
    var sep := Separator(h.platform);
    assert sep !in BundleDir && sep !in ".env" && sep !in "webautomate_ai";
    PathComponents(h.resourcesPath, BundleDir, ".env", h.platform);
    PathComponents(h.appDir, "webautomate_ai", ".env", h.platform);
    if h.isPackaged then PathJoin([h.resourcesPath, BundleDir, ".env"], h.platform)
    else PathJoin([h.appDir, "webautomate_ai", ".env"], h.platform)
  }

  const BrowsersKey := "PLAYWRIGHT_BROWSERS_PATH"

  /** The Playwright browsers shipped beside the bundled executable. */
  function BundledBrowsersPath(h: Host): (r: string)
    ensures Split(r, Separator(h.platform))
            == Split(h.resourcesPath, Separator(h.platform)) + [BundleDir, "playwright-browsers"]
  {
    assert Separator(h.platform) !in BundleDir && Separator(h.platform) !in "playwright-browsers";
    PathComponents(h.resourcesPath, BundleDir, "playwright-browsers", h.platform);
    PathJoin([h.resourcesPath, BundleDir, "playwright-browsers"], h.platform)
  }

  // ---- The .env parser ----

  /** The characters JavaScript's String.prototype.trim removes:
      WhiteSpace and LineTerminator of the ECMAScript grammar. */
  predicate IsJsSpace(c: char)
  {
    c == '\t' || c == '\U{000B}' || c == '\U{000C}' || c == ' ' || c == '\U{00A0}'
    || c == '\U{FEFF}' || c == '\U{1680}' || ('\U{2000}' <= c <= '\U{200A}')
    || c == '\U{202F}' || c == '\U{205F}' || c == '\U{3000}'
    || c == '\n' || c == '\r' || c == '\U{2028}' || c == '\U{2029}'
  }

  datatype Entry = Entry(key: string, value: string)

  /**
   * What one line of the `.env` file sets: `[key, value] = line.split('=')`,
   * kept only when both are non-empty strings BEFORE trimming, then trimmed.
   */
  function LineEntry(line: string): (r: Option<Entry>)
    ensures r.Some? ==> '=' !in r.value.key && '=' !in r.value.value
    ensures r.Some? ==> !(r.value.key != [] && IsJsSpace(r.value.key[0]))
  {
    var parts := Split(line, '=');
    if |parts| >= 2 && parts[0] != "" && parts[1] != "" then
      Some(Entry(Trim(parts[0], IsJsSpace), Trim(parts[1], IsJsSpace)))
    else None
  }

  /** The text before the first '=' (all of it when there is none). */
  function FirstPiece(s: string): string
  {
    match IndexOf(s, '=') case None => s case Some(j) => s[..j]
  }

  /**
   * The same entry read off the line by position: the key is what precedes
   * the first '=', the value what lies between it and the next '=' (or the
   * end of the line); whatever follows a second '=' is ignored.
   */
  function EntryAtFirstEquals(line: string): Option<Entry>
  {
    match IndexOf(line, '=')
    case None => None
    case Some(i) =>
      var value := FirstPiece(line[i + 1..]);
      if i > 0 && value != [] then Some(Entry(Trim(line[..i], IsJsSpace), Trim(value, IsJsSpace)))
      else None
  }

  /** The first piece of a split is the text before the first separator. */
  lemma {:induction false} SplitHead(s: string)
    ensures Split(s, '=')[0] == FirstPiece(s)
  {
    match IndexOf(s, '=')
    case None =>
      SplitNoSeparator(s, '=');
    case Some(j) =>
      assert s == s[..j] + ['='] + s[j + 1..];
      SplitAtFirst(s[..j], s[j + 1..], '=');
  }

  /** A line with an '=' at i splits into the text before it and the rest split. */
  lemma {:induction false} SplitLine(line: string, i: nat)
    requires IndexOf(line, '=') == Some(i)
    ensures Split(line, '=') == [line[..i]] + Split(line[i + 1..], '=')
  {
    assert line == line[..i] + ['='] + line[i + 1..];
    SplitAtFirst(line[..i], line[i + 1..], '=');
  }

  /** The first '=' splits the key off, the next one ends the value. */
  lemma {:induction false} LineEntryByPosition(line: string)
    ensures LineEntry(line) == EntryAtFirstEquals(line)
  {
    match IndexOf(line, '=')
    case None =>
      SplitNoSeparator(line, '=');
    case Some(i) =>
      var parts := Split(line, '=');
      assert |parts| >= 2 && parts[0] == line[..i] && parts[1] == FirstPiece(line[i + 1..]) by {
        SplitLine(line, i);
        SplitHead(line[i + 1..]);
      }
  }

  /** What each line of the file sets, in order. */
  function Entries(lines: seq<string>): (r: seq<Option<Entry>>)
    ensures |r| == |lines|
    ensures forall i :: 0 <= i < |lines| ==> r[i] == LineEntry(lines[i])
  {
    seq(|lines|, i requires 0 <= i < |lines| => LineEntry(lines[i]))
  }

  /** One line's effect: its entry, if any, overwrites the key. */
  function ApplyEntry(env: map<string, string>, entry: Option<Entry>): map<string, string>
  {
    match entry
    case None => env
    case Some(e) => env[e.key := e.value]
  }

  /** The entries applied in order, the last one last. */
  function ApplyEntries(env: map<string, string>, entries: seq<Option<Entry>>): map<string, string>
  {
    if entries == [] then env
    else ApplyEntry(ApplyEntries(env, entries[..|entries| - 1]), entries[|entries| - 1])
  }

  /** The lines of a file applied in order. */
  function ApplyLines(env: map<string, string>, lines: seq<string>): map<string, string>
  {
    ApplyEntries(env, Entries(lines))
  }

  /** The keys the entries set. */
  function EntryKeys(entries: seq<Option<Entry>>): set<string>
  {
    if entries == [] then {}
    else
      EntryKeys(entries[..|entries| - 1]) + KeyOf(entries[|entries| - 1])
  }

  /** The key one entry sets, if any. */
  function KeyOf(entry: Option<Entry>): set<string>
  {
    match entry case None => {} case Some(e) => {e.key}
  }

  /** The keys the lines set. */
  function LineKeys(lines: seq<string>): set<string>
  {
    EntryKeys(Entries(lines))
  }

  /** Entry i sets key k. */
  predicate SetsKey(entries: seq<Option<Entry>>, i: int, k: string)
  {
    0 <= i < |entries| && entries[i].Some? && entries[i].value.key == k
  }

  /** A key is among EntryKeys exactly when some entry sets it. */
  lemma {:induction false} EntryKeysMeaning(entries: seq<Option<Entry>>, k: string)
    ensures k in EntryKeys(entries) <==> exists i :: SetsKey(entries, i, k)
    decreases |entries|
  {
    if entries != [] {
      var init := entries[..|entries| - 1];
      EntryKeysMeaning(init, k);
      if k in EntryKeys(init) {
        var i :| SetsKey(init, i, k);
        assert SetsKey(entries, i, k);
      }
      if k in KeyOf(entries[|entries| - 1]) {
        assert SetsKey(entries, |entries| - 1, k);
      }
      if exists i :: SetsKey(entries, i, k) {
        var i :| SetsKey(entries, i, k);
        if i < |entries| - 1 {
          assert SetsKey(init, i, k);
        } else {
          assert k in KeyOf(entries[i]);
        }
      }
    }
  }

  /** A key is among LineKeys exactly when some line of the file sets it. */
  lemma LineKeysMeaning(lines: seq<string>, k: string)
    ensures k in LineKeys(lines)
            <==> exists i :: 0 <= i < |lines| && LineEntry(lines[i]).Some? && LineEntry(lines[i]).value.key == k
  {
    var entries := Entries(lines);
    EntryKeysMeaning(entries, k);
    if k in LineKeys(lines) {
      var i :| SetsKey(entries, i, k);
      assert LineEntry(lines[i]) == entries[i];
    }
    if exists i :: 0 <= i < |lines| && LineEntry(lines[i]).Some? && LineEntry(lines[i]).value.key == k {
      var i :| 0 <= i < |lines| && LineEntry(lines[i]).Some? && LineEntry(lines[i]).value.key == k;
      assert SetsKey(entries, i, k);
    }
  }

  /** The environment the agent is started with, by main.js:51-80. */
  function MergedEnvironment(h: Host): (r: map<string, string>)
    ensures h.isPackaged ==> BrowsersKey in r && r[BrowsersKey] == BundledBrowsersPath(h)
    ensures !h.isPackaged && EnvPath(h) !in h.files ==> r == h.processEnv
  {
    var loaded :=
      if EnvPath(h) in h.files then ApplyLines(h.processEnv, Split(h.files[EnvPath(h)], '\n'))
      else h.processEnv;
    if h.isPackaged then loaded[BrowsersKey := BundledBrowsersPath(h)] else loaded
  }

  /** setupEnvironment: copy the environment, overlay the `.env` lines in a loop. */
  method SetupEnvironment(h: Host) returns (env: map<string, string>)
    ensures env == MergedEnvironment(h)
  {
    var envPath := EnvPath(h);
    env := h.processEnv;
    if envPath in h.files {
      var lines := Split(h.files[envPath], '\n');
      ghost var entries := Entries(lines);
      var i := 0;
      while i < |lines|
        invariant 0 <= i <= |lines|
        invariant env == ApplyEntries(h.processEnv, entries[..i])
      {
        ApplyEntriesStep(h.processEnv, entries, i);
        var parts := Split(lines[i], '=');
        if |parts| >= 2 && parts[0] != "" && parts[1] != "" {
          env := env[Trim(parts[0], IsJsSpace) := Trim(parts[1], IsJsSpace)];
        }
        i := i + 1;
      }
      assert entries[..|lines|] == entries;
    }
    if h.isPackaged {
      env := env[BrowsersKey := BundledBrowsersPath(h)];
    }
  }

  // ---- Properties of the merge ----

  /** One more entry applies on top of those before it. */
  lemma ApplyEntriesStep(env: map<string, string>, entries: seq<Option<Entry>>, i: nat)
    requires i < |entries|
    ensures ApplyEntries(env, entries[..i + 1]) == ApplyEntry(ApplyEntries(env, entries[..i]), entries[i])
  {
    assert entries[..i + 1][..i] == entries[..i];
  }

  /** Applying two runs of entries is applying the first, then the second. */
  lemma {:induction false} ApplyEntriesAppend(env: map<string, string>, a: seq<Option<Entry>>, b: seq<Option<Entry>>)
    ensures ApplyEntries(env, a + b) == ApplyEntries(ApplyEntries(env, a), b)
    decreases |b|
  {
    if b != [] {
      var ab := a + b;
      assert ab[..|ab| - 1] == a + b[..|b| - 1];
      assert ab[|ab| - 1] == b[|b| - 1];
      ApplyEntriesAppend(env, a, b[..|b| - 1]);
    } else {
      assert a + b == a;
    }
  }

  /** The keys of the result are the starting keys and the keys the entries set. */
  lemma {:induction false} ApplyEntriesKeys(env: map<string, string>, entries: seq<Option<Entry>>)
    ensures ApplyEntries(env, entries).Keys == env.Keys + EntryKeys(entries)
    decreases |entries|
  {
    if entries != [] {
      ApplyEntriesKeys(env, entries[..|entries| - 1]);
    }
  }

  /** A key no entry sets keeps its starting value. */
  lemma {:induction false} ApplyEntriesUntouched(env: map<string, string>, entries: seq<Option<Entry>>, k: string)
    requires k in env && k !in EntryKeys(entries)
    ensures k in ApplyEntries(env, entries) && ApplyEntries(env, entries)[k] == env[k]
    decreases |entries|
  {
    if entries != [] {
      ApplyEntriesUntouched(env, entries[..|entries| - 1], k);
    }
  }

  /** When a key repeats, the last entry that sets it decides its value. */
  lemma {:induction false} ApplyEntriesLastWins(env: map<string, string>, entries: seq<Option<Entry>>, j: nat)
    requires j < |entries| && entries[j].Some?
    requires forall i :: j < i < |entries| && entries[i].Some? ==> entries[i].value.key != entries[j].value.key
    ensures var e := entries[j].value;
            e.key in ApplyEntries(env, entries) && ApplyEntries(env, entries)[e.key] == e.value
  {
    var e := entries[j].value;
    var a := entries[..j + 1];
    var b := entries[j + 1..];
    assert entries == a + b;
    ApplyEntriesAppend(env, a, b);
    assert a[..|a| - 1] == entries[..j];
    var mid := ApplyEntries(env, a);
    assert e.key in mid && mid[e.key] == e.value;
    forall i | 0 <= i < |b|
      ensures !SetsKey(b, i, e.key)
    {
      assert b[i] == entries[j + 1 + i];
    }
    EntryKeysMeaning(b, e.key);
    ApplyEntriesUntouched(mid, b, e.key);
  }

  /** The lines of the `.env` file, when there is one. */
  function EnvLines(h: Host): seq<string>
  {
    if EnvPath(h) in h.files then Split(h.files[EnvPath(h)], '\n') else []
  }

  lemma MergedIsApplied(h: Host)
    ensures var applied := ApplyLines(h.processEnv, EnvLines(h));
            MergedEnvironment(h)
            == if h.isPackaged then applied[BrowsersKey := BundledBrowsersPath(h)] else applied
  {
  }

  /** The merged environment holds exactly the starting keys, the keys the
      `.env` lines set and, when packaged, the browsers key. */
  lemma {:induction false} MergedKeys(h: Host)
    ensures MergedEnvironment(h).Keys
            == h.processEnv.Keys + LineKeys(EnvLines(h)) + (if h.isPackaged then {BrowsersKey} else {})
  {
    MergedIsApplied(h);
    ApplyEntriesKeys(h.processEnv, Entries(EnvLines(h)));
  }

  /** A key of the starting environment that no `.env` line sets (and that is
      not the forced browsers key) keeps its value. */
  lemma {:induction false} MergedKeepsUntouched(h: Host, k: string)
    requires k in h.processEnv && k !in LineKeys(EnvLines(h))
    requires !(h.isPackaged && k == BrowsersKey)
    ensures k in MergedEnvironment(h) && MergedEnvironment(h)[k] == h.processEnv[k]
  {
    MergedIsApplied(h);
    ApplyEntriesUntouched(h.processEnv, Entries(EnvLines(h)), k);
  }

  /** The last `.env` line setting a key decides it (unless it is the forced
      browsers key of a packaged app). */
  lemma {:induction false} MergedLastLineWins(h: Host, j: nat)
    requires j < |EnvLines(h)| && LineEntry(EnvLines(h)[j]).Some?
    requires forall i :: j < i < |EnvLines(h)| && LineEntry(EnvLines(h)[i]).Some?
               ==> LineEntry(EnvLines(h)[i]).value.key != LineEntry(EnvLines(h)[j]).value.key
    requires !(h.isPackaged && LineEntry(EnvLines(h)[j]).value.key == BrowsersKey)
    ensures var e := LineEntry(EnvLines(h)[j]).value;
            e.key in MergedEnvironment(h) && MergedEnvironment(h)[e.key] == e.value
  {
    MergedIsApplied(h);
    ApplyEntriesLastWins(h.processEnv, Entries(EnvLines(h)), j);
  }

  // ---- Individual lines ----

  /** A line without '=' sets nothing. */
  lemma LineWithoutEquals(line: string)
    requires '=' !in line
    ensures LineEntry(line) == None
  {
    SplitNoSeparator(line, '=');
  }

  /** `key=value`: kept exactly when both sides are non-empty before trimming. */
  lemma {:induction false} LineWithOneEquals(key: string, value: string)
    requires '=' !in key && '=' !in value
    ensures LineEntry(key + "=" + value)
            == if key != [] && value != [] then Some(Entry(Trim(key, IsJsSpace), Trim(value, IsJsSpace))) else None
  {
    SplitAtFirst(key, value, '=');
    SplitNoSeparator(value, '=');
  }

  /** `key=value=more`: everything from the second '=' on is dropped. */
  lemma {:induction false} LineWithTwoEquals(key: string, value: string, more: string)
    requires '=' !in key && '=' !in value
    ensures LineEntry(key + "=" + value + "=" + more)
            == if key != [] && value != [] then Some(Entry(Trim(key, IsJsSpace), Trim(value, IsJsSpace))) else None
  {
    assert key + "=" + value + "=" + more == key + "=" + (value + "=" + more);
    SplitAtFirst(key, value + "=" + more, '=');
    SplitAtFirst(value, more, '=');
  }

  /** Truthiness is checked before trimming: a value of blanks still counts,
      and the key is set to the empty string. */
  lemma {:induction false} BlankValueKept(key: string, value: string)
    requires key != [] && '=' !in key
    requires value != [] && forall i :: 0 <= i < |value| ==> IsJsSpace(value[i])
    ensures LineEntry(key + "=" + value) == Some(Entry(Trim(key, IsJsSpace), ""))
  {
    assert '=' !in value by {
      forall c | c in value ensures c != '=' {
        var i :| 0 <= i < |value| && value[i] == c;
      }
    }
    LineWithOneEquals(key, value);
    TrimAllSpace(value, IsJsSpace);
  }

  /** An empty key or value is skipped; so is `KEY==v`, whose second part is empty. */
  lemma ExampleSkipped()
    ensures LineEntry("KEY=") == None
    ensures LineEntry("=v") == None
    ensures LineEntry("KEY==v") == None
  {
    assert "KEY=" == "KEY" + "=" + "";
    LineWithOneEquals("KEY", "");
    assert "=v" == "" + "=" + "v";
    LineWithOneEquals("", "v");
    assert "KEY==v" == "KEY" + "=" + "" + "=" + "v";
    LineWithTwoEquals("KEY", "", "v");
  }

  // ---- The single-instance guard ----

  /** One `spawn` call: executable, arguments, environment and working directory. */
  datatype Spawn = Spawn(executable: string, args: seq<string>, env: map<string, string>, cwd: string)

  /** The guard's history: a process handle stored, or the variable cleared
      by a process's close or error callback. */
  datatype GuardEvent = Stored(handle: nat) | Cleared(handle: nat)

  /** A process is stored after the last event. */
  predicate Holding(t: seq<GuardEvent>)
  {
    |t| > 0 && t[|t| - 1].Stored?
  }

  /** The guard's rule, event by event: a process is stored only when none is. */
  predicate GuardHistory(t: seq<GuardEvent>)
  {
    t == [] || (GuardHistory(t[..|t| - 1]) && (t[|t| - 1].Stored? ==> !Holding(t[..|t| - 1])))
  }

  /** Declaratively: between two stored processes the variable was cleared. */
  predicate ClearedBetweenStores(t: seq<GuardEvent>)
  {
    forall i, j :: 0 <= i < j < |t| && t[i].Stored? && t[j].Stored?
      ==> exists k :: i < k < j && t[k].Cleared?
  }

  /** The guard's event-by-event rule is exactly "cleared between stores". */
  lemma {:induction false} GuardHistoryMeaning(t: seq<GuardEvent>)
    ensures GuardHistory(t) <==> ClearedBetweenStores(t)
    decreases |t|
  {
    if t != [] {
      var init := t[..|t| - 1];
      var n := |t| - 1;
      GuardHistoryMeaning(init);
      if GuardHistory(t) {
        forall i, j | 0 <= i < j < |t| && t[i].Stored? && t[j].Stored?
          ensures exists k :: i < k < j && t[k].Cleared?
        {
          if j < n {
            assert init[i] == t[i] && init[j] == t[j];
            var k :| i < k < j && init[k].Cleared?;
            assert t[k] == init[k];
          } else {
            assert init[|init| - 1] == t[n - 1];
            assert t[n - 1].Cleared?;
            assert i < n - 1 < j;
          }
        }
      }
      if ClearedBetweenStores(t) {
        forall i, j | 0 <= i < j < |init| && init[i].Stored? && init[j].Stored?
          ensures exists k :: i < k < j && init[k].Cleared?
        {
          assert t[i] == init[i] && t[j] == init[j];
          var k :| i < k < j && t[k].Cleared?;
          assert init[k] == t[k];
        }
        if t[n].Stored? && n > 0 {
          assert t[n - 1] == init[|init| - 1];
          assert !t[n - 1].Stored?;
        }
      }
    }
  }

  /** The messages the main process sends to the window on 'python-output'. */
  const AlreadyRunningMessage := "[INFO] Python process is already running.\n"
  const StartingMessage := "[INFO] Starting WebAgent...\n"
  const NotReadyMessage := "[ERROR] WebAgent is not running or not ready for input.\n"
  const StoppingMessage := "[INFO] Stopping WebAgent...\n"

  function NotFoundMessage(executablePath: string): string
  {
    "[ERROR] Python executable not found at: " + executablePath + "\n"
  }

  /** `${code}` of an exit code that is a number or null. */
  function CodeText(code: Option<int>): string
  {
    match code
    case None => "null"
    case Some(c) => IntToString(c)
  }

  function ExitMessage(code: Option<int>): string
  {
    "\n[WebAgent exited with code " + CodeText(code) + "]\n"
  }

  function FailedToStartMessage(message: string): string
  {
    "[ERROR] Failed to start WebAgent: " + message + "\n"
  }

  function StderrMessage(error: string): string
  {
    "[ERROR] " + error
  }

  /**
   * The IPC side of main.js: `process` is the module-level `pythonProcess`
   * (a handle into `spawned`, or null), and the other fields record what the
   * handlers did: messages sent to the window, processes spawned, lines
   * written to the process's stdin and processes sent SIGTERM.
   */
  class PythonGuard {
    var process: Option<nat>
    var output: seq<string>
    var spawned: seq<Spawn>
    var stdinWrites: seq<string>
    var killed: seq<nat>
    ghost var history: seq<GuardEvent>

    ghost predicate Valid()
      reads this
    {
      GuardHistory(history)
      && (process.Some? <==> Holding(history))
      && (process.Some? ==> process.value < |spawned|)
    }

    /** In every state the handlers keep, two stored processes always have
        a clearing of the variable between them. */
    lemma ValidMeansCleared()
      requires Valid()
      ensures ClearedBetweenStores(history)
    {
      GuardHistoryMeaning(history);
    }

    /** At start-up no process is stored and nothing has happened. */
    constructor()
      ensures Valid()
      ensures process == None && output == [] && spawned == [] && stdinWrites == [] && killed == []
    {
      process := None;
      output := [];
      spawned := [];
      stdinWrites := [];
      killed := [];
      history := [];
    }

    /** The 'start-python' handler. */
    method StartPython(h: Host)
      requires Valid()
      modifies this
      ensures Valid()
      ensures stdinWrites == old(stdinWrites) && killed == old(killed)
      ensures old(process).Some? ==>
        process == old(process) && spawned == old(spawned) && history == old(history)
        && output == old(output) + [AlreadyRunningMessage]
      ensures old(process).None? && h.isPackaged && GetExecutablePath(h) !in h.files ==>
        process == None && spawned == old(spawned) && history == old(history)
        && output == old(output) + [NotFoundMessage(GetExecutablePath(h))]
      ensures old(process).None? && !(h.isPackaged && GetExecutablePath(h) !in h.files) ==>
        spawned == old(spawned)
          + [Spawn(GetExecutablePath(h), GetExecutableArgs(h), MergedEnvironment(h), h.homeDir)]
        && process == Some(|old(spawned)|)
        && history == old(history) + [Stored(|old(spawned)|)]
        && output == old(output) + [StartingMessage]
    {
      if process.Some? {
        output := output + [AlreadyRunningMessage];
        return;
      }
      var executablePath := GetExecutablePath(h);
      var args := GetExecutableArgs(h);
      var env := SetupEnvironment(h);
      if h.isPackaged && executablePath !in h.files {
        output := output + [NotFoundMessage(executablePath)];
        return;
      }
      var handle := |spawned|;
      Store(handle);
      spawned := spawned + [Spawn(executablePath, args, env, h.homeDir)];
      process := Some(handle);
      output := output + [StartingMessage];
    }

    /** The 'python-input' handler; `stdinWritable` is `pythonProcess.stdin.writable`. */
    method PythonInput(input: string, stdinWritable: bool)
      requires Valid()
      modifies this
      ensures Valid()
      ensures process == old(process) && spawned == old(spawned) && killed == old(killed)
      ensures history == old(history)
      ensures old(process).Some? && stdinWritable ==>
        stdinWrites == old(stdinWrites) + [input + "\n"] && output == old(output)
      ensures !(old(process).Some? && stdinWritable) ==>
        stdinWrites == old(stdinWrites) && output == old(output) + [NotReadyMessage]
    {
      if process.Some? && stdinWritable {
        stdinWrites := stdinWrites + [input + "\n"];
      } else {
        output := output + [NotReadyMessage];
      }
    }

    /** The 'stop-python' handler: it signals the process but leaves the
        variable set until the process's close callback runs. */
    method StopPython()
      requires Valid()
      modifies this
      ensures Valid()
      ensures process == old(process) && spawned == old(spawned) && stdinWrites == old(stdinWrites)
      ensures history == old(history)
      ensures old(process).Some? ==>
        killed == old(killed) + [old(process).value] && output == old(output) + [StoppingMessage]
      ensures old(process).None? ==> killed == old(killed) && output == old(output)
    {
      if process.Some? {
        killed := killed + [process.value];
        output := output + [StoppingMessage];
      }
    }

    /** A spawned process's stdout data is forwarded as it is. */
    method OnStdout(data: string)
      requires Valid()
      modifies this
      ensures Valid()
      ensures process == old(process) && spawned == old(spawned) && history == old(history)
      ensures stdinWrites == old(stdinWrites) && killed == old(killed)
      ensures output == old(output) + [data]
    {
      output := output + [data];
    }

    /** A spawned process's stderr data is forwarded with an error tag. */
    method OnStderr(data: string)
      requires Valid()
      modifies this
      ensures Valid()
      ensures process == old(process) && spawned == old(spawned) && history == old(history)
      ensures stdinWrites == old(stdinWrites) && killed == old(killed)
      ensures output == old(output) + [StderrMessage(data)]
    {
      output := output + [StderrMessage(data)];
    }

    /** The close callback of the process spawned as `handle`. It clears the
        variable whichever process is stored at the time. */
    method OnClose(handle: nat, code: Option<int>)
      requires Valid() && handle < |spawned|
      modifies this
      ensures Valid()
      ensures process == None
      ensures spawned == old(spawned) && stdinWrites == old(stdinWrites) && killed == old(killed)
      ensures history == old(history) + [Cleared(handle)]
      ensures output == old(output) + [ExitMessage(code)]
    {
      output := output + [ExitMessage(code)];
      process := None;
      Clear(handle);
    }

    /** The error callback of the process spawned as `handle`. */
    method OnError(handle: nat, message: string)
      requires Valid() && handle < |spawned|
      modifies this
      ensures Valid()
      ensures process == None
      ensures spawned == old(spawned) && stdinWrites == old(stdinWrites) && killed == old(killed)
      ensures history == old(history) + [Cleared(handle)]
      ensures output == old(output) + [FailedToStartMessage(message)]
    {
      output := output + [FailedToStartMessage(message)];
      process := None;
      Clear(handle);
    }

    /** Records that `handle` is stored; the guard allows it only when none is. */
    ghost method Store(handle: nat)
      requires GuardHistory(history) && !Holding(history)
      modifies this`history
      ensures history == old(history) + [Stored(handle)]
      ensures GuardHistory(history) && Holding(history)
    {
      history := history + [Stored(handle)];
      assert history[..|history| - 1] == old(history);
    }

    /** Records that the variable was cleared. */
    ghost method Clear(handle: nat)
      requires GuardHistory(history) && process.None?
      modifies this`history
      ensures history == old(history) + [Cleared(handle)]
      ensures GuardHistory(history) && !Holding(history)
    {
      history := history + [Cleared(handle)];
      assert history[..|history| - 1] == old(history);
    }
  }
}
