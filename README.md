# WebAutomate AI: a verified model of its decision logic

WebAutomate AI is a desktop web agent. An Electron main process (main.js) starts a
Python agent. The agent drives a browser through the browser_use framework, and adds
its own custom actions for price checks, uploads, downloads and saving a displayed
file. This project models in Dafny the parts of that system that make decisions
of their own, and proves what they promise:

- **Price checker** (`check_price_deal`). The model cleans the price text: it removes
  every `$` and `,` and strips Python whitespace at both ends. It then parses the
  result as an exact decimal and compares it with the budget. The model has a GOOD
  DEAL / NO DEAL content result, or an error result that quotes the original text.
- **File actions** (`click_and_upload`, `download_file`, `save_displayed_file`).
  Every awaited browser or filesystem call is an input: a `Step` that either
  completes with a value or raises an exception of a given kind. Each action is a
  function that returns:
  - the `ActionResult` it builds;
  - the external calls it makes, in order.

  This shows the check order (path checks before any browser call), which results
  are possible, and which `except` clause classifies each failure. Each action also
  gets a reference definition: "the first step that raises decides the error".
- **Prompt builder** (`build_agent_prompt`). The prompt is a fixed preamble (the
  standing orders), then the user's goal verbatim, then the template's closing
  line break. The model includes a partner function that recovers the goal from a
  prompt.
- **Environment merge** (`setupEnvironment`). An imperative method copies the
  process environment and loops over the `.env` lines, applying each qualifying
  line to the map. It is proved equal to a line-by-line specification. Lemmas about
  that specification give:
  - which keys the result holds;
  - untouched keys keep their values;
  - the last line setting a key wins;
  - the packaged app's `PLAYWRIGHT_BROWSERS_PATH` is forced.

  Per-line lemmas pin down the parser's quirks:
  - truthiness is checked before trimming;
  - everything after a second `=` is dropped.
- **Single-instance guard** (the `pythonProcess` variable). It is a class with one
  method per IPC event or process callback. Its invariant says a process is
  stored only when none is. A lemma proves that this event-by-event rule means
  "between two stored processes the variable was cleared".

Files:

- `wrappers.dfy`: `Option`.
- `text.dfy`: the string helpers the source relies on:
  - digits and integer formatting;
  - JavaScript `split`/`join` on one character;
  - Python `str.replace(c, '')`;
  - trimming over a given whitespace set;
  - first index of a character.
- `action_result.dfy`: browser_use's `ActionResult`, the `Step` outcome of one
  awaited call, and the "first failure" reference.
- `custom_actions.dfy`: the price checker and the three file actions.
- `prompt_interpreter.dfy`: the prompt builder.
- `main_process.dfy`: executable path and arguments, the environment merge and
  the guard class.

The messages read more specifically than the code behaves:

- The upload action's timeout message is not tied to the file chooser. An
  asyncio timeout raised by ANY step of its `try` body gets "the file chooser
  dialog did not open", even one raised by the element lookup.
- In the download action, any asyncio timeout gets "No download was initiated
  within 15 seconds", even one raised while resolving the saved path.
- `stop-python` only signals the process. The guard is cleared by the process's
  close or error callback. Either callback clears it whichever process is stored
  at the time, so a late callback from an earlier process also clears it.

## Model

| member | source | states |
|---|---|---|
| CustomActions.CleanPrice | webautomate_ai/utils/custom_actions.py:167 | the cleaned price is the input with every `$` and `,` removed, cut down to a slice that leaves out only Python whitespace (`IsPySpace`, the `str.isspace` set) at its two ends; it contains no `$` and no `,`, and neither end is whitespace |
| CustomActions.CleanPriceIdempotent | webautomate_ai/utils/custom_actions.py:167 | cleaning an already cleaned price changes nothing |
| CustomActions.CleanPriceNoop | webautomate_ai/utils/custom_actions.py:167 | a string without `$` or `,` and with no edge whitespace is left as it is |
| CustomActions.CleanDollarPrefix | webautomate_ai/utils/custom_actions.py:167 | a leading currency symbol is removed and nothing else changes |
| CustomActions.DropDollar | webautomate_ai/utils/custom_actions.py:167 | removing `$` from `$a,b` leaves `a,b` when neither piece holds a `$` |
| CustomActions.DropComma | webautomate_ai/utils/custom_actions.py:167 | removing `,` from `a,b` leaves `ab` when neither piece holds a `,` |
| CustomActions.CleanDollarThousands | webautomate_ai/utils/custom_actions.py:167 | `$a,b` cleans to `ab`: the symbol and the thousands separator go, the digits stay in order |
| CustomActions.UnsignedLiteralNoDot | webautomate_ai/utils/custom_actions.py:168 | without a `.`, an unsigned literal is exactly a non-empty digit string |
| CustomActions.UnsignedLiteralAt | webautomate_ai/utils/custom_actions.py:168 | with a first `.`, an unsigned literal is digits before and after it with at least one digit in all |
| CustomActions.ParseUnsigned | webautomate_ai/utils/custom_actions.py:168 | an unsigned string parses iff it is an unsigned literal (digits, or digits around one `.` with at least one digit) |
| CustomActions.ParseDecimal | webautomate_ai/utils/custom_actions.py:168 | a string parses iff it is a decimal literal: an optional `+` or `-`, then an unsigned literal; a string that parses is made only of digits and dots, with a sign allowed only first |
| CustomActions.ParseSignedBody | webautomate_ai/utils/custom_actions.py:168 | a sign in front of an unsigned literal keeps its value, negated after `-` |
| CustomActions.ParseDecimalValue | webautomate_ai/utils/custom_actions.py:168 | every accepted literal, with or without sign, leading zeros, whole part or fraction digits, parses to sign times (whole digits + fraction digits) exactly |
| CustomActions.ExampleLeadingDot | webautomate_ai/utils/custom_actions.py:168 | `.5` parses to 0.5 |
| CustomActions.ExampleTrailingDot | webautomate_ai/utils/custom_actions.py:168 | `-5.` parses to -5 |
| CustomActions.ParseShowDecimal | webautomate_ai/utils/custom_actions.py:168 | round trip: writing any decimal out and parsing it back gives its exact value |
| CustomActions.ShowDecimalIsClean | webautomate_ai/utils/custom_actions.py:167-168 | a written-out decimal has no `$` or `,` and no whitespace at either end, so the cleaning step leaves it as it is |
| CustomActions.CheckPriceDeal | webautomate_ai/utils/custom_actions.py:156-187 | exactly one of content or error; error iff the cleaned text does not parse, and then the message quotes the original text; GOOD DEAL iff it parses to a value <= budget; NO DEAL iff it parses to a value > budget; content and memory are the same status string, exactly the GOOD DEAL text when the parsed value is <= budget and the NO DEAL text otherwise |
| CustomActions.DealMessagePrefixes | webautomate_ai/utils/custom_actions.py:171-176 | the GOOD DEAL and NO DEAL messages start with their own label and never with the other |
| CustomActions.DollarPriceJudgedByValue | webautomate_ai/utils/custom_actions.py:165-182 | for every decimal written after a `$`, the verdict is GOOD DEAL iff its value is within the budget, NO DEAL otherwise |
| CustomActions.ExampleClean | webautomate_ai/utils/custom_actions.py:158 | `$1,299.99` cleans to `1299.99` |
| CustomActions.ExampleWhole | webautomate_ai/utils/custom_actions.py:168 | the digits `1299` are worth 1299 |
| CustomActions.ExampleFraction | webautomate_ai/utils/custom_actions.py:168 | the fraction digits `99` are worth 0.99 |
| CustomActions.ExampleBody | webautomate_ai/utils/custom_actions.py:168 | the unsigned literal `1299.99` is worth 1299.99 |
| CustomActions.ExampleParse | webautomate_ai/utils/custom_actions.py:168 | `1299.99` parses to exactly 1299.99 |
| CustomActions.ExamplePrice | webautomate_ai/utils/custom_actions.py:156-182 | `$1,299.99` is a good deal for a budget of 1300 and no deal for 1000, with the exact GOOD DEAL and NO DEAL texts for price 1299.99 |
| CustomActions.ExampleUnparseable | webautomate_ai/utils/custom_actions.py:184-187 | `TBD` gives an error result |
| ActionResults.Content | webautomate_ai/utils/custom_actions.py:179-182 | a content result has content and no error |
| ActionResults.Failure | webautomate_ai/utils/custom_actions.py:184-187 | an error result has an error and no content or memory |
| ActionResults.FirstFailure | webautomate_ai/utils/custom_actions.py:53-82 | the first raised exception of a step sequence: none iff no step raised; otherwise some step raised it and no step before raised anything |
| ActionResults.FirstFailureAt | webautomate_ai/utils/custom_actions.py:53-82 | the first failure is the exception of the earliest step that raised |
| CustomActions.ChooserBlock | webautomate_ai/utils/custom_actions.py:56-64 | the chooser block runs to its end iff lookup, locate and click all succeed; its only early return is the missing-element error |
| CustomActions.ChooserBlockCalls | webautomate_ai/utils/custom_actions.py:56-64 | inside the chooser block the lookup comes first; the click is only reached for a found and located element; the block never sets files |
| CustomActions.UploadTry | webautomate_ai/utils/custom_actions.py:53-72 | the body returns only the missing-element error or the success result, and returns success iff every step succeeds |
| CustomActions.UploadTryCalls | webautomate_ai/utils/custom_actions.py:53-72 | the body starts by getting the active page; files are only set, with the given path, after the element was found, located and clicked; when every step succeeds the files are set |
| CustomActions.ClickAndUpload | webautomate_ai/utils/custom_actions.py:40-82 | the path checks, then the `try` body's exit passed through the `except` clauses at lines 74-82 (`UploadHandlers`): a non-absolute path gives the absolute-path error and a missing file the not-found error, both with no browser call; any browser call means both checks passed; `set_files` only gets the checked path after the element was found and clicked; success iff the checks pass and every step succeeds, with the exact message and memory |
| CustomActions.UploadEarlyFailure | webautomate_ai/utils/custom_actions.py:54-58 | a raise from the active page, the chooser's entry or the lookup decides the result through the `except` clauses, as the reference says |
| CustomActions.UploadFoundInBlock | webautomate_ai/utils/custom_actions.py:63-64 | with the element found, a raise from locating or clicking it decides the result, as the reference says |
| CustomActions.UploadLeaveFails | webautomate_ai/utils/custom_actions.py:56-72 | with the element clicked, a raise on leaving the chooser block decides the result, as the reference says |
| CustomActions.UploadAfterLeave | webautomate_ai/utils/custom_actions.py:66-72 | after the block, a raise from the chooser or from `set_files` decides the result, and with none the result is success, as the reference says |
| CustomActions.UploadMissing | webautomate_ai/utils/custom_actions.py:58-61 | with no element at the index, only leaving the block can raise; otherwise the result is the missing-element error, as the reference says |
| CustomActions.ClickAndUploadFirstFailure | webautomate_ai/utils/custom_actions.py:53-82 | after the path checks, the result is the reference `UploadReference`: the `except` clause applied to the first step that raised; with none raising, a missing element gives the index error and a found one success |
| CustomActions.UploadMessagesDistinct | webautomate_ai/utils/custom_actions.py:46-82 | the chooser-timeout error differs from the generic, missing-element, not-absolute and not-found errors, and the missing-element error differs from the generic one, for every input |
| CustomActions.ChooserTimeoutClassified | webautomate_ai/utils/custom_actions.py:74-78 | the chooser-timeout error comes back iff the path checks pass and the first exception raised is an asyncio timeout |
| CustomActions.DownloadTry | webautomate_ai/utils/custom_actions.py:90-100 | the `try` body returns iff every step succeeds, and then with a content result; it always starts with the active page |
| CustomActions.DownloadFile | webautomate_ai/utils/custom_actions.py:85-104 | the `try` body's exit passed through the two `except` clauses at lines 101-104 (`DownloadHandlers`): exactly one of content or error; success iff every step completes, reporting the suggested filename and the absolute path; the first calls are the active page and `expect_download` with a 15000 ms timeout |
| CustomActions.DownloadEarlyFailure | webautomate_ai/utils/custom_actions.py:90-92 | a raise from the active page, the download's entry or the awaited download decides the error, as the reference says |
| CustomActions.DownloadLateFailure | webautomate_ai/utils/custom_actions.py:92-100 | after the download arrived, a raise on leaving the block or resolving the path decides the error, and with none the result is content |
| CustomActions.DownloadFirstFailure | webautomate_ai/utils/custom_actions.py:89-104 | the first exception decides the error: an asyncio timeout gives the fixed 15-second message, any other exception the generic message with its text |
| CustomActions.SaveTry | webautomate_ai/utils/custom_actions.py:113-148 | the `try` body fetches the page's own URL after getting the page; empty content returns the fetch error; a file is only written, by opening `downloads_dir / filename`, after non-empty content was fetched and decoded; it returns success only when every step succeeds, and then it has written the file |
| CustomActions.SaveDisplayedFile | webautomate_ai/utils/custom_actions.py:106-152 | the `try` body's exit passed through the `except` clause at lines 149-152 (`SaveHandlers`): the page's own URL is fetched first; empty content gives the fetch error and no file is written; a file is written only after non-empty content was decoded, always by opening `downloads_dir / filename`; success iff every step completes; every other error is the generic message |
| CustomActions.SaveBeforeContent | webautomate_ai/utils/custom_actions.py:113-131 | a raise from the page or the fetch gives the generic error with its text; empty content gives the fetch error |
| CustomActions.SaveWithContent | webautomate_ai/utils/custom_actions.py:131-148 | with content fetched, a raise from decoding, writing or resolving gives the generic error with its text, and with none the result is content |
| CustomActions.SaveFirstFailure | webautomate_ai/utils/custom_actions.py:112-152 | the first exception gives the generic error with its text; with none raising, empty content gives the fetch error and anything else success |
| Text.Split | main.js:62-63 | `split` on one character gives at least one piece, none of which holds the separator |
| Text.JoinSplit | main.js:62-63 | the pieces `split` returns, joined with the separator, give back the string |
| Text.SplitJoin | main.js:62-63 | separator-free pieces joined and split again come back unchanged, so `split` cuts exactly at the separators |
| Text.SplitConcat | main.js:34 | a string with a separator in it splits into the pieces of the part before it, then the pieces of the part after it |
| Text.SplitAtFirst | main.js:63 | a `key=value` line splits into the key, then the pieces of the rest |
| Text.Trim | main.js:65 | the result is the slice of the input left after cutting whitespace at both ends only; it neither starts nor ends with whitespace (used with `IsJsSpace` for `trim`, and with `IsPySpace` for the `strip()` at webautomate_ai/utils/custom_actions.py line 167) |
| Text.TrimIdempotent | main.js:65 | trimming twice is trimming once |
| Text.RemoveAllCounts | webautomate_ai/utils/custom_actions.py:167 | `replace(c, '')` removes every `c`, and keeps every other character as often as it occurred |
| Text.NatToStringInjective | webautomate_ai/utils/custom_actions.py:60 | different naturals are written as different digit strings |
| Text.IntToStringInjective | webautomate_ai/utils/custom_actions.py:60 | different element indices are written as different numbers |
| Text.NatToStringRoundTrip | webautomate_ai/utils/custom_actions.py:60 | the decimal digits written for a number read back as that number |
| PromptInterpreter.BuildAgentPrompt | webautomate_ai/modules/prompt_interpreter.py:1-24 | the prompt is the goal-independent preamble, then the goal verbatim starting right after it, then the closing line and nothing more |
| PromptInterpreter.Fill | webautomate_ai/modules/prompt_interpreter.py:16-22 | a text placed between a fixed beginning and end sits right after the beginning, and the result is exactly beginning, text and end |
| PromptInterpreter.Unfill | webautomate_ai/modules/prompt_interpreter.py:16-22 | the text between a fixed beginning and end is found iff the input starts with the one and ends with the other without overlap, and then the input is exactly beginning, that text and end |
| PromptInterpreter.UnfillFill | webautomate_ai/modules/prompt_interpreter.py:16-22 | extracting what was filled in gives it back unchanged |
| PromptInterpreter.FillUnfill | webautomate_ai/modules/prompt_interpreter.py:16-22 | filling in what was extracted gives the input back |
| PromptInterpreter.TemplateLayout | webautomate_ai/modules/prompt_interpreter.py:4-22 | for any standing orders and goal, the orders header, the orders, the goal header and the goal occur at positions fixed by the lengths before them |
| PromptInterpreter.PromptIsTemplate | webautomate_ai/modules/prompt_interpreter.py:1-24 | the prompt is the template filled with the prime directive and the goal |
| PromptInterpreter.SectionsInOrder | webautomate_ai/modules/prompt_interpreter.py:5-22 | the STANDING ORDERS header, the prime directive, the USER'S CURRENT GOAL header and the goal occur at fixed positions, each ending before the next begins |
| PromptInterpreter.DirectiveLayout | webautomate_ai/modules/prompt_interpreter.py:7-13 | in orders whose protocols each put an action name between a head and a tail, every name occurs right after its head |
| PromptInterpreter.DirectiveNamesActions | webautomate_ai/modules/prompt_interpreter.py:8-13 | the price, login, download (methods A and B) and upload protocols name `check_price_deal`, `pause_and_wait_for_user`, `download_file`, `save_displayed_file` and `click_and_upload`, in that order |
| PromptInterpreter.GoalRoundTrip | webautomate_ai/modules/prompt_interpreter.py:16-22 | every goal is recovered unchanged from its prompt, with no escaping |
| PromptInterpreter.GoalOfOnlyPrompts | webautomate_ai/modules/prompt_interpreter.py:16-22 | a text that yields a goal is exactly the prompt built from that goal |
| PromptInterpreter.BuildAgentPromptInjective | webautomate_ai/modules/prompt_interpreter.py:16-22 | different goals give different prompts |
| MainProcess.GetExecutablePath | main.js:29-39 | unpackaged: `python3`; packaged: a path that starts with the resources path and ends in a separator, `python-executable`, a separator and `WebAgent.exe` on win32 or `WebAgent` elsewhere |
| MainProcess.PathComponents | main.js:34 | a path joined from a base and two separator-free names splits into the base's components, then the two names |
| MainProcess.ExecutablePathComponents | main.js:32-34 | for every resources path, the packaged path's components are the resources path's components, then `python-executable`, then the executable name |
| MainProcess.EnvPath | main.js:52-54 | packaged: the `.env` path's components are the resources path's, then `python-executable` and `.env`; unpackaged: the app directory's, then `webautomate_ai` and `.env` |
| MainProcess.BundledBrowsersPath | main.js:72-76 | the browsers path's components are the resources path's, then `python-executable` and `playwright-browsers` |
| MainProcess.GetExecutableArgs | main.js:41-49 | no arguments iff packaged; otherwise the single agent.py path under webautomate_ai |
| MainProcess.LineEntry | main.js:63-66 | the key and value a line sets contain no `=`, and the key does not start with whitespace (`IsJsSpace`: the characters `trim` removes) |
| MainProcess.LineEntryByPosition | main.js:63-66 | the key is what precedes the first `=`, the value what lies between it and the next `=`; the line counts iff both are non-empty before trimming |
| MainProcess.LineWithoutEquals | main.js:63-64 | a line without `=` sets nothing |
| MainProcess.LineWithOneEquals | main.js:63-66 | `key=value` sets the trimmed key to the trimmed value iff both are non-empty untrimmed |
| MainProcess.LineWithTwoEquals | main.js:63-66 | `key=value=more` sets the same as `key=value`: the rest after a second `=` is dropped |
| MainProcess.BlankValueKept | main.js:64-65 | a value made only of whitespace still counts and sets the key to the empty string |
| MainProcess.ExampleSkipped | main.js:63-64 | `KEY=`, `=v` and `KEY==v` set nothing |
| MainProcess.MergedEnvironment | main.js:51-80 | packaged: the browsers key holds the bundled browsers path; unpackaged with no `.env`: the environment is the process environment |
| MainProcess.SetupEnvironment | main.js:51-80 | the loop builds exactly the merged environment: the copied process environment, each `.env` line applied in order, then the forced browsers path when packaged |
| MainProcess.ApplyEntriesStep | main.js:62-67 | one more line applies on top of the lines before it |
| MainProcess.ApplyEntriesAppend | main.js:62-67 | applying two runs of lines is applying the first and then the second |
| MainProcess.ApplyEntriesKeys | main.js:62-67 | after the lines, the keys are the starting keys plus the keys the lines set |
| MainProcess.EntryKeysMeaning | main.js:62-67 | a key is among the set keys iff some line's entry sets it |
| MainProcess.LineKeysMeaning | main.js:62-67 | a key is among the keys a file sets iff some line of it parses to an entry for that key |
| MainProcess.ApplyEntriesUntouched | main.js:57-67 | a key no line sets keeps its starting value |
| MainProcess.ApplyEntriesLastWins | main.js:62-67 | the last line that sets a key decides its value |
| MainProcess.MergedKeys | main.js:51-80 | the merged keys are the process environment's keys, the `.env` keys and, when packaged, the browsers key |
| MainProcess.MergedKeepsUntouched | main.js:57-77 | a process-environment key that no `.env` line sets, and that is not the forced browsers key, keeps its value |
| MainProcess.MergedLastLineWins | main.js:62-77 | the last `.env` line setting a key decides it, unless it is the browsers key of a packaged app |
| MainProcess.GuardHistoryMeaning | main.js:82-151 | the guard's event-by-event rule (store only when nothing is stored) holds iff the variable was cleared between every two stored processes |
| MainProcess.PythonGuard.ValidMeansCleared | main.js:82-151 | in every state the handlers keep, between two stored processes the variable was cleared |
| MainProcess.PythonGuard.Store | main.js:120 | storing a process when none is stored keeps the guard rule, and a process is then stored |
| MainProcess.PythonGuard.Clear | main.js:139-151 | clearing the variable keeps the guard rule, and no process is then stored |
| MainProcess.PythonGuard.constructor | main.js:7 | no process is stored at start-up and nothing has been sent, spawned, written or killed |
| MainProcess.PythonGuard.StartPython | main.js:82-155 | with a process stored: "already running" and nothing else changes; packaged with the executable missing: the not-found message and no spawn; otherwise one spawn with the executable path, the arguments, the merged environment and the home directory, the new process stored, then "Starting WebAgent"; the guard invariant is kept |
| MainProcess.PythonGuard.PythonInput | main.js:157-166 | the input plus a newline goes to stdin iff a process is stored and its stdin is writable; otherwise the not-ready error is sent |
| MainProcess.PythonGuard.StopPython | main.js:168-173 | with a process stored it is sent SIGTERM and "Stopping" is sent, and the variable stays set; with none nothing happens |
| MainProcess.PythonGuard.OnStdout | main.js:127-131 | process output is forwarded unchanged |
| MainProcess.PythonGuard.OnStderr | main.js:133-137 | process error output is forwarded with an `[ERROR] ` tag |
| MainProcess.PythonGuard.OnClose | main.js:139-144 | the exit message with the code (or `null`) is sent and the variable is cleared |
| MainProcess.PythonGuard.OnError | main.js:146-151 | the failed-to-start message is sent and the variable is cleared |

## Left out

- `pause_and_wait_for_user` (webautomate_ai/utils/custom_actions.py:18-36) prints a banner and blocks on a terminal read. It is pure I/O with no decision to model.
- CustomActions.ParseDecimal: Python's `float()` also accepts exponents (`1e3`), `inf`, `infinity` and `nan` in any letter case, underscores between digits (`1_000`) and the decimal digits of other Unicode scripts (fullwidth `１２９９`, Arabic-Indic digits), and it rounds to binary floating point. The model accepts exactly `DecimalLiteral`: an optional `+` or `-`, then ASCII digits with at most one `.` and at least one digit (`[sign] (digits ['.' digits*] | '.' digits)`). It gives their exact value over the reals, and the budget is a real.
- CustomActions.CheckPriceDeal: `:,.2f` formatting is a parameter `money`. The `TypeError` branch (a non-string argument) cannot arise with typed inputs.
- CustomActions.CheckPriceDeal: after "Error: " the model writes Python's `ValueError` text as `could not convert string to float: '` + cleaned + `'`. Python writes `repr(cleaned)` there. It uses double quotes when the text holds a `'` and no `"`, and it escapes backslashes and non-printable characters. The model's message is Python's only when the cleaned text holds no `'`, no backslash and no non-printable character. A `"` on its own does not change `repr`.
- Quoting in the messages: `'{file_path}'` and `'{download.suggested_filename}'` are plain interpolation, so there is no escaping to model. `str(e)` is an input: the exception's text.
- Exception kinds: the model classifies an exception only as an asyncio timeout or anything else. Whether a Playwright timeout is an `asyncio.TimeoutError` is library behaviour outside this model.
- Each `async with` block's normal exit is modelled as one step that can raise. That includes the exit on the early `return` at line 60 of custom_actions.py. Leaving a block after an exception was raised inside it is assumed not to raise. `UploadTry` and `DownloadTry` then do not consult `closeChooser` or `closeDownload`, and the exception from inside the block propagates.
- `os.path.isabs` is left platform dependent (a predicate of the host), and `os.path.exists` is a set of existing paths. `Path.resolve` and `download.path()` are steps whose values are inputs.
- CustomActions.SaveDisplayedFile: pathlib's `downloads_dir / filename` at line 136 of custom_actions.py is not modelled. The model only records the two operands in the `WriteFile` call. In Python an absolute `filename` replaces the directory, and `..` segments climb out of it. So the model does not promise that the file lands inside the downloads directory, and neither does the source.
- The Playwright and browser_use calls, the in-page fetch and FileReader script, base64 decoding and the file write are oracles (`Step` outcomes), not implementations.
- Logging (`logger.*`, `console.log`, `console.error`) has no effect on results and is omitted.
- MainProcess.PathJoin joins with the platform separator and does not normalise as Node's `path.join` does (`..`, `.`, repeated separators).
- MainProcess.MergedEnvironment: a plain JavaScript object treats the key `__proto__` specially, so a `.env` line for that key does not create an ordinary entry. The model uses a map and includes no such special key. Windows' case-insensitive environment names are not modelled either.
- `fs.readFileSync` errors (an existing but unreadable `.env`) and `fs.chmodSync` are not modelled. The contents of an existing file are an input.
- `createWindow`, the app lifecycle events, the real `spawn` and `kill`, and stream decoding (`data.toString()`) are not modelled. All messages go to one renderer; distinct `event.sender`s are not distinguished.
- webautomate_ai/modules/controller_setup.py, runner.py, agent.py, build.py, env.py, render.js and preload.js are not part of this model. They are action registration, orchestration of external libraries, build scripting and UI wiring.
