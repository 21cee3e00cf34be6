# helper: a verified model of the help browser's core

`main.py` is an interactive help browser. It loads a nested key/value
cheat-sheet, reads requests line by line and prints the part of the document
that matches each request, with the matching text highlighted. This project
models two pieces of it in Dafny and proves what they do:

- **The search engine** (main.py lines 10-41), in `SearchEngine.dfy`, with
  its properties in `SearchFacts.dfy`.
  - The `Reversative` mode. `Reverse` also matches values; `ForceReverse`
    matches values only.
  - `light_pattern`: Python's `str.replace` of the key by its highlighted form.
  - `procced_reverse`: matches a string value or a list of strings.
  - `dive_in`: builds the filtered, highlighted copy of a nested document.
  - Data model: a document is an association list of `(key, Value)` pairs in
    insertion order. A `Value` is a string, a list of strings or a nested
    document.
  - The global `COLOR` format string is a `Template(prefix, suffix)`
    parameter. The default `"{}"` is `Identity`.
  - `dive_in` is both a recursive specification (`Dive`, `Emit`) and the
    `DiveIn` method with its `for` loop. Every write into the result dict goes
    through `Put`, which is Python's dict assignment: an existing key keeps
    its place and takes the new value, a new key goes to the end.
- **The session controller** (main.py lines 93-169), in `Controller.dfy`,
  with its properties in `ControllerFacts.dfy`.
  - One pass of the `while` loop is the function `Step(history, raw)`. It
    returns the new history, an `Outcome` and the final value of `request`.
    The outcome is `ListHistory`, `Shell(name)` or `Query(q, mode)`.
  - `Step` is built from four stage functions: `ReadRequest` (up-arrows
    become `!`, the line is stripped, an empty line means `helper`),
    `BangRecall` (`!` recall), `IndexRecall` (`-h<N>` recall or the history
    listing) and `Classify` (a shell command name, or a query with its
    reverse suffix).
  - The `Session` class holds the command history as a field. Its method
    `Enter` is the loop body of main.py:129-168, statement by statement:
    it reassigns `request` and `addToHistory`, appends to the history and
    runs `DiveIn` on the query. It is proved to agree with `Step`.
  - `Run` feeds `Enter` the lines read at the `Enter request:` prompt, one
    per turn, until the loop top sees `exit`. It is proved to produce
    `Replay`, the specification of the loop. The other `input()` calls of
    the `cchange` dialogue are not part of this model (see "Left out").
- **Python string semantics** (`Text.dfy`), written out because the behaviour
  depends on them:
  - `in`, `replace` and `count`, including an empty key.
  - `strip`, `lstrip` and `rstrip` with a character set. `strip()` removes
    exactly the characters `str.isspace` accepts.
  - `lower` on ASCII letters.
  - `int` on a string of decimal digits.

The model follows the code in these places:

- **Reverse suffix:** `rstrip('-r').rstrip('-fr')` strips character sets, not
  suffixes. `docker-r` therefore searches `docke` (`DockerExample`).
- **`!` count:** `request.count('!')` counts every `!` in the line, not only
  the leading ones. `!a!` therefore recalls the second newest entry and
  appends `a!` to it (`EveryBangCounted`).
- **Index past the end:** an index at or past the end of the history is not
  a listing. The code only recalls when `index < len(commands_history)`
  (main.py:149). Otherwise it falls through: the line is appended and
  searched as typed (`IndexPastEndQueried`, `PastEndSearched`).
- **Loop tokens:** `exit`, `cchange` and `reread` are first appended and
  searched as ordinary queries; only the top of the next turn acts on them.
  `exit-r` searches `exit` in reverse mode and then also ends the loop
  (`LoopTokensSearchedFirst`, `ExitWithSuffix`).
- **Highlight collisions:** with a decorating template, two different keys
  can highlight to the same text. The later one then overwrites the earlier
  value, as the dict assignment does (`HighlightCollision`). The
  order-and-precedence results are therefore stated for the case where
  emitted keys are distinct. `DistinctEmittedPlain` proves that this always
  holds with the default template and in `force_reverse` mode.

## Model

| member | source | states |
|---|---|---|
| `Text.ContainsIffOccurs` | main.py:30 | `k in s` holds exactly when `k` occurs at some position of `s` |
| `Text.CountPositiveIffContains` | main.py:139 | `s.count(k)` is positive exactly when `k in s` |
| `Text.ReplaceLength` | main.py:16 | `replace` grows the text by the length difference once per occurrence that `count` sees |
| `Text.ReplaceAbsent` | main.py:16 | replacing a key that does not occur leaves the text unchanged |
| `Text.ReplaceSelf` | main.py:16 | replacing a key by itself changes nothing, the empty key included |
| `Text.LStrip` | main.py:139 | `lstrip` never lengthens the text and leaves no leading character of the set |
| `Text.LStripSuffix` | main.py:139 | what `lstrip` keeps is a suffix of the text |
| `Text.LStripRemoves` | main.py:139 | every character `lstrip` removes is in the set |
| `Text.RStrip` | main.py:165 | `rstrip` never lengthens the text and leaves no trailing character of the set |
| `Text.RStripPrefix` | main.py:165 | what `rstrip` keeps is a prefix of the text |
| `Text.RStripRemoves` | main.py:165 | every character `rstrip` removes is in the set |
| `Text.RStripAbsorbed` | main.py:165 | `rstrip(a)` then `rstrip(b)` equals `rstrip(b)` when `a` is part of `b`, so `rstrip('-r').rstrip('-fr')` is one `rstrip` of `-`, `f`, `r` |
| `Text.StripCharsSlice` | main.py:148 | the two-sided `strip` keeps a contiguous slice whose ends are outside the set and removes only characters of the set |
| `Text.StripCharsKeeps` | main.py:130 | `strip` leaves a text whose ends are outside the set unchanged |
| `Text.LowerChar` | main.py:168 | a capital letter becomes its small letter and any other character is kept |
| `Text.Lower` | main.py:168 | `lower` keeps the length and lower-cases each character in place |
| `Text.LowerKeeps` | main.py:168 | text without capitals is unchanged by `lower` |
| `Text.Decimal` | main.py:153 | the decimal notation the history listing prints is a digit string without a leading zero |
| `Text.DecimalRoundTrip` | main.py:148 | `int(str(n)) == n` |
| `SearchEngine.LightPatternUnmatched` | main.py:15-16 | `light_pattern` returns its input when the key does not occur in it |
| `SearchEngine.LightPatternDefault` | main.py:15-16 | under the default `COLOR = "{}"` `light_pattern` is the identity for every key |
| `SearchEngine.LightPatternLength` | main.py:15-16 | every occurrence gains the template's decoration; with a decorating template the text changes exactly when the key occurs |
| `SearchEngine.ProceedReverse` | main.py:18-23 | `None` exactly when neither the string nor any list element contains the key; otherwise the highlighted string, or a same-length list with every element highlighted and non-matching elements unchanged |
| `SearchEngine.LightAll` | main.py:21 | mapping `light_pattern` over a list keeps its length, highlights each element and leaves non-matching ones as they are |
| `SearchEngine.Find` | main.py:32 | the position of a key in the dict, the first one with that key, or the length when absent |
| `SearchEngine.Put` | main.py:32 | dict assignment keeps keys unique, overwrites an existing key in place and appends a new key at the end; nothing else changes |
| `SearchEngine.Emit` | main.py:30-40 | a key match outside `force_reverse` emits the highlighted key with the value copied; otherwise an entry keeps its key, has a truthy value of the same kind, and in mode `no` a non-mapping value is unchanged |
| `SearchEngine.Dive` | main.py:28-41 | the result after the first `n` keys has unique keys and at most `n` entries |
| `SearchEngine.DiveIn` | main.py:27-41 | the method's `for` loop over the keys with dict assignment returns `Search`, the recursive specification |
| `SearchFacts.EntryOrigin` | main.py:28-41 | every result entry is what the per-key rules made of some input entry |
| `SearchFacts.NoMatchIffEmpty` | main.py:28-41 | the result is empty exactly when no key passes any rule; a miss is an empty mapping, not an error |
| `SearchFacts.ForceReverseKeepsKeys` | main.py:30-34 | under `force_reverse` every key at every depth of the result is a key of the input |
| `SearchFacts.NoModeKeepsValues` | main.py:30-37 | under mode `no` every string or list at every depth of the result is an original, unhighlighted input value |
| `SearchFacts.EmptyOnlyByKeyMatch` | main.py:30-40 | an empty value in the result was copied under a matching key; a mapping added through recursion and a value match are never empty |
| `SearchFacts.SearchWellFormed` | main.py:27-41 | a document with unique keys at every level gives a result with unique keys at every level |
| `SearchFacts.CollectOrigins` | main.py:29-40 | the plain filtered copy keeps, in input order, exactly the entries that pass a rule |
| `SearchFacts.DiveIsCollect` | main.py:28-41 | without key collisions the dict `dive_in` builds is the plain filtered copy |
| `SearchFacts.SearchOrder` | main.py:28-41 | result entries come from increasing input positions and every entry that passes a rule is present |
| `SearchFacts.KeyMatchWins` | main.py:30-32 | a key containing the request, outside `force_reverse`, appears highlighted with its value copied verbatim |
| `SearchFacts.DistinctEmittedPlain` | main.py:30-32 | with the default template or in `force_reverse` no two emitted keys collide |
| `SearchFacts.EmptyRequestKeepsAll` | main.py:30-32 | the empty request (input `-r`) matches every key, so the default template returns the document unchanged |
| `SearchFacts.ReverseExample` | main.py:37-40 | reverse mode finds a value in a nested list and keeps the whole list, highlighting only the matching element |
| `SearchFacts.ForceReverseExample` | main.py:30-40 | `force_reverse` ignores a matching key and matches the nested value; mode `no` highlights the key and copies the value |
| `SearchFacts.HighlightCollision` | main.py:30-32 | keys `abba` and `baab` both highlight to `bababa`; the later value overwrites the earlier one |
| `Controller.ReadRequestClean` | main.py:130-133 | what is read from a line is never empty and has no surrounding whitespace |
| `Controller.StepAppendOnly` | main.py:135-156 | the history is append-only, grows by at most one entry per line, and the entry added is the cleaned line |
| `Controller.FallbackLists` | main.py:143-154 | the `-h` an out-of-range `!` leaves behind always lists the history |
| `Controller.StepKeepsClean` | main.py:130-156 | every history entry stays non-empty and stripped |
| `Controller.Session.constructor` | main.py:93 | a session starts with an empty history |
| `Controller.Session.Enter` | main.py:129-168 | the loop body, written as the source's statements: the new history, outcome and request are `Step`'s; the history stays clean and grows by at most one entry; a query is answered by `dive_in` on the document |
| `Controller.Session.Run` | main.py:95-169 | over the lines read at the `Enter request:` prompt the loop produces `Replay`; it exits exactly when the loop top reads the last request as `exit`, and the history is the last step's |
| `ControllerFacts.ReadPlain` | main.py:130 | a line without escapes or surrounding whitespace is read as it is |
| `ControllerFacts.BlankLine` | main.py:130-133 | a blank line stands for `helper` |
| `ControllerFacts.BangKeepsHistory` | main.py:137-156 | a line starting with `!` never appends to the history |
| `ControllerFacts.BangRecalls` | main.py:137-140 | with `n` the number of `!` anywhere in the line, `!` recalls `history[len-n]` plus the text after the leading `!`s, without appending, and classifies it |
| `ControllerFacts.BangQuery` | main.py:137-140 | a recalled entry starting with a small letter is classified as typed and not appended |
| `ControllerFacts.BangOutOfRange` | main.py:141-154 | more `!` than entries prints "Out of requests!" and lists the history: nothing appended, nothing searched |
| `ControllerFacts.IndexRecalls` | main.py:146-151 | an in-range `-h<N>` recalls entry `N` without appending it |
| `ControllerFacts.IndexListing` | main.py:152-154 | text around `-h` that is not a number lists the history and searches nothing |
| `ControllerFacts.IndexPastEnd` | main.py:146-156 | a number at or past the end recalls nothing: the line is appended and classified as typed |
| `ControllerFacts.ListedIndexRecalls` | main.py:146-153 | the number printed beside an entry in the listing recalls exactly that entry |
| `ControllerFacts.IndexPastEndQueried` | main.py:146-168 | `-h` with a number past the end is appended and searched for its own text in mode `no` |
| `ControllerFacts.IndexLine` | main.py:146-148 | `-h` followed by the decimal notation of `k` is read as it is and its number is `k` |
| `ControllerFacts.PlainQuery` | main.py:162-168 | a request without a reverse suffix, spaces or capitals is searched as it is in mode `no` |
| `ControllerFacts.SuffixStripped` | main.py:163-165 | with a reverse suffix the final request is the typed one with every trailing `-`, `f` and `r` removed |
| `ControllerFacts.ModeBySuffix` | main.py:162-164 | `reverse` exactly when the space-trimmed request ends in `-r`, `force_reverse` exactly when it ends in `-fr` |
| `ControllerFacts.WordQuery` | main.py:162-168 | a word of small letters is searched as it is in mode `no` |
| `ControllerFacts.ReverseSuffixMode` | main.py:163-164 | a trailing `-r` selects `reverse` |
| `ControllerFacts.ForceReverseSuffixMode` | main.py:163-164 | a trailing `-fr` selects `force_reverse` |
| `ControllerFacts.ReverseWordClassify` | main.py:162-168 | a word with `-r` typed after it is searched in reverse mode for the word with every trailing `-`, `f`, `r` stripped |
| `ControllerFacts.DockerExample` | main.py:165 | `docker-r` searches `docke` in reverse mode |
| `ControllerFacts.QueryNormalised` | main.py:157-168 | everything except a shell command name is a query, and the query has no capitals and no surrounding whitespace |
| `ControllerFacts.ShellAppended` | main.py:155-159 | a shell command name is appended to the history and handed to the shell |
| `ControllerFacts.EmptyLine` | main.py:129-168 | a blank line searches `helper` in mode `no` and records `helper` |
| `ControllerFacts.WordLine` | main.py:129-168 | a word of small letters that is not a command is appended and searched as it is |
| `ControllerFacts.AppendedQuery` | main.py:135-168 | a request starting with a small letter recalls nothing and is appended, then classified |
| `ControllerFacts.PlainRecall` | main.py:137-151 | a request starting with a small letter passes both recall stages unchanged and keeps the append flag |
| `ControllerFacts.LoopTokensSearchedFirst` | main.py:95-168 | `exit`, `cchange` and `reread` are appended and searched as ordinary queries; only the next loop top acts on them |
| `ControllerFacts.ExitWithSuffix` | main.py:95-165 | `exit-r` searches `exit` in reverse mode and leaves `exit` behind, which ends the loop |
| `ControllerFacts.NewestRecalled` | main.py:137-140 | with history `foo`, `bar`, `baz`, `!` searches `baz` and appends nothing |
| `ControllerFacts.EveryBangCounted` | main.py:139 | with history `foo`, `bar`, `baz`, `!a!` counts both `!` and searches `bara!` |
| `ControllerFacts.OutOfRequests` | main.py:141-154 | with three entries `!!!!` lists the history |
| `ControllerFacts.PastEndSearched` | main.py:149-156 | with three entries `-h99` is appended and searched as typed |
| `ControllerFacts.LoopGrows` | main.py:95-156 | for any loop body that appends at most one entry, the history before each step extends the initial one by at most one entry per step |
| `ControllerFacts.ReplayGrows` | main.py:95-156 | over a whole run the history only grows, by at most one entry per line |
| `ControllerFacts.LoopStopsAtExit` | main.py:95 | for any loop body, no step but the last leaves `exit` behind |
| `ControllerFacts.ReplayStopsAtExit` | main.py:95 | the program's loop stops at the first request `exit` |

## Left out

- Loading `help.json` and `color_config.json`, and writing the colour configuration back (main.py:84-87, 119-121, 124-126): file I/O. The document is a constructor parameter of `Session`.
- The `cchange` recolouring dialogue and the building of `COLOR` from the colour file (main.py:88-89, 97-122): terminal prompts and escape codes. The template is a fixed `(prefix, suffix)` parameter, and the `reread` reload is not modelled. Both tokens are modelled only as what `AtLoopTop` recognises.
- `os.system`, the `cross_commands` table and platform detection (main.py:65-76, 98, 122, 127, 158): shell side effects. A command is the outcome `Shell(name)` over the names `clear` and `upscr`, which both platforms share.
- `print_dict`, `print_list`, the echo of the request and the listing text (main.py:43-61, 142, 153, 161, 167-170): output formatting with no state.
- `sys.exit` and `script_path` (main.py:63, 171): environment plumbing.
- `Controller.IndexRecall`: `int()` is modelled as a non-empty string of ASCII decimal digits. Python also accepts surrounding whitespace, a sign, digit underscores and non-ASCII digits. So `-h 2` or `-h+2` recall an entry in Python but list the history here. A negative number such as `-h -5` would index from the end or raise an uncaught `IndexError`.
- `Text.Lower`: only ASCII capitals are lower-cased; Python's `str.lower` also folds other letters.
- `SearchFacts.SearchOrder`: stated only when emitted keys do not collide. With a collision the later value overwrites the earlier one in place, as `HighlightCollision` shows.
- `SearchFacts.KeyMatchWins`: stated only when emitted keys do not collide, for the reason just given.
- `SearchFacts.DiveIsCollect`: the same restriction, which is the point of the lemma.
- `Controller.Session.Run`: the program differs from `Run` in these ways.
  - After a `cchange` turn (typed, or left behind by `cchange-r`), the loop top calls `input()` three more times (main.py:107, 113, 118). The next three lines become the colour, border and `y`/`n` answers, not requests. A `y` also rewrites the colour file. `Run` instead reads every line as a request. For example, for the lines `cchange`, `exit`, `x`, `n`, `foo` the program next searches `foo`, while `Run` stops at `exit`.
  - When the lines run out before `exit`, the program's `input()` raises an uncaught `EOFError`. `Run` returns normally with `exited` false.
  - `reread` reloads the document in the program; in the model the document is fixed, so it has no later effect.
