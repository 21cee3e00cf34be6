/** The session controller of the help browser, main.py lines 93-170: one
    line of input is cleaned, may recall an earlier request by `!` or by
    `-h<N>`, is appended to the command history, and then either names a shell
    command, lists the history, or becomes a query with a reverse mode. */
module Controller {
  import opened Text
  import opened SearchEngine

  /** What the terminal sends for the up-arrow key; the loop reads it as `!`. */
  const UpArrow: string := "\U{001B}[A"

  /** The request an empty line stands for. */
  const DefaultRequest: string := "helper"

  /** The names in `cross_commands`; the Linux and the Windows table have the same two. */
  const CommandNames: set<string> := {"clear", "upscr"}

  const BangChars: set<char> := {'!'}
  const IndexChars: set<char> := {'-', 'h'}
  const ReverseChars: set<char> := {'-', 'r'}
  const ForceReverseChars: set<char> := {'-', 'f', 'r'}

  /** What one line of input leads to. */
  datatype Outcome =
    | ListHistory(outOfRequests: bool)   // the enumerated history is printed, nothing is searched
    | Shell(name: string)                // `os.system` runs the command of that name
    | Query(q: string, mode: Reversative) // `dive_in(helper, q, mode)` is printed

  /** The history after the line, its outcome, and the value `request` keeps
      for the test at the top of the next iteration. */
  datatype StepResult = StepResult(history: seq<string>, outcome: Outcome, request: string)

  /** What the top of the `while` loop does with the previous request. */
  datatype Control = Exit | ChangeColors | Reread | Prompt

  function AtLoopTop(request: string): Control {
    if request == "exit" then Exit
    else if request == "cchange" then ChangeColors
    else if request == "reread" then Reread
    else Prompt
  }

  /** A history entry: non-empty and without surrounding whitespace. */
  predicate Clean(s: string) {
    s != [] && s[0] !in Whitespace && s[|s| - 1] !in Whitespace
  }

  /** Up-arrows become `!`, surrounding whitespace goes, and an empty line means `helper`. */
  function ReadRequest(raw: string): string {
    var s := Strip(Replace(raw, UpArrow, "!"));
    if s == [] then DefaultRequest else s
  }

  /** What is read is a valid history entry. */
  lemma ReadRequestClean(raw: string)
    ensures Clean(ReadRequest(raw))
  {
    StripCharsSlice(Replace(raw, UpArrow, "!"), Whitespace);
    assert !IsSpace(DefaultRequest[0]) && !IsSpace(DefaultRequest[|DefaultRequest| - 1]);
  }

  /** `!` recall: the number of `!` characters anywhere in the line counts back
      from the newest entry, and the text after the leading `!`s is appended to
      the recalled entry. Gives the request, whether it still goes into the
      history, and whether the count ran past the oldest entry. */
  function BangRecall(history: seq<string>, line: string): (string, bool, bool) {
    if StartsWith(line, "!") then
      var n := Count(line, "!");
      if n <= |history| then (history[|history| - n] + LStrip(line, BangChars), false, false)
      else ("-h", true, true)
    else (line, true, false)
  }

  /** `request.rstrip('-r').rstrip('-fr')` once a reverse suffix was seen. */
  function ReverseOption(request: string): Reversative {
    var x := StripChars(request, {' '});
    if EndsWith(x, "-r") then Reverse
    else if EndsWith(x, "-fr") then ForceReverse
    else No
  }

  /** `-h<N>` recall: `None` when the text around `-h` is not a number and the
      history is listed instead; otherwise the request and whether it still
      goes into the history. A number past the newest entry changes nothing. */
  function IndexRecall(history: seq<string>, request: string, add: bool): Option<(string, bool)> {
    if !StartsWith(request, "-h") then Some((request, add))
    else
      var rest := StripChars(request, IndexChars);
      if !IsDigits(rest) then None
      else if DigitsValue(rest) < |history| then Some((history[DigitsValue(rest)], false))
      else Some((request, add))
  }

  /** A shell command name, or a query whose reverse suffix selects the mode. Gives
      the outcome and the final value of `request`. */
  function Classify(request: string): (Outcome, string) {
    if request in CommandNames then (Shell(request), request)
    else
      var mode := ReverseOption(request);
      var final := if mode == No then request
                   else RStrip(RStrip(request, ReverseChars), ForceReverseChars);
      (Query(Lower(Strip(final)), mode), final)
  }

  /** One pass of the loop body on the raw line `raw`. */
  function Step(history: seq<string>, raw: string): StepResult {
    var (request, add, outOfRequests) := BangRecall(history, ReadRequest(raw));
    match IndexRecall(history, request, add)
    case None => StepResult(history, ListHistory(outOfRequests), request)
    case Some((request', add')) =>
      var history' := if add' then history + [request'] else history;
      var (outcome, final) := Classify(request');
      StepResult(history', outcome, final)
  }

  /** The `while` loop over the input lines from position `from` on, with
      `step` as its body: it stops after the line whose request the loop top
      reads as `Exit`. */
  function Loop(step: (seq<string>, string) -> StepResult, history: seq<string>, lines: seq<string>, from: nat): seq<StepResult>
    requires from <= |lines|
    decreases |lines| - from
  {
    if from == |lines| then []
    else
      var s := step(history, lines[from]);
      [s] + (if AtLoopTop(s.request) == Exit then [] else Loop(step, s.history, lines, from + 1))
  }

  /** One more turn of the loop, for a body that did not ask to exit. */
  lemma LoopExtend(step: (seq<string>, string) -> StepResult, history: seq<string>, lines: seq<string>,
                   done: seq<StepResult>, before: seq<string>, i: nat)
    requires i < |lines|
    requires Loop(step, history, lines, 0) == done + Loop(step, before, lines, i)
    ensures var s := step(before, lines[i]);
      AtLoopTop(s.request) != Exit ==> Loop(step, history, lines, 0) == (done + [s]) + Loop(step, s.history, lines, i + 1)
    ensures var s := step(before, lines[i]);
      AtLoopTop(s.request) == Exit ==> Loop(step, history, lines, 0) == done + [s]
  {
    var s := step(before, lines[i]);
    if AtLoopTop(s.request) != Exit {
      var rest := Loop(step, s.history, lines, i + 1);
      assert Loop(step, before, lines, i) == [s] + rest;
      assert done + ([s] + rest) == (done + [s]) + rest;
    } else {
      assert Loop(step, before, lines, i) == [s];
    }
  }

  /** The program's loop over the given lines: `Step` on each line in turn. */
  function Replay(history: seq<string>, lines: seq<string>): seq<StepResult> {
    Loop(Step, history, lines, 0)
  }

  /** History is append-only, grows by at most one entry per line, and only
      ever gains the cleaned line itself. */
  lemma StepAppendOnly(history: seq<string>, raw: string)
    ensures var h := Step(history, raw).history;
      history <= h && |h| <= |history| + 1 &&
      (|h| == |history| + 1 ==> h[|history|] == ReadRequest(raw))
  {
    var line := ReadRequest(raw);
    var (r, a, _) := BangRecall(history, line);
    assert a ==> r == line || r == "-h";
    match IndexRecall(history, r, a)
    case None =>
    case Some((r', a')) =>
      StepStages(history, raw, r', a');
      if a' {
        FallbackLists(history, a);
        assert r' == line;
      }
  }

  /** The `-h` that an out-of-range `!` leaves behind always lists the history. */
  lemma FallbackLists(history: seq<string>, add: bool)
    ensures IndexRecall(history, "-h", add) == None
  {
    assert "-h"[1..] == "h" && "h"[1..] == [];
    assert StripChars("-h", IndexChars) == [];
  }

  /** Every history entry stays non-empty and stripped. */
  lemma StepKeepsClean(history: seq<string>, raw: string)
    requires forall i :: 0 <= i < |history| ==> Clean(history[i])
    ensures var h := Step(history, raw).history;
      forall i :: 0 <= i < |h| ==> Clean(h[i])
  {
    StepAppendOnly(history, raw);
    ReadRequestClean(raw);
  }

  /** `Step` when the line asks for the history listing: nothing changes. */
  lemma StepListing(history: seq<string>, raw: string)
    requires var (r, a, _) := BangRecall(history, ReadRequest(raw));
      IndexRecall(history, r, a).None?
    ensures var (r, _, out) := BangRecall(history, ReadRequest(raw));
      Step(history, raw) == StepResult(history, ListHistory(out), r)
  {
  }

  /** `Step` when the line is not a history listing, stage by stage. */
  lemma StepStages(history: seq<string>, raw: string, request: string, add: bool)
    requires var (r, a, _) := BangRecall(history, ReadRequest(raw));
      IndexRecall(history, r, a) == Some((request, add))
    ensures Step(history, raw) ==
      StepResult(if add then history + [request] else history, Classify(request).0, Classify(request).1)
  {
  }

  class Session {
    var history: seq<string>
    const helper: Doc
    const color: Template

    ghost predicate Valid()
      reads this
    {
      forall i :: 0 <= i < |history| ==> Clean(history[i])
    }

    constructor (helper: Doc, color: Template)
      ensures Valid() && history == [] && this.helper == helper && this.color == color
    {
      this.helper := helper;
      this.color := color;
      history := [];
    }

    /** One iteration of the `while` loop after its top tests: read, recall,
        update the history, classify and search. */
    method Enter(raw: string) returns (outcome: Outcome, request: string, answer: Doc)
      requires Valid()
      modifies this`history
      ensures Valid()
      ensures StepResult(history, outcome, request) == Step(old(history), raw)
      ensures old(history) <= history && |history| <= |old(history)| + 1
      ensures answer == if outcome.Query? then Search(helper, outcome.q, outcome.mode, color) else []
    {
      ghost var before := history;
      // Lines 130-133: up-arrows become `!`, strip, an empty line means `helper`.
      request := Replace(raw, UpArrow, "!");
      request := Strip(request);
      if request == [] {
        request := DefaultRequest;
      }
      ghost var line := request;
      var addToHistory := true;
      var outOfRequests := false;
      // Lines 137-143: `!` recall.
      if StartsWith(request, "!") {
        var n := Count(request, "!");
        if n <= |history| {
          request := history[|history| - n] + LStrip(request, BangChars);
          addToHistory := false;
        } else {
          outOfRequests := true;
          request := "-h";
        }
      }
      assert (request, addToHistory, outOfRequests) == BangRecall(before, line);
      ghost var bang, bangAdd := request, addToHistory;
      // Lines 146-154: `-h<N>` recall, or the history listing.
      if StartsWith(request, "-h") {
        var rest := StripChars(request, IndexChars);
        if !IsDigits(rest) {
          assert IndexRecall(before, bang, bangAdd).None?;
          StepListing(before, raw);
          outcome, answer := ListHistory(outOfRequests), [];
          return;
        }
        var index := DigitsValue(rest);
        if index < |history| {
          request := history[index];
          addToHistory := false;
        }
      }
      assert IndexRecall(before, bang, bangAdd) == Some((request, addToHistory));
      StepStages(before, raw, request, addToHistory);
      StepAppendOnly(before, raw);
      StepKeepsClean(before, raw);
      ghost var step := Step(before, raw);
      ghost var recalled := request;
      // Lines 155-156.
      if addToHistory {
        history := history + [request];
      }
      assert history == step.history;
      // Lines 157-159: a shell command.
      if request in CommandNames {
        outcome, answer := Shell(request), [];
        assert (outcome, request) == Classify(recalled);
        return;
      }
      // Lines 162-165: the reverse suffix.
      var reverseOption := No;
      var x := StripChars(request, {' '});
      if EndsWith(x, "-r") || EndsWith(x, "-fr") {
        reverseOption := if EndsWith(x, "-r") then Reverse else ForceReverse;
        request := RStrip(RStrip(request, ReverseChars), ForceReverseChars);
      }
      // Line 168.
      outcome := Query(Lower(Strip(request)), reverseOption);
      assert (outcome, request) == Classify(recalled);
      answer := DiveIn(helper, outcome.q, outcome.mode, color);
    }

    /** The `while request != "exit"` loop over the given input lines. */
    method Run(lines: seq<string>) returns (results: seq<StepResult>, exited: bool)
      requires Valid()
      modifies this`history
      ensures Valid()
      ensures results == Replay(old(history), lines)
      ensures exited <==> results != [] && AtLoopTop(results[|results| - 1].request) == Exit
      ensures history == if results == [] then old(history) else results[|results| - 1].history
    {
      results, exited := [], false;
      var i := 0;
      while i < |lines| && !exited
        invariant 0 <= i <= |lines|
        invariant Valid()
        invariant |results| == i
        invariant exited ==> results == Replay(old(history), lines)
        invariant !exited ==> Replay(old(history), lines) == results + Loop(Step, history, lines, i)
        invariant exited <==> results != [] && AtLoopTop(results[|results| - 1].request) == Exit
        invariant history == if results == [] then old(history) else results[|results| - 1].history
        decreases |lines| - i
      {
        // The `cchange` and `reread` branches at the top of the loop redraw the
        // colours and reload the document; both are terminal and file I/O.
        ghost var before := history;
        var outcome, request, answer := Enter(lines[i]);
        LoopExtend(Step, old(history), lines, results, before, i);
        results := results + [StepResult(history, outcome, request)];
        exited := AtLoopTop(request) == Exit;
        i := i + 1;
      }
    }
  }
}
