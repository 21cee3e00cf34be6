/** What one line of input does to the history and what it asks for: the `!`
    and `-h<N>` recall rules, the reverse suffix, the normalised query, the
    tokens the loop only looks at on its next turn, and the history over a
    whole run. */
module ControllerFacts {
  import opened Text
  import opened SearchEngine
  import opened Controller

  // ---------------------------------------------------------------- reading a line

  /** A line without escape characters or surrounding whitespace is read as it is. */
  lemma ReadPlain(raw: string)
    requires raw != [] && !IsSpace(raw[0]) && !IsSpace(raw[|raw| - 1])
    requires '\U{001B}' !in raw
    ensures ReadRequest(raw) == raw
  {
    AbsentFirstChar(raw, UpArrow);
    ReplaceAbsent(raw, UpArrow, "!");
    StripCharsKeeps(raw, Whitespace);
  }

  /** A line of only whitespace stands for the request `helper`. */
  lemma BlankLine(raw: string)
    requires forall i :: 0 <= i < |raw| ==> IsSpace(raw[i])
    ensures ReadRequest(raw) == DefaultRequest
  {
    AbsentFirstChar(raw, UpArrow);
    ReplaceAbsent(raw, UpArrow, "!");
    LStripSuffix(raw, Whitespace);
  }

  // ---------------------------------------------------------------- `!` recall

  /** Any line starting with `!` leaves the history as it was. */
  lemma BangKeepsHistory(history: seq<string>, raw: string)
    requires StartsWith(ReadRequest(raw), "!")
    ensures Step(history, raw).history == history
  {
    var line := ReadRequest(raw);
    var (r, a, _) := BangRecall(history, line);
    if a {
      FallbackLists(history, a);
    }
  }

  /** With `n` the number of `!` anywhere in the line, `!` recalls the `n`-th
      newest entry followed by the text after the leading `!`s; that request is
      classified as if typed, unless it is itself a `-h` recall. */
  lemma BangRecalls(history: seq<string>, raw: string)
    requires StartsWith(ReadRequest(raw), "!")
    requires Count(ReadRequest(raw), "!") <= |history|
    ensures var r := history[|history| - Count(ReadRequest(raw), "!")] + LStrip(ReadRequest(raw), BangChars);
      !StartsWith(r, "-h") ==> Step(history, raw) == StepResult(history, Classify(r).0, Classify(r).1)
  {
    var line := ReadRequest(raw);
    var r := history[|history| - Count(line, "!")] + LStrip(line, BangChars);
    if !StartsWith(r, "-h") {
      assert BangRecall(history, line) == (r, false, false);
      assert IndexRecall(history, r, false) == Some((r, false));
      StepStages(history, raw, r, false);
    }
  }

  /** `!` recall of an entry that starts with a small letter, stated with the
      line's reading, its count of `!` and what follows its leading `!`s. */
  lemma BangQuery(history: seq<string>, raw: string, line: string, n: nat, rest: string)
    requires ReadRequest(raw) == line && StartsWith(line, "!")
    requires Count(line, "!") == n && LStrip(line, BangChars) == rest
    requires 0 < n <= |history| && history[|history| - n] != [] && 'a' <= history[|history| - n][0] <= 'z'
    ensures var r := history[|history| - n] + rest;
      Step(history, raw) == StepResult(history, Classify(r).0, Classify(r).1)
  {
    var r := history[|history| - n] + rest;
    assert BangRecall(history, line) == (r, false, false);
    assert IndexRecall(history, r, false) == Some((r, false)) by {
      assert r[0] == history[|history| - n][0];
    }
    StepStages(history, raw, r, false);
  }

  /** Counting more `!` than there are entries prints "Out of requests!" and
      lists the history: nothing is appended and nothing is searched. */
  lemma BangOutOfRange(history: seq<string>, raw: string)
    requires StartsWith(ReadRequest(raw), "!")
    requires Count(ReadRequest(raw), "!") > |history|
    ensures Step(history, raw) == StepResult(history, ListHistory(true), "-h")
  {
    FallbackLists(history, true);
  }

  // ---------------------------------------------------------------- `-h<N>` recall

  /** An index below the history's length recalls that entry without appending it. */
  lemma IndexRecalls(history: seq<string>, raw: string)
    requires StartsWith(ReadRequest(raw), "-h")
    requires var rest := StripChars(ReadRequest(raw), IndexChars);
      IsDigits(rest) && DigitsValue(rest) < |history|
    ensures var e := history[DigitsValue(StripChars(ReadRequest(raw), IndexChars))];
      Step(history, raw) == StepResult(history, Classify(e).0, Classify(e).1)
  {
  }

  /** Text around `-h` that is not a number lists the history and searches nothing. */
  lemma IndexListing(history: seq<string>, raw: string)
    requires StartsWith(ReadRequest(raw), "-h")
    requires !IsDigits(StripChars(ReadRequest(raw), IndexChars))
    ensures Step(history, raw) == StepResult(history, ListHistory(false), ReadRequest(raw))
  {
  }

  /** A number at or past the end recalls nothing: the line is appended and searched as typed. */
  lemma IndexPastEnd(history: seq<string>, raw: string)
    requires StartsWith(ReadRequest(raw), "-h")
    requires var rest := StripChars(ReadRequest(raw), IndexChars);
      IsDigits(rest) && DigitsValue(rest) >= |history|
    ensures var line := ReadRequest(raw);
      Step(history, raw) == StepResult(history + [line], Classify(line).0, Classify(line).1)
  {
  }

  /** The numbers the history listing prints recall exactly the entry they stand next to. */
  lemma ListedIndexRecalls(history: seq<string>, k: nat)
    requires k < |history|
    ensures Step(history, "-h" + Decimal(k))
         == StepResult(history, Classify(history[k]).0, Classify(history[k]).1)
  {
    IndexLine(k);
    IndexRecalls(history, "-h" + Decimal(k));
  }

  /** `-h` and a number past the end is an ordinary query: appended, searched
      for its own text with no reverse mode. */
  lemma IndexPastEndQueried(history: seq<string>, k: nat)
    requires k >= |history|
    ensures var line := "-h" + Decimal(k);
      Step(history, line) == StepResult(history + [line], Query(line, No), line)
  {
    var line := "-h" + Decimal(k);
    IndexLine(k);
    IndexPastEnd(history, line);
    IndexLineQuery(Decimal(k));
  }

  /** `-h` followed by the decimal notation of `k` is read as it is and its number is `k`. */
  lemma IndexLine(k: nat)
    ensures var line := "-h" + Decimal(k);
      ReadRequest(line) == line && StartsWith(line, "-h") &&
      StripChars(line, IndexChars) == Decimal(k) && DigitsValue(Decimal(k)) == k
  {
    IndexLineRead(Decimal(k));
    IndexLineNumber(Decimal(k));
    DecimalRoundTrip(k);
  }

  lemma IndexLineRead(d: string)
    requires IsDigits(d)
    ensures ReadRequest("-h" + d) == "-h" + d
  {
    var line := "-h" + d;
    assert '\U{001B}' !in line by {
      forall i | 0 <= i < |line| ensures line[i] != '\U{001B}' {
        if i >= 2 { assert line[i] == d[i - 2]; }
      }
    }
    assert line[|line| - 1] == d[|d| - 1];
    ReadPlain(line);
  }

  lemma IndexLineQuery(d: string)
    requires IsDigits(d)
    ensures Classify("-h" + d) == (Query("-h" + d, No), "-h" + d)
  {
    var line := "-h" + d;
    forall i | 0 <= i < |line| ensures !IsUpper(line[i]) && !IsSpace(line[i]) {
      if i >= 2 { assert line[i] == d[i - 2]; }
    }
    assert line[|line| - 1] == d[|d| - 1];
    assert |line| > 5 ==> line != "clear" && line != "upscr";
    PlainQuery(line);
  }

  lemma IndexLineNumber(d: string)
    requires IsDigits(d)
    ensures StripChars("-h" + d, IndexChars) == d
  {
    var line := "-h" + d;
    assert IsDigit(d[0]) && IsDigit(d[|d| - 1]);
    StripCharsKeeps(d, IndexChars);
    assert line[0] == '-' && line[1..][0] == 'h' && line[1..][1..] == d;
    assert LStrip(line, IndexChars) == LStrip(line[1..], IndexChars) == LStrip(d, IndexChars);
  }

  // ---------------------------------------------------------------- classification

  /** A request with no reverse suffix, no spaces and no capitals is searched as
      it is, in mode `no`. */
  lemma PlainQuery(r: string)
    requires r != [] && r !in CommandNames
    requires forall i :: 0 <= i < |r| ==> !IsUpper(r[i]) && !IsSpace(r[i])
    requires !EndsWith(r, "-r") && !EndsWith(r, "-fr")
    ensures Classify(r) == (Query(r, No), r)
  {
    StripCharsKeeps(r, {' '});
    StripCharsKeeps(r, Whitespace);
    LowerKeeps(r);
  }

  /** A reverse suffix selects the mode and is removed by character-set
      stripping: what remains is the request with every trailing `-`, `f` and
      `r` removed, so `docker-r` becomes `docke`. */
  lemma SuffixStripped(r: string)
    requires r !in CommandNames && ReverseOption(r) != No
    ensures var final := Classify(r).1;
      final == RStrip(r, ForceReverseChars) && final <= r &&
      (final != [] ==> final[|final| - 1] !in ForceReverseChars)
  {
    var final := RStrip(r, ForceReverseChars);
    assert Classify(r).1 == RStrip(RStrip(r, ReverseChars), ForceReverseChars);
    RStripAbsorbed(r, ReverseChars, ForceReverseChars);
    RStripPrefix(r, ForceReverseChars);
    assert final <= r;
  }

  /** The mode follows the last characters of the space-trimmed request. */
  lemma ModeBySuffix(r: string)
    ensures var x := StripChars(r, {' '});
      (ReverseOption(r) == Reverse <==> EndsWith(x, "-r")) &&
      (ReverseOption(r) == ForceReverse <==> EndsWith(x, "-fr"))
  {
    var x := StripChars(r, {' '});
    if EndsWith(x, "-r") {
      assert x[|x| - 2] == '-';
      assert !EndsWith(x, "-fr");
    }
  }

  /** A word of lower-case letters is searched as it is, in mode `no`. */
  lemma WordQuery(r: string)
    requires r != [] && r !in CommandNames
    requires forall i :: 0 <= i < |r| ==> 'a' <= r[i] <= 'z'
    ensures Classify(r) == (Query(r, No), r)
  {
    if |r| >= 2 {
      assert r[|r| - 2..][0] == r[|r| - 2] != '-';
    }
    if |r| >= 3 {
      assert r[|r| - 3..][0] == r[|r| - 3] != '-';
    }
    PlainQuery(r);
  }

  /** A request typed with a trailing `-r` selects reverse mode. */
  lemma ReverseSuffixMode(w: string)
    requires w == [] || w[0] != ' '
    ensures ReverseOption(w + "-r") == Reverse
  {
    var x := w + "-r";
    assert x[0] != ' ' && x[|x| - 1] == 'r';
    StripCharsKeeps(x, {' '});
    assert x[|x| - 2..] == "-r";
  }

  /** A request typed with a trailing `-fr` selects force-reverse mode. */
  lemma ForceReverseSuffixMode(w: string)
    requires w == [] || w[0] != ' '
    ensures ReverseOption(w + "-fr") == ForceReverse
  {
    var x := w + "-fr";
    assert x[0] != ' ' && x[|x| - 1] == 'r';
    StripCharsKeeps(x, {' '});
    assert x[|x| - 2..][0] == 'f';
    assert x[|x| - 3..] == "-fr";
  }

  /** A word of lower-case letters with `-r` typed after it is searched in
      reverse mode for what is left once every trailing `-`, `f` and `r` is
      stripped. */
  lemma ReverseWordClassify(w: string)
    requires w != [] && forall i :: 0 <= i < |w| ==> 'a' <= w[i] <= 'z'
    ensures var f := RStrip(w, ForceReverseChars);
      Classify(w + "-r") == (Query(f, Reverse), f)
  {
    SuffixNotCommand(w);
    ReverseSuffixMode(w);
    ReverseSuffixStripped(w);
    FinalWordQuery(w);
  }

  lemma SuffixNotCommand(w: string)
    ensures w + "-r" !in CommandNames
  {
    var line := w + "-r";
    assert line[|w|] == '-';
    assert '-' !in "clear" && '-' !in "upscr";
  }

  /** Stripping the `-r` suffix by character sets goes on into the word. */
  lemma ReverseSuffixStripped(w: string)
    ensures RStrip(RStrip(w + "-r", ReverseChars), ForceReverseChars) == RStrip(w, ForceReverseChars)
  {
    var line := w + "-r";
    RStripAbsorbed(line, ReverseChars, ForceReverseChars);
    assert line[..|line| - 1] == w + "-" && (w + "-")[..|w|] == w;
  }

  lemma FinalWordQuery(w: string)
    requires forall i :: 0 <= i < |w| ==> 'a' <= w[i] <= 'z'
    ensures var f := RStrip(w, ForceReverseChars);
      Lower(Strip(f)) == f
  {
    var f := RStrip(w, ForceReverseChars);
    assert forall i :: 0 <= i < |f| ==> 'a' <= f[i] <= 'z' by {
      RStripPrefix(w, ForceReverseChars);
      forall i | 0 <= i < |f| ensures 'a' <= f[i] <= 'z' {
        assert f[i] == w[i];
      }
    }
    LettersNormal(f);
  }

  /** Lower-case letters are left as they are by `strip()` and `lower()`. */
  lemma LettersNormal(f: string)
    requires forall i :: 0 <= i < |f| ==> 'a' <= f[i] <= 'z'
    ensures Lower(Strip(f)) == f
  {
    assert Strip(f) == f by {
      StripCharsKeeps(f, Whitespace);
    }
    LowerKeeps(f);
  }

  /** `docker-r` searches `docke` in reverse mode: the `r` of the word goes with the suffix. */
  lemma DockerExample()
    ensures Classify("docker-r") == (Query("docke", Reverse), "docke")
  {
    ReverseWordClassify("docker");
    DockerStripped();
    assert "docker" + "-r" == "docker-r";
  }

  lemma DockerStripped()
    ensures RStrip("docker", ForceReverseChars) == "docke"
  {
    assert "docker"[..5] == "docke" && "docke"[..4] == "dock";
  }

  /** Everything but a shell command name is a query, and the query is
      lower-cased and has no surrounding whitespace. */
  lemma QueryNormalised(r: string)
    ensures Classify(r).0.Query? <==> r !in CommandNames
    ensures var c := Classify(r).0;
      c.Query? ==>
        (forall i :: 0 <= i < |c.q| ==> !IsUpper(c.q[i])) &&
        (c.q != [] ==> !IsSpace(c.q[0]) && !IsSpace(c.q[|c.q| - 1]))
  {
    var c := Classify(r).0;
    if c.Query? {
      var s := Strip(Classify(r).1);
      StripCharsSlice(Classify(r).1, Whitespace);
      assert c.q == Lower(s);
      if c.q != [] {
        assert !IsUpper(s[0]) ==> c.q[0] == s[0];
        assert !IsUpper(s[|s| - 1]) ==> c.q[|s| - 1] == s[|s| - 1];
      }
    }
  }

  /** A shell command name is appended to the history and handed to the shell. */
  lemma ShellAppended(history: seq<string>, raw: string)
    requires ReadRequest(raw) in CommandNames
    ensures var name := ReadRequest(raw);
      Step(history, raw) == StepResult(history + [name], Shell(name), name)
  {
    var name := ReadRequest(raw);
    assert name == "clear" || name == "upscr";
  }

  /** An empty or blank line searches for `helper` and is recorded as `helper`. */
  lemma EmptyLine(history: seq<string>, raw: string)
    requires forall i :: 0 <= i < |raw| ==> IsSpace(raw[i])
    ensures Step(history, raw) == StepResult(history + [DefaultRequest], Query(DefaultRequest, No), DefaultRequest)
  {
    BlankLine(raw);
    DefaultQuery();
    AppendedQuery(history, raw, DefaultRequest, Query(DefaultRequest, No), DefaultRequest);
  }

  lemma DefaultQuery()
    ensures Classify(DefaultRequest) == (Query(DefaultRequest, No), DefaultRequest)
  {
    PlainQuery(DefaultRequest);
  }

  // ---------------------------------------------------------------- the loop tokens

  /** A word of lower-case letters that is not a shell command is appended
      and searched as it is. */
  lemma WordLine(history: seq<string>, w: string)
    requires w != [] && w !in CommandNames
    requires forall i :: 0 <= i < |w| ==> 'a' <= w[i] <= 'z'
    ensures Step(history, w) == StepResult(history + [w], Query(w, No), w)
  {
    ReadPlain(w);
    WordQuery(w);
    AppendedQuery(history, w, w, Query(w, No), w);
  }

  lemma ReverseWordRead(w: string)
    requires w != [] && forall i :: 0 <= i < |w| ==> 'a' <= w[i] <= 'z'
    ensures ReadRequest(w + "-r") == w + "-r"
  {
    var line := w + "-r";
    assert line[0] == w[0] && line[|line| - 1] == 'r';
    assert '\U{001B}' !in line by {
      forall i | 0 <= i < |line| ensures line[i] != '\U{001B}' {
        if i < |w| { assert line[i] == w[i]; }
      }
    }
    ReadPlain(line);
  }

  /** A line read as a request that starts with a small letter recalls
      nothing: it is appended and classified as it is. */
  lemma AppendedQuery(history: seq<string>, raw: string, line: string, outcome: Outcome, final: string)
    requires ReadRequest(raw) == line && line != [] && 'a' <= line[0] <= 'z'
    requires Classify(line) == (outcome, final)
    ensures Step(history, raw) == StepResult(history + [line], outcome, final)
  {
    PlainRecall(history, line);
    StepStages(history, raw, line, true);
  }

  /** A line that starts with neither `!` nor `-h` recalls nothing and goes into the history. */
  lemma PlainRecall(history: seq<string>, line: string)
    requires line != [] && 'a' <= line[0] <= 'z'
    ensures BangRecall(history, line) == (line, true, false)
    ensures IndexRecall(history, line, true) == Some((line, true))
  {
  }

  /** `exit`, `cchange` and `reread` are first appended and searched like any
      other request; only the top of the next turn acts on them. */
  lemma LoopTokensSearchedFirst(history: seq<string>, t: string)
    requires t == "exit" || t == "cchange" || t == "reread"
    ensures Step(history, t) == StepResult(history + [t], Query(t, No), t)
    ensures AtLoopTop(t) != Prompt
  {
    WordLine(history, t);
  }

  /** `exit-r` searches `exit` in reverse mode and then also ends the loop,
      since the request it leaves behind is `exit`. */
  lemma ExitWithSuffix(history: seq<string>)
    ensures Step(history, "exit-r") == StepResult(history + ["exit-r"], Query("exit", Reverse), "exit")
    ensures AtLoopTop(Step(history, "exit-r").request) == Exit
  {
    ExitSuffixStages();
    AppendedQuery(history, "exit-r", "exit-r", Query("exit", Reverse), "exit");
  }

  lemma ExitSuffixStages()
    ensures ReadRequest("exit-r") == "exit-r"
    ensures Classify("exit-r") == (Query("exit", Reverse), "exit")
  {
    assert "exit" + "-r" == "exit-r";
    assert RStrip("exit", ForceReverseChars) == "exit";
    ReverseWordRead("exit");
    ReverseWordClassify("exit");
  }

  // ---------------------------------------------------------------- a worked history

  // With the history `foo`, `bar`, `baz`:

  /** `!` recalls the newest entry and does not append it. */
  lemma NewestRecalled(h: seq<string>)
    requires h == ["foo", "bar", "baz"]
    ensures Step(h, "!") == StepResult(h, Query("baz", No), "baz")
  {
    OneBangRead();
    BazQuery();
    assert h[|h| - 1] + [] == "baz";
    BangQuery(h, "!", "!", 1, []);
  }

  lemma OneBangRead()
    ensures ReadRequest("!") == "!" && Count("!", "!") == 1 && LStrip("!", BangChars) == []
  {
    ReadPlain("!");
    assert "!"[1..] == [];
  }

  lemma BazQuery()
    ensures Classify("baz") == (Query("baz", No), "baz")
  {
    PlainQuery("baz");
  }

  /** `!a!` counts both `!`, recalls `bar` and appends the text after the
      leading `!`: the request is `bara!`. */
  lemma EveryBangCounted(h: seq<string>)
    requires h == ["foo", "bar", "baz"]
    ensures Step(h, "!a!") == StepResult(h, Query("bara!", No), "bara!")
  {
    BangsAnywhereRead();
    BaraQuery();
    assert h[|h| - 2] + "a!" == "bara!" by {
      assert h[|h| - 2] == "bar";
    }
    BangQuery(h, "!a!", "!a!", 2, "a!");
  }

  lemma BangsAnywhereRead()
    ensures ReadRequest("!a!") == "!a!" && Count("!a!", "!") == 2 && LStrip("!a!", BangChars) == "a!"
  {
    ReadPlain("!a!");
    assert "!a!"[1..] == "a!" && "a!"[1..] == "!" && "!"[1..] == [];
    assert !("!" <= "a!");
  }

  lemma BaraQuery()
    ensures Classify("bara!") == (Query("bara!", No), "bara!")
  {
    PlainQuery("bara!");
  }

  /** Four `!` run out of requests: the history is listed. */
  lemma OutOfRequests(h: seq<string>)
    requires h == ["foo", "bar", "baz"]
    ensures Step(h, "!!!!") == StepResult(h, ListHistory(true), "-h")
  {
    FourBangsRead();
    BangOutOfRange(h, "!!!!");
  }

  lemma FourBangsRead()
    ensures ReadRequest("!!!!") == "!!!!" && Count("!!!!", "!") == 4
  {
    ReadPlain("!!!!");
    assert "!!!!"[1..] == "!!!" && "!!!"[1..] == "!!" && "!!"[1..] == "!" && "!"[1..] == [];
  }

  /** `-h99` names no entry: it is appended and searched as typed. */
  lemma PastEndSearched(h: seq<string>)
    requires h == ["foo", "bar", "baz"]
    ensures Step(h, "-h99") == StepResult(h + ["-h99"], Query("-h99", No), "-h99")
  {
    assert "-h" + Decimal(99) == "-h99" by {
      assert Decimal(9) == "9";
    }
    IndexPastEndQueried(h, 99);
  }

  // ---------------------------------------------------------------- a whole run

  /** With a body that only ever appends one entry at most, the history
      before each step of the loop extends the one it started from. */
  lemma {:induction false} LoopGrows(step: (seq<string>, string) -> StepResult, history: seq<string>, lines: seq<string>, from: nat)
    requires from <= |lines|
    requires forall h, raw :: h <= step(h, raw).history && |step(h, raw).history| <= |h| + 1
    ensures var rs := Loop(step, history, lines, from);
      |rs| <= |lines| - from &&
      forall j :: 0 <= j < |rs| ==> history <= rs[j].history && |rs[j].history| <= |history| + j + 1
    decreases |lines| - from
  {
    if from < |lines| {
      var s := step(history, lines[from]);
      if AtLoopTop(s.request) != Exit {
        var rest := Loop(step, s.history, lines, from + 1);
        LoopGrows(step, s.history, lines, from + 1);
        var rs := Loop(step, history, lines, from);
        assert rs == [s] + rest;
        forall j | 0 <= j < |rs| ensures history <= rs[j].history && |rs[j].history| <= |history| + j + 1 {
          if j > 0 {
            assert rs[j] == rest[j - 1];
          }
        }
      }
    }
  }

  /** Over a run the history only ever grows, by at most one entry per line,
      and the loop handles at most one step per line. */
  lemma ReplayGrows(history: seq<string>, lines: seq<string>)
    ensures var rs := Replay(history, lines);
      |rs| <= |lines| &&
      forall j :: 0 <= j < |rs| ==> history <= rs[j].history && |rs[j].history| <= |history| + j + 1
  {
    forall h, raw ensures h <= Step(h, raw).history && |Step(h, raw).history| <= |h| + 1 {
      StepAppendOnly(h, raw);
    }
    LoopGrows(Step, history, lines, 0);
  }

  /** No step but the last leaves behind a request the loop top reads as `Exit`. */
  predicate ExitOnlyLast(rs: seq<StepResult>) {
    forall j :: 0 <= j < |rs| - 1 ==> AtLoopTop(rs[j].request) != Exit
  }

  /** Whatever the body, the loop ends with the first line whose request is `exit`. */
  lemma {:induction false} LoopStopsAtExit(step: (seq<string>, string) -> StepResult, history: seq<string>, lines: seq<string>, from: nat)
    requires from <= |lines|
    ensures ExitOnlyLast(Loop(step, history, lines, from))
    decreases |lines| - from
  {
    if from < |lines| {
      var s := step(history, lines[from]);
      if AtLoopTop(s.request) != Exit {
        var rest := Loop(step, s.history, lines, from + 1);
        LoopStopsAtExit(step, s.history, lines, from + 1);
        var rs := Loop(step, history, lines, from);
        assert rs == [s] + rest;
        forall j | 0 <= j < |rs| - 1 ensures AtLoopTop(rs[j].request) != Exit {
          if j > 0 {
            assert rs[j] == rest[j - 1];
          }
        }
      }
    }
  }

  /** The program's loop ends with the first line whose request is `exit`. */
  lemma ReplayStopsAtExit(history: seq<string>, lines: seq<string>)
    ensures ExitOnlyLast(Replay(history, lines))
  {
    LoopStopsAtExit(Step, history, lines, 0);
  }
}
