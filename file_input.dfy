/**
 * `fileInput(name:message:successMessage:tryAction:)`: prompt for a path
 * with `input(type: "string")`, clean it, and hand it to a validator until
 * the validator returns true.
 *
 * The validator is scripted: its k-th call has the k-th verdict. A verdict
 * is `true` (Accepted), `false` (Rejected) or a thrown error (Threw), whose
 * description is the text the error interpolates to.
 */
module FileInput {
  import opened Wrappers
  import opened SwiftText
  import opened TypedInput

  datatype Verdict = Accepted | Rejected | Threw(error: string)

  /** The label `input` is called with: `message`, else `name + " path"`. */
  function Label(name: string, message: Option<string>): (title: string)
    ensures message.Some? ==> title == message.value
    ensures message.None? ==> |title| == |name| + 5 && title[..|name|] == name && title[|name|..] == " path"
  {
    match message
    case Some(m) => m
    case None => name + " path"
  }

  /** The arguments of the inner `input(name: label, type: "string")`. */
  function PathPrompt<D>(title: string): PromptSpec<D> {
    PromptSpec(title, "string", None, None, None, false)
  }

  /** `.trimmingCharacters(in: .whitespacesAndNewlines)` followed by
      `.replacingOccurrences(of: "\\", with: "")`. */
  function CleanPath(s: string): (r: string)
    ensures '\\' !in r
    ensures |r| <= |s|
    ensures '\\' !in s ==> r == Trim(s)
  {
    RemoveBackslashes(Trim(s))
  }

  /** The cleaned path is the line between its leading and trailing blank
      runs, with every backslash in it deleted and the other characters
      kept in order. */
  lemma {:induction false} CleanPathContents(s: string)
    ensures var i := TrimFrom(s);
            var j := i + |Trim(s)|;
            j <= |s| && BlankOutside(s, i, j) && (i < j ==> !IsBlank(s[i]) && !IsBlank(s[j - 1])) &&
            CleanPath(s) == RemoveBackslashes(s[i..j])
  {
    TrimIsMiddle(s);
    var i, t := TrimFrom(s), Trim(s);
    if t != [] {
      assert s[i] == t[0] && s[i + |t| - 1] == t[|t| - 1];
    }
  }

  function ErrorText(e: string): string {
    "Error:\n " + e + ".\n Please try again."
  }

  function SuccessText(name: string): string {
    "Successfully imported from " + name + "."
  }

  /** What the loop prints after one validator call. */
  function AfterCall(name: string, successMessage: bool, v: Verdict): (printed: seq<string>)
    ensures v.Threw? ==> printed == [ErrorText(v.error)]
    ensures !v.Threw? && successMessage ==> printed == [SuccessText(name)]
    ensures !v.Threw? && !successMessage ==> printed == []
  {
    match v
    case Threw(e) => [ErrorText(e)]
    case _ => if successMessage then [SuccessText(name)] else []
  }

  /** Whether the loop exited, the lines whose cleaned form the validator
      was called with, and everything printed. */
  datatype FileOutcome = FileOutcome(accepted: bool, lines: seq<string>, log: seq<string>)

  function Prepend(lines: seq<string>, log: seq<string>, rest: FileOutcome): FileOutcome {
    FileOutcome(rest.accepted, lines + rest.lines, log + rest.log)
  }

  /** `f` applied to each element, in order. */
  function Map<T, U>(f: T -> U, xs: seq<T>): (ys: seq<U>)
    ensures |ys| == |xs|
  {
    seq(|xs|, k requires 0 <= k < |xs| => f(xs[k]))
  }

  lemma {:induction false} MapAppend<T, U>(f: T -> U, a: seq<T>, b: seq<T>)
    ensures Map(f, a + b) == Map(f, a) + Map(f, b)
  {
    var whole, left, right := Map(f, a + b), Map(f, a), Map(f, b);
    forall k | 0 <= k < |whole| ensures whole[k] == (left + right)[k] {
      if k < |a| {
        assert (a + b)[k] == a[k];
      } else {
        assert (a + b)[k] == b[k - |a|];
      }
    }
  }

  /** The index of the first non-nil response, `|rs|` when there is none. */
  function FirstLine(rs: seq<Option<string>>): (i: nat)
    ensures i <= |rs|
    ensures forall j | 0 <= j < i :: rs[j].None?
    ensures i < |rs| ==> rs[i].Some?
    decreases |rs|
  {
    if rs == [] then 0
    else if rs[0].Some? then 0
    else
      var i := 1 + FirstLine(rs[1..]);
      assert forall j | 1 <= j < i :: rs[j] == rs[1..][j - 1];
      i
  }

  /** What the inner loop prints for `n` nil responses. */
  function NilTranscript(title: string, n: nat): seq<string> {
    if n == 0 then [] else NilTranscript(title, n - 1) + [PlainPrompt(title), NilReport]
  }

  /** What one pass of the `while !filePass` loop does: whether the loop
      exits, whether the validator accepted, the path it was called with,
      what was printed and how many responses were read. */
  datatype PassOutcome = PassOutcome(done: bool, accepted: bool, lines: seq<string>, printed: seq<string>, used: nat)

  /** One pass over the responses `rs` and verdicts `vs` left: the inner
      `input` reports and skips the nil responses before the first line,
      and the cleaned line goes to the next validator call. The pass ends
      the run on Accepted, or when either script runs out. */
  function OnePass(name: string, title: string, successMessage: bool,
                   rs: seq<Option<string>>, vs: seq<Verdict>): (p: PassOutcome)
    ensures p.used <= |rs|
    ensures !p.done ==> 0 < p.used && vs != [] && !p.accepted
  {
    var i := FirstLine(rs);
    if i == |rs| then PassOutcome(true, false, [], NilTranscript(title, i), i)
    else
      var shown := NilTranscript(title, i) + [PlainPrompt(title)];
      if vs == [] then PassOutcome(true, false, [], shown, i + 1)
      else
        var pass := vs[0] == Accepted;
        PassOutcome(pass, pass, [rs[i].value], shown + AfterCall(name, successMessage, vs[0]), i + 1)
  }

  /** The run of the loop: passes until one ends it. */
  function FileRun(name: string, title: string, successMessage: bool,
                   rs: seq<Option<string>>, vs: seq<Verdict>): (r: FileOutcome)
    ensures |r.lines| <= |vs|
    ensures r.accepted ==> r.lines != []
    decreases |rs|
  {
    var p := OnePass(name, title, successMessage, rs, vs);
    if p.done then FileOutcome(p.accepted, p.lines, p.printed)
    else Prepend(p.lines, p.printed, FileRun(name, title, successMessage, rs[p.used..], vs[1..]))
  }

  // ---------------------------------------------------------------------
  // What the inner `input` does with a path prompt.

  /** With type "string" and no default, `input` accepts every line
      verbatim and reports every nil response. */
  lemma {:induction false} PathStep<D>(title: string, fl: DoubleRules<D>, response: Option<string>)
    ensures Step(PathPrompt<D>(title), fl, response) ==
            (match response case None => NilResponse case Some(line) => Accept(line))
    ensures PromptText(PathPrompt<D>(title)) == PlainPrompt(title)
  {
    assert Lower("string") == "string";
  }

  predicate AllNil(rs: seq<Option<string>>) {
    forall j | 0 <= j < |rs| :: rs[j].None?
  }

  /** The inner `input` rejects exactly the nil responses, each with one
      prompt and one report. */
  lemma {:induction false} PathTranscript<D>(title: string, fl: DoubleRules<D>, rs: seq<Option<string>>)
    ensures NoneAccepted(PathPrompt<D>(title), fl, rs) <==> AllNil(rs)
    ensures AllNil(rs) ==> Transcript(PathPrompt<D>(title), fl, rs) == NilTranscript(title, |rs|)
  {
    var spec := PathPrompt<D>(title);
    forall j | 0 <= j < |rs| ensures Step(spec, fl, rs[j]).Accept? <==> rs[j].Some? {
      PathStep(title, fl, rs[j]);
    }
    if rs == [] {
      assert Outcomes(spec, fl, []) == [];
    } else {
      var init := rs[..|rs| - 1];
      PathTranscript(title, fl, init);
      ReadOneMore(spec, fl, rs, |rs| - 1);
      assert rs[..|rs|] == rs;
      PathStep(title, fl, rs[|rs| - 1]);
      if AllNil(rs) {
        assert AllNil(init) by {
          forall j | 0 <= j < |init| ensures init[j].None? { assert init[j] == rs[j]; }
        }
      }
    }
  }

  /** What the inner `input` returns, told without its outcome function:
      it skipped nil responses only, up to the first line, and its log has
      one prompt and one report per skipped response and a prompt for the
      line it returns. */
  lemma {:induction false} InputOnPathPrompt<D>(title: string, fl: DoubleRules<D>, rs: seq<Option<string>>,
                             line: Option<string>, used: nat, inputLog: seq<string>)
    requires used <= |rs|
    requires line.None? ==> used == |rs| && NoneAccepted(PathPrompt<D>(title), fl, rs)
    requires line.Some? ==>
               0 < used &&
               NoneAccepted(PathPrompt<D>(title), fl, rs[..used - 1]) &&
               Step(PathPrompt<D>(title), fl, rs[used - 1]) == Accept(line.value)
    requires inputLog == Transcript(PathPrompt<D>(title), fl, rs[..used])
    ensures line.None? ==> used == |rs| == FirstLine(rs) && inputLog == NilTranscript(title, |rs|)
    ensures line.Some? ==>
              FirstLine(rs) < |rs| && used == FirstLine(rs) + 1 && rs[used - 1] == line &&
              inputLog == NilTranscript(title, used - 1) + [PlainPrompt(title)]
  {
    if line.None? {
      assert rs[..used] == rs;
      PathTranscript(title, fl, rs);
      FirstLineOf(rs, |rs|);
    } else {
      NilsThenLine(title, fl, rs, used - 1);
    }
  }

  /** The prefix case of `InputOnPathPrompt`. */
  lemma {:induction false} NilsThenLine<D>(title: string, fl: DoubleRules<D>, rs: seq<Option<string>>, k: nat)
    requires k < |rs|
    requires NoneAccepted(PathPrompt<D>(title), fl, rs[..k])
    requires Step(PathPrompt<D>(title), fl, rs[k]).Accept?
    ensures FirstLine(rs) == k && rs[k].Some?
    ensures Transcript(PathPrompt<D>(title), fl, rs[..k + 1]) == NilTranscript(title, k) + [PlainPrompt(title)]
  {
    var spec := PathPrompt<D>(title);
    PathTranscript(title, fl, rs[..k]);
    assert forall j | 0 <= j < k :: rs[j] == rs[..k][j];
    PathStep(title, fl, rs[k]);
    FirstLineOf(rs, k);
    ReadOneMore(spec, fl, rs, k);
  }

  /** `FirstLine` is the only index with its two properties. */
  lemma {:induction false} FirstLineOf(rs: seq<Option<string>>, k: nat)
    requires k <= |rs| && forall j | 0 <= j < k :: rs[j].None?
    requires k < |rs| ==> rs[k].Some?
    ensures FirstLine(rs) == k
  {
  }

  lemma {:induction false} PrependTwice(c: seq<string>, a: seq<string>, d: seq<string>, b: seq<string>, rest: FileOutcome)
    ensures Prepend(c, a, Prepend(d, b, rest)) == Prepend(c + d, a + b, rest)
  {
    assert a + (b + rest.log) == (a + b) + rest.log;
    assert c + (d + rest.lines) == (c + d) + rest.lines;
  }

  lemma {:induction false} PrependNothing(r: FileOutcome)
    ensures Prepend([], [], r) == r
  {
    assert [] + r.lines == r.lines && [] + r.log == r.log;
  }

  // ---------------------------------------------------------------------
  // The loop.

  /** The inner `input(name: title, type: "string")` call: it reads past nil
      responses, reporting each, and returns the first line, if any. */
  method ReadPath<D>(title: string, fl: DoubleRules<D>, rs: seq<Option<string>>)
    returns (line: Option<string>, used: nat, inputLog: seq<string>)
    ensures line.None? ==> used == |rs| == FirstLine(rs) && inputLog == NilTranscript(title, |rs|)
    ensures line.Some? ==>
              FirstLine(rs) < |rs| && used == FirstLine(rs) + 1 && rs[used - 1] == line &&
              inputLog == NilTranscript(title, used - 1) + [PlainPrompt(title)]
  {
    var spec := PathPrompt<D>(title);
    line, used, inputLog := Input(spec, fl, rs);
    assert inputLog == Transcript(spec, fl, rs[..used]) + [];
    InputOnPathPrompt(title, fl, rs, line, used, inputLog);
  }

  /** The `do`/`catch` body after the validator ran: whether the loop
      exits, and what is printed. */
  method Report(name: string, successMessage: bool, verdict: Verdict) returns (pass: bool, printed: seq<string>)
    ensures pass <==> verdict == Accepted
    ensures printed == AfterCall(name, successMessage, verdict)
    ensures verdict.Threw? ==> printed == [ErrorText(verdict.error)]
    ensures !verdict.Threw? ==> |printed| == (if successMessage then 1 else 0)
  {
    pass, printed := false, [];
    if verdict.Threw? {
      printed := printed + [ErrorText(verdict.error)];
    } else {
      pass := verdict == Accepted;
      if successMessage {
        printed := printed + [SuccessText(name)];
      }
    }
  }

  /** One pass of the `while !filePass` loop over the responses `rs` and
      verdicts `vs` left. */
  method Pass<D>(fl: DoubleRules<D>, name: string, title: string, successMessage: bool,
                 rs: seq<Option<string>>, vs: seq<Verdict>)
    returns (done: bool, accepted: bool, paths: seq<string>, printed: seq<string>, used: nat)
    ensures var p := OnePass(name, title, successMessage, rs, vs);
            done == p.done && accepted == p.accepted && paths == Map(CleanPath, p.lines) &&
            printed == p.printed && used == p.used
  {
    var line, inputLog;
    line, used, inputLog := ReadPath(title, fl, rs);
    if line.None? || vs == [] {
      done, accepted, paths, printed := true, false, [], inputLog;
    } else {
      var filePath := CleanPath(line.value);
      var pass, reported := Report(name, successMessage, vs[0]);
      done, accepted, paths, printed := pass, pass, [filePath], inputLog + reported;
      assert paths == Map(CleanPath, [line.value]);
    }
  }

  /** What one pass adds to the run so far. */
  lemma {:induction false} Advance(name: string, title: string, successMessage: bool,
                                   rs: seq<Option<string>>, vs: seq<Verdict>,
                                   seen: seq<string>, log: seq<string>)
    ensures var p := OnePass(name, title, successMessage, rs, vs);
            Prepend(seen, log, FileRun(name, title, successMessage, rs, vs)) ==
            if p.done then FileOutcome(p.accepted, seen + p.lines, log + p.printed)
            else Prepend(seen + p.lines, log + p.printed, FileRun(name, title, successMessage, rs[p.used..], vs[1..]))
  {
    var p := OnePass(name, title, successMessage, rs, vs);
    if p.done {
      PrependTwice(seen, log, p.lines, p.printed, FileOutcome(p.accepted, [], []));
      assert p.lines + [] == p.lines && p.printed + [] == p.printed;
    } else {
      PrependTwice(seen, log, p.lines, p.printed, FileRun(name, title, successMessage, rs[p.used..], vs[1..]));
    }
  }

  /** Prompts with the title, cleans each line, and calls the validator
      until it returns true; a thrown error is reported and the loop goes
      on. Stops early, with `accepted` false, when the responses or the
      verdicts run out. `candidates` are the paths the validator was
      called with, in order. */
  method FileInput<D>(fl: DoubleRules<D>, name: string, message: Option<string>, successMessage: bool,
                      responses: seq<Option<string>>, verdicts: seq<Verdict>)
    returns (accepted: bool, candidates: seq<string>, log: seq<string>)
    ensures var run := FileRun(name, Label(name, message), successMessage, responses, verdicts);
            accepted == run.accepted && candidates == Map(CleanPath, run.lines) && log == run.log
  {
    var title := Label(name, message);
    ghost var whole := FileRun(name, title, successMessage, responses, verdicts);
    ghost var seen: seq<string> := [];
    accepted, candidates, log := false, [], [];
    var done := false;
    var rest, pending := responses, verdicts;
    PrependNothing(whole);
    while !done
      invariant candidates == Map(CleanPath, seen)
      invariant !done ==> whole == Prepend(seen, log, FileRun(name, title, successMessage, rest, pending))
      invariant done ==> whole == FileOutcome(accepted, seen, log)
      decreases |rest|, if done then 0 else 1
    {
      ghost var p := OnePass(name, title, successMessage, rest, pending);
      var paths, printed, used;
      done, accepted, paths, printed, used := Pass(fl, name, title, successMessage, rest, pending);
      Advance(name, title, successMessage, rest, pending, seen, log);
      MapAppend(CleanPath, seen, p.lines);
      seen, candidates, log := seen + p.lines, candidates + paths, log + printed;
      if !done {
        rest, pending := rest[used..], pending[1..];
      }
    }
  }

  // ---------------------------------------------------------------------
  // What a run guarantees.

  /** The non-nil responses, in order. */
  function Lines(rs: seq<Option<string>>): seq<string>
    decreases |rs|
  {
    if rs == [] then []
    else (if rs[0].Some? then [rs[0].value] else []) + Lines(rs[1..])
  }

  /** The lines start at the first non-nil response. */
  lemma {:induction false} LinesFromFirst(rs: seq<Option<string>>)
    ensures FirstLine(rs) == |rs| ==> Lines(rs) == []
    ensures FirstLine(rs) < |rs| ==> Lines(rs) == [rs[FirstLine(rs)].value] + Lines(rs[FirstLine(rs) + 1..])
    decreases |rs|
  {
    if rs == [] {
    } else if rs[0].Some? {
      LineInFront(rs);
    } else {
      var tail := rs[1..];
      LinesFromFirst(tail);
      SkipNil(rs);
      ShiftFirstLine(rs);
    }
  }

  /** A line in front is the first line. */
  lemma {:induction false} LineInFront(rs: seq<Option<string>>)
    requires rs != [] && rs[0].Some?
    ensures FirstLine(rs) == 0
    ensures Lines(rs) == [rs[0].value] + Lines(rs[1..])
  {
  }

  /** Past a nil response in front, the first line of the tail is the
      first line of the whole, one index later. */
  lemma {:induction false} ShiftFirstLine(rs: seq<Option<string>>)
    requires rs != [] && rs[0].None?
    requires FirstLine(rs) == 1 + FirstLine(rs[1..])
    ensures FirstLine(rs) < |rs| ==>
              rs[1..][FirstLine(rs[1..])] == rs[FirstLine(rs)] &&
              rs[1..][FirstLine(rs[1..]) + 1..] == rs[FirstLine(rs) + 1..]
  {
  }

  /** A nil response in front adds no line and moves the first line by one. */
  lemma {:induction false} SkipNil(rs: seq<Option<string>>)
    requires rs != [] && rs[0].None?
    ensures Lines(rs) == Lines(rs[1..])
    ensures FirstLine(rs) == 1 + FirstLine(rs[1..])
  {
    assert Lines(rs) == [] + Lines(rs[1..]);
  }

  /** Every nil response costs one prompt and one nil report. */
  lemma {:induction false} NilTranscriptShape(title: string, n: nat)
    ensures |NilTranscript(title, n)| == 2 * n
    ensures forall k | 0 <= k < n ::
              NilTranscript(title, n)[2 * k] == PlainPrompt(title) && NilTranscript(title, n)[2 * k + 1] == NilReport
  {
    if n > 0 {
      NilTranscriptShape(title, n - 1);
      var head := NilTranscript(title, n - 1);
      assert NilTranscript(title, n) == head + [PlainPrompt(title), NilReport];
      forall k | 0 <= k < n
        ensures NilTranscript(title, n)[2 * k] == PlainPrompt(title) && NilTranscript(title, n)[2 * k + 1] == NilReport
      {
        if k < n - 1 {
          assert NilTranscript(title, n)[2 * k] == head[2 * k] && NilTranscript(title, n)[2 * k + 1] == head[2 * k + 1];
        }
      }
    }
  }

  /** The validator is called with the lines in the order they were
      typed, one verdict per call; a run that is not accepted has used up
      the lines or the verdicts. */
  lemma {:induction false} RunCandidates(name: string, title: string, successMessage: bool,
                                         rs: seq<Option<string>>, vs: seq<Verdict>)
    ensures var r := FileRun(name, title, successMessage, rs, vs);
            |r.lines| <= |Lines(rs)| && |r.lines| <= |vs| &&
            r.lines == Lines(rs)[..|r.lines|] &&
            (!r.accepted ==> |r.lines| == |Lines(rs)| || |r.lines| == |vs|)
    decreases |rs|
  {
    var p := OnePass(name, title, successMessage, rs, vs);
    var i := FirstLine(rs);
    LinesFromFirst(rs);
    if p.done {
      LastPassLines(name, title, successMessage, rs, vs);
    } else {
      var rest := Lines(rs[i + 1..]);
      var more := FileRun(name, title, successMessage, rs[i + 1..], vs[1..]);
      RunCandidates(name, title, successMessage, rs[i + 1..], vs[1..]);
      assert FileRun(name, title, successMessage, rs, vs) == Prepend([rs[i].value], p.printed, more);
      assert ([rs[i].value] + rest)[..|more.lines| + 1] == [rs[i].value] + rest[..|more.lines|];
    }
  }

  /** A pass that ends the run calls the validator with the first line, if
      there is one and a verdict is left; it is not accepted only when the
      lines or the verdicts ran out or this call said so. */
  lemma {:induction false} LastPassLines(name: string, title: string, successMessage: bool,
                                         rs: seq<Option<string>>, vs: seq<Verdict>)
    requires OnePass(name, title, successMessage, rs, vs).done
    ensures var r := FileRun(name, title, successMessage, rs, vs);
            var i := FirstLine(rs);
            r.lines == (if i < |rs| && vs != [] then [rs[i].value] else []) &&
            (!r.accepted && r.lines != [] ==> vs[0] != Accepted) &&
            (r.accepted ==> r.lines != [])
  {
  }

  /** The loop exits at the first Accepted verdict: the last call, and no
      earlier one, was accepted exactly when the run is. */
  lemma {:induction false} RunStopsAtFirstAccept(name: string, title: string, successMessage: bool,
                                                 rs: seq<Option<string>>, vs: seq<Verdict>)
    ensures var r := FileRun(name, title, successMessage, rs, vs);
            var n := |r.lines|;
            n <= |vs| &&
            (r.accepted <==> 0 < n && vs[n - 1] == Accepted) &&
            (forall k | 0 <= k < n - 1 :: vs[k] != Accepted)
    decreases |rs|
  {
    var p := OnePass(name, title, successMessage, rs, vs);
    if p.done {
      LastPass(name, title, successMessage, rs, vs);
    } else {
      var i := FirstLine(rs);
      var more := FileRun(name, title, successMessage, rs[i + 1..], vs[1..]);
      RunStopsAtFirstAccept(name, title, successMessage, rs[i + 1..], vs[1..]);
      assert FileRun(name, title, successMessage, rs, vs) == Prepend(p.lines, p.printed, more) && |p.lines| == 1;
      FirstAcceptShifts(vs, |more.lines|, more.accepted);
    }
  }

  /** A pass that ends the run calls the validator at most once, and the
      run is accepted exactly when that call was. */
  lemma {:induction false} LastPass(name: string, title: string, successMessage: bool,
                                    rs: seq<Option<string>>, vs: seq<Verdict>)
    requires OnePass(name, title, successMessage, rs, vs).done
    ensures var r := FileRun(name, title, successMessage, rs, vs);
            |r.lines| <= 1 && |r.lines| <= |vs| &&
            (r.accepted <==> |r.lines| == 1 && vs[0] == Accepted)
  {
  }

  /** One more non-accepted verdict in front keeps the first Accepted
      verdict, if any, last. */
  lemma {:induction false} FirstAcceptShifts(vs: seq<Verdict>, n: nat, accepted: bool)
    requires vs != [] && vs[0] != Accepted
    requires n <= |vs| - 1
    requires accepted <==> 0 < n && vs[1..][n - 1] == Accepted
    requires forall k | 0 <= k < n - 1 :: vs[1..][k] != Accepted
    ensures n + 1 <= |vs|
    ensures accepted <==> vs[n] == Accepted
    ensures forall k | 0 <= k < n :: vs[k] != Accepted
  {
    if 0 < n {
      assert vs[n] == vs[1..][n - 1];
    }
    forall k | 0 <= k < n ensures vs[k] != Accepted {
      if 0 < k { assert vs[k] == vs[1..][k - 1]; }
    }
  }

  /** With `successMessage`, an accepted run ends by announcing the import. */
  lemma {:induction false} AcceptedRunAnnounces(name: string, title: string, successMessage: bool,
                                                rs: seq<Option<string>>, vs: seq<Verdict>)
    requires successMessage
    ensures var r := FileRun(name, title, successMessage, rs, vs);
            r.accepted ==> r.log != [] && r.log[|r.log| - 1] == SuccessText(name)
    decreases |rs|
  {
    var p := OnePass(name, title, successMessage, rs, vs);
    if !p.done {
      var i := FirstLine(rs);
      var more := FileRun(name, title, successMessage, rs[i + 1..], vs[1..]);
      AcceptedRunAnnounces(name, title, successMessage, rs[i + 1..], vs[1..]);
      var log := p.printed + more.log;
      if more.accepted {
        assert log[|log| - 1] == more.log[|more.log| - 1];
      }
    }
  }

  /** With `successMessage`, a validator call that returns false is still
      followed by the success message, and the loop goes on; a call that
      throws is followed by the error report alone. */
  lemma {:induction false} SuccessMessageAfterEveryReturn(name: string, title: string, successMessage: bool,
                                                          rs: seq<Option<string>>, vs: seq<Verdict>)
    requires FirstLine(rs) < |rs| && vs != []
    ensures var p := OnePass(name, title, successMessage, rs, vs);
            p.printed != [] &&
            (vs[0].Threw? ==> !p.done && p.printed[|p.printed| - 1] == ErrorText(vs[0].error)) &&
            (vs[0] == Rejected ==>
               !p.done &&
               p.printed[|p.printed| - 1] == (if successMessage then SuccessText(name) else PlainPrompt(title))) &&
            (vs[0] == Accepted ==> p.done && p.accepted)
  {
  }

  /** The first thing printed, once there is a response, is the prompt
      with the label. */
  lemma {:induction false} RunStartsWithPrompt(name: string, title: string, successMessage: bool,
                                               rs: seq<Option<string>>, vs: seq<Verdict>)
    requires rs != []
    ensures var r := FileRun(name, title, successMessage, rs, vs);
            r.log != [] && r.log[0] == PlainPrompt(title)
  {
    var p := OnePass(name, title, successMessage, rs, vs);
    var i := FirstLine(rs);
    var nils := NilTranscript(title, i);
    NilTranscriptShape(title, i);
    if 0 < i {
      assert nils[2 * 0] == PlainPrompt(title);
    }
    if i == |rs| {
      assert p.printed == nils;
    } else {
      var shown := nils + [PlainPrompt(title)];
      assert shown[0] == PlainPrompt(title);
      assert p.printed[0] == shown[0];
    }
    if !p.done {
      var more := FileRun(name, title, successMessage, rs[i + 1..], vs[1..]);
      assert (p.printed + more.log)[0] == p.printed[0];
    }
  }

  /** Trimming happens before backslashes are removed, so an escaped
      leading blank survives into the path: "\\ c" becomes " c". */
  lemma {:induction false} CleanPathKeepsEscapedBlank(c: char)
    requires !IsBlank(c) && c != '\\'
    ensures CleanPath(['\\', ' ', c]) == [' ', c]
  {
    var s := ['\\', ' ', c];
    TrimKeeps(s);
    RemoveBackslashesCons('\\', [' ', c]);
    assert s == ['\\'] + [' ', c];
  }

  /** A backslash-escaped blank inside a path becomes a plain blank:
      "a\\ b" becomes "a b". */
  lemma {:induction false} CleanPathUnescapes(a: char, b: char)
    requires !IsBlank(a) && a != '\\' && !IsBlank(b) && b != '\\'
    ensures CleanPath([a, '\\', ' ', b]) == [a, ' ', b]
  {
    var s := [a, '\\', ' ', b];
    TrimKeeps(s);
    UnescapeBlank(a, b);
  }

  /** The backslash removal half of `CleanPathUnescapes`. */
  lemma {:induction false} UnescapeBlank(a: char, b: char)
    requires a != '\\' && b != '\\'
    ensures RemoveBackslashes([a, '\\', ' ', b]) == [a, ' ', b]
  {
    var tail := [' ', b];
    var escaped := ['\\'] + tail;
    var s := [a] + escaped;
    assert s == [a, '\\', ' ', b];
    RemoveBackslashesCons('\\', tail);
    assert RemoveBackslashes(escaped) == tail;
    RemoveBackslashesCons(a, escaped);
    assert RemoveBackslashes(s) == [a] + tail;
  }
}
