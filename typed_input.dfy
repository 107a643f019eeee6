/**
 * `input(name:type:defaultValue:intRange:doubleRange:printAfterSec:)`:
 * prompt for one typed value, re-prompting until a line is accepted.
 *
 * The console is a finite sequence of responses (`None` is `readLine()`
 * returning nil) and a log with one entry per `print` call. `defaultValue`
 * is carried as its `String(describing:)` text. Floating point is not
 * interpreted: `Double(String)`, `String(describing:)` of a Double and the
 * `<=` that `ClosedRange<Double>.contains` uses are the fields of a
 * `DoubleRules` value.
 */
module TypedInput {
  import opened Wrappers
  import opened SwiftText
  import opened SwiftInt

  /** Swift's `lower...upper`; `contains` checks both bounds inclusively. */
  datatype ClosedRange<T> = ClosedRange(lower: T, upper: T)

  /** The platform's Double operations, left uninterpreted. */
  datatype DoubleRules<!D> = DoubleRules(
    parse: string -> Option<D>,
    describe: D -> string,
    lessOrEqual: (D, D) -> bool)

  predicate IntRangeContains(range: ClosedRange<int>, v: int) {
    range.lower <= v <= range.upper
  }

  predicate DoubleRangeContains<D>(fl: DoubleRules<D>, range: ClosedRange<D>, d: D) {
    fl.lessOrEqual(range.lower, d) && fl.lessOrEqual(d, range.upper)
  }

  /** What `type.lowercased()` selects in the `switch`; any other text is
      `OtherCode`, which the `default:` branch treats like "string". */
  datatype TypeCode = StringCode | IntCode | DoubleCode | OtherCode

  function Classify(typeName: string): (code: TypeCode) {
    var lowered := Lower(typeName);
    if lowered == "string" then StringCode
    else if lowered == "int" then IntCode
    else if lowered == "double" then DoubleCode
    else OtherCode
  }

  /** The `switch` picks a branch exactly when the type name spells that
      branch's word in any mix of upper and lower case. */
  lemma {:induction false} ClassifySpelling(typeName: string)
    ensures Classify(typeName) == StringCode <==> SameIgnoringCase(typeName, "string")
    ensures Classify(typeName) == IntCode <==> SameIgnoringCase(typeName, "int")
    ensures Classify(typeName) == DoubleCode <==> SameIgnoringCase(typeName, "double")
  {
    assert IsLowerWord("string") && IsLowerWord("int") && IsLowerWord("double");
    LowerIsWord(typeName, "string");
    LowerIsWord(typeName, "int");
    LowerIsWord(typeName, "double");
  }

  /** The arguments of one call of `input`. */
  datatype PromptSpec<D> = PromptSpec(
    name: string,
    typeName: string,
    defaultText: Option<string>,
    intRange: Option<ClosedRange<int>>,
    doubleRange: Option<ClosedRange<D>>,
    printAfterSec: bool)

  /** The `Any?` held by `inputConverted`. */
  datatype Converted<D> = Text(s: string) | Integer(v: int) | Floating(d: D)

  /** `String(describing:)` of a converted value. */
  function Describe<D>(fl: DoubleRules<D>, c: Converted<D>): string {
    match c
    case Text(s) => s
    case Integer(v) => RenderInt(v)
    case Floating(d) => fl.describe(d)
  }

  /** The `switch typeCode` conversion of a response line. */
  function Convert<D>(code: TypeCode, fl: DoubleRules<D>, r: string): (o: Option<Converted<D>>)
    ensures code == IntCode ==>
              (o.Some? <==> ParseInt(r).Some?) && (o.Some? ==> ParseInt(Describe(fl, o.value)) == ParseInt(r))
    ensures code == DoubleCode ==>
              (o.Some? <==> fl.parse(r).Some?) && (o.Some? ==> Describe(fl, o.value) == fl.describe(fl.parse(r).value))
    ensures code != IntCode && code != DoubleCode ==> o.Some? && Describe(fl, o.value) == r
  {
    match code
    case IntCode => (match ParseInt(r) case None => None case Some(v) => RenderIntRoundTrip(v); Some(Integer(v)))
    case DoubleCode => (match fl.parse(r) case None => None case Some(d) => Some(Floating(d)))
    case _ => Some(Text(r))
  }

  /** What one pass of the loop body does with one response. */
  datatype LineOutcome = Accept(text: string) | NilResponse | WrongFormat | OutOfRange

  /** The default is used when one exists and the line trims to nothing. */
  predicate DefaultApplies<D>(spec: PromptSpec<D>, r: string) {
    spec.defaultText.Some? && Trim(r) == []
  }

  /** One pass of the `while !pass` body, from `readLine()` to the decision. */
  function Step<D>(spec: PromptSpec<D>, fl: DoubleRules<D>, response: Option<string>): (o: LineOutcome)
    ensures response.None? <==> o == NilResponse
    ensures response.Some? && spec.defaultText.Some? && AllBlank(response.value) ==>
              o == Accept(spec.defaultText.value)
    ensures response.Some? && !DefaultApplies(spec, response.value) &&
            (Classify(spec.typeName) == StringCode || Classify(spec.typeName) == OtherCode) ==>
              o == Accept(response.value)
  {
    match response
    case None => NilResponse
    case Some(r) =>
      if DefaultApplies(spec, r) then Accept(spec.defaultText.value)
      else
        var code := Classify(spec.typeName);
        match Convert(code, fl, r)
        case None => WrongFormat
        case Some(c) =>
          var shown := Describe(fl, c);
          if spec.doubleRange.Some? && code == DoubleCode then
            match fl.parse(shown)
            case None => OutOfRange
            case Some(d) => if DoubleRangeContains(fl, spec.doubleRange.value, d) then Accept(shown) else OutOfRange
          else if spec.intRange.Some? && code == IntCode then
            match ParseInt(shown)
            case None => OutOfRange
            case Some(v) => if IntRangeContains(spec.intRange.value, v) then Accept(shown) else OutOfRange
          else Accept(shown)
  }

  /** For type "int" a line is accepted exactly when `Int(line)` parses it
      and the value lies in the range, if one is given; the result is the
      canonical rendering of that value, and `doubleRange` plays no part. */
  lemma {:induction false} IntStep<D>(spec: PromptSpec<D>, fl: DoubleRules<D>, r: string)
    requires Classify(spec.typeName) == IntCode && !DefaultApplies(spec, r)
    ensures Step(spec, fl, Some(r)) ==
      match ParseInt(r)
      case None => WrongFormat
      case Some(v) =>
        if spec.intRange.Some? && !IntRangeContains(spec.intRange.value, v) then OutOfRange
        else Accept(RenderInt(v))
  {
    if ParseInt(r).Some? {
      RenderIntRoundTrip(ParseInt(r).value);
    }
  }

  /** What an accepted, non-default "int" answer guarantees its caller:
      it re-parses to the same Int as the line typed, is in canonical form,
      and lies in `intRange` with both bounds included. */
  lemma {:induction false} IntAcceptedIsValid<D>(spec: PromptSpec<D>, fl: DoubleRules<D>, r: string, s: string)
    requires Classify(spec.typeName) == IntCode && !DefaultApplies(spec, r)
    requires Step(spec, fl, Some(r)) == Accept(s)
    ensures ParseInt(r).Some? && ParseInt(s) == ParseInt(r)
    ensures IsCanonical(s)
    ensures spec.intRange.Some? ==> IntRangeContains(spec.intRange.value, ParseInt(s).value)
  {
    IntStep(spec, fl, r);
    RenderIntRoundTrip(ParseInt(r).value);
  }

  /** `Int(line)` is applied to the untrimmed line, so a number with a blank
      around it is a format error. */
  lemma {:induction false} PaddedIntIsWrongFormat<D>(spec: PromptSpec<D>, fl: DoubleRules<D>, r: string)
    requires Classify(spec.typeName) == IntCode && !DefaultApplies(spec, r)
    requires exists i | 0 <= i < |r| :: IsBlank(r[i])
    ensures Step(spec, fl, Some(r)) == WrongFormat
  {
    IntStep(spec, fl, r);
    var i :| 0 <= i < |r| && IsBlank(r[i]);
    BlankIsNotNumeric(r[i]);
    if ParseInt(r).Some? {
      ParsedShape(r);
    }
  }

  /** For type "double" an accepted, non-default answer is the description
      of the parsed line; with a `doubleRange` its re-parse lies in the range.
      `intRange` plays no part. */
  lemma {:induction false} DoubleAcceptedIsValid<D>(spec: PromptSpec<D>, fl: DoubleRules<D>, r: string, s: string)
    requires Classify(spec.typeName) == DoubleCode && !DefaultApplies(spec, r)
    requires Step(spec, fl, Some(r)) == Accept(s)
    ensures fl.parse(r).Some? && s == fl.describe(fl.parse(r).value)
    ensures spec.doubleRange.Some? ==>
              fl.parse(s).Some? && DoubleRangeContains(fl, spec.doubleRange.value, fl.parse(s).value)
    ensures Step(spec.(intRange := None), fl, Some(r)) == Accept(s)
  {
  }

  /** For type "double" a line is a format error exactly when `Double(line)`
      fails; otherwise its description is accepted when there is no
      `doubleRange`, or when that description parses back to a value the
      range contains, both bounds included, and is out of range otherwise. */
  lemma {:induction false} DoubleStep<D>(spec: PromptSpec<D>, fl: DoubleRules<D>, r: string)
    requires Classify(spec.typeName) == DoubleCode && !DefaultApplies(spec, r)
    ensures Step(spec, fl, Some(r)) ==
      match fl.parse(r)
      case None => WrongFormat
      case Some(d) =>
        if spec.doubleRange.None? then Accept(fl.describe(d))
        else match fl.parse(fl.describe(d))
          case None => OutOfRange
          case Some(e) =>
            if DoubleRangeContains(fl, spec.doubleRange.value, e) then Accept(fl.describe(d)) else OutOfRange
  {
  }

  /** `intRange` is consulted only for type "int" and `doubleRange` only
      for type "double": dropping the other one never changes the outcome. */
  lemma {:induction false} RangeOnlyForItsType<D>(spec: PromptSpec<D>, fl: DoubleRules<D>, response: Option<string>)
    ensures Classify(spec.typeName) != IntCode ==>
              Step(spec.(intRange := None), fl, response) == Step(spec, fl, response)
    ensures Classify(spec.typeName) != DoubleCode ==>
              Step(spec.(doubleRange := None), fl, response) == Step(spec, fl, response)
  {
  }

  lemma {:induction false} TypeCodeExamples()
    ensures Classify("INT") == IntCode && Classify("Int") == IntCode
    ensures Classify("Double") == DoubleCode && Classify("STRING") == StringCode
    ensures Classify("text") == OtherCode
  {
    assert Lower("INT") == "int";
    assert Lower("Int") == "int";
    assert Lower("Double") == "double";
    assert Lower("STRING") == "string";
    assert Lower("text") == "text";
  }

  lemma {:induction false} ClassifyInt()
    ensures Classify("int") == IntCode
  {
    assert Lower("int") == "int";
  }

  /** A "count" prompt: type "int", default 10, range 1...100. */
  function CountSpec<D>(): PromptSpec<D> {
    PromptSpec("count", "int", Some("10"), Some(ClosedRange(1, 100)), None, false)
  }

  /** On the "count" prompt an empty line gives the default. */
  lemma {:induction false} CountDefault<D>(fl: DoubleRules<D>)
    ensures Step(CountSpec<D>(), fl, Some("")) == Accept("10")
  {
  }

  /** "abc" is not an Int. */
  lemma {:induction false} CountWrongFormat<D>(fl: DoubleRules<D>)
    ensures Step(CountSpec<D>(), fl, Some("abc")) == WrongFormat
  {
    ClassifyInt();
    assert !IsBlank("abc"[0]);
    IntStep(CountSpec<D>(), fl, "abc");
    assert !IsDigit("abc"[0]);
  }

  /** "200" and "-5" parse but lie outside 1...100. */
  lemma {:induction false} CountOutOfRange<D>(fl: DoubleRules<D>)
    ensures Step(CountSpec<D>(), fl, Some("200")) == OutOfRange
    ensures Step(CountSpec<D>(), fl, Some("-5")) == OutOfRange
  {
    ClassifyInt();
    assert !IsBlank("200"[0]) && !IsBlank("-5"[0]);
    IntStep(CountSpec<D>(), fl, "200");
    IntStep(CountSpec<D>(), fl, "-5");
    Parse200();
    ParseMinus5();
  }

  /** "+042" is accepted and comes back as "42". */
  lemma {:induction false} CountCanonical<D>(fl: DoubleRules<D>)
    ensures Step(CountSpec<D>(), fl, Some("+042")) == Accept("42")
  {
    var spec := CountSpec<D>();
    ClassifyInt();
    assert !DefaultApplies(spec, "+042") by { assert !IsBlank("+042"[0]); }
    IntStep(spec, fl, "+042");
    ParsePlusLeadingZero();
    Render42();
  }

  // ---------------------------------------------------------------------
  // The messages the loop prints.

  /** The prompt names the value, and shows the default exactly when there
      is one. */
  function PromptText<D>(spec: PromptSpec<D>): (text: string)
    ensures var head := "Please enter " + spec.name;
            |head| <= |text| && text[..|head|] == head &&
            text[|head|..] == (match spec.defaultText case None => ": " case Some(d) => " [" + d + " by default]: ")
  {
    match spec.defaultText
    case None => PlainPrompt(spec.name)
    case Some(d) => "Please enter " + spec.name + " [" + d + " by default]: "
  }

  /** The prompt of a value without a default. */
  function PlainPrompt(name: string): string {
    "Please enter " + name + ": "
  }

  /** What a nil `readLine()` prints. */
  const NilReport: string := "Error: got nil response."

  function FailureText(o: LineOutcome): string
    requires !o.Accept?
  {
    match o
    case NilResponse => NilReport
    case WrongFormat => "Wrong format. Please try again."
    case OutOfRange => "Out of range. Please try again."
  }

  function Messages(o: LineOutcome): seq<string> {
    if o.Accept? then [] else [FailureText(o)]
  }

  function EchoText(name: string, value: string): string {
    name + " is set as " + value + "."
  }

  /** The outcome of each response in turn. */
  function Outcomes<D>(spec: PromptSpec<D>, fl: DoubleRules<D>, rs: seq<Option<string>>): seq<LineOutcome> {
    seq(|rs|, j requires 0 <= j < |rs| => Step(spec, fl, rs[j]))
  }

  /** What the loop prints for a run of outcomes: per pass, the prompt and
      then the failure message, if any. */
  function LogOf(prompt: string, os: seq<LineOutcome>): seq<string>
    decreases |os|
  {
    if os == [] then [] else LogOf(prompt, os[..|os| - 1]) + [prompt] + Messages(os[|os| - 1])
  }

  /** What the loop prints while it reads `rs`, one pass per response. */
  function Transcript<D>(spec: PromptSpec<D>, fl: DoubleRules<D>, rs: seq<Option<string>>): seq<string> {
    LogOf(PromptText(spec), Outcomes(spec, fl, rs))
  }

  predicate NoneAccepted<D>(spec: PromptSpec<D>, fl: DoubleRules<D>, rs: seq<Option<string>>) {
    forall j | 0 <= j < |rs| :: !Step(spec, fl, rs[j]).Accept?
  }

  predicate AllRejected(os: seq<LineOutcome>) {
    forall j | 0 <= j < |os| :: !os[j].Accept?
  }

  /** A run of failures prints two entries per pass. */
  lemma {:induction false} LogOfRejectionsLength(prompt: string, os: seq<LineOutcome>)
    requires AllRejected(os)
    ensures |LogOf(prompt, os)| == 2 * |os|
  {
    if os != [] {
      var init := os[..|os| - 1];
      assert AllRejected(init) by {
        forall i | 0 <= i < |init| ensures !init[i].Accept? { assert init[i] == os[i]; }
      }
      LogOfRejectionsLength(prompt, init);
      assert !os[|os| - 1].Accept?;
    }
  }

  /** The `j`-th of a run of failures accounts for entries `2j` and `2j + 1`. */
  lemma {:induction false} LogOfRejectionsAt(prompt: string, os: seq<LineOutcome>, j: nat)
    requires AllRejected(os) && j < |os|
    ensures |LogOf(prompt, os)| == 2 * |os|
    ensures LogOf(prompt, os)[2 * j] == prompt
    ensures LogOf(prompt, os)[2 * j + 1] == FailureText(os[j])
  {
    var init := os[..|os| - 1];
    var last := os[|os| - 1];
    assert AllRejected(init) by {
      forall i | 0 <= i < |init| ensures !init[i].Accept? { assert init[i] == os[i]; }
    }
    assert !last.Accept?;
    LogOfRejectionsLength(prompt, init);
    var head := LogOf(prompt, init);
    assert LogOf(prompt, os) == head + [prompt] + [FailureText(last)];
    AppendTwo(head, prompt, FailureText(last));
    if j < |init| {
      LogOfRejectionsAt(prompt, init, j);
      assert init[j] == os[j];
      assert LogOf(prompt, os)[2 * j + 1] == head[2 * j + 1];
    } else {
      assert 2 * j + 1 == |head| + 1 && os[j] == last;
    }
  }

  lemma {:induction false} AppendTwo<T>(h: seq<T>, x: T, y: T)
    ensures |h + [x] + [y]| == |h| + 2
    ensures (h + [x] + [y])[|h|] == x && (h + [x] + [y])[|h| + 1] == y
    ensures forall k | 0 <= k < |h| :: (h + [x] + [y])[k] == h[k]
  {
  }

  /** Every rejected response costs exactly one prompt and one failure
      message, in order. */
  lemma {:induction false} TranscriptOfRejections<D>(spec: PromptSpec<D>, fl: DoubleRules<D>, rs: seq<Option<string>>)
    requires NoneAccepted(spec, fl, rs)
    ensures |Transcript(spec, fl, rs)| == 2 * |rs|
    ensures forall j | 0 <= j < |rs| ::
              Transcript(spec, fl, rs)[2 * j] == PromptText(spec) &&
              Transcript(spec, fl, rs)[2 * j + 1] == FailureText(Step(spec, fl, rs[j]))
  {
    var os := Outcomes(spec, fl, rs);
    assert AllRejected(os);
    if rs != [] {
      LogOfRejectionsAt(PromptText(spec), os, 0);
    }
    forall j | 0 <= j < |rs|
      ensures Transcript(spec, fl, rs)[2 * j] == PromptText(spec)
      ensures Transcript(spec, fl, rs)[2 * j + 1] == FailureText(Step(spec, fl, rs[j]))
    {
      LogOfRejectionsAt(PromptText(spec), os, j);
    }
  }

  // ---------------------------------------------------------------------
  // The loop.

  lemma {:induction false} ReadOneMore<D>(spec: PromptSpec<D>, fl: DoubleRules<D>, rs: seq<Option<string>>, k: nat)
    requires k < |rs|
    ensures Transcript(spec, fl, rs[..k + 1]) ==
            Transcript(spec, fl, rs[..k]) + [PromptText(spec)] + Messages(Step(spec, fl, rs[k]))
    ensures NoneAccepted(spec, fl, rs[..k]) && !Step(spec, fl, rs[k]).Accept? ==>
              NoneAccepted(spec, fl, rs[..k + 1])
  {
    var read := rs[..k + 1];
    assert read[..k] == rs[..k];
    var os := Outcomes(spec, fl, read);
    assert os[..k] == Outcomes(spec, fl, rs[..k]);
    assert os[k] == Step(spec, fl, rs[k]);
    if NoneAccepted(spec, fl, rs[..k]) && !Step(spec, fl, rs[k]).Accept? {
      forall j | 0 <= j < k + 1 ensures !Step(spec, fl, read[j]).Accept? {
        if j < k { assert read[j] == rs[..k][j]; }
      }
    }
  }

  /** Reads responses until one is accepted and returns its text, or
      `None` once the responses run out. `consumed` responses were read;
      the last of them was the accepted one. */
  method Input<D>(spec: PromptSpec<D>, fl: DoubleRules<D>, responses: seq<Option<string>>)
    returns (result: Option<string>, consumed: nat, log: seq<string>)
    ensures consumed <= |responses|
    ensures result.None? ==> consumed == |responses| && NoneAccepted(spec, fl, responses)
    ensures result.Some? ==>
              0 < consumed &&
              NoneAccepted(spec, fl, responses[..consumed - 1]) &&
              Step(spec, fl, responses[consumed - 1]) == Accept(result.value)
    ensures log == Transcript(spec, fl, responses[..consumed]) +
                   (if result.Some? && spec.printAfterSec then [EchoText(spec.name, result.value)] else [])
  {
    result, consumed, log := None, 0, [];
    assert responses[..0] == [];
    while result.None? && consumed < |responses|
      invariant consumed <= |responses|
      invariant result.None? ==> NoneAccepted(spec, fl, responses[..consumed])
      invariant result.Some? ==>
                  0 < consumed &&
                  NoneAccepted(spec, fl, responses[..consumed - 1]) &&
                  Step(spec, fl, responses[consumed - 1]) == Accept(result.value)
      invariant log == Transcript(spec, fl, responses[..consumed])
      decreases |responses| - consumed
    {
      var response := responses[consumed];
      var outcome := Step(spec, fl, response);
      log := log + [PromptText(spec)] + Messages(outcome);
      ReadOneMore(spec, fl, responses, consumed);
      consumed := consumed + 1;
      if outcome.Accept? {
        result := Some(outcome.text);
      }
    }
    if result.None? {
      assert responses[..consumed] == responses;
    }
    if result.Some? && spec.printAfterSec {
      log := log + [EchoText(spec.name, result.value)];
    }
  }
}
