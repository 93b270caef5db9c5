/** The re-prompt loops of the controllers. Controllers/general_controller.py holds the
    generic one, `_ask_and_check_field`: ask, and on an empty answer warn and ask again.
    The controllers repeat the same loop shape for a non-empty text field, a multiple
    choice and a date; each shape is defined once here and used by both controllers. */
module GeneralController {
  import opened Exceptions
  import opened Text
  import opened Validators
  import opened Dates
  import opened View

  /** What ends a re-prompt loop: a non-empty answer, a dd/mm/yyyy date, or an answer
      that some key of the choices contains. */
  datatype Gate = NonEmptyAnswer | CalendarDate | SomeKey(choices: seq<Choice>)

  predicate Passes(gate: Gate, answer: string)
  {
    match gate
    case NonEmptyAnswer => answer != ""
    case CalendarDate => ValidDate(answer)
    case SomeKey(choices) => SomeKeyContains(answer, choices)
  }

  /** The position of the first answer that passes the gate; |answers| if none does. */
  function FirstAccepted(answers: seq<string>, gate: Gate): (k: nat)
    ensures k <= |answers|
    ensures k < |answers| ==> Passes(gate, answers[k])
    ensures forall i :: 0 <= i < k ==> !Passes(gate, answers[i])
    decreases |answers|
  {
    if answers == [] then 0
    else if Passes(gate, answers[0]) then 0
    else 1 + FirstAccepted(answers[1..], gate)
  }

  /** What a re-prompt loop settles on: the first answer that passes the gate, and the
      answers left after it; None when no answer passes. */
  function Settle(answers: seq<string>, gate: Gate): (r: Option<(string, seq<string>)>)
    ensures r.None? <==> forall i :: 0 <= i < |answers| ==> !Passes(gate, answers[i])
    ensures r.Some? ==>
      && Passes(gate, r.value.0) && |r.value.1| < |answers| && Consumed(answers, r.value.1)
      && answers[|answers| - |r.value.1| - 1] == r.value.0
  {
    var k := FirstAccepted(answers, gate);
    if k < |answers| then Some((answers[k], answers[k + 1..])) else None
  }

  /** The gates of a run of re-prompt loops, one loop after the other. */
  datatype Prompts = End | Ask(gate: Gate, next: Prompts)
  {
    function Length(): nat
    {
      match this
      case End => 0
      case Ask(_, next) => 1 + next.Length()
    }
  }

  /** What a run of re-prompt loops settles on: the answer each loop accepts, and the
      answers left after the last loop; None when the answers run out before the last
      loop settles. */
  ghost function SettleEach(answers: seq<string>, prompts: Prompts): (r: Option<(seq<string>, seq<string>)>)
    ensures r.Some? ==>
      && |r.value.0| == prompts.Length() && |r.value.1| + prompts.Length() <= |answers|
      && Consumed(answers, r.value.1)
  {
    match prompts
    case End => Some(([], answers))
    case Ask(gate, next) =>
      var first := Settle(answers, gate);
      if first.None? then None
      else
        var more := SettleEach(first.value.1, next);
        if more.None? then None
        else
          ConsumedTrans(answers, first.value.1, more.value.1);
          Some(([first.value.0] + more.value.0, more.value.1))
  }

  /** Once the first loop of a run has settled, the rest of the run decides: None if it
      runs out, otherwise the first answer in front of what the rest settles on. */
  lemma SettleEachStep(answers: seq<string>, prompts: Prompts, first: string, rest: seq<string>)
    requires prompts.Ask? && Settle(answers, prompts.gate) == Some((first, rest))
    ensures var more := SettleEach(rest, prompts.next);
      SettleEach(answers, prompts) == if more.None? then None else Some(([first] + more.value.0, more.value.1))
  {
  }

  /** A run whose first loop runs out of answers settles on nothing. */
  lemma SettleEachStops(answers: seq<string>, prompts: Prompts)
    requires prompts.Ask? && Settle(answers, prompts.gate) == None
    ensures SettleEach(answers, prompts) == None
  {
  }

  /** n copies of the same warning. */
  function Warnings(w: Warning, n: nat): (r: seq<Message>)
    ensures |r| == n && forall i :: 0 <= i < n ==> r[i] == Warn(w)
  {
    seq(n, _ => Warn(w))
  }

  /** `_ask_and_check_field`: the first non-empty answer, after one warning per empty
      answer before it. When only empty answers remain the source loops until input ends. */
  method AskAndCheckField(view: ConsoleView, warning: Warning) returns (r: Result<string>)
    modifies view
    ensures var answers, k := old(view.script), FirstAccepted(old(view.script), NonEmptyAnswer);
      && view.log == old(view.log) + Warnings(warning, k)
      && (k < |answers| ==> r == Ok(answers[k]) && view.script == answers[k + 1..])
      && (k == |answers| ==> r == Err(EOFError) && view.script == [])
    ensures r.Ok? ==> r.value != ""
  {
    r := AskUntil(view, NonEmptyAnswer, warning);
  }

  /** The re-prompt loop of `_ask_and_check_field` and of the date prompts: ask, return
      the first answer the gate lets through, and show the warning after every other
      answer; EOFError when the answers run out. */
  method AskUntil(view: ConsoleView, gate: Gate, warning: Warning) returns (r: Result<string>)
    modifies view
    ensures var answers, k := old(view.script), FirstAccepted(old(view.script), gate);
      && view.log == old(view.log) + Warnings(warning, k)
      && (k < |answers| ==> r == Ok(answers[k]) && view.script == answers[k + 1..])
      && (k == |answers| ==> r == Err(EOFError) && view.script == [])
  {
    ghost var answers := view.script;
    ghost var k := FirstAccepted(answers, gate);
    ghost var n := 0;
    while true
      invariant n <= k && view.script == answers[n..]
      invariant view.log == old(view.log) + Warnings(warning, n)
      decreases |view.script|
    {
      var answer := view.Ask();
      if answer.Err? {
        return Err(EOFError);
      }
      assert answer.value == answers[n];
      if Passes(gate, answer.value) {
        assert n == k;
        return answer;
      }
      assert !Passes(gate, answers[n]);
      view.ShowWarning(warning);
      assert Warnings(warning, n) + [Warn(warning)] == Warnings(warning, n + 1);
      n := n + 1;
    }
  }

  /** The multiple-choice loop (`_create_or_update_player`, `_get_gender`,
      `_get_answer_in_multi_choices`): answers that no key contains are warned about and
      asked again; the first other answer decides, either with a value or with the
      ValueError or IndexError that `check_multiple_choice` lets escape. */
  method AskMultipleChoice(view: ConsoleView, choices: seq<Choice>) returns (r: Result<string>)
    modifies view
    ensures var answers, k := old(view.script), FirstAccepted(old(view.script), SomeKey(choices));
      && view.log == old(view.log) + Warnings(InvalidChoice, k)
      && (k < |answers| ==>
            r == CheckMultipleChoice(answers[k], choices) && view.script == answers[k + 1..]
            && view.lastAnswer == Some(answers[k]))
      && (k == |answers| ==> r == Err(EOFError) && view.script == [])
  {
    ghost var answers := view.script;
    ghost var k := FirstAccepted(answers, SomeKey(choices));
    ghost var n := 0;
    while true
      invariant n <= k && view.script == answers[n..]
      invariant view.log == old(view.log) + Warnings(InvalidChoice, n)
      decreases |view.script|
    {
      var answer := view.Ask();
      if answer.Err? {
        return Err(EOFError);
      }
      var checked := CheckMultipleChoice(answer.value, choices);
      if checked != Err(NotValidChoiceError) {
        assert answer.value == answers[n] && Passes(SomeKey(choices), answers[n]);
        assert n == k;
        return checked;
      }
      assert answer.value == answers[n] && !Passes(SomeKey(choices), answers[n]);
      view.ShowWarning(InvalidChoice);
      n := n + 1;
    }
  }

  /** The date loop (`_birth_date`, `_get_valid_date`): the first answer `strptime`
      accepts, after one warning per answer it refuses. */
  method AskValidDate(view: ConsoleView) returns (r: Result<string>)
    modifies view
    ensures var answers, k := old(view.script), FirstAccepted(old(view.script), CalendarDate);
      && view.log == old(view.log) + Warnings(BadDateFormat, k)
      && (k < |answers| ==> r == Ok(answers[k]) && view.script == answers[k + 1..])
      && (k == |answers| ==> r == Err(EOFError) && view.script == [])
    ensures r.Ok? ==> ValidDate(r.value)
  {
    r := AskUntil(view, CalendarDate, BadDateFormat);
  }

  /** `view.confirm(message).lower() == "n"`: whether the operator declines. Exactly the
      answers "n" and "N" decline; anything else, the empty answer included, accepts. */
  method Declines(view: ConsoleView) returns (r: Result<bool>)
    modifies view`script, view`lastAnswer
    ensures old(view.script) == [] ==> r == Err(EOFError) && view.script == []
    ensures old(view.script) != [] ==>
      && r == Ok(old(view.script)[0] == "n" || old(view.script)[0] == "N")
      && view.script == old(view.script)[1..] && view.lastAnswer == Some(old(view.script)[0])
  {
    var answer := view.Ask();
    if answer.Err? {
      return Err(EOFError);
    }
    LowerIsNo(answer.value);
    return Ok(Lower(answer.value) == "n");
  }
}
