/** The console view the controllers talk to, reduced to what decides their behaviour:
    the answers the operator will type, in order, and the log of information and warning
    messages shown so far. Every prompt (a free-text field, a multiple-choice field, the
    menus, a confirmation) reads the next answer; reading past the last one is Python's
    EOFError from `input()`. Prompt texts and the rendering of messages are not modelled. */
module View {
  import opened Exceptions

  datatype Warning =
    | InvalidChoice
    | EmptyValue
    | BadDateFormat
    | NotEnoughPlayers
    | NotEnoughFreePlayers
    | PlayerNotFound
    | PlayerAlreadyInTournament
    | PlayerNotAdded
    | PlayerAlreadyKnown
    | PlayerNotSaved
    | TournamentAlreadyKnown

  datatype Information =
    | CreatingPlayer
    | PlayerSaved
    | CreatingTournament
    | AddingPlayers
    | AddingPlayer(rank: nat)
    | PlayerSelected
    | PlayerAdded

  datatype Message = Info(information: Information) | Warn(warning: Warning)

  /** `rest` is what is left of `answers` once some of them have been read: prompts only
      ever take answers from the front. */
  predicate Consumed(answers: seq<string>, rest: seq<string>)
  {
    |rest| <= |answers| && forall i :: 0 <= i < |rest| ==> rest[i] == answers[|answers| - |rest| + i]
  }

  /** Reading is cumulative: what is left of what was left is left of the original. */
  lemma ConsumedTrans(answers: seq<string>, middle: seq<string>, rest: seq<string>)
    requires Consumed(answers, middle) && Consumed(middle, rest)
    ensures Consumed(answers, rest)
  {
  }

  /** Taking one more answer keeps the rest a suffix. */
  lemma ConsumedOneMore(answers: seq<string>, rest: seq<string>)
    requires Consumed(answers, rest) && rest != []
    ensures Consumed(answers, rest[1..]) && answers[|answers| - |rest|] == rest[0]
  {
  }

  /** An answer taken after `middle` sits at the same place counted from the start. */
  lemma ConsumedLast(answers: seq<string>, middle: seq<string>, rest: seq<string>)
    requires Consumed(answers, middle) && Consumed(middle, rest) && |rest| < |middle|
    ensures |rest| < |answers| && answers[|answers| - |rest| - 1] == middle[|middle| - |rest| - 1]
  {
  }

  class ConsoleView {
    /** The answers the operator has still to type. */
    var script: seq<string>
    /** The messages shown so far, oldest first. */
    var log: seq<Message>
    /** The answer read last, if any has been read. */
    ghost var lastAnswer: Option<string>

    constructor (script: seq<string>)
      ensures this.script == script && log == [] && lastAnswer == None
    {
      this.script := script;
      log := [];
      lastAnswer := None;
    }

    /** Any prompt: the next answer, or EOFError when there is none left. */
    method Ask() returns (answer: Result<string>)
      modifies this`script, this`lastAnswer
      ensures old(script) == [] ==> answer == Err(EOFError) && script == [] && lastAnswer == old(lastAnswer)
      ensures old(script) != [] ==>
        answer == Ok(old(script)[0]) && script == old(script)[1..] && lastAnswer == Some(old(script)[0])
    {
      if script == [] {
        answer := Err(EOFError);
      } else {
        answer := Ok(script[0]);
        lastAnswer := Some(script[0]);
        script := script[1..];
      }
    }

    /** `warning`. */
    method ShowWarning(w: Warning)
      modifies this`log
      ensures log == old(log) + [Warn(w)]
    {
      log := log + [Warn(w)];
    }

    /** `information`. */
    method ShowInformation(i: Information)
      modifies this`log
      ensures log == old(log) + [Info(i)]
    {
      log := log + [Info(i)];
    }
  }
}
