/** The two input validators of Utils/validators.py. */
module Validators {
  import opened Exceptions
  import opened Text

  /** One entry of a multiple-choice prompt: the key the operator types, the caption shown
      beside it, and the value the prompt stands for. */
  datatype Choice = Choice(key: string, caption: string, value: string)

  /** The menu convention of the controllers: the i-th entry (from 0) has key `str(i + 1)`. */
  predicate NumberedInOrder(choices: seq<Choice>)
  {
    forall i :: 0 <= i < |choices| ==> choices[i].key == NatToString(i + 1)
  }

  /** The loop's test: the answer is `in` (a substring of) some key. */
  predicate SomeKeyContains(userChoice: string, choices: seq<Choice>)
  {
    exists i :: 0 <= i < |choices| && Contains(choices[i].key, userChoice)
  }

  /** Python's `seq[index]` for `-length <= index < length`: negative indices count from the end. */
  function PyIndex(index: int, length: nat): (r: nat)
    requires -(length as int) <= index < length
    ensures r < length
    ensures index >= 0 ==> r == index
  {
    if index < 0 then index + length else index
  }

  /** `check_multiple_choice`: once some key contains the answer, the value returned is the
      last component of `choices[int(answer) - 1]`, whichever key matched. `int()` failing
      is a ValueError and a position outside the list an IndexError; both escape. */
  function CheckMultipleChoice(userChoice: string, choices: seq<Choice>): (r: Result<string>)
    ensures r == Err(NotValidChoiceError) <==> !SomeKeyContains(userChoice, choices)
    ensures r.Ok? ==> exists i :: 0 <= i < |choices| && r.value == choices[i].value
    ensures r.Err? ==> r.error in {NotValidChoiceError, ValueError, IndexError}
  {
    if SomeKeyContains(userChoice, choices) then
      match ParseInt(userChoice)
      case None => Err(ValueError)
      case Some(n) =>
        if -(|choices| as int) <= n - 1 < |choices| then Ok(choices[PyIndex(n - 1, |choices|)].value)
        else Err(IndexError)
    else
      Err(NotValidChoiceError)
  }

  /** `check_not_empty_field`: exactly the empty string is refused; anything else, blanks
      included, is returned unchanged. */
  function CheckNotEmptyField(userValue: string): (r: Result<string>)
    ensures r.Ok? <==> userValue != ""
    ensures r.Ok? ==> r.value == userValue
    ensures r.Err? ==> r.error == EmptyFieldError
  {
    if userValue == "" then Err(EmptyFieldError) else Ok(userValue)
  }

  /** No trimming: an answer made only of blanks is accepted as it is. */
  lemma BlankIsNotEmpty(answer: string)
    requires answer != [] && forall i :: 0 <= i < |answer| ==> answer[i] == ' '
    ensures CheckNotEmptyField(answer) == Ok(answer)
  {
  }

  /** With keys "1".."n" in list order, typing a key yields that entry's value. */
  lemma SelectsByKeyWhenNumbered(choices: seq<Choice>, k: nat)
    requires NumberedInOrder(choices) && k < |choices|
    ensures CheckMultipleChoice(choices[k].key, choices) == Ok(choices[k].value)
  {
    assert Contains(choices[k].key, choices[k].key);
    ParseNatToString(k + 1);
  }

  /** For a numbered menu of at most nine entries the validator is exactly: a key gives its
      entry's value, the empty answer gives ValueError (it is `in` every key and `int("")`
      fails), and every other answer gives NotValidChoiceError. */
  lemma NumberedMenuSemantics(choices: seq<Choice>, userChoice: string)
    requires NumberedInOrder(choices) && 0 < |choices| <= 9
    ensures CheckMultipleChoice(userChoice, choices) ==
      if userChoice == "" then Err(ValueError)
      else if exists k :: 0 <= k < |choices| && choices[k].key == userChoice
      then Ok(choices[DigitValue(userChoice[0]) - 1].value)
      else Err(NotValidChoiceError)
  {
    forall i | 0 <= i < |choices|
      ensures Contains(choices[i].key, userChoice) <==> userChoice == "" || userChoice == choices[i].key
    {
      SingleCharContains(choices[i].key, userChoice);
    }
    if userChoice == "" {
      assert Contains(choices[0].key, userChoice);
    } else if exists k :: 0 <= k < |choices| && choices[k].key == userChoice {
      var k :| 0 <= k < |choices| && choices[k].key == userChoice;
      SelectsByKeyWhenNumbered(choices, k);
      assert DigitValue(userChoice[0]) == k + 1;
    }
  }

  /** On a numbered menu of at most nine entries, an answer that some key contains is
      that key and gives its entry's value, or it is the empty answer and a ValueError. */
  lemma NumberedMenuOffersOnlyItsValues(choices: seq<Choice>, userChoice: string)
    requires NumberedInOrder(choices) && 0 < |choices| <= 9
    requires SomeKeyContains(userChoice, choices)
    ensures var r := CheckMultipleChoice(userChoice, choices);
      && (r.Ok? ==> exists k :: 0 <= k < |choices| && choices[k].key == userChoice && r.value == choices[k].value)
      && (r.Err? ==> userChoice == "" && r.error == ValueError)
  {
    if userChoice == "" {
      NumberedMenuSemantics(choices, userChoice);
    } else {
      var i :| 0 <= i < |choices| && Contains(choices[i].key, userChoice);
      SingleCharContains(choices[i].key, userChoice);
      SelectsByKeyWhenNumbered(choices, i);
    }
  }

  /** A one-character string contains exactly itself and the empty string. */
  lemma SingleCharContains(key: string, needle: string)
    requires |key| == 1
    ensures Contains(key, needle) <==> needle == "" || needle == key
  {
    if needle <= key && needle != "" {
      assert needle == key;
    }
  }

  /** The result is taken by position, not from the entry whose key matched: with the keys
      out of order, typing "1" yields the value of the entry keyed "2". */
  lemma SelectsByPositionNotByKey()
    ensures CheckMultipleChoice("1", [Choice("2", "Femme", "F"), Choice("1", "Homme", "M")]) == Ok("F")
  {
    var choices := [Choice("2", "Femme", "F"), Choice("1", "Homme", "M")];
    assert Contains(choices[1].key, "1");
    assert ParseInt("1") == Some(1) by { ParseNatToString(1); }
  }

  /** With ten numbered entries "0" is `in` the key "10", and `choices[0 - 1]` is the last
      entry: the answer "0" selects the tenth value. */
  lemma ZeroSelectsLastOfTen(choices: seq<Choice>)
    requires NumberedInOrder(choices) && |choices| == 10
    ensures CheckMultipleChoice("0", choices) == Ok(choices[9].value)
  {
    assert choices[9].key == NatToString(10) == "10";
    assert Contains(choices[9].key[1..], "0");
    assert Contains(choices[9].key, "0");
    assert ParseInt("0") == Some(0) by { ParseNatToString(0); }
  }
}
