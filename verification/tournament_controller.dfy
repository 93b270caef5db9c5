/** The tournament menu of Controllers/tournament.py: it offers to create a tournament
    when enough free players are stored and to open one when some tournament is stored;
    creating one asks for its fields, builds the roster player by player, asks for
    confirmation, saves the tournament and marks its players as taken. */
module TournamentController {
  import opened Exceptions
  import opened Text
  import opened Validators
  import opened TinyManager
  import opened PlayerModel
  import opened TournamentModel
  import opened View
  import opened Dates
  import opened GeneralController
  import opened PlayersController

  /** The player field that marks a player as taken by a tournament. */
  const FLAG := "is_already_in_a_tournament"

  /** The choices of `_get_time_control`. */
  const TIME_CONTROL_CHOICES: seq<Choice> := [
    Choice("1", "Bullet", "bullet"),
    Choice("2", "Blitz", "blitz"),
    Choice("3", "Coup rapide", "quick move")]

  /** `not player['is_already_in_a_tournament']`. */
  predicate IsFree(fields: Fields)
  {
    Get(fields, FLAG) == VBool(false)
  }

  /** The number of free players: the length of the comprehension in
      `_are_conditions_met_to_create_tournament`. */
  function FreeCount(docs: seq<Document>): (r: nat)
    ensures r <= |docs|
  {
    if docs == [] then 0 else (if IsFree(docs[0].fields) then 1 else 0) + FreeCount(docs[1..])
  }

  /** The number of free players whose identifier is listed. */
  function FreeListedCount(docs: seq<Document>, ids: seq<nat>): (r: nat)
    ensures r <= FreeCount(docs)
  {
    if docs == [] then 0
    else (if IsFree(docs[0].fields) && docs[0].id in ids then 1 else 0) + FreeListedCount(docs[1..], ids)
  }

  /** Marking the listed players as taken removes exactly the listed free players from
      the free count. */
  lemma {:induction false} FreeCountAfterMarking(docs: seq<Document>, ids: seq<nat>)
    ensures FreeCount(SetAttributeWhere(docs, FLAG, VBool(true), ids)) == FreeCount(docs) - FreeListedCount(docs, ids)
    decreases |docs|
  {
    if docs != [] {
      var after := SetAttributeWhere(docs, FLAG, VBool(true), ids);
      assert after[1..] == SetAttributeWhere(docs[1..], FLAG, VBool(true), ids);
      FreeCountAfterMarking(docs[1..], ids);
    }
  }

  /** After marking, a player is free exactly when it was free and is not listed. */
  lemma FreeAfterMarking(docs: seq<Document>, ids: seq<nat>)
    ensures var after := SetAttributeWhere(docs, FLAG, VBool(true), ids);
      forall i :: 0 <= i < |docs| ==> (IsFree(after[i].fields) <==> IsFree(docs[i].fields) && docs[i].id !in ids)
  {
  }

  /** A free player's identifier listed once and matching one record: marking removes it
      from the free players, so a roster of free players lowers the count. */
  lemma FreeCountDropsForFreeRosterMember(docs: seq<Document>, ids: seq<nat>, i: nat)
    requires i < |docs| && IsFree(docs[i].fields) && docs[i].id in ids
    ensures FreeCount(SetAttributeWhere(docs, FLAG, VBool(true), ids)) < FreeCount(docs)
  {
    FreeCountAfterMarking(docs, ids);
    FreeListedPositive(docs, ids, i);
  }

  lemma {:induction false} FreeListedPositive(docs: seq<Document>, ids: seq<nat>, i: nat)
    requires i < |docs| && IsFree(docs[i].fields) && docs[i].id in ids
    ensures FreeListedCount(docs, ids) > 0
    decreases i
  {
    if i > 0 {
      FreeListedPositive(docs[1..], ids, i - 1);
    }
  }

  /** Setting the flag of player records keeps them player records. */
  lemma MarkingKeepsPlayerTable(docs: seq<Document>, ids: seq<nat>)
    requires PlayerTable(docs)
    ensures PlayerTable(SetAttributeWhere(docs, FLAG, VBool(true), ids))
  {
    var after := SetAttributeWhere(docs, FLAG, VBool(true), ids);
    forall i | 0 <= i < |after| ensures PlayerFromRecord(after[i].fields).Ok? {
      if docs[i].id in ids {
        assert FLAG in PlayerKeys();
        assert after[i].fields.Keys == PlayerKeys();
        assert forall key :: key in PlayerKeys() && key != FLAG ==> after[i].fields[key] == docs[i].fields[key];
      }
    }
  }

  /** Setting the flag leaves the names alone. */
  lemma MarkingKeepsNamesUnique(docs: seq<Document>, ids: seq<nat>)
    requires NamesUnique(docs)
    ensures NamesUnique(SetAttributeWhere(docs, FLAG, VBool(true), ids))
  {
    var after := SetAttributeWhere(docs, FLAG, VBool(true), ids);
    forall i | 0 <= i < |after|
      ensures Get(after[i].fields, "first_name") == Get(docs[i].fields, "first_name")
      ensures Get(after[i].fields, "last_name") == Get(docs[i].fields, "last_name")
    {
    }
  }

  /** No stored record has a "first_name" field, as no tournament record does. */
  predicate NoPlayerNames(docs: seq<Document>)
  {
    forall i :: 0 <= i < |docs| ==> "first_name" !in docs[i].fields
  }

  /** Appending a tournament record keeps a table free of player names. */
  lemma AppendTournamentRecord(docs: seq<Document>, record: Document)
    requires NoPlayerNames(docs)
    requires record.fields.Keys == TournamentKeys() + {"is_over"}
    ensures NoPlayerNames(docs + [record])
  {
    assert "first_name" !in TournamentKeys() + {"is_over"};
  }

  /** The duplicate search of `_create_tournament`, written with the player field names. */
  function TournamentSearch(name: string, startDate: string): Query
  {
    [("first_name", name), ("last_name", startDate)]
  }

  /** On a table of tournament records the duplicate search never finds anything, so a
      tournament is never refused as already known. */
  lemma TournamentDuplicateCheckNeverFires(docs: seq<Document>, name: string, startDate: string)
    requires NoPlayerNames(docs)
    ensures !IsObjectExist(docs, TournamentSearch(name, startDate))
  {
    forall i | 0 <= i < |docs| ensures !TestFunc(TournamentSearch(name, startDate), docs[i].fields) {
      MissingFieldNeverMatches(TournamentSearch(name, startDate), docs[i].fields, 0);
    }
  }

  /** Keys in list order, compared as Python compares strings. */
  predicate SortedByKey(choices: seq<Choice>)
  {
    forall i :: 0 <= i < |choices| - 1 ==> LexLe(choices[i].key, choices[i + 1].key)
  }

  /** Inserts a choice before the first one whose key is not smaller. */
  function InsertByKey(c: Choice, sorted: seq<Choice>): (r: seq<Choice>)
    requires SortedByKey(sorted)
    ensures SortedByKey(r)
    ensures multiset(r) == multiset(sorted) + multiset{c}
    ensures |r| == |sorted| + 1 && (r[0] == c || (sorted != [] && r[0] == sorted[0]))
    decreases |sorted|
  {
    if sorted == [] then [c]
    else if LexLe(c.key, sorted[0].key) then [c] + sorted
    else
      LexLeTotal(c.key, sorted[0].key);
      var rest := InsertByKey(c, sorted[1..]);
      assert sorted == [sorted[0]] + sorted[1..];
      [sorted[0]] + rest
  }

  /** `choices.sort(key=lambda x: x[0])`: the choices rearranged into key order. */
  function SortByKey(choices: seq<Choice>): (r: seq<Choice>)
    ensures SortedByKey(r)
    ensures multiset(r) == multiset(choices)
    decreases |choices|
  {
    if choices == [] then []
    else
      assert choices == [choices[0]] + choices[1..];
      InsertByKey(choices[0], SortByKey(choices[1..]))
  }

  /** A list already in key order is left as it is. */
  lemma {:induction false} SortedIsUnchanged(choices: seq<Choice>)
    requires SortedByKey(choices)
    ensures SortByKey(choices) == choices
    decreases |choices|
  {
    if choices != [] {
      var tail := choices[1..];
      assert SortedByKey(tail) by {
        forall i | 0 <= i < |tail| - 1 ensures LexLe(tail[i].key, tail[i + 1].key) {
          assert tail[i] == choices[i + 1] && tail[i + 1] == choices[i + 2];
        }
      }
      SortedIsUnchanged(tail);
      assert SortByKey(choices) == InsertByKey(choices[0], tail);
      if tail != [] {
        assert LexLe(choices[0].key, tail[0].key);
      }
      assert [choices[0]] + tail == choices;
    }
  }

  /** Keys "1".."9" in list order are in key order. */
  lemma NumberedIsSorted(choices: seq<Choice>)
    requires NumberedInOrder(choices) && |choices| <= 9
    ensures SortedByKey(choices)
  {
    forall i | 0 <= i < |choices| - 1 ensures LexLe(choices[i].key, choices[i + 1].key) {
      assert choices[i].key == [DigitChar(i + 1)];
      assert choices[i + 1].key == [DigitChar(i + 2)];
    }
  }

  /** So the sort in `_get_answer_in_multi_choices` leaves every menu of the controller
      (at most nine numbered entries) unchanged. */
  lemma NumberedMenuIsNotReordered(choices: seq<Choice>)
    requires NumberedInOrder(choices) && |choices| <= 9
    ensures SortByKey(choices) == choices
  {
    NumberedIsSorted(choices);
    SortedIsUnchanged(choices);
  }

  /** The time-control menu is keyed "1", "2", "3" in order. */
  lemma TimeControlNumbered()
    ensures NumberedInOrder(TIME_CONTROL_CHOICES)
  {
    assert NatToString(1) == "1" && NatToString(2) == "2" && NatToString(3) == "3";
  }

  /** The time-control menu is numbered, so sorting leaves it as it is. */
  lemma TimeControlMenu()
    ensures SortByKey(TIME_CONTROL_CHOICES) == TIME_CONTROL_CHOICES
  {
    TimeControlNumbered();
    NumberedMenuIsNotReordered(TIME_CONTROL_CHOICES);
  }

  /** What each answer of the time-control menu selects: "1", "2", "3" the three time
      controls, anything else the ValueError of the empty answer. */
  function TimeControlOf(answer: string): (r: Result<string>)
    ensures r.Err? ==> r.error == ValueError
  {
    if answer == "1" then Ok("bullet")
    else if answer == "2" then Ok("blitz")
    else if answer == "3" then Ok("quick move")
    else Err(ValueError)
  }

  /** An answer that stops the time-control loop selects as TimeControlOf says: a
      time-control value, or the ValueError of the empty answer. */
  lemma TimeControlAnswer(answer: string)
    requires SomeKeyContains(answer, TIME_CONTROL_CHOICES)
    ensures CheckMultipleChoice(answer, TIME_CONTROL_CHOICES) == TimeControlOf(answer)
    ensures var r := TimeControlOf(answer);
      && (r.Ok? ==> r.value in {"bullet", "blitz", "quick move"})
      && (r.Err? ==> r.error == ValueError && answer == "")
  {
    TimeControlNumbered();
    NumberedMenuOffersOnlyItsValues(TIME_CONTROL_CHOICES, answer);
    if answer != "" {
      NumberedMenuSemantics(TIME_CONTROL_CHOICES, answer);
      assert answer[0] == answer[|answer| - 1];
    }
  }

  /** The first and last names the two prompts of `_select_a_player` settle on, and
      the answers left after them; None when the answers run out first. */
  ghost function NameAnswers(answers: seq<string>): (r: Option<(string, string, seq<string>)>)
    ensures r.Some? ==>
      && r.value.0 != "" && r.value.1 != ""
      && |r.value.2| + 2 <= |answers| && Consumed(answers, r.value.2)
  {
    var first := Settle(answers, NonEmptyAnswer);
    if first.None? then None
    else
      var last := Settle(first.value.1, NonEmptyAnswer);
      if last.None? then None
      else
        ConsumedTrans(answers, first.value.1, last.value.1);
        Some((first.value.0, last.value.0, last.value.1))
  }

  /** The answers the six prompts of `_get_tournament_info` settle on. */
  datatype TournamentFields = TournamentFields(
    name: string, place: string, startDate: string, endDate: string,
    description: string, timeControl: string)

  /** The gates of the six prompts of `_get_tournament_info`, in the order they ask. */
  const TOURNAMENT_PROMPTS: Prompts :=
    Ask(NonEmptyAnswer, Ask(NonEmptyAnswer, Ask(CalendarDate, Ask(CalendarDate, Ask(NonEmptyAnswer,
      Ask(SomeKey(TIME_CONTROL_CHOICES), End))))))

  /** What the six prompts of `_get_tournament_info` settle on, in order: name, place,
      start date, end date, description and time control; with the answers left after
      them. None when the answers run out first. */
  ghost function TournamentAnswers(answers: seq<string>): Option<(TournamentFields, seq<string>)>
  {
    var settled := SettleEach(answers, TOURNAMENT_PROMPTS);
    if settled.None? then None
    else
      var v := settled.value.0;
      Some((TournamentFields(v[0], v[1], v[2], v[3], v[4], v[5]), settled.value.1))
  }

  /** The six answers, in front of one another, in the order they were settled. */
  lemma SixAnswers(v: seq<string>, a: string, b: string, c: string, d: string, e: string, f: string)
    requires v == [a] + ([b] + ([c] + ([d] + ([e] + ([f] + [])))))
    ensures |v| == 6 && v[0] == a && v[1] == b && v[2] == c && v[3] == d && v[4] == e && v[5] == f
  {
  }

  /** Once the first five prompts have settled, one after the other, the answer the
      time-control prompt settles on decides the rest. */
  lemma TournamentAnswersAfterFive(s0: seq<string>)
    ensures var a := Settle(s0, NonEmptyAnswer);
      a.Some? ==> var b := Settle(a.value.1, NonEmptyAnswer);
      b.Some? ==> var c := Settle(b.value.1, CalendarDate);
      c.Some? ==> var d := Settle(c.value.1, CalendarDate);
      d.Some? ==> var e := Settle(d.value.1, NonEmptyAnswer);
      e.Some? ==> var control := Settle(e.value.1, SomeKey(TIME_CONTROL_CHOICES));
      TournamentAnswers(s0) ==
        if control.None? then None
        else Some((TournamentFields(a.value.0, b.value.0, c.value.0, d.value.0, e.value.0, control.value.0),
                   control.value.1))
  {
    var a := Settle(s0, NonEmptyAnswer);
    if a.None? { return; }
    var (name, s1) := a.value;
    var b := Settle(s1, NonEmptyAnswer);
    if b.None? { return; }
    var (place, s2) := b.value;
    var c := Settle(s2, CalendarDate);
    if c.None? { return; }
    var (startDate, s3) := c.value;
    var d := Settle(s3, CalendarDate);
    if d.None? { return; }
    var (endDate, s4) := d.value;
    var e := Settle(s4, NonEmptyAnswer);
    if e.None? { return; }
    var (description, s5) := e.value;
    var p := TOURNAMENT_PROMPTS;
    var last := p.next.next.next.next.next;
    var control := Settle(s5, last.gate);
    SettleEachStep(s0, p, name, s1);
    SettleEachStep(s1, p.next, place, s2);
    SettleEachStep(s2, p.next.next, startDate, s3);
    SettleEachStep(s3, p.next.next.next, endDate, s4);
    SettleEachStep(s4, p.next.next.next.next, description, s5);
    if control.None? {
      SettleEachStops(s5, last);
    } else {
      var rest := control.value.1;
      SettleEachStep(s5, last, control.value.0, rest);
      assert SettleEach(rest, last.next) == Some(([], rest));
      var m5 := [control.value.0] + [];
      var m4 := [description] + m5;
      var m3 := [endDate] + m4;
      var m2 := [startDate] + m3;
      var m1 := [place] + m2;
      var m0 := [name] + m1;
      assert SettleEach(s5, last) == Some((m5, rest));
      assert SettleEach(s4, p.next.next.next.next) == Some((m4, rest));
      assert SettleEach(s3, p.next.next.next) == Some((m3, rest));
      assert SettleEach(s2, p.next.next) == Some((m2, rest));
      assert SettleEach(s1, p.next) == Some((m1, rest));
      assert SettleEach(s0, p) == Some((m0, rest));
      SixAnswers(m0, name, place, startDate, endDate, description, control.value.0);
    }
  }

  /** `choices.append((str(len(choices) + 1), caption, value))`: the next numbered entry. */
  function WithNextChoice(choices: seq<Choice>, caption: string, value: string): (r: seq<Choice>)
    ensures |r| == |choices| + 1 && r[..|choices|] == choices && r[|choices|].value == value
    ensures NumberedInOrder(choices) ==> NumberedInOrder(r)
  {
    choices + [Choice(NatToString(|choices| + 1), caption, value)]
  }

  /** The CREATE and OPEN entries that `_get_tournament_manager_user_action` offers. */
  function OfferedChoices(create: bool, open: bool): seq<Choice>
  {
    var withCreate := if create then WithNextChoice([], "Créer un tournois", "CREATE") else [];
    if open then WithNextChoice(withCreate, "Ouvrir un tournois", "OPEN") else withCreate
  }

  /** The whole menu once BACK and QUIT are appended. */
  function ActionMenu(create: bool, open: bool): seq<Choice>
  {
    WithNextChoice(WithNextChoice(OfferedChoices(create, open), "Revenir en arrière", "BACK"), "Quitter", "QUIT")
  }

  /** The offered entries: CREATE exactly when the create conditions hold, first; OPEN
      exactly when some tournament is stored. */
  lemma OfferedShape(create: bool, open: bool)
    ensures var offered := OfferedChoices(create, open);
      && NumberedInOrder(offered)
      && |offered| == (if create then 1 else 0) + (if open then 1 else 0)
      && (create ==> offered[0].value == "CREATE")
      && (open ==> offered[|offered| - 1].value == "OPEN")
      && (forall i :: 0 <= i < |offered| ==> offered[i].value in {"CREATE", "OPEN"})
      && (forall i :: 0 <= i < |offered| && offered[i].value == "CREATE" ==> create)
      && (forall i :: 0 <= i < |offered| && offered[i].value == "OPEN" ==> open)
  {
    assert NumberedInOrder([]);
  }

  /** The menu is keyed "1", "2", ... in order; CREATE comes first when offered, then
      OPEN when offered, then BACK and QUIT. */
  ghost predicate MenuShape(menu: seq<Choice>, create: bool, open: bool)
  {
    && NumberedInOrder(menu)
    && |menu| == (if create then 1 else 0) + (if open then 1 else 0) + 2
    && (create ==> menu[0].value == "CREATE")
    && (open ==> menu[if create then 1 else 0].value == "OPEN")
    && menu[|menu| - 2].value == "BACK" && menu[|menu| - 1].value == "QUIT"
  }

  /** The menu has that shape; CREATE is offered exactly when the create conditions hold,
      OPEN exactly when some tournament is stored. */
  lemma ActionMenuShape(create: bool, open: bool)
    ensures var menu := ActionMenu(create, open);
      && MenuShape(menu, create, open)
      && (forall i :: 0 <= i < |menu| ==> menu[i].value in {"CREATE", "OPEN", "BACK", "QUIT"})
      && (forall i :: 0 <= i < |menu| && menu[i].value == "CREATE" ==> create)
      && (forall i :: 0 <= i < |menu| && menu[i].value == "OPEN" ==> open)
  {
    var offered := OfferedChoices(create, open);
    OfferedShape(create, open);
    var menu := ActionMenu(create, open);
    assert forall i :: 0 <= i < |offered| ==> menu[i] == offered[i];
  }

  /** Sorting leaves the menu as it is. */
  lemma ActionMenuSorted(create: bool, open: bool)
    ensures SortByKey(ActionMenu(create, open)) == ActionMenu(create, open)
  {
    var menu := ActionMenu(create, open);
    ActionMenuShape(create, open);
    assert NumberedInOrder(menu) && |menu| <= 9;
    NumberedMenuIsNotReordered(menu);
  }

  /** The actions of the menu in the order they are numbered: CREATE when offered, OPEN
      when offered, BACK, QUIT. */
  function MenuActions(create: bool, open: bool): (actions: seq<string>)
    ensures 2 <= |actions| <= 4 && actions[|actions| - 2] == "BACK" && actions[|actions| - 1] == "QUIT"
  {
    (if create then ["CREATE"] else []) + (if open then ["OPEN"] else []) + ["BACK", "QUIT"]
  }

  /** What each answer selects on the menu of `_get_tournament_manager_user_action`: "1"
      the first action of MenuActions, "2" the second, and so on while there are actions;
      anything else is the ValueError of the empty answer. */
  function ActionFor(create: bool, open: bool, answer: string): (r: Result<string>)
    ensures r.Err? ==> r.error == ValueError
  {
    var actions := MenuActions(create, open);
    if answer == "1" then Ok(actions[0])
    else if answer == "2" then Ok(actions[1])
    else if answer == "3" && |actions| >= 3 then Ok(actions[2])
    else if answer == "4" && |actions| == 4 then Ok(actions[3])
    else Err(ValueError)
  }

  /** The menu lists exactly MenuActions, in order. */
  lemma ActionMenuValues(create: bool, open: bool)
    ensures var menu, actions := ActionMenu(create, open), MenuActions(create, open);
      |menu| == |actions| && forall i :: 0 <= i < |menu| ==> menu[i].value == actions[i]
  {
    ActionMenuShape(create, open);
  }

  /** The key of the k-th entry, counting from 0, selects the k-th action. */
  lemma ActionForKey(create: bool, open: bool, k: nat)
    requires k < |MenuActions(create, open)|
    ensures ActionFor(create, open, [DigitChar(k + 1)]) == Ok(MenuActions(create, open)[k])
  {
    if k == 0 {
      assert [DigitChar(k + 1)] == "1";
    } else if k == 1 {
      assert [DigitChar(k + 1)] == "2";
    } else if k == 2 {
      assert [DigitChar(k + 1)] == "3";
    } else {
      assert [DigitChar(k + 1)] == "4";
    }
  }

  /** An answer that stops the loop on this menu selects the action ActionFor names. */
  lemma ActionMenuSelects(create: bool, open: bool, answer: string)
    requires SomeKeyContains(answer, ActionMenu(create, open))
    ensures CheckMultipleChoice(answer, ActionMenu(create, open)) == ActionFor(create, open, answer)
  {
    var menu, actions := ActionMenu(create, open), MenuActions(create, open);
    assert NumberedInOrder(menu) && 0 < |menu| <= 9 by { ActionMenuShape(create, open); }
    ActionMenuValues(create, open);
    NumberedMenuSelects(menu, actions, answer);
    if answer != "" {
      var k :| 0 <= k < |menu| && answer == [DigitChar(k + 1)] && CheckMultipleChoice(answer, menu) == Ok(actions[k]);
      ActionForKey(create, open, k);
    }
  }

  /** On a menu numbered "1", "2", ... whose values are `actions`, an answer that stops
      the loop is the empty answer, which raises ValueError, or the key of some entry,
      which selects that entry's action. */
  lemma NumberedMenuSelects(menu: seq<Choice>, actions: seq<string>, answer: string)
    requires NumberedInOrder(menu) && 0 < |menu| <= 9 && |actions| == |menu|
    requires forall i :: 0 <= i < |menu| ==> menu[i].value == actions[i]
    requires SomeKeyContains(answer, menu)
    ensures answer == "" ==> CheckMultipleChoice(answer, menu) == Err(ValueError)
    ensures answer != "" ==>
      exists k :: 0 <= k < |menu| && answer == [DigitChar(k + 1)] && CheckMultipleChoice(answer, menu) == Ok(actions[k])
  {
    NumberedMenuSemantics(menu, answer);
    if answer != "" {
      var k :| 0 <= k < |menu| && menu[k].key == answer;
      assert answer == [DigitChar(k + 1)];
      assert DigitValue(answer[0]) == k + 1;
    }
  }

  /** An answer that stops the loop on this menu gives one of its values, CREATE only
      when offered and OPEN only when offered, or the ValueError of the empty answer. */
  lemma ActionMenuAnswer(create: bool, open: bool, answer: string)
    requires SomeKeyContains(answer, ActionMenu(create, open))
    ensures var r := CheckMultipleChoice(answer, ActionMenu(create, open));
      && (r.Ok? ==> r.value in {"CREATE", "OPEN", "BACK", "QUIT"})
      && (r == Ok("CREATE") ==> create) && (r == Ok("OPEN") ==> open)
      && (r.Err? ==> r.error == ValueError)
  {
    ActionMenuShape(create, open);
    assert |ActionMenu(create, open)| <= 9;
    NumberedMenuSemantics(ActionMenu(create, open), answer);
  }

  predicate NoDuplicates(ids: seq<nat>)
  {
    forall i, j :: 0 <= i < j < |ids| ==> ids[i] != ids[j]
  }

  /** How `_add_players` may change a roster: it only grows at its end, by identifiers
      of `stored`, stays free of duplicates if it was, and stays within `limit` if it was. */
  ghost predicate RosterGrowth(before: seq<nat>, after: seq<nat>, stored: seq<nat>, limit: nat)
  {
    && before <= after
    && (NoDuplicates(before) ==> NoDuplicates(after))
    && (|before| <= limit ==> |after| <= limit)
    && (forall i :: |before| <= i < |after| ==> after[i] in stored)
  }

  /** Appending a stored identifier that is not yet on a roster below the limit is such
      a growth. */
  lemma RosterGrowthStep(before: seq<nat>, after: seq<nat>, stored: seq<nat>, limit: nat, id: nat)
    requires RosterGrowth(before, after, stored, limit)
    requires id !in after && id in stored && |after| < limit
    ensures RosterGrowth(before, after + [id], stored, limit)
  {
    var grown := after + [id];
    if NoDuplicates(before) {
      forall i, j | 0 <= i < j < |grown|
        ensures grown[i] != grown[j]
      {
        if j == |after| {
          assert grown[i] == after[i];
        }
      }
    }
  }

  /** Growth is cumulative: two growths in a row are one. */
  lemma RosterGrowthTrans(before: seq<nat>, middle: seq<nat>, after: seq<nat>, stored: seq<nat>, limit: nat)
    requires RosterGrowth(before, middle, stored, limit) && RosterGrowth(middle, after, stored, limit)
    ensures RosterGrowth(before, after, stored, limit)
  {
    forall i | |before| <= i < |after|
      ensures after[i] in stored
    {
      if i < |middle| {
        assert after[i] == middle[i];
      }
    }
  }

  /** A stored record's identifier is among the table's identifiers. */
  lemma StoredIdListed(docs: seq<Document>, d: Document)
    requires d in docs
    ensures d.id in Ids(docs)
  {
    var i :| 0 <= i < |docs| && docs[i] == d;
    assert Ids(docs)[i] == d.id;
  }

  /** What `_select_a_player` comes to on these answers against the player records
      `docs`, with the answers it leaves. The answers run out before both names are
      settled: end of input. No record of those names: None, and no confirmation is
      asked. Otherwise the next answer confirms: none left is end of input, "n" or "N"
      gives None, anything else the identifier of the first record of those names. */
  ghost function Selection(docs: seq<Document>, answers: seq<string>): (s: (Result<Option<nat>>, seq<string>))
    ensures s.0.Err? ==> s.0 == Err(EOFError) && s.1 == []
    ensures s.0.Ok? ==> |s.1| + 2 <= |answers| && Consumed(answers, s.1)
    ensures s.0.Ok? && s.0.value.Some? ==> s.0.value.value in Ids(docs)
  {
    var names := NameAnswers(answers);
    if names.None? then (Err(EOFError), [])
    else
      var search := NameQuery(names.value.0, names.value.1);
      var rest := names.value.2;
      if !IsObjectExist(docs, search) then (Ok(None), rest)
      else if rest == [] then (Err(EOFError), [])
      else
        ConsumedOneMore(answers, rest);
        if rest[0] == "n" || rest[0] == "N" then (Ok(None), rest[1..])
        else
          var found := GetObject(docs, search).value;
          StoredIdListed(docs, found);
          (Ok(Some(found.id)), rest[1..])
  }

  /** What the loop of `_add_players` comes to on these answers, starting from `roster`
      and filling it up to `limit`: its result, the roster it leaves and the answers left.
      A full roster ends it with True. A selection of an identifier not yet on the roster
      appends it; any other selection is followed by one more answer, "n" or "N" ending
      it with False. */
  ghost function Enrolment(docs: seq<Document>, answers: seq<string>, roster: seq<nat>, limit: nat)
    : (Result<bool>, seq<nat>, seq<string>)
    decreases |answers|
  {
    if |roster| >= limit then (Ok(true), roster, answers)
    else
      var (selected, rest) := Selection(docs, answers);
      if selected.Err? then (Err(EOFError), roster, [])
      else if selected.value.Some? && selected.value.value !in roster then
        Enrolment(docs, rest, roster + [selected.value.value], limit)
      else if rest == [] then (Err(EOFError), roster, [])
      else if rest[0] == "n" || rest[0] == "N" then (Ok(false), roster, rest[1..])
      else Enrolment(docs, rest[1..], roster, limit)
  }

  /** In the loop of `_add_players` the roster only grows as `RosterGrowth` allows; True
      comes with a full roster and False with a roster still short. */
  lemma {:induction false} EnrolmentRoster(docs: seq<Document>, answers: seq<string>, roster: seq<nat>, limit: nat)
    ensures var e := Enrolment(docs, answers, roster, limit);
      && RosterGrowth(roster, e.1, Ids(docs), limit)
      && (e.0 == Ok(true) ==> |e.1| >= limit)
      && (e.0 == Ok(false) ==> |e.1| < limit)
    decreases |answers|
  {
    if |roster| < limit {
      var selection := Selection(docs, answers);
      var selected, rest := selection.0, selection.1;
      if selected.Ok? && selected.value.Some? && selected.value.value !in roster {
        var grown := roster + [selected.value.value];
        EnrolmentRoster(docs, rest, grown, limit);
        RosterGrowthStep(roster, roster, Ids(docs), limit, selected.value.value);
        RosterGrowthTrans(roster, grown, Enrolment(docs, rest, grown, limit).1, Ids(docs), limit);
      } else if selected.Ok? && rest != [] && rest[0] != "n" && rest[0] != "N" {
        EnrolmentRoster(docs, rest[1..], roster, limit);
      }
    }
  }

  /** The answer read just before `left` remained of `answers` is "n" or "N". */
  predicate FollowsNo(answers: seq<string>, left: seq<string>)
  {
    |left| < |answers| && answers[|answers| - |left| - 1] in {"n", "N"}
  }

  /** The loop of `_add_players` only reads answers from the front, and fails only when
      the answers run out. */
  lemma {:induction false} EnrolmentAnswers(docs: seq<Document>, answers: seq<string>, roster: seq<nat>, limit: nat)
    ensures var e := Enrolment(docs, answers, roster, limit);
      && Consumed(answers, e.2)
      && (e.0.Err? ==> e.0 == Err(EOFError) && e.2 == [])
    decreases |answers|
  {
    if |roster| < limit {
      var selection := Selection(docs, answers);
      var selected, rest := selection.0, selection.1;
      if selected.Ok? && selected.value.Some? && selected.value.value !in roster {
        var grown := roster + [selected.value.value];
        EnrolmentAnswers(docs, rest, grown, limit);
        ConsumedTrans(answers, rest, Enrolment(docs, rest, grown, limit).2);
      } else if selected.Ok? && rest != [] {
        ConsumedOneMore(answers, rest);
        if rest[0] != "n" && rest[0] != "N" {
          EnrolmentAnswers(docs, rest[1..], roster, limit);
          ConsumedTrans(answers, rest[1..], Enrolment(docs, rest[1..], roster, limit).2);
        }
      }
    }
  }

  /** The loop of `_add_players` returns False right after an answer "n" or "N". */
  lemma {:induction false} EnrolmentStopsOnNo(docs: seq<Document>, answers: seq<string>, roster: seq<nat>, limit: nat)
    ensures var e := Enrolment(docs, answers, roster, limit);
      e.0 == Ok(false) ==> FollowsNo(answers, e.2)
    decreases |answers|, 1
  {
    if |roster| < limit {
      var selection := Selection(docs, answers);
      var selected, rest := selection.0, selection.1;
      if selected.Ok? && selected.value.Some? && selected.value.value !in roster {
        var grown := roster + [selected.value.value];
        assert Enrolment(docs, answers, roster, limit) == Enrolment(docs, rest, grown, limit);
        StopsOnNoLater(docs, answers, rest, grown, limit);
      } else if selected.Ok? && rest != [] {
        ConsumedOneMore(answers, rest);
        if rest[0] != "n" && rest[0] != "N" {
          assert Enrolment(docs, answers, roster, limit) == Enrolment(docs, rest[1..], roster, limit);
          StopsOnNoLater(docs, answers, rest[1..], roster, limit);
        }
      }
    }
  }

  /** The same, for the loop resumed on what is left of `answers`. */
  lemma StopsOnNoLater(docs: seq<Document>, answers: seq<string>, rest: seq<string>, roster: seq<nat>, limit: nat)
    requires Consumed(answers, rest) && |rest| < |answers|
    ensures var e := Enrolment(docs, rest, roster, limit);
      e.0 == Ok(false) ==> FollowsNo(answers, e.2)
    decreases |answers|, 0
  {
    EnrolmentStopsOnNo(docs, rest, roster, limit);
    EnrolmentAnswers(docs, rest, roster, limit);
    ReadOnward(answers, rest, Enrolment(docs, rest, roster, limit).2);
  }

  /** What is left after reading on from `middle` is left of `answers`, and the answer
      read last is the same for both. */
  lemma ReadOnward(answers: seq<string>, middle: seq<string>, rest: seq<string>)
    requires Consumed(answers, middle) && Consumed(middle, rest)
    ensures Consumed(answers, rest)
    ensures FollowsNo(middle, rest) ==> FollowsNo(answers, rest)
  {
    ConsumedTrans(answers, middle, rest);
    if |rest| < |middle| {
      ConsumedLast(answers, middle, rest);
    }
  }

  /** The player and tournament tables after `_save_tournament_and_update_players` saved
      a tournament of `turns` turns with this roster: exactly one record appended to the
      tournaments, with the next identifier, the tournament's attributes and "is_over", and
      the players of the roster marked as taken. */
  ghost predicate SavedTournament(playersBefore: seq<Document>, playersAfter: seq<Document>,
                                  tournamentsBefore: seq<Document>, tournamentsAfter: seq<Document>,
                                  roster: seq<nat>, turns: int)
  {
    && playersAfter == SetAttributeWhere(playersBefore, FLAG, VBool(true), roster)
    && |tournamentsAfter| == |tournamentsBefore| + 1
    && tournamentsAfter[..|tournamentsBefore|] == tournamentsBefore
    && tournamentsAfter[|tournamentsBefore|].id == NextId(tournamentsBefore)
    && tournamentsAfter[|tournamentsBefore|].fields.Keys == TournamentKeys() + {"is_over"}
    && tournamentsAfter[|tournamentsBefore|].fields["players_id"] == VIds(roster)
    && tournamentsAfter[|tournamentsBefore|].fields["number_of_turns"] == VInt(turns)
  }

  /** `action` is what the tournament menu gave: BACK when nothing is offered, otherwise
      the action that the answer read last selects on the menu offered. */
  ghost predicate MenuGave(create: bool, open: bool, lastAnswer: Option<string>, action: string)
  {
    if !create && !open then action == "BACK"
    else lastAnswer.Some? && ActionFor(create, open, lastAnswer.value) == Ok(action)
  }

  class TournamentManager {
    const view: ConsoleView
    const players: Table
    const tournaments: Table
    /** The NUMBERS_OF_PLAYERS setting. */
    const requiredPlayers: nat
    /** The NUMBER_OF_TURNS setting. */
    const turns: int

    ghost predicate Valid()
      reads this, players, tournaments
    {
      && players != tournaments
      && players.Valid() && tournaments.Valid()
      && PlayerTable(players.docs)
    }

    constructor (view: ConsoleView, players: Table, tournaments: Table, requiredPlayers: nat, turns: int)
      requires players != tournaments && players.Valid() && tournaments.Valid() && PlayerTable(players.docs)
      ensures this.view == view && this.players == players && this.tournaments == tournaments
      ensures this.requiredPlayers == requiredPlayers && this.turns == turns
      ensures Valid()
    {
      this.view := view;
      this.players := players;
      this.tournaments := tournaments;
      this.requiredPlayers := requiredPlayers;
      this.turns := turns;
    }

    /** `_are_conditions_met_to_create_tournament`: enough players, and enough of them
        free; the first condition that fails is warned about. Since free players are
        players, it comes down to enough free players. */
    method AreConditionsMetToCreateTournament() returns (r: bool)
      modifies view`log
      ensures r <==> |players.docs| >= requiredPlayers && FreeCount(players.docs) >= requiredPlayers
      ensures r <==> FreeCount(players.docs) >= requiredPlayers
      ensures view.log == old(view.log) +
        if |players.docs| < requiredPlayers then [Warn(NotEnoughPlayers)]
        else if FreeCount(players.docs) < requiredPlayers then [Warn(NotEnoughFreePlayers)]
        else []
    {
      if |players.docs| < requiredPlayers {
        view.ShowWarning(NotEnoughPlayers);
        return false;
      }
      var freePlayers := FreeCount(players.docs);
      if freePlayers < requiredPlayers {
        view.ShowWarning(NotEnoughFreePlayers);
        return false;
      }
      return true;
    }

    /** `_are_conditions_met_to_start_tournament`: some tournament is stored. */
    method AreConditionsMetToStartTournament() returns (r: bool)
      ensures r <==> tournaments.docs != []
    {
      return |tournaments.docs| != 0;
    }

    /** `_get_answer_in_multi_choices`: the caller's list is sorted by key in place
        (`sorted` is the list afterwards), then asked for as the multiple-choice loop does;
        `decisive` is the answer that stops the loop, when one does. */
    method GetAnswerInMultiChoices(choices: seq<Choice>) returns (r: Result<string>, sorted: seq<Choice>,
                                                                  ghost decisive: Option<string>)
      modifies view
      ensures sorted == SortByKey(choices)
      ensures var s := Settle(old(view.script), SomeKey(sorted));
        && decisive == (if s.Some? then Some(s.value.0) else None)
        && (s.None? ==> r == Err(EOFError) && view.script == [])
        && (s.Some? ==> r == CheckMultipleChoice(s.value.0, sorted) && view.script == s.value.1)
      ensures decisive.Some? ==>
        && SomeKeyContains(decisive.value, sorted) && |view.script| < |old(view.script)|
        && view.lastAnswer == decisive
      ensures Consumed(old(view.script), view.script)
    {
      sorted := SortByKey(choices);
      r := AskMultipleChoice(view, sorted);
      ghost var s := Settle(old(view.script), SomeKey(sorted));
      decisive := if s.Some? then Some(s.value.0) else None;
    }

    /** `_get_tournament_manager_user_action`. `menu` is the list of choices built: CREATE
        when the create conditions hold, then OPEN when some tournament is stored, then
        BACK and QUIT, keyed "1", "2", ... in order. With neither CREATE nor OPEN nothing is
        asked and the answer is BACK; otherwise the first answer some key contains selects
        from that menu as `check_multiple_choice` does. */
    method GetTournamentManagerUserAction() returns (r: Result<string>, ghost menu: seq<Choice>)
      modifies view
      ensures var create, open := FreeCount(old(players.docs)) >= requiredPlayers, old(tournaments.docs) != [];
        && (!create && !open ==> menu == [] && r == Ok("BACK") && view.script == old(view.script))
        && (create || open ==> MenuShape(menu, create, open))
        && (r == Ok("CREATE") ==> create)
        && (r == Ok("OPEN") ==> open)
      ensures menu != [] ==> var s := Settle(old(view.script), SomeKey(menu));
        && (s.None? ==> r == Err(EOFError) && view.script == [])
        && (s.Some? ==> r == CheckMultipleChoice(s.value.0, menu) && view.script == s.value.1)
      ensures var create, open := FreeCount(old(players.docs)) >= requiredPlayers, old(tournaments.docs) != [];
        (create || open) && Settle(old(view.script), SomeKey(menu)).Some? ==>
          r == ActionFor(create, open, Settle(old(view.script), SomeKey(menu)).value.0)
      ensures r.Ok? ==> MenuGave(FreeCount(players.docs) >= requiredPlayers, tournaments.docs != [], view.lastAnswer, r.value)
      ensures r.Ok? ==> r.value in {"CREATE", "OPEN", "BACK", "QUIT"}
      ensures r.Err? ==> r.error in {EOFError, ValueError}
      ensures menu != [] && r.Ok? ==> |view.script| < |old(view.script)|
      ensures |view.script| <= |old(view.script)|
    {
      var choices: seq<Choice> := [];
      var create := AreConditionsMetToCreateTournament();
      assert create == (FreeCount(old(players.docs)) >= requiredPlayers);
      if create {
        choices := WithNextChoice(choices, "Créer un tournois", "CREATE");
      }
      var open := AreConditionsMetToStartTournament();
      if open {
        choices := WithNextChoice(choices, "Ouvrir un tournois", "OPEN");
      }
      if |choices| == 0 {
        return Ok("BACK"), choices;
      }
      choices := WithNextChoice(choices, "Revenir en arrière", "BACK");
      choices := WithNextChoice(choices, "Quitter", "QUIT");
      menu := choices;
      r := AskAction(create, open, choices);
    }

    /** The end of `_get_tournament_manager_user_action` once something is offered: the
        menu, with BACK and QUIT appended, is asked through `_get_answer_in_multi_choices`,
        and the answer that settles it selects the action at its position on the menu. */
    method AskAction(create: bool, open: bool, menu: seq<Choice>) returns (r: Result<string>)
      requires create || open
      requires menu == ActionMenu(create, open)
      modifies view
      ensures MenuShape(menu, create, open)
      ensures var s := Settle(old(view.script), SomeKey(menu));
        && (s.None? ==> r == Err(EOFError) && view.script == [])
        && (s.Some? ==>
              && r == CheckMultipleChoice(s.value.0, menu) && r == ActionFor(create, open, s.value.0)
              && view.script == s.value.1 && view.lastAnswer == Some(s.value.0))
      ensures r.Ok? ==> view.lastAnswer.Some? && ActionFor(create, open, view.lastAnswer.value) == r
      ensures r.Ok? ==> r.value in {"CREATE", "OPEN", "BACK", "QUIT"}
      ensures r == Ok("CREATE") ==> create
      ensures r == Ok("OPEN") ==> open
      ensures r.Err? ==> r.error in {EOFError, ValueError}
      ensures r.Ok? ==> |view.script| < |old(view.script)|
      ensures |view.script| <= |old(view.script)|
    {
      ActionMenuShape(create, open);
      ActionMenuSorted(create, open);
      var sorted;
      ghost var decisive;
      r, sorted, decisive := GetAnswerInMultiChoices(menu);
      if decisive.Some? {
        ActionMenuAnswer(create, open, decisive.value);
        ActionMenuSelects(create, open, decisive.value);
      }
    }

    /** `_get_time_control`: the first answer some key of the time-control menu contains
        selects the time control, as TimeControlOf says. */
    method GetTimeControl() returns (r: Result<string>)
      modifies view
      ensures var s := Settle(old(view.script), SomeKey(TIME_CONTROL_CHOICES));
        && (s.None? ==> r == Err(EOFError) && view.script == [])
        && (s.Some? ==> r == TimeControlOf(s.value.0) && view.script == s.value.1)
      ensures r.Ok? ==> r.value in {"bullet", "blitz", "quick move"}
      ensures r.Err? ==> r.error in {EOFError, ValueError}
    {
      TimeControlMenu();
      var sorted;
      ghost var decisive;
      r, sorted, decisive := GetAnswerInMultiChoices(TIME_CONTROL_CHOICES);
      if decisive.Some? {
        TimeControlAnswer(decisive.value);
      }
    }

    /** `_get_not_empty_str`, through which `_get_name`, `_get_place`, `_get_description`,
        `_get_player_first_name` and `_get_player_last_name` ask: the first non-empty
        answer, as the loop of AskAndCheckField settles. */
    method GetNotEmptyStr() returns (r: Result<string>)
      modifies view
      ensures r.Ok? ==> Settle(old(view.script), NonEmptyAnswer) == Some((r.value, view.script))
      ensures r.Err? ==> Settle(old(view.script), NonEmptyAnswer) == None && r == Err(EOFError) && view.script == []
      ensures r.Ok? ==> r.value != ""
    {
      r := AskAndCheckField(view, EmptyValue);
    }

    /** `_get_valid_date`, through which `_get_start_date` and `_get_end_date` ask: the
        first answer that is a valid date, as the loop of AskValidDate settles. */
    method GetValidDate() returns (r: Result<string>)
      modifies view
      ensures r.Ok? ==> Settle(old(view.script), CalendarDate) == Some((r.value, view.script))
      ensures r.Err? ==> Settle(old(view.script), CalendarDate) == None && r == Err(EOFError) && view.script == []
      ensures r.Ok? ==> ValidDate(r.value)
    {
      r := AskValidDate(view);
    }

    /** `_get_tournament_info`: a new tournament built from the answers its six prompts
        settle on (TournamentAnswers), with the defaults of the constructor; an empty
        time-control answer escapes as ValueError. */
    method GetTournamentInfo() returns (r: Result<Tournament>)
      modifies view
      ensures var info := TournamentAnswers(old(view.script));
        && (info.None? ==> r == Err(EOFError))
        && (info.Some? ==> var a := info.value.0;
             && (TimeControlOf(a.timeControl).Err? ==> r == Err(ValueError))
             && (TimeControlOf(a.timeControl).Ok? ==>
                   && r.Ok? && view.script == info.value.1
                   && r.value.name == a.name && r.value.place == a.place
                   && r.value.startDate == a.startDate && r.value.endDate == a.endDate
                   && r.value.description == a.description
                   && r.value.timeControl.Value() == TimeControlOf(a.timeControl).value))
      ensures r.Ok? ==> var t := r.value;
        && fresh(t)
        && t.name != "" && t.place != "" && t.description != ""
        && ValidDate(t.startDate) && ValidDate(t.endDate)
        && t.numberOfTurns == turns && t.turnsId == [] && t.currentTurn == 1
        && t.playersId == [] && t.isOverEntry == None
      ensures r.Err? ==> r.error in {EOFError, ValueError}
      ensures Consumed(old(view.script), view.script)
      ensures r.Ok? ==> |view.script| + 6 <= |old(view.script)|
    {
      ghost var p := TOURNAMENT_PROMPTS;
      ghost var s0 := view.script;
      var name := GetNotEmptyStr();
      if name.Err? { SettleEachStops(s0, p); return Err(name.error); }
      ghost var s1 := view.script;
      SettleEachStep(s0, p, name.value, s1);
      var place := GetNotEmptyStr();
      if place.Err? { SettleEachStops(s1, p.next); return Err(place.error); }
      ghost var s2 := view.script;
      SettleEachStep(s1, p.next, place.value, s2);
      var startDate := GetValidDate();
      if startDate.Err? { SettleEachStops(s2, p.next.next); return Err(startDate.error); }
      ghost var s3 := view.script;
      SettleEachStep(s2, p.next.next, startDate.value, s3);
      var endDate := GetValidDate();
      if endDate.Err? { SettleEachStops(s3, p.next.next.next); return Err(endDate.error); }
      ghost var s4 := view.script;
      SettleEachStep(s3, p.next.next.next, endDate.value, s4);
      var description := GetNotEmptyStr();
      if description.Err? { SettleEachStops(s4, p.next.next.next.next); return Err(description.error); }
      ghost var s5 := view.script;
      var timeControlValue := GetTimeControl();
      TournamentAnswersAfterFive(s0);
      if timeControlValue.Err? { return Err(timeControlValue.error); }
      var timeControl := TimeControlFromValue(timeControlValue.value);
      var t := new Tournament(name.value, place.value, startDate.value, endDate.value,
                              description.value, timeControl.value, turns);
      return Ok(t);
    }

    /** The search values of `_select_a_player`: the first name, then the last name, each
        the first non-empty answer to its prompt. */
    method GetPlayerNames() returns (r: Result<(string, string)>)
      modifies view
      ensures var names := NameAnswers(old(view.script));
        && (names.None? ==> r == Err(EOFError) && view.script == [])
        && (names.Some? ==> r == Ok((names.value.0, names.value.1)) && view.script == names.value.2)
      ensures Consumed(old(view.script), view.script)
      ensures r.Ok? ==> r.value.0 != "" && r.value.1 != "" && |view.script| + 2 <= |old(view.script)|
    {
      ghost var s0 := view.script;
      var first := GetNotEmptyStr();
      if first.Err? { return Err(first.error); }
      ghost var s1 := view.script;
      var last := GetNotEmptyStr();
      if last.Err? { return Err(last.error); }
      ConsumedTrans(s0, s1, view.script);
      return Ok((first.value, last.value));
    }

    /** `_is_player_exist`: whether some player record matches the search, told to the
        operator by an information or a warning. */
    method IsPlayerExist(search: Query) returns (r: bool)
      modifies view`log
      ensures r <==> exists i :: 0 <= i < |players.docs| && TestFunc(search, players.docs[i].fields)
      ensures r == IsObjectExist(players.docs, search)
      ensures view.log == old(view.log) + [if r then Info(PlayerSelected) else Warn(PlayerNotFound)]
    {
      if IsObjectExist(players.docs, search) {
        view.ShowInformation(PlayerSelected);
        return true;
      }
      view.ShowWarning(PlayerNotFound);
      return false;
    }

    /** `_select_a_player`. `firstName`, `lastName` are the names
        the two prompts settle on and `confirmation` the answer to the confirmation prompt,
        when reached. No record of that name: a warning and None. Otherwise the first such
        record is rebuilt into a player, the next answer confirms, and the record's
        identifier is returned unless that answer is "n" or "N". */
    method SelectAPlayer() returns (r: Result<Option<nat>>, ghost firstName: string, ghost lastName: string,
                                    ghost confirmation: Option<string>)
      requires Valid()
      modifies view
      ensures var names := NameAnswers(old(view.script));
        && (names.None? ==> r == Err(EOFError) && view.script == [])
        && (names.Some? ==>
              && firstName == names.value.0 && lastName == names.value.1
              && var rest := names.value.2;
              && (!IsObjectExist(players.docs, NameQuery(firstName, lastName)) ==>
                    r == Ok(None) && confirmation.None? && view.script == rest)
              && (IsObjectExist(players.docs, NameQuery(firstName, lastName)) ==>
                    && (rest == [] ==> r == Err(EOFError) && view.script == [])
                    && (rest != [] ==> r.Ok? && confirmation == Some(rest[0]) && view.script == rest[1..])))
      ensures (r, view.script) == Selection(players.docs, old(view.script))
      ensures r.Err? ==> r.error == EOFError
      ensures Consumed(old(view.script), view.script)
      ensures r.Ok? ==> firstName != "" && lastName != "" && |view.script| + 2 <= |old(view.script)|
      ensures r.Ok? && !IsObjectExist(players.docs, NameQuery(firstName, lastName)) ==>
        |view.log| > 0 && view.log[|view.log| - 1] == Warn(PlayerNotFound)
      ensures r.Ok? && IsObjectExist(players.docs, NameQuery(firstName, lastName)) ==>
        confirmation.Some? && (r.value.None? <==> confirmation.value in {"n", "N"})
      ensures r.Ok? && r.value.Some? ==>
        && GetObject(players.docs, NameQuery(firstName, lastName)).Some?
        && r.value.value == GetObject(players.docs, NameQuery(firstName, lastName)).value.id
        && r.value.value in Ids(players.docs)
    {
      firstName, lastName, confirmation := "", "", None;
      ghost var s0 := view.script;
      ghost var selection := Selection(players.docs, s0);
      var names := GetPlayerNames();
      if names.Err? { return Err(names.error), firstName, lastName, confirmation; }
      ghost var rest := view.script;
      firstName, lastName := names.value.0, names.value.1;
      var search := NameQuery(names.value.0, names.value.1);
      var known := IsPlayerExist(search);
      if !known {
        return Ok(None), firstName, lastName, confirmation;
      }
      var found := GetObject(players.docs, search);
      var record := found.value;
      var player := PlayerFromRecord(record.fields).value;
      assert view.script == rest;
      var declines := Declines(view);
      if declines.Err? { return Err(EOFError), firstName, lastName, confirmation; }
      confirmation := Some(rest[0]);
      if declines.value {
        return Ok(None), firstName, lastName, confirmation;
      }
      assert selection == (Ok(Some(record.id)), view.script);
      return Ok(Some(record.id)), firstName, lastName, confirmation;
    }

    /** One pass of the loop of `_add_players`: a player is selected; an identifier
        already on the roster is refused with a warning; a stored one not yet there is
        appended (`added`); otherwise the failure is warned about and the next answer says
        whether to stop ("n" or "N": `stop` is true). Every pass takes at least one answer. */
    method AddPlayersPass(t: Tournament) returns (stop: Result<bool>, ghost added: Option<nat>)
      requires Valid()
      modifies view, t`playersId
      ensures stop.Err? ==> stop == Err(EOFError) && view.script == []
      ensures stop.Ok? ==> |view.script| < |old(view.script)|
      ensures |view.script| <= |old(view.script)|
      ensures added.None? ==> t.playersId == old(t.playersId)
      ensures added.Some? ==>
        && t.playersId == old(t.playersId) + [added.value]
        && added.value !in old(t.playersId) && added.value in Ids(players.docs)
      ensures stop == Ok(true) ==> added.None? && view.lastAnswer.Some? && view.lastAnswer.value in {"n", "N"}
      ensures var (selected, rest) := Selection(players.docs, old(view.script));
        && (selected.Err? ==> stop == Err(EOFError) && added.None?)
        && (selected.Ok? && selected.value.Some? && selected.value.value !in old(t.playersId) ==>
              stop == Ok(false) && added == selected.value && view.script == rest)
        && (selected.Ok? && (selected.value.None? || selected.value.value in old(t.playersId)) ==>
              && added.None?
              && (rest == [] ==> stop == Err(EOFError))
              && (rest != [] ==>
                    && stop == Ok(rest[0] in {"n", "N"})
                    && view.script == rest[1..] && view.lastAnswer == Some(rest[0])))
    {
      added := None;
      view.ShowInformation(AddingPlayer(|t.playersId| + 1));
      var selected, _, _, _ := SelectAPlayer();
      if selected.Err? {
        return Err(selected.error), added;
      }
      var playerId := selected.value;
      if playerId.Some? && playerId.value in t.playersId {
        view.ShowWarning(PlayerAlreadyInTournament);
        playerId := None;
      }
      if playerId.Some? {
        added := playerId;
        t.playersId := t.playersId + [playerId.value];
        view.ShowInformation(PlayerAdded);
        return Ok(false), added;
      }
      stop := AskToContinue();
    }

    /** The failed-selection branch of the loop of `_add_players`: a warning, then the
        next answer says whether to stop ("n" or "N": true). */
    method AskToContinue() returns (stop: Result<bool>)
      modifies view`log, view`script, view`lastAnswer
      ensures |view.log| > 0 && view.log[|view.log| - 1] == Warn(PlayerNotAdded)
      ensures old(view.script) == [] ==> stop == Err(EOFError) && view.script == []
      ensures old(view.script) != [] ==>
        && stop == Ok(old(view.script)[0] in {"n", "N"})
        && view.script == old(view.script)[1..] && view.lastAnswer == Some(old(view.script)[0])
    {
      view.ShowWarning(PlayerNotAdded);
      var declines := Declines(view);
      if declines.Err? {
        return Err(EOFError);
      }
      return Ok(declines.value);
    }

    /** `_add_players`: players are selected until the roster holds the required number,
        or until the operator stops after a failed selection. The roster only grows at its
        end, by stored identifiers, without duplicates and up to the required number; True
        is returned only with a full roster, False only when the answer read last is "n"
        or "N". */
    method AddPlayers(t: Tournament) returns (r: Result<bool>)
      requires Valid()
      modifies view, t`playersId
      ensures RosterGrowth(old(t.playersId), t.playersId, Ids(players.docs), requiredPlayers)
      ensures r == Ok(true) ==> |t.playersId| >= requiredPlayers
      ensures r == Ok(false) ==>
        |t.playersId| < requiredPlayers && view.lastAnswer.Some? && view.lastAnswer.value in {"n", "N"}
      ensures r.Err? ==> r == Err(EOFError) && view.script == []
      ensures |view.script| <= |old(view.script)|
      ensures (r, t.playersId, view.script) ==
        Enrolment(players.docs, old(view.script), old(t.playersId), requiredPlayers)
      ensures r == Ok(false) ==> FollowsNo(old(view.script), view.script)
    {
      ghost var outcome := Enrolment(players.docs, view.script, t.playersId, requiredPlayers);
      EnrolmentStopsOnNo(players.docs, view.script, t.playersId, requiredPlayers);
      view.ShowInformation(AddingPlayers);
      while |t.playersId| < requiredPlayers
        invariant RosterGrowth(old(t.playersId), t.playersId, Ids(players.docs), requiredPlayers)
        invariant |view.script| <= |old(view.script)|
        invariant Enrolment(players.docs, view.script, t.playersId, requiredPlayers) == outcome
        decreases |view.script|
      {
        ghost var roster, answers := t.playersId, view.script;
        var stop, added := AddPlayersPass(t);
        if stop.Err? {
          return Err(stop.error);
        }
        if added.Some? {
          RosterGrowthStep(old(t.playersId), roster, Ids(players.docs), requiredPlayers, added.value);
          assert Enrolment(players.docs, answers, roster, requiredPlayers)
              == Enrolment(players.docs, view.script, t.playersId, requiredPlayers);
        }
        if stop.value {
          return Ok(false);
        }
      }
      return Ok(true);
    }

    /** `_save_tournament_and_update_players`: exactly one tournament record is appended,
        the tournament's attributes with its "is_over" entry; the players of the roster
        are marked as taken and no other player record changes. */
    method SaveTournamentAndUpdatePlayers(t: Tournament)
      requires Valid()
      modifies tournaments, players, t`isOverEntry
      ensures Valid()
      ensures t.isOverEntry == Some(t.IsOver())
      ensures tournaments.docs == old(tournaments.docs) + [Document(NextId(old(tournaments.docs)), t.Attributes())]
      ensures var saved := tournaments.docs[|old(tournaments.docs)|].fields;
        && saved.Keys == TournamentKeys() + {"is_over"}
        && saved["players_id"] == VIds(old(t.playersId)) && saved["number_of_turns"] == VInt(old(t.numberOfTurns))
      ensures players.docs == SetAttributeWhere(old(players.docs), FLAG, VBool(true), old(t.playersId))
      ensures NoPlayerNames(old(tournaments.docs)) ==> NoPlayerNames(tournaments.docs)
      ensures NamesUnique(old(players.docs)) ==> NamesUnique(players.docs)
    {
      var data := t.TournamentData();
      if NoPlayerNames(tournaments.docs) {
        AppendTournamentRecord(tournaments.docs, Document(NextId(tournaments.docs), data));
      }
      Save(tournaments, data);
      MarkingKeepsPlayerTable(players.docs, t.playersId);
      if NamesUnique(players.docs) {
        MarkingKeepsNamesUnique(players.docs, t.playersId);
      }
      UpdateAttributeMany(players, FLAG, VBool(true), t.playersId);
    }

    /** The rest of `_create_tournament` once the tournament is built and not yet known:
        players are added (whatever `_add_players` returns), the next answer confirms, and
        unless it is "n" or "N" the tournament is saved and its players marked. `roster` is
        the roster saved, `afterAdding` the answers left once players are added and
        `confirmation` the answer to the confirmation, when reached: the first of them. */
    method EnrolAndSave(t: Tournament) returns (r: Result<bool>, ghost roster: seq<nat>,
                                                ghost confirmation: Option<string>, ghost afterAdding: seq<string>)
      requires Valid()
      requires t.playersId == [] && t.numberOfTurns == turns
      modifies view, players, tournaments, t`playersId, t`isOverEntry
      ensures Valid()
      ensures r.Err? ==> r == Err(EOFError)
      ensures |view.script| <= |old(view.script)|
      ensures r.Ok? <==> confirmation.Some?
      ensures confirmation.Some? ==>
        && view.lastAnswer == confirmation
        && [confirmation.value] + view.script == afterAdding
        && (r == Ok(true) <==> confirmation.value !in {"n", "N"})
      ensures r != Ok(true) ==> players.docs == old(players.docs) && tournaments.docs == old(tournaments.docs)
      ensures r == Ok(true) ==>
        && RosterGrowth([], roster, Ids(old(players.docs)), requiredPlayers)
        && SavedTournament(old(players.docs), players.docs, old(tournaments.docs), tournaments.docs, roster, turns)
      ensures r == Ok(true) && |roster| < requiredPlayers ==> FollowsNo(old(view.script), afterAdding)
      ensures var (added, enrolled, left) := Enrolment(old(players.docs), old(view.script), [], requiredPlayers);
        && afterAdding == left
        && (added.Err? || left == [] ==> r == Err(EOFError))
        && (added.Ok? && left != [] ==> confirmation == Some(left[0]))
        && (confirmation.Some? ==> added.Ok?)
        && (r == Ok(true) ==> roster == enrolled)
      ensures NoPlayerNames(old(tournaments.docs)) ==> NoPlayerNames(tournaments.docs)
      ensures NamesUnique(old(players.docs)) ==> NamesUnique(players.docs)
    {
      var added := AddPlayers(t);
      afterAdding := view.script;
      roster := t.playersId;
      if added.Err? {
        return Err(added.error), roster, None, afterAdding;
      }
      assert !added.value ==> FollowsNo(old(view.script), afterAdding);
      r, confirmation := ConfirmAndSave(t);
      if confirmation.Some? {
        assert [confirmation.value] + view.script == afterAdding;
      }
    }

    /** The end of `_create_tournament`, once players are added: the next answer confirms;
        "n" or "N" saves nothing, any other answer saves the tournament and marks its
        players. `confirmation` is that answer, when there is one. */
    method ConfirmAndSave(t: Tournament) returns (r: Result<bool>, ghost confirmation: Option<string>)
      requires Valid()
      requires t.numberOfTurns == turns
      modifies view, players, tournaments, t`isOverEntry
      ensures Valid()
      ensures old(view.script) == [] ==> r == Err(EOFError) && confirmation.None? && view.script == []
      ensures old(view.script) != [] ==>
        && confirmation == Some(old(view.script)[0]) && view.lastAnswer == confirmation
        && view.script == old(view.script)[1..]
        && r == Ok(old(view.script)[0] !in {"n", "N"})
      ensures r != Ok(true) ==> players.docs == old(players.docs) && tournaments.docs == old(tournaments.docs)
      ensures r == Ok(true) ==>
        SavedTournament(old(players.docs), players.docs, old(tournaments.docs), tournaments.docs, t.playersId, turns)
      ensures NoPlayerNames(old(tournaments.docs)) ==> NoPlayerNames(tournaments.docs)
      ensures NamesUnique(old(players.docs)) ==> NamesUnique(players.docs)
    {
      confirmation := if view.script == [] then None else Some(view.script[0]);
      var declines := Declines(view);
      if declines.Err? {
        return Err(EOFError), confirmation;
      }
      if declines.value {
        return Ok(false), confirmation;
      }
      SaveTournamentAndUpdatePlayers(t);
      return Ok(true), confirmation;
    }

    /** `_create_tournament`. `roster` is the roster saved and `confirmation` the answer
        to the final confirmation, when reached: the answer read last. The result of
        `_add_players` is not looked at: a roster shorter than required is saved if
        confirmed. "n" or "N" saves nothing. Against tournament records the duplicate
        search never fires. */
    method CreateTournament() returns (r: Result<bool>, ghost roster: seq<nat>, ghost confirmation: Option<string>,
                                       ghost afterInfo: seq<string>)
      requires Valid()
      modifies view, players, tournaments
      ensures Valid()
      ensures r.Err? ==> r.error in {EOFError, ValueError}
      ensures |view.script| < |old(view.script)| || r.Err?
      ensures |view.script| <= |old(view.script)|
      ensures r != Ok(true) ==> players.docs == old(players.docs) && tournaments.docs == old(tournaments.docs)
      ensures confirmation.Some? ==> view.lastAnswer == confirmation
      ensures r == Ok(true) <==> confirmation.Some? && confirmation.value !in {"n", "N"}
      ensures r == Ok(false) && NoPlayerNames(old(tournaments.docs)) ==> confirmation.Some?
      ensures r == Ok(true) ==>
        SavedTournament(old(players.docs), players.docs, old(tournaments.docs), tournaments.docs, roster, turns)
      ensures NoPlayerNames(old(tournaments.docs)) ==> NoPlayerNames(tournaments.docs)
      ensures NamesUnique(old(players.docs)) ==> NamesUnique(players.docs)
      ensures var info := TournamentAnswers(old(view.script));
        && (confirmation.Some? ==> info.Some? && afterInfo == info.value.1)
        && (info.Some? && TimeControlOf(info.value.0.timeControl).Ok? && NoPlayerNames(old(tournaments.docs)) ==>
              && afterInfo == info.value.1
              && var (added, _, left) := Enrolment(old(players.docs), afterInfo, [], requiredPlayers);
              (added.Ok? && left != [] ==> confirmation.Some?))
      ensures var (added, enrolled, left) := Enrolment(old(players.docs), afterInfo, [], requiredPlayers);
        && (confirmation.Some? ==> added.Ok? && [confirmation.value] + view.script == left)
        && (r == Ok(true) ==> roster == enrolled && RosterGrowth([], roster, Ids(old(players.docs)), requiredPlayers))
        && (r == Ok(true) && |roster| < requiredPlayers ==> FollowsNo(afterInfo, left))
    {
      roster, confirmation, afterInfo := [], None, [];
      view.ShowInformation(CreatingTournament);
      var info := GetTournamentInfo();
      if info.Err? {
        return Err(info.error), roster, confirmation, afterInfo;
      }
      afterInfo := view.script;
      var t := info.value;
      if IsObjectExist(tournaments.docs, TournamentSearch(t.name, t.startDate)) {
        if NoPlayerNames(tournaments.docs) {
          TournamentDuplicateCheckNeverFires(tournaments.docs, t.name, t.startDate);
        }
        view.ShowWarning(TournamentAlreadyKnown);
        return Ok(false), roster, confirmation, afterInfo;
      }
      ghost var afterAdding;
      r, roster, confirmation, afterAdding := EnrolAndSave(t);
    }

    /** The CREATE branch of `run`: `_create_tournament` runs and its result is ignored.
        Unless an exception escapes, at least one answer is taken; tournaments are only
        appended and player records only re-flagged. */
    method CreateCase() returns (r: Result<Step>)
      requires Valid()
      modifies view, players, tournaments
      ensures Valid()
      ensures r.Err? ==> r.error in {EOFError, ValueError}
      ensures r.Ok? ==> r == Ok(Continue) && |view.script| < |old(view.script)|
      ensures |view.script| <= |old(view.script)|
      ensures old(tournaments.docs) <= tournaments.docs
      ensures |players.docs| == |old(players.docs)|
      ensures NoPlayerNames(old(tournaments.docs)) ==> NoPlayerNames(tournaments.docs)
      ensures NamesUnique(old(players.docs)) ==> NamesUnique(players.docs)
    {
      var created, _, _, _ := CreateTournament();
      if created.Err? {
        return Err(created.error);
      }
      return Ok(Continue);
    }

    /** `run`: the menu loop, until BACK (chosen, or the only way left) or QUIT, or until
        an exception escapes. OPEN does nothing yet. Tournaments are only appended, and
        player records are only re-flagged, never added or removed. */
    method Run() returns (r: Result<Step>)
      requires Valid()
      modifies view, players, tournaments
      ensures Valid()
      ensures r.Ok? ==> r.value in {Back, Quit}
      ensures r.Ok? ==> MenuGave(FreeCount(players.docs) >= requiredPlayers, tournaments.docs != [], view.lastAnswer,
                                 if r.value == Back then "BACK" else "QUIT")
      ensures r.Err? ==> r.error in {EOFError, ValueError}
      ensures old(tournaments.docs) <= tournaments.docs
      ensures |players.docs| == |old(players.docs)|
      ensures NoPlayerNames(old(tournaments.docs)) ==> NoPlayerNames(tournaments.docs)
      ensures NamesUnique(old(players.docs)) ==> NamesUnique(players.docs)
    {
      while true
        invariant Valid()
        invariant old(tournaments.docs) <= tournaments.docs
        invariant |players.docs| == |old(players.docs)|
        invariant NoPlayerNames(old(tournaments.docs)) ==> NoPlayerNames(tournaments.docs)
        invariant NamesUnique(old(players.docs)) ==> NamesUnique(players.docs)
        decreases |view.script|
      {
        var action, menu := GetTournamentManagerUserAction();
        if action.Err? {
          return Err(action.error);
        }
        if action.value == "BACK" {
          return Ok(Back);
        } else if action.value == "QUIT" {
          return Ok(Quit);
        } else if action.value == "CREATE" {
          var step := CreateCase();
          if step.Err? {
            return Err(step.error);
          }
        }
      }
    }
  }
}
