/** The player menu of Controllers/players.py: choose between creating a player, the
    (unfinished) score update, going back and quitting; creating a player asks for the
    four identity fields, refuses a name already stored, asks for confirmation and saves. */
module PlayersController {
  import opened Exceptions
  import opened Text
  import opened Validators
  import opened TinyManager
  import opened PlayerModel
  import opened View
  import opened Dates
  import opened GeneralController

  /** The choices of `_create_or_update_player`. */
  const MENU: seq<Choice> := [
    Choice("1", "Créer un joueur", "CREATE"),
    Choice("2", "Mettre à jour le score d'un joueur", "UPDATE"),
    Choice("3", "Revenir en arrière", "BACK"),
    Choice("4", "Quitter", "QUIT")]

  /** The choices of `_get_gender`. */
  const GENDER_CHOICES: seq<Choice> := [
    Choice("1", "Homme", "M"),
    Choice("2", "Femme", "F")]

  lemma MenusAreNumbered()
    ensures NumberedInOrder(MENU) && NumberedInOrder(GENDER_CHOICES)
  {
    assert NatToString(1) == "1" && NatToString(2) == "2";
    assert NatToString(3) == "3" && NatToString(4) == "4";
  }

  /** Every stored record can be rebuilt into a player. */
  predicate PlayerTable(docs: seq<Document>)
  {
    forall i :: 0 <= i < |docs| ==> PlayerFromRecord(docs[i].fields).Ok?
  }

  /** The search of the duplicate check and of player selection. */
  function NameQuery(firstName: string, lastName: string): Query
  {
    [("first_name", firstName), ("last_name", lastName)]
  }

  /** A record matches the name search exactly when both name fields hold those strings. */
  lemma NameQueryMatches(firstName: string, lastName: string, fields: Fields)
    ensures TestFunc(NameQuery(firstName, lastName), fields) <==>
      Get(fields, "first_name") == VStr(firstName) && Get(fields, "last_name") == VStr(lastName)
  {
    var q := NameQuery(firstName, lastName);
    assert Dict(q[..1]) == map["first_name" := firstName];
    assert Dict(q) == map["first_name" := firstName, "last_name" := lastName];
  }

  /** What each answer of the player menu selects: "1" to "4" their actions, anything
      else the ValueError of the empty answer. */
  function ActionOf(answer: string): (r: Result<string>)
    ensures r.Err? ==> r.error == ValueError
  {
    if answer == "1" then Ok("CREATE")
    else if answer == "2" then Ok("UPDATE")
    else if answer == "3" then Ok("BACK")
    else if answer == "4" then Ok("QUIT")
    else Err(ValueError)
  }

  /** What each answer of the gender menu selects once `Gender(value)` is applied: "1"
      Male, "2" Female, anything else the ValueError of the empty answer. */
  function GenderOf(answer: string): (r: Result<Gender>)
    ensures r.Err? ==> r.error == ValueError
  {
    if answer == "1" then Ok(Male) else if answer == "2" then Ok(Female) else Err(ValueError)
  }

  /** The prompts `_get_info_player` runs before the birth date: first name, last name,
      gender. */
  const INFO_PROMPTS: Prompts := Ask(NonEmptyAnswer, Ask(NonEmptyAnswer, Ask(SomeKey(GENDER_CHOICES), End)))

  /** The prompt of `_birth_date`. */
  const BIRTH_PROMPT: Prompts := Ask(CalendarDate, End)

  /** What `_get_info_player` comes to on these answers, with the answers left: the first
      and last names and the gender answer as INFO_PROMPTS settles them; a gender answer
      that selects nothing raises ValueError before the date is asked; then the birth
      date. EOFError when the answers run out first. */
  ghost function InfoOutcome(answers: seq<string>): (Result<Player>, seq<string>)
  {
    var asked := SettleEach(answers, INFO_PROMPTS);
    if asked.None? then (Err(EOFError), [])
    else
      var (fields, rest) := asked.value;
      var gender := GenderOf(fields[2]);
      if gender.Err? then (Err(ValueError), rest)
      else
        var birth := SettleEach(rest, BIRTH_PROMPT);
        if birth.None? then (Err(EOFError), [])
        else (Ok(NewPlayer(fields[0], fields[1], gender.value, birth.value.0[0])), birth.value.1)
  }

  /** Once each of the three prompts before the date has settled, one after the other,
      INFO_PROMPTS settles on those three answers and what follows them. */
  lemma InfoPromptsSettle(s0: seq<string>)
    ensures var first := Settle(s0, NonEmptyAnswer);
      first.Some? ==> var last := Settle(first.value.1, NonEmptyAnswer);
      last.Some? ==> var gender := Settle(last.value.1, SomeKey(GENDER_CHOICES));
      gender.Some? ==>
        SettleEach(s0, INFO_PROMPTS) == Some(([first.value.0, last.value.0, gender.value.0], gender.value.1))
  {
    var first := Settle(s0, NonEmptyAnswer);
    if first.None? { return; }
    var (firstName, s1) := first.value;
    var last := Settle(s1, NonEmptyAnswer);
    if last.None? { return; }
    var (lastName, s2) := last.value;
    var answer := Settle(s2, SomeKey(GENDER_CHOICES));
    if answer.None? { return; }
    var (gender, s3) := answer.value;
    var p := INFO_PROMPTS;
    SettleEachStep(s0, p, firstName, s1);
    SettleEachStep(s1, p.next, lastName, s2);
    SettleEachStep(s2, p.next.next, gender, s3);
    assert SettleEach(s3, End) == Some(([], s3));
    assert [gender] + [] == [gender];
    assert SettleEach(s2, p.next.next) == Some(([gender], s3));
    assert [lastName] + [gender] == [lastName, gender];
    assert SettleEach(s1, p.next) == Some(([lastName, gender], s3));
    assert [firstName] + [lastName, gender] == [firstName, lastName, gender];
  }

  /** The birth-date prompt settles exactly as its one gate does. */
  lemma BirthPromptSettles(answers: seq<string>)
    ensures var birth := Settle(answers, CalendarDate);
      && (birth.None? ==> SettleEach(answers, BIRTH_PROMPT).None?)
      && (birth.Some? ==> SettleEach(answers, BIRTH_PROMPT) == Some(([birth.value.0], birth.value.1)))
  {
    var birth := Settle(answers, CalendarDate);
    if birth.None? {
      SettleEachStops(answers, BIRTH_PROMPT);
    } else {
      SettleEachStep(answers, BIRTH_PROMPT, birth.value.0, birth.value.1);
      assert SettleEach(birth.value.1, End) == Some(([], birth.value.1));
      assert [birth.value.0] + [] == [birth.value.0];
    }
  }

  /** When the three prompts before the date settle on a gender answer that selects a
      gender and the birth date settles too, `_get_info_player` builds the player from
      those answers. */
  lemma InfoOutcomeBuilds(s0: seq<string>)
    ensures var first := Settle(s0, NonEmptyAnswer);
      first.Some? ==> var last := Settle(first.value.1, NonEmptyAnswer);
      last.Some? ==> var gender := Settle(last.value.1, SomeKey(GENDER_CHOICES));
      gender.Some? && GenderOf(gender.value.0).Ok? ==> var birth := Settle(gender.value.1, CalendarDate);
      birth.Some? ==>
        InfoOutcome(s0) ==
          (Ok(NewPlayer(first.value.0, last.value.0, GenderOf(gender.value.0).value, birth.value.0)), birth.value.1)
  {
    var first := Settle(s0, NonEmptyAnswer);
    if first.None? { return; }
    var last := Settle(first.value.1, NonEmptyAnswer);
    if last.None? { return; }
    var gender := Settle(last.value.1, SomeKey(GENDER_CHOICES));
    if gender.None? || GenderOf(gender.value.0).Err? { return; }
    var birth := Settle(gender.value.1, CalendarDate);
    if birth.None? { return; }
    var fields := [first.value.0, last.value.0, gender.value.0];
    assert SettleEach(s0, INFO_PROMPTS) == Some((fields, gender.value.1)) by { InfoPromptsSettle(s0); }
    assert SettleEach(gender.value.1, BIRTH_PROMPT) == Some(([birth.value.0], birth.value.1)) by {
      BirthPromptSettles(gender.value.1);
    }
    assert fields[0] == first.value.0 && fields[1] == last.value.0 && fields[2] == gender.value.0;
  }

  /** A player `_get_info_player` builds has non-empty names, a valid birth date and the
      constructor's defaults, and took at least four answers; it fails only with EOFError
      or ValueError, and never reads more answers than it has. */
  lemma InfoOutcomeShape(answers: seq<string>)
    ensures var (r, rest) := InfoOutcome(answers);
      && |rest| <= |answers|
      && (r.Err? ==> r.error in {EOFError, ValueError})
      && (r.Ok? ==> var p := r.value.person;
            && r.value == NewPlayer(p.firstName, p.lastName, p.gender, p.dateOfBirth)
            && p.firstName != "" && p.lastName != "" && ValidDate(p.dateOfBirth)
            && |rest| + 4 <= |answers|)
  {
    var p := INFO_PROMPTS;
    var first := Settle(answers, NonEmptyAnswer);
    if first.None? {
      SettleEachStops(answers, p);
      return;
    }
    var last := Settle(first.value.1, NonEmptyAnswer);
    if last.None? {
      SettleEachStep(answers, p, first.value.0, first.value.1);
      SettleEachStops(first.value.1, p.next);
      return;
    }
    var gender := Settle(last.value.1, SomeKey(GENDER_CHOICES));
    if gender.None? {
      SettleEachStep(answers, p, first.value.0, first.value.1);
      SettleEachStep(first.value.1, p.next, last.value.0, last.value.1);
      SettleEachStops(last.value.1, p.next.next);
      return;
    }
    var rest := gender.value.1;
    InfoPromptsSettle(answers);
    BirthPromptSettles(rest);
  }

  /** Two records carry the same first and last name. */
  predicate SameName(a: Fields, b: Fields)
  {
    Get(a, "first_name") == Get(b, "first_name") && Get(a, "last_name") == Get(b, "last_name")
  }

  /** No two stored records carry the same name. */
  predicate NamesUnique(docs: seq<Document>)
  {
    forall i, j :: 0 <= i < j < |docs| ==> !SameName(docs[i].fields, docs[j].fields)
  }

  /** A record appended after a name search that found nothing keeps the names unique. */
  lemma AppendUnknownNameKeepsUnique(docs: seq<Document>, d: Document, firstName: string, lastName: string)
    requires NamesUnique(docs)
    requires !IsObjectExist(docs, NameQuery(firstName, lastName))
    requires Get(d.fields, "first_name") == VStr(firstName) && Get(d.fields, "last_name") == VStr(lastName)
    ensures NamesUnique(docs + [d])
  {
    var all := docs + [d];
    forall i, j | 0 <= i < j < |all| ensures !SameName(all[i].fields, all[j].fields) {
      if j == |docs| {
        assert all[i] == docs[i];
        NameQueryMatches(firstName, lastName, docs[i].fields);
      } else {
        assert all[i] == docs[i] && all[j] == docs[j];
      }
    }
  }

  /** A player of that name is already stored. */
  predicate Known(docs: seq<Document>, p: Player)
  {
    IsObjectExist(docs, NameQuery(p.person.firstName, p.person.lastName))
  }

  /** Appending the record of a player not yet known keeps the table a table of player
      records with unique names. */
  lemma AppendNewPlayerRecord(docs: seq<Document>, id: nat, p: Player)
    requires PlayerTable(docs) && !Known(docs, p)
    ensures PlayerTable(docs + [Document(id, PlayerData(p))])
    ensures NamesUnique(docs) ==> NamesUnique(docs + [Document(id, PlayerData(p))])
  {
    var d := Document(id, PlayerData(p));
    PlayerRecordRoundTrip(p);
    var all := docs + [d];
    forall i | 0 <= i < |all| ensures PlayerFromRecord(all[i].fields).Ok? {
      if i < |docs| {
        assert all[i] == docs[i];
      }
    }
    if NamesUnique(docs) {
      AppendUnknownNameKeepsUnique(docs, d, p.person.firstName, p.person.lastName);
    }
  }

  /** What one pass of the `run` loop leads to. */
  datatype Step = Continue | Back | Quit

  class PlayerManager {
    const view: ConsoleView
    const players: Table

    ghost predicate Valid()
      reads this, players
    {
      players.Valid() && PlayerTable(players.docs)
    }

    constructor (view: ConsoleView, players: Table)
      requires players.Valid() && PlayerTable(players.docs)
      ensures this.view == view && this.players == players && Valid()
    {
      this.view := view;
      this.players := players;
    }

    /** `_create_or_update_player`: the menu re-prompts until some key contains the answer;
        then a key gives its action and the empty answer (contained in every key) escapes
        as ValueError. Every outcome but running out of answers consumes one. */
    method CreateOrUpdatePlayer() returns (r: Result<string>)
      modifies view
      ensures r.Ok? ==> r.value in {"CREATE", "UPDATE", "BACK", "QUIT"}
      ensures r.Err? ==> r.error in {EOFError, ValueError}
      ensures var answers, k := old(view.script), FirstAccepted(old(view.script), SomeKey(MENU));
        && view.log == old(view.log) + Warnings(InvalidChoice, k)
        && (k < |answers| ==>
              && view.script == answers[k + 1..] && r == ActionOf(answers[k])
              && (r == Err(ValueError) <==> answers[k] == ""))
        && (k == |answers| ==> r == Err(EOFError) && view.script == [])
      ensures r.Ok? ==> view.lastAnswer.Some? && ActionOf(view.lastAnswer.value) == r
    {
      MenusAreNumbered();
      r := AskMultipleChoice(view, MENU);
      ghost var answers, k := old(view.script), FirstAccepted(old(view.script), SomeKey(MENU));
      if k < |answers| {
        NumberedMenuSemantics(MENU, answers[k]);
        if answers[k] != "" {
          assert answers[k][0] == answers[k][|answers[k]| - 1];
        }
      }
    }

    /** `_get_first_name`: the first non-empty answer, one warning per empty answer before it. */
    method GetFirstName() returns (r: Result<string>)
      modifies view
      ensures r.Ok? ==> r.value != ""
      ensures view.log == old(view.log) + Warnings(EmptyValue, FirstAccepted(old(view.script), NonEmptyAnswer))
      ensures r.Ok? ==> Settle(old(view.script), NonEmptyAnswer) == Some((r.value, view.script))
      ensures r.Err? ==> Settle(old(view.script), NonEmptyAnswer) == None && r == Err(EOFError) && view.script == []
    {
      r := AskAndCheckField(view, EmptyValue);
    }

    /** `_get_last_name`: as `_get_first_name`. */
    method GetLastName() returns (r: Result<string>)
      modifies view
      ensures r.Ok? ==> r.value != ""
      ensures view.log == old(view.log) + Warnings(EmptyValue, FirstAccepted(old(view.script), NonEmptyAnswer))
      ensures r.Ok? ==> Settle(old(view.script), NonEmptyAnswer) == Some((r.value, view.script))
      ensures r.Err? ==> Settle(old(view.script), NonEmptyAnswer) == None && r == Err(EOFError) && view.script == []
    {
      r := AskAndCheckField(view, EmptyValue);
    }

    /** `_get_gender`: only "M" or "F"; the empty answer escapes as ValueError. */
    method GetGender() returns (r: Result<string>)
      modifies view
      ensures r.Ok? ==> r.value in {"M", "F"}
      ensures r.Err? ==> r.error in {EOFError, ValueError}
      ensures view.log == old(view.log) + Warnings(InvalidChoice, FirstAccepted(old(view.script), SomeKey(GENDER_CHOICES)))
      ensures var gender := Settle(old(view.script), SomeKey(GENDER_CHOICES));
        && (gender.None? ==> r == Err(EOFError) && view.script == [])
        && (gender.Some? ==>
              && view.script == gender.value.1
              && r == (if gender.value.0 == "1" then Ok("M") else if gender.value.0 == "2" then Ok("F") else Err(ValueError))
              && (r.Ok? <==> GenderOf(gender.value.0).Ok?)
              && (r.Ok? ==> GenderFromValue(r.value) == GenderOf(gender.value.0)))
    {
      MenusAreNumbered();
      r := AskMultipleChoice(view, GENDER_CHOICES);
      ghost var answers, k := old(view.script), FirstAccepted(old(view.script), SomeKey(GENDER_CHOICES));
      if k < |answers| {
        NumberedMenuSemantics(GENDER_CHOICES, answers[k]);
        if answers[k] == "1" || answers[k] == "2" {
          assert answers[k][0] == answers[k][|answers[k]| - 1];
        }
      }
    }

    /** `_birth_date`: the first answer that is a dd/mm/yyyy calendar date. */
    method BirthDate() returns (r: Result<string>)
      modifies view
      ensures r.Ok? ==> ValidDate(r.value)
      ensures view.log == old(view.log) + Warnings(BadDateFormat, FirstAccepted(old(view.script), CalendarDate))
      ensures r.Ok? ==> Settle(old(view.script), CalendarDate) == Some((r.value, view.script))
      ensures r.Err? ==> Settle(old(view.script), CalendarDate) == None && r == Err(EOFError) && view.script == []
    {
      r := AskValidDate(view);
    }

    /** `_get_info_player`: a new player with non-empty names, a valid birth date and the
        default ranking, score, opponents and tournament flag. Reads at least four answers. */
    method GetInfoPlayer() returns (r: Result<Player>)
      modifies view
      ensures (r, view.script) == InfoOutcome(old(view.script))
      ensures r.Ok? ==> var p := r.value.person;
        && r.value == NewPlayer(p.firstName, p.lastName, p.gender, p.dateOfBirth)
        && p.firstName != "" && p.lastName != "" && ValidDate(p.dateOfBirth)
      ensures r.Err? ==> r.error in {EOFError, ValueError}
      ensures |view.script| <= |old(view.script)|
      ensures r.Ok? ==> |view.script| + 4 <= |old(view.script)|
    {
      ghost var p := INFO_PROMPTS;
      ghost var s0 := view.script;
      var firstName := GetFirstName();
      if firstName.Err? {
        SettleEachStops(s0, p);
        assert InfoOutcome(s0) == (Err(EOFError), []);
        return Err(firstName.error);
      }
      ghost var s1 := view.script;
      var lastName := GetLastName();
      if lastName.Err? {
        SettleEachStep(s0, p, firstName.value, s1);
        SettleEachStops(s1, p.next);
        assert InfoOutcome(s0) == (Err(EOFError), []);
        return Err(lastName.error);
      }
      ghost var s2 := view.script;
      var genderValue := GetGender();
      ghost var answer := Settle(s2, SomeKey(GENDER_CHOICES));
      ghost var s3 := view.script;
      if genderValue.Err? {
        if answer.None? {
          SettleEachStep(s0, p, firstName.value, s1);
          SettleEachStep(s1, p.next, lastName.value, s2);
          SettleEachStops(s2, p.next.next);
          assert InfoOutcome(s0) == (Err(EOFError), []);
        } else {
          assert SettleEach(s0, INFO_PROMPTS) == Some(([firstName.value, lastName.value, answer.value.0], s3)) by {
            InfoPromptsSettle(s0);
          }
          assert InfoOutcome(s0) == (Err(ValueError), s3);
        }
        return Err(genderValue.error);
      }
      assert SettleEach(s0, INFO_PROMPTS) == Some(([firstName.value, lastName.value, answer.value.0], s3)) by {
        InfoPromptsSettle(s0);
      }
      var gender := GenderFromValue(genderValue.value);
      assert GenderOf(answer.value.0) == gender;
      var birthDate := BirthDate();
      if birthDate.Err? {
        BirthPromptSettles(s3);
        assert InfoOutcome(s0) == (Err(EOFError), []);
        return Err(birthDate.error);
      }
      assert InfoOutcome(s0) == (Ok(NewPlayer(firstName.value, lastName.value, gender.value, birthDate.value)), view.script) by {
        InfoOutcomeBuilds(s0);
      }
      return Ok(NewPlayer(firstName.value, lastName.value, gender.value, birthDate.value));
    }

    /** `_create_player`. `candidate` is the player built from the answers (None when the
        answers ran out or the gender prompt failed) and `confirmation` the answer to the
        confirmation prompt, when it was reached. A player whose name is already stored is
        refused with a warning; "n" or "N" at the confirmation saves nothing; otherwise
        exactly the new player's record is appended. Names stay unique. */
    method CreatePlayer() returns (r: Result<bool>, ghost candidate: Option<Player>, ghost confirmation: Option<string>)
      requires Valid()
      modifies view, players
      ensures Valid()
      ensures |view.script| < |old(view.script)| || r.Err?
      ensures |view.script| <= |old(view.script)|
      ensures r.Err? <==> candidate.None? || (!Known(old(players.docs), candidate.value) && confirmation.None?)
      ensures r.Err? ==> r.error in {EOFError, ValueError}
      ensures candidate.Some? ==> var p := candidate.value.person;
        && candidate.value == NewPlayer(p.firstName, p.lastName, p.gender, p.dateOfBirth)
        && p.firstName != "" && p.lastName != "" && ValidDate(p.dateOfBirth)
      ensures candidate.Some? && Known(old(players.docs), candidate.value) ==>
        r == Ok(false) && |view.log| > 0 && view.log[|view.log| - 1] == Warn(PlayerAlreadyKnown) && confirmation.None?
      ensures r == Ok(true) <==> candidate.Some? && confirmation.Some? && confirmation.value !in {"n", "N"}
      ensures r == Ok(true) ==>
        players.docs == old(players.docs) + [Document(NextId(old(players.docs)), PlayerData(candidate.value))]
      ensures r != Ok(true) ==> players.docs == old(players.docs)
      ensures NamesUnique(old(players.docs)) ==> NamesUnique(players.docs)
      ensures var (info, rest) := InfoOutcome(old(view.script));
        && (info.Err? ==> r == Err(info.error) && candidate.None?)
        && (info.Ok? ==> candidate == Some(info.value))
        && (info.Ok? && !Known(old(players.docs), info.value) ==> (confirmation.None? <==> rest == []))
        && (confirmation.Some? ==> [confirmation.value] + view.script == rest && view.lastAnswer == confirmation)
    {
      candidate, confirmation := None, None;
      ghost var outcome := InfoOutcome(view.script);
      view.ShowInformation(CreatingPlayer);
      var info := GetInfoPlayer();
      assert info == outcome.0 && view.script == outcome.1;
      if info.Err? {
        return Err(info.error), candidate, confirmation;
      }
      candidate := Some(info.value);
      r, confirmation := SaveUnlessKnown(info.value);
    }

    /** The end of `_create_player`, once the player is built: a player whose name is
        already stored is refused with a warning; otherwise the confirmation is asked, "n"
        or "N" saves nothing, and any other answer appends exactly the player's record.
        `confirmation` is the answer to the confirmation prompt, when it was reached. */
    method SaveUnlessKnown(player: Player) returns (r: Result<bool>, ghost confirmation: Option<string>)
      requires Valid()
      modifies view, players
      ensures Valid()
      ensures Known(old(players.docs), player) ==>
        && r == Ok(false) && confirmation.None? && view.script == old(view.script)
        && |view.log| > 0 && view.log[|view.log| - 1] == Warn(PlayerAlreadyKnown)
      ensures !Known(old(players.docs), player) ==> (confirmation.None? <==> old(view.script) == [])
      ensures r.Err? <==> !Known(old(players.docs), player) && confirmation.None?
      ensures r.Err? ==> r == Err(EOFError) && view.script == []
      ensures confirmation.Some? ==> [confirmation.value] + view.script == old(view.script) && view.lastAnswer == confirmation
      ensures r == Ok(true) <==> confirmation.Some? && confirmation.value !in {"n", "N"}
      ensures r == Ok(true) ==>
        players.docs == old(players.docs) + [Document(NextId(old(players.docs)), PlayerData(player))]
      ensures r != Ok(true) ==> players.docs == old(players.docs)
      ensures NamesUnique(old(players.docs)) ==> NamesUnique(players.docs)
    {
      confirmation := None;
      if IsObjectExist(players.docs, NameQuery(player.person.firstName, player.person.lastName)) {
        view.ShowWarning(PlayerAlreadyKnown);
        return Ok(false), confirmation;
      }
      ghost var answers := view.script;
      var declines := Declines(view);
      if declines.Err? {
        return Err(EOFError), confirmation;
      }
      confirmation := Some(answers[0]);
      assert [answers[0]] + view.script == answers;
      if declines.value {
        return Ok(false), confirmation;
      }
      AppendNewPlayerRecord(players.docs, NextId(players.docs), player);
      Save(players, PlayerData(player));
      return Ok(true), confirmation;
    }

    /** The CREATE case of `run`: create a player, then report whether it was saved. */
    method CreateCase() returns (r: Result<Step>)
      requires Valid()
      modifies view, players
      ensures Valid()
      ensures |view.script| <= |old(view.script)|
      ensures old(players.docs) <= players.docs
      ensures NamesUnique(old(players.docs)) ==> NamesUnique(players.docs)
      ensures r.Err? ==> r.error in {EOFError, ValueError}
      ensures r.Ok? ==>
        && r == Ok(Continue) && |view.script| < |old(view.script)| && |view.log| > 0
        && view.log[|view.log| - 1] == (if |players.docs| > |old(players.docs)| then Info(PlayerSaved) else Warn(PlayerNotSaved))
    {
      var created, _, _ := CreatePlayer();
      if created.Err? {
        return Err(created.error);
      }
      if created.value {
        view.ShowInformation(PlayerSaved);
      } else {
        view.ShowWarning(PlayerNotSaved);
      }
      return Ok(Continue);
    }

    /** One pass of the `match` in `run`. CREATE reports the outcome of player creation;
        UPDATE (only announced in the source) changes neither storage nor the view; BACK
        leaves the loop and QUIT the program. */
    method HandleAction(action: string) returns (r: Result<Step>)
      requires Valid()
      modifies view, players
      ensures Valid()
      ensures |view.script| <= |old(view.script)|
      ensures old(players.docs) <= players.docs
      ensures NamesUnique(old(players.docs)) ==> NamesUnique(players.docs)
      ensures r.Err? ==> r.error in {EOFError, ValueError}
      ensures action != "CREATE" ==>
        && players.docs == old(players.docs) && view.script == old(view.script) && view.log == old(view.log)
        && view.lastAnswer == old(view.lastAnswer)
      ensures action == "CREATE" && r.Ok? ==>
        && r == Ok(Continue) && |view.script| < |old(view.script)| && |view.log| > 0
        && view.log[|view.log| - 1] == (if |players.docs| > |old(players.docs)| then Info(PlayerSaved) else Warn(PlayerNotSaved))
      ensures action == "UPDATE" ==> r == Ok(Continue)
      ensures action == "BACK" ==> r == Ok(Back)
      ensures action == "QUIT" ==> r == Ok(Quit)
    {
      if action == "CREATE" {
        r := CreateCase();
        return;
      } else if action == "BACK" {
        return Ok(Back);
      } else if action == "QUIT" {
        return Ok(Quit);
      }
      return Ok(Continue);
    }

    /** `run`: the menu loop, until BACK or QUIT is chosen or an exception escapes. The
        table only grows, keeps only player records and keeps its names unique. */
    method Run() returns (r: Result<Step>)
      requires Valid()
      modifies view, players
      ensures Valid()
      ensures old(players.docs) <= players.docs
      ensures NamesUnique(old(players.docs)) ==> NamesUnique(players.docs)
      ensures r.Ok? ==> r.value in {Back, Quit}
      ensures r.Ok? ==>
        view.lastAnswer.Some? && ActionOf(view.lastAnswer.value) == Ok(if r.value == Back then "BACK" else "QUIT")
      ensures r.Err? ==> r.error in {EOFError, ValueError}
    {
      while true
        invariant Valid()
        invariant old(players.docs) <= players.docs
        invariant NamesUnique(old(players.docs)) ==> NamesUnique(players.docs)
        decreases |view.script|
      {
        var action := CreateOrUpdatePlayer();
        if action.Err? {
          return Err(action.error);
        }
        var step := HandleAction(action.value);
        if step.Err? {
          return Err(step.error);
        }
        if step.value != Continue {
          return step;
        }
      }
    }
  }
}
