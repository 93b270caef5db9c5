/** Tournaments (Models/tournament.py). A tournament is an object whose turn counter,
    roster and attribute dictionary are changed in place, so it is a class. */
module TournamentModel {
  import opened Exceptions
  import opened Text
  import opened TinyManager

  datatype TimeControl = Bullet | Blitz | QuickMove
  {
    /** The enumeration's stored value. */
    function Value(): string
    {
      match this
      case Bullet => "bullet"
      case Blitz => "blitz"
      case QuickMove => "quick move"
    }
  }

  /** `TimeControl(value)`: the member with that value; any other value is a ValueError. */
  function TimeControlFromValue(value: string): (r: Result<TimeControl>)
    ensures r.Ok? <==> value in {"bullet", "blitz", "quick move"}
    ensures r.Ok? ==> r.value.Value() == value
    ensures r.Err? ==> r.error == ValueError
  {
    if value == "bullet" then Ok(Bullet)
    else if value == "blitz" then Ok(Blitz)
    else if value == "quick move" then Ok(QuickMove)
    else Err(ValueError)
  }

  /** Looking a member up by its own value gives it back. */
  lemma TimeControlValueRoundTrip(t: TimeControl)
    ensures TimeControlFromValue(t.Value()) == Ok(t)
  {
  }

  /** The field names of a tournament's attribute dictionary before `tournament_data`
      has added its "is_over" entry. */
  function TournamentKeys(): set<string>
  {
    {"name", "place", "start_date", "end_date", "description", "time_control",
     "number_of_turns", "turns_id", "current_turn", "players_id"}
  }

  class Tournament {
    var name: string
    var place: string
    var startDate: string
    var endDate: string
    var description: string
    var timeControl: TimeControl
    var numberOfTurns: int
    var turnsId: seq<nat>
    var currentTurn: int
    var playersId: seq<nat>
    /** The "is_over" entry that `tournament_data` writes into the attribute dictionary. */
    var isOverEntry: Option<bool>

    /** `__init__`; `numberOfTurns` is the project's NUMBER_OF_TURNS setting. */
    constructor (name: string, place: string, startDate: string, endDate: string,
                 description: string, timeControl: TimeControl, numberOfTurns: int)
      ensures this.name == name && this.place == place
      ensures this.startDate == startDate && this.endDate == endDate
      ensures this.description == description && this.timeControl == timeControl
      ensures this.numberOfTurns == numberOfTurns
      ensures turnsId == [] && currentTurn == 1 && playersId == [] && isOverEntry == None
    {
      this.name := name;
      this.place := place;
      this.startDate := startDate;
      this.endDate := endDate;
      this.description := description;
      this.timeControl := timeControl;
      this.numberOfTurns := numberOfTurns;
      turnsId := [];
      currentTurn := 1;
      playersId := [];
      isOverEntry := None;
    }

    /** `is_over`: the counter is exactly on the last turn (an equality, not `>=`), as
        the attribute dictionary records them. */
    predicate IsOver()
      reads this
      ensures IsOver() <==> Attributes()["current_turn"] == Attributes()["number_of_turns"]
    {
      currentTurn == numberOfTurns
    }

    /** `date`: one date when the tournament starts and ends the same day, else both. */
    function Date(): (r: string)
      reads this
      ensures startDate <= r
      ensures |endDate| <= |r| && r[|r| - |endDate|..] == endDate
      ensures r == startDate <==> startDate == endDate
      ensures startDate != endDate ==> r == startDate + " - " + endDate
    {
      if startDate == endDate then startDate else startDate + " - " + endDate
    }

    /** `str(tournament)`: the title-cased name, the upper-cased place, then the date. */
    function ToString(): (r: string)
      reads this
      ensures Title(name) <= r
      ensures |Date()| <= |r| && r[|r| - |Date()|..] == Date()
      ensures var title, middle := Title(name), " (" + Upper(place) + "): ";
        |title| + |middle| + |Date()| == |r| && r[|title|..|title| + |middle|] == middle
    {
      var title, middle, date := Title(name), " (" + Upper(place) + "): ", Date();
      assert (title + middle + date)[|title|..|title| + |middle|] == middle;
      title + middle + date
    }

    /** `self.__dict__`: every attribute, plus "is_over" once `tournament_data` has run. */
    function Attributes(): (data: Fields)
      reads this
      ensures data.Keys == TournamentKeys() + (if isOverEntry.Some? then {"is_over"} else {})
    {
      var core := map[
        "name" := VStr(name), "place" := VStr(place),
        "start_date" := VStr(startDate), "end_date" := VStr(endDate),
        "description" := VStr(description), "time_control" := VStr(timeControl.Value()),
        "number_of_turns" := VInt(numberOfTurns), "turns_id" := VIds(turnsId),
        "current_turn" := VInt(currentTurn), "players_id" := VIds(playersId)];
      match isOverEntry
      case None => core
      case Some(b) => core["is_over" := VBool(b)]
    }

    /** `tournament_data`: stores the current `is_over` into the attribute dictionary and
        returns that dictionary; nothing else changes. */
    method TournamentData() returns (data: Fields)
      modifies this`isOverEntry
      ensures isOverEntry == Some(IsOver())
      ensures data == Attributes()
      ensures data.Keys == TournamentKeys() + {"is_over"}
      ensures data["is_over"] == VBool(IsOver()) && data["players_id"] == VIds(playersId)
      ensures data["name"] == VStr(name) && data["start_date"] == VStr(startDate)
      ensures data["number_of_turns"] == VInt(numberOfTurns)
    {
      isOverEntry := Some(IsOver());
      data := Attributes();
    }

    /** `next_turn`: the counter moves on by one; nothing else changes. A tournament on
        its last turn is no longer over afterwards. */
    method NextTurn()
      modifies this`currentTurn
      ensures currentTurn == old(currentTurn) + 1
      ensures old(IsOver()) ==> !IsOver()
    {
      currentTurn := currentTurn + 1;
    }
  }

  /** `k` successive calls of `next_turn`: the counter moves on by exactly k, and a fresh
      tournament (counter 1) is over afterwards exactly when 1 + k is the number of turns. */
  method NextTurns(t: Tournament, k: nat)
    modifies t`currentTurn
    ensures t.currentTurn == old(t.currentTurn) + k
    ensures old(t.currentTurn) == 1 ==> (t.IsOver() <==> 1 + k == t.numberOfTurns)
  {
    var calls := 0;
    while calls < k
      invariant calls <= k
      invariant t.currentTurn == old(t.currentTurn) + calls
    {
      t.NextTurn();
      calls := calls + 1;
    }
  }
}
