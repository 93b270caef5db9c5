/** Players (Models/player.py): a Person holds the identity fields, a Player adds the
    ranking, the score, the opponents already faced and the tournament flag. Nothing
    changes a player after construction, so both are values. */
module PlayerModel {
  import opened Exceptions
  import opened Text
  import opened TinyManager

  datatype Gender = Male | Female
  {
    /** The enumeration's stored value. */
    function Value(): string
    {
      match this
      case Male => "M"
      case Female => "F"
    }
  }

  /** `Gender(value)`: the member with that value; any other value is a ValueError. */
  function GenderFromValue(value: string): (r: Result<Gender>)
    ensures r.Ok? <==> value == "M" || value == "F"
    ensures r.Ok? ==> r.value.Value() == value
    ensures r.Err? ==> r.error == ValueError
  {
    if value == "M" then Ok(Male) else if value == "F" then Ok(Female) else Err(ValueError)
  }

  /** Looking a member up by its own value gives it back. */
  lemma GenderValueRoundTrip(g: Gender)
    ensures GenderFromValue(g.Value()) == Ok(g)
  {
  }

  datatype Person = Person(firstName: string, lastName: string, gender: Gender, dateOfBirth: string)

  datatype Player = Player(
    person: Person,
    ranking: int,
    tournamentScore: int,
    playersAlreadyFaced: seq<nat>,
    isAlreadyInATournament: bool)

  /** `Player.__init__`: the four identity fields as given, the rest at their defaults. */
  function NewPlayer(firstName: string, lastName: string, gender: Gender, dateOfBirth: string): (p: Player)
    ensures p.person == Person(firstName, lastName, gender, dateOfBirth)
    ensures p.ranking == 0 && p.tournamentScore == 0
    ensures p.playersAlreadyFaced == [] && !p.isAlreadyInATournament
  {
    Player(Person(firstName, lastName, gender, dateOfBirth), 0, 0, [], false)
  }

  /** `full_name`: the last name in upper case, so with no lower-case letter left; then
      a blank; then the first name in title case, on which `title()` has nothing more to
      do. */
  function FullName(p: Person): (s: string)
    ensures var n := |p.lastName|;
      && |s| == n + 1 + |p.firstName|
      && s[..n] == Upper(p.lastName)
      && (forall i :: 0 <= i < n ==> !IsAsciiLower(s[i]))
      && s[n] == ' '
      && Title(s[n + 1..]) == s[n + 1..]
      && s[n + 1..] == Title(p.firstName)
  {
    var s := Upper(p.lastName) + " " + Title(p.firstName);
    assert s[..|p.lastName|] == Upper(p.lastName);
    assert s[|p.lastName| + 1..] == Title(p.firstName);
    TitleIdempotent(p.firstName, false);
    s
  }

  /** `str(player)`: the player's full name. */
  function PlayerToString(p: Player): (s: string)
    ensures s == FullName(p.person)
  {
    FullName(p.person)
  }

  /** The field names of a player's attribute dictionary. */
  function PlayerKeys(): set<string>
  {
    {"first_name", "last_name", "gender", "date_of_birth", "ranking", "tournament_score",
     "players_already_faced", "is_already_in_a_tournament"}
  }

  /** `player_data`: the instance's attribute dictionary. */
  function PlayerData(p: Player): (data: Fields)
    ensures data.Keys == PlayerKeys()
  {
    map[
      "first_name" := VStr(p.person.firstName),
      "last_name" := VStr(p.person.lastName),
      "gender" := VStr(p.person.gender.Value()),
      "date_of_birth" := VStr(p.person.dateOfBirth),
      "ranking" := VInt(p.ranking),
      "tournament_score" := VInt(p.tournamentScore),
      "players_already_faced" := VIds(p.playersAlreadyFaced),
      "is_already_in_a_tournament" := VBool(p.isAlreadyInATournament)]
  }

  /** The record a freshly constructed player dumps: exactly eight fields, the four given
      ones and the four defaults. */
  lemma NewPlayerData(firstName: string, lastName: string, gender: Gender, dateOfBirth: string)
    ensures var data := PlayerData(NewPlayer(firstName, lastName, gender, dateOfBirth));
      && data.Keys == PlayerKeys() && |data| == 8
      && data["first_name"] == VStr(firstName) && data["last_name"] == VStr(lastName)
      && data["gender"] == VStr(gender.Value()) && data["date_of_birth"] == VStr(dateOfBirth)
      && data["ranking"] == VInt(0) && data["tournament_score"] == VInt(0)
      && data["players_already_faced"] == VIds([]) && data["is_already_in_a_tournament"] == VBool(false)
  {
    var data := PlayerData(NewPlayer(firstName, lastName, gender, dateOfBirth));
    assert |PlayerKeys()| == 8;
  }

  /** As written, a player is rebuilt from a stored record with `Player(**record)`;
      `__init__` takes exactly the four identity fields as keywords, so the call raises
      TypeError unless the record's keys are exactly those four. */
  predicate InitAcceptsKeywords(fields: Fields)
  {
    fields.Keys == {"first_name", "last_name", "gender", "date_of_birth"}
  }

  /** Every record that player creation stores has eight keys: `Player(**record)` raises
      TypeError on each of them. */
  lemma StoredPlayerRecordRejectedByInit(p: Player)
    ensures !InitAcceptsKeywords(PlayerData(p))
  {
    assert "ranking" in PlayerData(p);
  }

  /** A player rebuilt from all the fields of a stored record (the evidently intended
      reading of `Player(**record)`); TypeError when the record is not a player record. */
  function PlayerFromRecord(fields: Fields): (r: Result<Player>)
    ensures r.Err? ==> r.error == TypeError
  {
    if && fields.Keys == PlayerKeys()
       && fields["first_name"].VStr? && fields["last_name"].VStr?
       && fields["gender"].VStr? && GenderFromValue(fields["gender"].s).Ok?
       && fields["date_of_birth"].VStr? && fields["ranking"].VInt?
       && fields["tournament_score"].VInt? && fields["players_already_faced"].VIds?
       && fields["is_already_in_a_tournament"].VBool?
    then
      Ok(Player(
        Person(fields["first_name"].s, fields["last_name"].s,
               GenderFromValue(fields["gender"].s).value, fields["date_of_birth"].s),
        fields["ranking"].i, fields["tournament_score"].i,
        fields["players_already_faced"].ids, fields["is_already_in_a_tournament"].b))
    else
      Err(TypeError)
  }

  /** Rebuilding a player from the record it dumps gives the same player back. */
  lemma PlayerRecordRoundTrip(p: Player)
    ensures PlayerFromRecord(PlayerData(p)) == Ok(p)
  {
    GenderValueRoundTrip(p.person.gender);
  }

  /** A record from which a player can be rebuilt is exactly that player's dump. */
  lemma PlayerRecordIsDump(fields: Fields)
    requires PlayerFromRecord(fields).Ok?
    ensures PlayerData(PlayerFromRecord(fields).value) == fields
  {
    var data := PlayerData(PlayerFromRecord(fields).value);
    assert data.Keys == fields.Keys;
    assert forall key :: key in fields ==> data[key] == fields[key];
  }
}
