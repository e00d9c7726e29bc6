/** The games controller: `getGames` (GET /games?sport=), a read of the Game
    table with an optional exact sport filter, each game annotated with whether
    the requesting user has a Favorite row for it. */
module GamesController {
  import opened Sequences
  import opened Schema

  function SportIs(sport: string): Game -> bool {
    (g: Game) => g.sport == sport
  }

  /** The Game rows `findMany` selects: all of them, or, when the `sport` query
      is truthy, those whose sport equals it exactly. */
  function Selected(games: seq<Game>, sport: Option<string>): (r: seq<Game>)
    ensures |r| <= |games|
  {
    if Truthy(sport) then Filter(games, SportIs(sport.value)) else games
  }

  /** The selected rows are exactly the table's rows, or, with a truthy `sport`,
      exactly those of that sport. */
  lemma SelectedMembers(games: seq<Game>, sport: Option<string>)
    ensures forall g :: g in Selected(games, sport) <==> g in games && (Truthy(sport) ==> g.sport == sport.value)
  {
    if Truthy(sport) {
      FilterMembers(games, SportIs(sport.value));
    }
  }

  /** `getGames` for the authenticated user `userId`: each selected game, in
      table order, with `isFavorite` set when the user has a favorite row for it
      (the joined `favorites` relation is dropped from the reply). */
  function GetGames(games: seq<Game>, favorites: seq<Favorite>, userId: int, sport: Option<string>): (r: seq<GameView>)
    ensures |r| <= |games|
    ensures forall i :: 0 <= i < |r| ==> r[i].isFavorite == HasPair(favorites, userId, r[i].id)
    ensures forall i :: 0 <= i < |r| ==> Base(r[i]) in games
    ensures Truthy(sport) ==> forall i :: 0 <= i < |r| ==> r[i].sport == sport.value
  {
    var selected := Selected(games, sport);
    assert forall g :: g in selected ==> g in games && (Truthy(sport) ==> g.sport == sport.value) by {
      SelectedMembers(games, sport);
    }
    seq(|selected|, i requires 0 <= i < |selected| =>
      Annotate(selected[i], HasPair(favorites, userId, selected[i].id)))
  }

  /** The games' own columns of a reply. */
  function Strip(r: seq<GameView>): seq<Game> {
    seq(|r|, i requires 0 <= i < |r| => Base(r[i]))
  }

  /** Without a truthy `sport` (absent or empty), every game is returned, in table order. */
  lemma GetGamesUnfiltered(games: seq<Game>, favorites: seq<Favorite>, userId: int, sport: Option<string>)
    requires !Truthy(sport)
    ensures Strip(GetGames(games, favorites, userId, sport)) == games
  {
  }

  /** Without a truthy `sport`, element `i` of the reply is game `i` with its flag. */
  lemma GetGamesUnfilteredAt(games: seq<Game>, favorites: seq<Favorite>, userId: int, sport: Option<string>, i: nat)
    requires !Truthy(sport) && i < |games|
    ensures var r := GetGames(games, favorites, userId, sport);
      |r| == |games| && r[i] == Annotate(games[i], HasPair(favorites, userId, games[i].id))
  {
  }

  /** With a truthy `sport`, a game is returned exactly when its sport equals it,
      compared as strings, case included (a case-sensitive collation). */
  lemma GetGamesBySport(games: seq<Game>, favorites: seq<Favorite>, userId: int, sport: string)
    requires sport != ""
    ensures forall g :: g in Strip(GetGames(games, favorites, userId, Some(sport))) <==> g in games && g.sport == sport
  {
    var r := GetGames(games, favorites, userId, Some(sport));
    FilterMembers(games, SportIs(sport));
    assert Strip(r) == Filter(games, SportIs(sport));
  }

  /** Whatever the query, the reply lists games in the order of the table, each row at most once. */
  lemma GetGamesOrderPreserving(games: seq<Game>, favorites: seq<Favorite>, userId: int, sport: Option<string>)
    ensures IsSubsequence(Strip(GetGames(games, favorites, userId, sport)), games)
  {
    var r := GetGames(games, favorites, userId, sport);
    assert Strip(r) == Selected(games, sport);
    if Truthy(sport) {
      FilterIsSubsequence(games, SportIs(sport.value));
    } else {
      SubsequenceReflexive(games);
    }
  }

  /** Other users' favorites never affect the reply: two Favorite tables that
      agree on this user's rows give the same reply. */
  lemma GetGamesIgnoresOtherUsers(games: seq<Game>, f1: seq<Favorite>, f2: seq<Favorite>, userId: int, sport: Option<string>)
    requires UserRows(f1, userId) == UserRows(f2, userId)
    ensures GetGames(games, f1, userId, sport) == GetGames(games, f2, userId, sport)
  {
    var r1, r2 := GetGames(games, f1, userId, sport), GetGames(games, f2, userId, sport);
    forall i | 0 <= i < |r1| ensures r1[i] == r2[i] {
      HasPairOfUserRows(f1, userId, r1[i].id);
      HasPairOfUserRows(f2, userId, r1[i].id);
    }
  }
}
