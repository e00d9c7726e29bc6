/** How the pieces fit together: the favorites list agrees with the listing's
    `isFavorite` flags, the client's optimistic flip lands where the server's
    toggle does, and the seeded catalogue of games. */
module System {
  import opened Sequences
  import opened Schema
  import opened JsString
  import FavoritesController
  import GamesController
  import GamesPage
  import AuthController

  /** The favorites list holds exactly the listing's games that are flagged as
      favorites, each as the very same object the listing returns. */
  lemma FavoritesAgreeWithListing(games: seq<Game>, rows: seq<Favorite>, userId: int)
    requires GameIdsUnique(games) && ReferencesGames(rows, games)
    ensures forall v :: v in FavoritesController.GetFavorites(rows, games, userId) <==>
      v in GamesController.GetGames(games, rows, userId, None) && v.isFavorite
  {
    var favs := FavoritesController.GetFavorites(rows, games, userId);
    var listing := GamesController.GetGames(games, rows, userId, None);
    forall v | v in favs ensures v in listing && v.isFavorite {
      FavoriteIsListed(games, rows, userId, v);
    }
    forall v | v in listing && v.isFavorite ensures v in favs {
      ListedFavoriteIsFavorite(games, rows, userId, v);
    }
  }

  lemma FavoriteIsListed(games: seq<Game>, rows: seq<Favorite>, userId: int, v: GameView)
    requires ReferencesGames(rows, games)
    requires v in FavoritesController.GetFavorites(rows, games, userId)
    ensures v in GamesController.GetGames(games, rows, userId, None)
  {
    var favs := FavoritesController.GetFavorites(rows, games, userId);
    var listing := GamesController.GetGames(games, rows, userId, None);
    var mine := UserRows(rows, userId);
    var i :| 0 <= i < |favs| && favs[i] == v;
    var j :| 0 <= j < |games| && games[j] == Base(v);
    assert mine[i] in rows;
    var k :| 0 <= k < |rows| && rows[k] == mine[i];
    assert IsPair(rows[k], userId, games[j].id);
    assert listing[j] == v;
  }

  lemma ListedFavoriteIsFavorite(games: seq<Game>, rows: seq<Favorite>, userId: int, v: GameView)
    requires GameIdsUnique(games) && ReferencesGames(rows, games)
    requires v in GamesController.GetGames(games, rows, userId, None) && v.isFavorite
    ensures v in FavoritesController.GetFavorites(rows, games, userId)
  {
    var listing := GamesController.GetGames(games, rows, userId, None);
    var mine := UserRows(rows, userId);
    var j :| 0 <= j < |listing| && listing[j] == v;
    GamesController.GetGamesUnfiltered(games, rows, userId, None);
    assert |listing| == |games|;
    GamesController.GetGamesUnfilteredAt(games, rows, userId, None, j);
    assert v == Annotate(games[j], true);
    var k :| 0 <= k < |rows| && IsPair(rows[k], userId, games[j].id);
    assert rows[k] in rows && rows[k].userId == userId;
    assert rows[k] in mine;
    var i :| 0 <= i < |mine| && mine[i] == rows[k];
    FavoritesController.GetFavoritesAt(rows, games, userId, i);
    GameOfUnique(games, games[j]);
    assert FavoritesController.GetFavorites(rows, games, userId)[i] == v;
  }

  /** The client flips the game's flag only once the server's toggle went through;
      the flipped list is then exactly the listing the server would now return.
      When the toggle failed, the server's listing has not changed either. */
  lemma OptimisticFlipMatchesServer(games: seq<Game>, rows: seq<Favorite>, nextId: int,
                                    userId: int, gameId: int, sport: Option<string>)
    requires FavoritesController.WellFormed(rows, nextId) && PairsUnique(rows)
    ensures var t := FavoritesController.Toggle(rows, nextId, games, userId, gameId);
      var before := GamesController.GetGames(games, rows, userId, sport);
      var after := GamesController.GetGames(games, t.rows, userId, sport);
      && (t.reply != FavoritesController.ToggleFailed ==> GamesPage.Flip(before, gameId) == after)
      && (t.reply == FavoritesController.ToggleFailed ==> after == before)
  {
    var t := FavoritesController.Toggle(rows, nextId, games, userId, gameId);
    var before := GamesController.GetGames(games, rows, userId, sport);
    var after := GamesController.GetGames(games, t.rows, userId, sport);
    FavoritesController.TogglePairs(rows, nextId, games, userId, gameId);
    if t.reply != FavoritesController.ToggleFailed {
      var flipped := GamesPage.Flip(before, gameId);
      forall i | 0 <= i < |after| ensures flipped[i] == after[i] {
        var id := before[i].id;
        HasPairInPairs(rows, userId, id);
        HasPairInPairs(t.rows, userId, id);
        if id == gameId {
          assert HasPair(t.rows, userId, id) == !HasPair(rows, userId, id);
        } else {
          assert (userId, id) != (userId, gameId);
          assert HasPair(t.rows, userId, id) == HasPair(rows, userId, id);
        }
      }
    }
  }

  /** Under a case-sensitive collation, for any catalogue and any non-empty query
      that equals a game's sport only up to case, the server's reply leaves that game out, while the client's sport
      filter on the unfiltered listing keeps it. */
  lemma SportFilterCaseMismatch(games: seq<Game>, rows: seq<Favorite>, userId: int, sport: string, k: nat)
    requires sport != "" && k < |games|
    requires ToLowerCase(games[k].sport) == ToLowerCase(sport) && games[k].sport != sport
    ensures forall v :: v in GamesController.GetGames(games, rows, userId, Some(sport)) ==> Base(v) != games[k]
    ensures var listing := GamesController.GetGames(games, rows, userId, None);
      k < |listing| && Base(listing[k]) == games[k] && listing[k] in GamesPage.Visible(listing, sport, false)
  {
    var listing := GamesController.GetGames(games, rows, userId, None);
    GamesController.GetGamesUnfiltered(games, rows, userId, None);
    assert GamesController.Strip(listing)[k] == Base(listing[k]);
    GamesPage.VisibleMembers(listing, sport, false);
  }

  /** Under a case-sensitive collation the server matches a sport exactly and the client ignoring case: asked for
      `"cricket"`, the server returns nothing from a catalogue of one cricket match,
      while the client's filter keeps it. */
  lemma SportFiltersDisagreeOnCase()
    ensures var games := [Game(1, "MI vs CSK", "Cricket", "IPL")];
      var listing := GamesController.GetGames(games, [], 1, None);
      && GamesController.GetGames(games, [], 1, Some("cricket")) == []
      && GamesPage.Visible(listing, "cricket", false) == listing
      && |listing| == 1
  {
    var games := [Game(1, "MI vs CSK", "Cricket", "IPL")];
    var listing := GamesController.GetGames(games, [], 1, None);
    assert ToLowerCase("Cricket") == ToLowerCase("cricket");
    assert Filter(games, GamesController.SportIs("cricket")) == [];
    assert Filter(listing, GamesPage.SportMatches("cricket")) == listing;
  }

  /** The catalogue the seed script creates on a fresh database, where the Game
      autoincrement starts at 1. Its `deleteMany` does not reset the counter, so a
      later reseed gives the same games other ids. */
  function SeedGames(): seq<Game> {
    [ Game(1, "MI vs CSK", "Cricket", "IPL"),
      Game(2, "RCB vs KKR", "Cricket", "IPL"),
      Game(3, "India vs Australia", "Cricket", "Test Series"),
      Game(4, "England vs Pakistan", "Cricket", "ODI Series"),
      Game(5, "Real Madrid vs Barcelona", "Football", "La Liga"),
      Game(6, "Man City vs Arsenal", "Football", "EPL"),
      Game(7, "Liverpool vs Man United", "Football", "EPL"),
      Game(8, "Bayern vs Dortmund", "Football", "Bundesliga"),
      Game(9, "PSG vs Marseille", "Football", "Ligue 1"),
      Game(10, "Djokovic vs Alcaraz", "Tennis", "Wimbledon"),
      Game(11, "Nadal vs Federer", "Tennis", "French Open"),
      Game(12, "Serena vs Venus", "Tennis", "US Open") ]
  }

  /** The sport column of the seeded catalogue, in table order. */
  function SeedSports(): seq<string> {
    ["Cricket", "Cricket", "Cricket", "Cricket", "Football", "Football",
     "Football", "Football", "Football", "Tennis", "Tennis", "Tennis"]
  }

  /** Game ids run 1, 2, 3, ... along the table, as the autoincrement ids of the
      first rows inserted into a fresh table do. */
  predicate NumberedFromOne(games: seq<Game>) {
    forall i :: 0 <= i < |games| ==> games[i].id == i + 1
  }

  /** In a catalogue numbered from one, ids are distinct and a game exists exactly for the ids 1 to its size. */
  lemma NumberedGames(games: seq<Game>, id: int)
    requires NumberedFromOne(games)
    ensures GameIdsUnique(games)
    ensures GameExists(games, id) <==> 1 <= id <= |games|
  {
    if 1 <= id <= |games| {
      assert games[id - 1].id == id;
    }
  }

  /** Row `i` of the seeded catalogue has id `i + 1` and the `i`-th seeded sport. */
  lemma SeedColumns()
    ensures |SeedGames()| == 12 && NumberedFromOne(SeedGames())
    ensures forall i :: 0 <= i < 12 ==> SeedGames()[i].sport == SeedSports()[i]
  {
  }

  /** The seeded catalogue has twelve games with distinct ids, and the page offers
      the buttons "all", "Cricket", "Football" and "Tennis", in that order. */
  lemma SeedCatalogue(userId: int)
    ensures |SeedGames()| == 12 && GameIdsUnique(SeedGames())
    ensures GamesPage.Sports(GamesController.GetGames(SeedGames(), [], userId, None))
      == ["all", "Cricket", "Football", "Tennis"]
  {
    SeedColumns();
    ShapedCatalogue(SeedGames(), SeedSports(), userId);
    SeedSportButtons();
  }

  /** A catalogue numbered from one has distinct ids, and its sport buttons are
      `'all'` followed by the distinct values of its sport column. */
  lemma ShapedCatalogue(games: seq<Game>, sports: seq<string>, userId: int)
    requires |games| == |sports| && NumberedFromOne(games)
    requires forall i :: 0 <= i < |games| ==> games[i].sport == sports[i]
    ensures GameIdsUnique(games)
    ensures GamesPage.Sports(GamesController.GetGames(games, [], userId, None)) == [GamesPage.AllSports] + InsertionOrder(sports)
  {
    NumberedGames(games, 1);
    SportsOfListing(games, sports, [], userId);
    ButtonsOfColumn(GamesController.GetGames(games, [], userId, None), sports, InsertionOrder(sports));
  }

  /** The sport buttons of a list are `'all'` and the `Set` of its sport column. */
  lemma ButtonsOfColumn(listing: seq<GameView>, sports: seq<string>, distinct: seq<string>)
    requires GamesPage.SportsOf(listing) == sports && InsertionOrder(sports) == distinct
    ensures GamesPage.Sports(listing) == [GamesPage.AllSports] + distinct
  {
  }

  /** The sport column of the listing is the sport column of the catalogue. */
  lemma SportsOfListing(games: seq<Game>, sports: seq<string>, rows: seq<Favorite>, userId: int)
    requires |games| == |sports| && forall i :: 0 <= i < |games| ==> games[i].sport == sports[i]
    ensures GamesPage.SportsOf(GamesController.GetGames(games, rows, userId, None)) == sports
  {
  }

  lemma SeedSportButtons()
    ensures InsertionOrder(SeedSports()) == ["Cricket", "Football", "Tennis"]
  {
    ThreeRuns("Cricket", "Football", "Tennis");
    assert SeedSports() == ["Cricket", "Cricket", "Cricket", "Cricket"] + ["Football", "Football", "Football", "Football", "Football"] + ["Tennis", "Tennis", "Tennis"];
  }

  lemma ThreeRuns(a: string, b: string, c: string)
    requires a != b && b != c && a != c
    ensures InsertionOrder([a, a, a, a] + [b, b, b, b, b] + [c, c, c]) == [a, b, c]
  {
    TwoRuns(a, b);
    InsertionOrderNewRun([a, a, a, a] + [b, b, b, b, b], [a, b], [c, c, c]);
    assert [a, b] + [c] == [a, b, c];
  }

  lemma TwoRuns(a: string, b: string)
    requires a != b
    ensures InsertionOrder([a, a, a, a] + [b, b, b, b, b]) == [a, b]
  {
    var runA := [a, a, a, a];
    InsertionOrderNewRun([], [], runA);
    assert [] + runA == runA && [] + [a] == [a];
    InsertionOrderNewRun(runA, [a], [b, b, b, b, b]);
    assert [a] + [b] == [a, b];
  }

  /** The favorites a session leaves: starring game 5, starring game 7 and
      unstarring it again, then starring a game that does not exist. */
  lemma SessionToggles(games: seq<Game>)
    requires GameExists(games, 5) && GameExists(games, 7) && !GameExists(games, 99)
    ensures var t1 := FavoritesController.Toggle([], 1, games, 1, 5);
      var t2 := FavoritesController.Toggle(t1.rows, t1.nextId, games, 1, 7);
      var t3 := FavoritesController.Toggle(t2.rows, t2.nextId, games, 1, 7);
      var t4 := FavoritesController.Toggle(t3.rows, t3.nextId, games, 1, 99);
      && t1.reply == FavoritesController.Added && t2.reply == FavoritesController.Added
      && t3.reply == FavoritesController.Removed && t4.reply == FavoritesController.ToggleFailed
      && t4.rows == [Favorite(1, 1, 5)]
  {
    var t1 := FavoritesController.Toggle([], 1, games, 1, 5);
    assert t1.rows == [Favorite(1, 1, 5)] && t1.nextId == 2;
    assert !HasPair(t1.rows, 1, 7);
    assert ReferencesGames(t1.rows, games);
    FavoritesController.ToggleTwice(t1.rows, t1.nextId, games, 1, 7);
    var t2 := FavoritesController.Toggle(t1.rows, t1.nextId, games, 1, 7);
    var t3 := FavoritesController.Toggle(t2.rows, t2.nextId, games, 1, 7);
    assert t3.rows == t1.rows;
  }

  /** When exactly one listed game is the user's favorite, favorites-only shows just that game. */
  lemma OnlyFavoriteShown(games: seq<Game>, rows: seq<Favorite>, userId: int, k: nat)
    requires k < |games|
    requires forall j :: 0 <= j < |games| ==> (HasPair(rows, userId, games[j].id) <==> j == k)
    ensures GamesPage.Visible(GamesController.GetGames(games, rows, userId, None), GamesPage.AllSports, true)
      == [Annotate(games[k], true)]
  {
    var listing := GamesController.GetGames(games, rows, userId, None);
    var before, after := listing[..k], listing[k + 1..];
    assert listing == before + [listing[k]] + after;
    assert forall v :: v in before ==> !GamesPage.FavoritesOnlyFilter(v);
    assert forall v :: v in after ==> !GamesPage.FavoritesOnlyFilter(v);
    FilterKeepsNone(before, GamesPage.FavoritesOnlyFilter);
    FilterKeepsNone(after, GamesPage.FavoritesOnlyFilter);
    FilterConcat(before + [listing[k]], after, GamesPage.FavoritesOnlyFilter);
    FilterConcat(before, [listing[k]], GamesPage.FavoritesOnlyFilter);
    assert Filter([listing[k]], GamesPage.FavoritesOnlyFilter) == [listing[k]];
  }

  /** In a catalogue numbered from one, a single favorite row for game `k + 1` makes
      favorites-only show game `k` alone. */
  lemma SingleFavoriteShown(games: seq<Game>, userId: int, k: nat)
    requires NumberedFromOne(games) && k < |games|
    ensures GamesPage.Visible(GamesController.GetGames(games, [Favorite(1, userId, k + 1)], userId, None), GamesPage.AllSports, true)
      == [Annotate(games[k], true)]
  {
    var rows := [Favorite(1, userId, k + 1)];
    forall j | 0 <= j < |games| ensures HasPair(rows, userId, games[j].id) <==> j == k {
      if HasPair(rows, userId, games[j].id) {
        assert IsPair(rows[0], userId, games[j].id);
      }
      if j == k {
        assert IsPair(rows[0], userId, games[j].id);
      }
    }
    OnlyFavoriteShown(games, rows, userId, k);
  }

  /** The account part of a session: the first registration succeeds with id 1,
      the second with the same email is refused and changes nothing, and logging
      in with the first password succeeds. */
  lemma SessionAccount(crypto: AuthController.Crypto)
    requires AuthController.HashSound(crypto)
    ensures var r1 := AuthController.RegisterOutcome([], 1, Some("Asha"), Some("asha@example.com"), Some("secret"), crypto.hash);
      var r2 := AuthController.RegisterOutcome(r1.users, r1.nextId, Some("Asha B."), Some("asha@example.com"), Some("other"), crypto.hash);
      && r1.reply == AuthController.Registered(PublicUser(1, "Asha", "asha@example.com"))
      && r2.reply == AuthController.UserExists && r2.users == r1.users
      && AuthController.Login(r2.users, Some("asha@example.com"), Some("secret"), crypto)
         == AuthController.LoggedIn(crypto.sign(1), PublicUser(1, "Asha", "asha@example.com"))
  {
    var r1 := AuthController.RegisterOutcome([], 1, Some("Asha"), Some("asha@example.com"), Some("secret"), crypto.hash);
    assert r1.users[0].email == "asha@example.com";
    AuthController.RegisterThenLogin([], 1, Some("Asha"), Some("asha@example.com"), Some("secret"), crypto);
  }

  /** A session against the seeded catalogue: a user registers (registering the
      same email again is refused), logs in, stars game 5, stars and unstars
      game 7, and tries to star a game that does not exist; the page then loads
      the listing and switches to favorites only. */
  method Session(crypto: AuthController.Crypto)
    returns (login: AuthController.LoginReply, replies: seq<FavoritesController.ToggleReply>, favoritesShown: seq<GameView>)
    requires AuthController.HashSound(crypto)
    ensures login == AuthController.LoggedIn(crypto.sign(1), PublicUser(1, "Asha", "asha@example.com"))
    ensures replies == [FavoritesController.Added, FavoritesController.Added, FavoritesController.Removed, FavoritesController.ToggleFailed]
    ensures favoritesShown == [Annotate(SeedGames()[4], true)]
  {
    SessionAccount(crypto);
    var users := new AuthController.UserTable();
    var registered := users.Register(Some("Asha"), Some("asha@example.com"), Some("secret"), crypto.hash);
    var again := users.Register(Some("Asha B."), Some("asha@example.com"), Some("other"), crypto.hash);
    login := AuthController.Login(users.users, Some("asha@example.com"), Some("secret"), crypto);

    var catalogue := SeedGames();
    SeedColumns();
    NumberedGames(catalogue, 5);
    NumberedGames(catalogue, 7);
    NumberedGames(catalogue, 99);
    SessionToggles(catalogue);
    var favorites := new FavoritesController.FavoriteTable();
    var r1 := favorites.ToggleFavorite(catalogue, 1, 5);
    var r2 := favorites.ToggleFavorite(catalogue, 1, 7);
    var r3 := favorites.ToggleFavorite(catalogue, 1, 7);
    var r4 := favorites.ToggleFavorite(catalogue, 1, 99);
    replies := [r1, r2, r3, r4];

    SingleFavoriteShown(catalogue, 1, 4);
    var page := new GamesPage.GamesView();
    page.FetchGames(GamesPage.FetchOk(GamesController.GetGames(catalogue, favorites.rows, 1, None)));
    page.ToggleFavoritesOnly();
    favoritesShown := page.filteredGames;
  }
}
