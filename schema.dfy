/** The relational schema the backend stores its state in (tables User, Game
    and Favorite), their rows as values, the shapes the API returns, and the
    queries the controllers run against the tables. Tables are sequences of
    rows in storage order; ids are the database's autoincrement keys. */
module Schema {
  import opened Sequences

  datatype Option<T> = None | Some(value: T)

  /** JavaScript truthiness of a request value that is either absent or a string:
      `undefined` and `""` are falsy, every other string is truthy. */
  predicate Truthy(f: Option<string>)
    ensures Truthy(f) <==> f != None && f != Some("")
  {
    f.Some? && f.value != ""
  }

  /** A row of the User table; `password` holds the stored one-way hash. */
  datatype User = User(id: int, name: string, email: string, password: string)

  /** A user as responses carry it: every column but the password. */
  datatype PublicUser = PublicUser(id: int, name: string, email: string)

  /** A row of the Game table. */
  datatype Game = Game(id: int, name: string, sport: string, league: string)

  /** A row of the Favorite table: user `userId` has marked game `gameId`. */
  datatype Favorite = Favorite(id: int, userId: int, gameId: int)

  /** A game as the API returns it: the game's own columns and the requesting
      user's `isFavorite` flag, with no joined `favorites` relation. */
  datatype GameView = GameView(id: int, name: string, sport: string, league: string, isFavorite: bool)

  /** The object-rest strip `const { password: _, ...rest } = user`: every column but the password. */
  function WithoutPassword(u: User): (r: PublicUser)
    ensures r.id == u.id && r.name == u.name && r.email == u.email
  {
    PublicUser(u.id, u.name, u.email)
  }

  function Annotate(g: Game, isFavorite: bool): GameView {
    GameView(g.id, g.name, g.sport, g.league, isFavorite)
  }

  /** The game's own columns of an annotated game. */
  function Base(v: GameView): Game {
    Game(v.id, v.name, v.sport, v.league)
  }

  predicate IsPair(f: Favorite, userId: int, gameId: int) {
    f.userId == userId && f.gameId == gameId
  }

  /** Some row of the Favorite table links the user to the game. */
  predicate HasPair(rows: seq<Favorite>, userId: int, gameId: int) {
    exists i :: 0 <= i < |rows| && IsPair(rows[i], userId, gameId)
  }

  /** At most one row per (user, game) pair. The schema does not enforce this;
      the toggle's check before it inserts does, as long as toggles run one at a time. */
  predicate PairsUnique(rows: seq<Favorite>) {
    forall i, j :: 0 <= i < j < |rows| ==> !IsPair(rows[j], rows[i].userId, rows[i].gameId)
  }

  /** The (user, game) pairs the table records, forgetting row ids and order. */
  ghost function Pairs(rows: seq<Favorite>): set<(int, int)> {
    set f | f in rows :: (f.userId, f.gameId)
  }

  /** The table records a pair exactly when some row links the user to the game. */
  lemma HasPairInPairs(rows: seq<Favorite>, userId: int, gameId: int)
    ensures HasPair(rows, userId, gameId) <==> (userId, gameId) in Pairs(rows)
  {
    if (userId, gameId) in Pairs(rows) {
      var f :| f in rows && (userId, gameId) == (f.userId, f.gameId);
      var i :| 0 <= i < |rows| && rows[i] == f;
      assert IsPair(rows[i], userId, gameId);
    }
    if HasPair(rows, userId, gameId) {
      var i :| 0 <= i < |rows| && IsPair(rows[i], userId, gameId);
      assert rows[i] in rows;
    }
  }

  /** Appending a row adds its pair. */
  lemma PairsAppend(rows: seq<Favorite>, f: Favorite)
    ensures Pairs(rows + [f]) == Pairs(rows) + {(f.userId, f.gameId)}
  {
    assert forall g :: g in rows + [f] <==> g in rows || g == f;
  }

  /** Removing a row removes its pair, provided no other row has that pair. */
  lemma PairsRemoveAt(rows: seq<Favorite>, k: nat)
    requires PairsUnique(rows) && k < |rows|
    ensures Pairs(rows[..k] + rows[k + 1..]) == Pairs(rows) - {(rows[k].userId, rows[k].gameId)}
  {
    var s := rows[..k] + rows[k + 1..];
    var p0 := (rows[k].userId, rows[k].gameId);
    forall i | 0 <= i < |s| ensures s[i] == rows[if i < k then i else i + 1] {}
    forall p | p in Pairs(s) ensures p in Pairs(rows) && p != p0 {
      var f :| f in s && p == (f.userId, f.gameId);
      var i :| 0 <= i < |s| && s[i] == f;
      var j := if i < k then i else i + 1;
      assert f == rows[j] && j != k;
      if j < k {
        assert !IsPair(rows[k], rows[j].userId, rows[j].gameId);
      } else {
        assert !IsPair(rows[j], rows[k].userId, rows[k].gameId);
      }
    }
    forall p | p in Pairs(rows) && p != p0 ensures p in Pairs(s) {
      var f :| f in rows && p == (f.userId, f.gameId);
      var i :| 0 <= i < |rows| && rows[i] == f;
      assert i != k;
      assert s[if i < k then i else i - 1] == f;
    }
  }

  /** Row ids increase along the table, as autoincrement ids handed out in insertion order do. */
  predicate FavoriteIdsIncreasing(rows: seq<Favorite>) {
    forall i, j :: 0 <= i < j < |rows| ==> rows[i].id < rows[j].id
  }

  function OfUser(userId: int): Favorite -> bool {
    (f: Favorite) => f.userId == userId
  }

  /** `favorite.findMany({ where: { userId } })`: the user's rows in table order. */
  function UserRows(rows: seq<Favorite>, userId: int): (r: seq<Favorite>)
    ensures |r| <= |rows|
    ensures forall i :: 0 <= i < |r| ==> r[i] in rows && r[i].userId == userId
    ensures forall f :: f in rows && f.userId == userId ==> f in r
  {
    var mine := Filter(rows, OfUser(userId));
    FilterMembers(rows, OfUser(userId));
    assert forall i :: 0 <= i < |mine| ==> mine[i] in mine;
    mine
  }

  predicate GameExists(games: seq<Game>, gameId: int) {
    exists i :: 0 <= i < |games| && games[i].id == gameId
  }

  /** The Game row with the given id: the target of a favorite's foreign key. */
  function GameOf(games: seq<Game>, gameId: int): (g: Game)
    requires GameExists(games, gameId)
    ensures g in games && g.id == gameId
  {
    if games[0].id == gameId then games[0]
    else
      assert GameExists(games[1..], gameId) by {
        var i :| 0 <= i < |games| && games[i].id == gameId;
        assert games[1..][i - 1] == games[i];
      }
      GameOf(games[1..], gameId)
  }

  /** Game ids are the table's primary key. */
  predicate GameIdsUnique(games: seq<Game>) {
    forall i, j :: 0 <= i < j < |games| ==> games[i].id != games[j].id
  }

  /** Every favorite's foreign key names an existing game. */
  predicate ReferencesGames(rows: seq<Favorite>, games: seq<Game>) {
    forall i :: 0 <= i < |rows| ==> GameExists(games, rows[i].gameId)
  }

  /** Under unique primary keys the row a foreign key names is the only one with that id. */
  lemma GameOfUnique(games: seq<Game>, g: Game)
    requires GameIdsUnique(games) && g in games
    ensures GameExists(games, g.id) && GameOf(games, g.id) == g
  {
    var i :| 0 <= i < |games| && games[i] == g;
    var h := GameOf(games, g.id);
    var j :| 0 <= j < |games| && games[j] == h;
    assert i == j;
  }

  /** Whether the user has a favorite for a game is decided by the user's own rows only. */
  lemma HasPairOfUserRows(rows: seq<Favorite>, userId: int, gameId: int)
    ensures HasPair(UserRows(rows, userId), userId, gameId) == HasPair(rows, userId, gameId)
  {
    var mine := UserRows(rows, userId);
    if HasPair(rows, userId, gameId) {
      var i :| 0 <= i < |rows| && IsPair(rows[i], userId, gameId);
      assert rows[i] in mine;
      var j :| 0 <= j < |mine| && mine[j] == rows[i];
    }
    if HasPair(mine, userId, gameId) {
      var j :| 0 <= j < |mine| && IsPair(mine[j], userId, gameId);
      assert mine[j] in rows;
      var i :| 0 <= i < |rows| && rows[i] == mine[j];
    }
  }
}
