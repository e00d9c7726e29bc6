/** The favorites controller: `toggleFavorite` (POST and DELETE
    /favorites/:gameId, both routed to it) and `getFavorites` (GET /favorites),
    over the Favorite table held by a `FavoriteTable` object. */
module FavoritesController {
  import opened Sequences
  import opened Schema

  /** What a toggle reports: `{ added: true }`, `{ removed: true }`, or a
      storage failure (status 500). */
  datatype ToggleReply = Added | Removed | ToggleFailed

  /** The HTTP status: the default 200 of `res.json` for both successes, 500 from the `catch`. */
  function Status(reply: ToggleReply): (r: int)
    ensures r == 500 <==> reply == ToggleFailed
    ensures r != 500 ==> r == 200
  {
    if reply.ToggleFailed? then 500 else 200
  }

  /** The `message` field of the reply; each outcome has its own. */
  function Message(reply: ToggleReply): (r: string)
    ensures r == "Added to favorites" <==> reply == Added
    ensures r == "Removed from favorites" <==> reply == Removed
    ensures r == "Error toggling favorite" <==> reply == ToggleFailed
  {
    match reply
    case Added => "Added to favorites"
    case Removed => "Removed from favorites"
    case ToggleFailed => "Error toggling favorite"
  }

  /** `favorite.findFirst({ where: { userId, gameId } })`: the position of the
      first row for the pair, in table order. */
  function FindFirst(rows: seq<Favorite>, userId: int, gameId: int): (r: Option<nat>)
    ensures r.None? <==> !HasPair(rows, userId, gameId)
    ensures r.Some? ==> r.value < |rows| && IsPair(rows[r.value], userId, gameId)
    ensures r.Some? ==> forall i :: 0 <= i < r.value ==> !IsPair(rows[i], userId, gameId)
  {
    if rows == [] then None
    else if IsPair(rows[0], userId, gameId) then Some(0)
    else
      match FindFirst(rows[1..], userId, gameId)
      case None => None
      case Some(k) =>
        assert rows[1..][k] == rows[k + 1];
        Some(k + 1)
  }

  function OtherId(id: int): Favorite -> bool {
    (f: Favorite) => f.id != id
  }

  /** `favorite.delete({ where: { id } })`: no row with that id is left, and every
      other row stays. */
  function DeleteById(rows: seq<Favorite>, id: int): (r: seq<Favorite>)
    ensures |r| <= |rows|
    ensures forall f :: f in r <==> f in rows && f.id != id
  {
    FilterMembers(rows, OtherId(id));
    Filter(rows, OtherId(id))
  }

  /** The table's own invariant: ids increase along the table and stay below
      the next id the autoincrement hands out. */
  predicate WellFormed(rows: seq<Favorite>, nextId: int) {
    FavoriteIdsIncreasing(rows) && forall i :: 0 <= i < |rows| ==> rows[i].id < nextId
  }

  /** The reply and the table after one toggle. */
  datatype ToggleResult = ToggleResult(reply: ToggleReply, rows: seq<Favorite>, nextId: int)

  /** `toggleFavorite` for user `userId` and game `gameId`: when the pair has a
      row, that row is deleted; otherwise a row is created, which the foreign
      key on `gameId` refuses for a game that does not exist. */
  function Toggle(rows: seq<Favorite>, nextId: int, games: seq<Game>, userId: int, gameId: int): (r: ToggleResult)
    ensures r.reply == Removed <==> HasPair(rows, userId, gameId)
    ensures r.reply == Added <==> !HasPair(rows, userId, gameId) && GameExists(games, gameId)
    ensures r.reply != Added ==> r.nextId == nextId
    ensures r.reply == Added ==> r.rows == rows + [Favorite(nextId, userId, gameId)] && r.nextId == nextId + 1
    ensures r.reply == ToggleFailed ==> r.rows == rows
  {
    match FindFirst(rows, userId, gameId)
    case Some(k) => ToggleResult(Removed, DeleteById(rows, rows[k].id), nextId)
    case None =>
      if GameExists(games, gameId) then
        ToggleResult(Added, rows + [Favorite(nextId, userId, gameId)], nextId + 1)
      else
        ToggleResult(ToggleFailed, rows, nextId)
  }

  /** Deleting by a row's id removes that row and no other when no other row shares its id. */
  lemma DeleteBySoleId(rows: seq<Favorite>, k: nat)
    requires k < |rows|
    requires forall i :: 0 <= i < |rows| && i != k ==> rows[i].id != rows[k].id
    ensures DeleteById(rows, rows[k].id) == rows[..k] + rows[k + 1..]
  {
    var keep := OtherId(rows[k].id);
    var s := rows[..k] + rows[k + 1..];
    forall f | f in s ensures keep(f) {
      var i :| 0 <= i < |s| && s[i] == f;
      assert s[i] == rows[if i < k then i else i + 1];
    }
    FilterKeepsAll(s, keep);
    FilterWithoutDropped(rows, k, keep);
    assert DeleteById(rows, rows[k].id) == Filter(rows, keep);
  }

  /** Ids are unique in a well-formed table, so deleting by id removes exactly one row. */
  lemma DeleteByUniqueId(rows: seq<Favorite>, k: nat)
    requires FavoriteIdsIncreasing(rows) && k < |rows|
    ensures DeleteById(rows, rows[k].id) == rows[..k] + rows[k + 1..]
  {
    forall i | 0 <= i < |rows| && i != k ensures rows[i].id != rows[k].id {
      if i < k {
        assert rows[i].id < rows[k].id;
      } else {
        assert rows[k].id < rows[i].id;
      }
    }
    DeleteBySoleId(rows, k);
  }

  /** A toggle that finds the pair deletes exactly the row `findFirst` returned. */
  lemma ToggleRemovesFoundRow(rows: seq<Favorite>, nextId: int, games: seq<Game>, userId: int, gameId: int)
    requires WellFormed(rows, nextId) && HasPair(rows, userId, gameId)
    ensures var r := Toggle(rows, nextId, games, userId, gameId);
      var k := FindFirst(rows, userId, gameId).value;
      r.reply == Removed && r.rows == rows[..k] + rows[k + 1..] && |r.rows| == |rows| - 1
  {
    DeleteByUniqueId(rows, FindFirst(rows, userId, gameId).value);
  }

  /** Removing one row keeps ids increasing and below the bound. */
  lemma RemoveAtWellFormed(rows: seq<Favorite>, nextId: int, k: nat)
    requires WellFormed(rows, nextId) && k < |rows|
    ensures WellFormed(rows[..k] + rows[k + 1..], nextId)
  {
    var s := rows[..k] + rows[k + 1..];
    forall i | 0 <= i < |s| ensures s[i] == rows[if i < k then i else i + 1] {}
  }

  /** Removing one row keeps every other pair unique. */
  lemma RemoveAtPairsUnique(rows: seq<Favorite>, k: nat)
    requires PairsUnique(rows) && k < |rows|
    ensures PairsUnique(rows[..k] + rows[k + 1..])
  {
    var s := rows[..k] + rows[k + 1..];
    forall i | 0 <= i < |s| ensures s[i] == rows[if i < k then i else i + 1] {}
  }

  /** Every toggle keeps the table well formed. */
  lemma TogglePreservesWellFormed(rows: seq<Favorite>, nextId: int, games: seq<Game>, userId: int, gameId: int)
    requires WellFormed(rows, nextId)
    ensures var r := Toggle(rows, nextId, games, userId, gameId); WellFormed(r.rows, r.nextId)
  {
    if HasPair(rows, userId, gameId) {
      ToggleRemovesFoundRow(rows, nextId, games, userId, gameId);
      RemoveAtWellFormed(rows, nextId, FindFirst(rows, userId, gameId).value);
    }
  }

  /** Run one at a time, toggles never create a second row for a pair. */
  lemma TogglePreservesPairsUnique(rows: seq<Favorite>, nextId: int, games: seq<Game>, userId: int, gameId: int)
    requires WellFormed(rows, nextId) && PairsUnique(rows)
    ensures PairsUnique(Toggle(rows, nextId, games, userId, gameId).rows)
  {
    var r := Toggle(rows, nextId, games, userId, gameId);
    if r.reply == Removed {
      ToggleRemovesFoundRow(rows, nextId, games, userId, gameId);
      RemoveAtPairsUnique(rows, FindFirst(rows, userId, gameId).value);
    } else if r.reply == Added {
      var s := r.rows;
      forall i, j | 0 <= i < j < |s| ensures !IsPair(s[j], s[i].userId, s[i].gameId) {
        if j == |rows| {
          assert s[j] == Favorite(nextId, userId, gameId);
          assert s[i] == rows[i];
        } else {
          assert s[i] == rows[i] && s[j] == rows[j];
        }
      }
    }
  }

  /** Toggles only ever add rows for an existing game, so foreign keys stay valid. */
  lemma TogglePreservesReferences(rows: seq<Favorite>, nextId: int, games: seq<Game>, userId: int, gameId: int)
    requires WellFormed(rows, nextId) && ReferencesGames(rows, games)
    ensures ReferencesGames(Toggle(rows, nextId, games, userId, gameId).rows, games)
  {
    var r := Toggle(rows, nextId, games, userId, gameId);
    if r.reply == Removed {
      forall i | 0 <= i < |r.rows| ensures GameExists(games, r.rows[i].gameId) {
        assert r.rows[i] in rows;
        var j :| 0 <= j < |rows| && rows[j] == r.rows[i];
      }
    } else if r.reply == Added {
      forall i | 0 <= i < |r.rows| ensures GameExists(games, r.rows[i].gameId) {
        if i < |rows| {
          assert r.rows[i] == rows[i];
        }
      }
    }
  }

  function NotThePair(userId: int, gameId: int): Favorite -> bool {
    (f: Favorite) => !IsPair(f, userId, gameId)
  }

  /** Rows for any other user, or for any other game, come out of a toggle exactly
      as they went in: same rows, same ids, same order. */
  lemma ToggleKeepsOtherRows(rows: seq<Favorite>, nextId: int, games: seq<Game>, userId: int, gameId: int)
    requires WellFormed(rows, nextId)
    ensures var others := NotThePair(userId, gameId);
      Filter(Toggle(rows, nextId, games, userId, gameId).rows, others) == Filter(rows, others)
  {
    var r := Toggle(rows, nextId, games, userId, gameId);
    if r.reply == Removed {
      ToggleRemovesFoundRow(rows, nextId, games, userId, gameId);
      FilterWithoutDropped(rows, FindFirst(rows, userId, gameId).value, NotThePair(userId, gameId));
    } else if r.reply == Added {
      FilterAppendDropped(rows, Favorite(nextId, userId, gameId), NotThePair(userId, gameId));
    }
  }

  /** Seen as a set of (user, game) pairs, a toggle removes the pair when it was
      there and adds it when it was not (unless the game does not exist), and
      no other pair changes. This is the pair's two-state machine
      not-favorited / favorited. */
  lemma TogglePairs(rows: seq<Favorite>, nextId: int, games: seq<Game>, userId: int, gameId: int)
    requires WellFormed(rows, nextId) && PairsUnique(rows)
    ensures var r := Toggle(rows, nextId, games, userId, gameId);
      Pairs(r.rows) == match r.reply
        case Removed => Pairs(rows) - {(userId, gameId)}
        case Added => Pairs(rows) + {(userId, gameId)}
        case ToggleFailed => Pairs(rows)
  {
    var r := Toggle(rows, nextId, games, userId, gameId);
    if r.reply == Removed {
      ToggleRemovesFoundRow(rows, nextId, games, userId, gameId);
      PairsRemoveAt(rows, FindFirst(rows, userId, gameId).value);
    } else if r.reply == Added {
      PairsAppend(rows, Favorite(nextId, userId, gameId));
    }
  }

  /** Two toggles of the same pair in a row give back the same set of pairs; when
      the pair was absent, they give back the very same rows (only the
      autoincrement counter has moved on). */
  lemma ToggleTwice(rows: seq<Favorite>, nextId: int, games: seq<Game>, userId: int, gameId: int)
    requires WellFormed(rows, nextId) && PairsUnique(rows) && ReferencesGames(rows, games)
    ensures var once := Toggle(rows, nextId, games, userId, gameId);
      var twice := Toggle(once.rows, once.nextId, games, userId, gameId);
      && Pairs(twice.rows) == Pairs(rows)
      && (once.reply == Removed ==> twice.reply == Added)
      && (once.reply == Added ==> twice.reply == Removed && twice.rows == rows)
      && (once.reply == ToggleFailed ==> twice == once)
  {
    var once := Toggle(rows, nextId, games, userId, gameId);
    TogglePreservesWellFormed(rows, nextId, games, userId, gameId);
    TogglePreservesPairsUnique(rows, nextId, games, userId, gameId);
    TogglePairs(rows, nextId, games, userId, gameId);
    TogglePairs(once.rows, once.nextId, games, userId, gameId);
    var twice := Toggle(once.rows, once.nextId, games, userId, gameId);
    if once.reply == Removed {
      var k := FindFirst(rows, userId, gameId).value;
      assert GameExists(games, rows[k].gameId);
      assert (userId, gameId) !in Pairs(once.rows);
      assert !HasPair(once.rows, userId, gameId);
    } else if once.reply == Added {
      var row := Favorite(nextId, userId, gameId);
      assert once.rows[|rows|] == row;
      assert HasPair(once.rows, userId, gameId);
      assert FindFirst(once.rows, userId, gameId) == Some(|rows|);
      DeleteByUniqueId(once.rows, |rows|);
      assert once.rows[..|rows|] == rows;
    }
  }

  /** `getFavorites`: the requesting user's rows, each mapped to its joined game
      with `isFavorite: true`, in table order. */
  function GetFavorites(rows: seq<Favorite>, games: seq<Game>, userId: int): (r: seq<GameView>)
    requires ReferencesGames(rows, games)
    ensures |r| == |UserRows(rows, userId)|
    ensures forall i :: 0 <= i < |r| ==> r[i].isFavorite
    ensures forall i :: 0 <= i < |r| ==> r[i].id == UserRows(rows, userId)[i].gameId && Base(r[i]) in games
  {
    var mine := UserRows(rows, userId);
    assert forall i :: 0 <= i < |mine| ==> GameExists(games, mine[i].gameId) by {
      forall i | 0 <= i < |mine| ensures GameExists(games, mine[i].gameId) {
        assert mine[i] in rows;
        var j :| 0 <= j < |rows| && rows[j] == mine[i];
      }
    }
    seq(|mine|, i requires 0 <= i < |mine| => Annotate(GameOf(games, mine[i].gameId), true))
  }

  /** Element `i` of the favorites list is the game the user's `i`-th row names, flagged as a favorite. */
  lemma GetFavoritesAt(rows: seq<Favorite>, games: seq<Game>, userId: int, i: nat)
    requires ReferencesGames(rows, games) && i < |UserRows(rows, userId)|
    ensures GameExists(games, UserRows(rows, userId)[i].gameId)
    ensures GetFavorites(rows, games, userId)[i] == Annotate(GameOf(games, UserRows(rows, userId)[i].gameId), true)
  {
    var mine := UserRows(rows, userId);
    var j :| 0 <= j < |rows| && rows[j] == mine[i];
  }

  /** The listed favorites are exactly the user's: every element is a game the
      user has a row for, and every game the user has a row for is listed. */
  lemma GetFavoritesExactlyTheUsers(rows: seq<Favorite>, games: seq<Game>, userId: int)
    requires ReferencesGames(rows, games)
    ensures var r := GetFavorites(rows, games, userId);
      && (forall i :: 0 <= i < |r| ==> HasPair(rows, userId, r[i].id))
      && (forall j :: 0 <= j < |rows| && rows[j].userId == userId ==>
            exists i :: 0 <= i < |r| && r[i].id == rows[j].gameId)
  {
    var r := GetFavorites(rows, games, userId);
    var mine := UserRows(rows, userId);
    forall i | 0 <= i < |r| ensures HasPair(rows, userId, r[i].id) {
      assert mine[i] in rows;
      var j :| 0 <= j < |rows| && rows[j] == mine[i];
      assert IsPair(rows[j], userId, r[i].id);
    }
    forall j | 0 <= j < |rows| && rows[j].userId == userId
      ensures exists i :: 0 <= i < |r| && r[i].id == rows[j].gameId
    {
      assert rows[j] in mine;
      var i :| 0 <= i < |mine| && mine[i] == rows[j];
      assert r[i].id == rows[j].gameId;
    }
  }

  /** The Favorite table. Its methods change it in place, as Prisma's writes change the database. */
  class FavoriteTable {
    var rows: seq<Favorite>
    var nextId: int

    ghost predicate Valid()
      reads this
    {
      WellFormed(rows, nextId)
    }

    constructor ()
      ensures Valid() && rows == [] && nextId == 1
      ensures PairsUnique(rows)
    {
      rows := [];
      nextId := 1;
    }

    /** `toggleFavorite` for the authenticated user `userId` and the route's `gameId`. */
    method ToggleFavorite(games: seq<Game>, userId: int, gameId: int) returns (reply: ToggleReply)
      requires Valid()
      modifies this
      ensures Valid()
      ensures var t := Toggle(old(rows), old(nextId), games, userId, gameId);
        reply == t.reply && rows == t.rows && nextId == t.nextId
      ensures old(PairsUnique(rows)) ==> PairsUnique(rows)
      ensures ReferencesGames(old(rows), games) ==> ReferencesGames(rows, games)
    {
      TogglePreservesWellFormed(rows, nextId, games, userId, gameId);
      if PairsUnique(rows) {
        TogglePreservesPairsUnique(rows, nextId, games, userId, gameId);
      }
      if ReferencesGames(rows, games) {
        TogglePreservesReferences(rows, nextId, games, userId, gameId);
      }
      var existing := FindFirst(rows, userId, gameId);
      if existing.Some? {
        rows := DeleteById(rows, rows[existing.value].id);
        return Removed;
      }
      if !GameExists(games, gameId) {
        // the foreign key refuses the row; Prisma throws and the handler answers 500
        return ToggleFailed;
      }
      rows := rows + [Favorite(nextId, userId, gameId)];
      nextId := nextId + 1;
      reply := Added;
    }
  }
}
