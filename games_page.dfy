/** The games page of the client: the state the component keeps, the client-side
    filters over the list the server returned, the optimistic favorite flip, the
    list of sport buttons and the CSS class of a sport badge. */
module GamesPage {
  import opened Sequences
  import opened Schema
  import opened JsString

  /** The filter value that selects every sport, and the first sport button. */
  const AllSports: string := "all"

  const LoadFailedMessage: string := "Failed to load games"
  const ToggleFailedMessage: string := "Failed to update favorite"
  const BadgePrefix: string := "game-badge badge-"

  /** The sport filter of `applyFilters`: the sports agree once both are lower-cased. */
  function SportMatches(filter: string): GameView -> bool {
    (g: GameView) => ToLowerCase(g.sport) == ToLowerCase(filter)
  }

  /** The favorites-only filter of `applyFilters`. */
  const FavoritesOnlyFilter: GameView -> bool := (g: GameView) => g.isFavorite

  /** What `applyFilters` sets `filteredGames` to: the sport filter unless it is
      `'all'`, then the favorites-only filter when that is on. */
  function Visible(games: seq<GameView>, filter: string, favoritesOnly: bool): (r: seq<GameView>)
    ensures |r| <= |games|
    ensures forall i :: 0 <= i < |r| ==>
      && r[i] in games
      && (filter != AllSports ==> ToLowerCase(r[i].sport) == ToLowerCase(filter))
      && (favoritesOnly ==> r[i].isFavorite)
  {
    var bySport := if filter != AllSports then Filter(games, SportMatches(filter)) else games;
    var shown := if favoritesOnly then Filter(bySport, FavoritesOnlyFilter) else bySport;
    FilterMembers(games, SportMatches(filter));
    FilterMembers(bySport, FavoritesOnlyFilter);
    assert forall i :: 0 <= i < |shown| ==> shown[i] in shown;
    shown
  }

  /** With the filter at `'all'` and favorites-only off, every game is shown, in order. */
  lemma VisibleUnfiltered(games: seq<GameView>)
    ensures Visible(games, AllSports, false) == games
  {
  }

  /** Exactly the games that pass both enabled filters are shown: a game is shown
      iff it is in the list, its sport matches the filter ignoring case (unless
      the filter is `'all'`), and it is a favorite (when favorites-only is on). */
  lemma VisibleMembers(games: seq<GameView>, filter: string, favoritesOnly: bool)
    ensures forall g :: g in Visible(games, filter, favoritesOnly) <==>
      && g in games
      && (filter != AllSports ==> ToLowerCase(g.sport) == ToLowerCase(filter))
      && (favoritesOnly ==> g.isFavorite)
  {
    var bySport := if filter != AllSports then Filter(games, SportMatches(filter)) else games;
    FilterMembers(games, SportMatches(filter));
    FilterMembers(bySport, FavoritesOnlyFilter);
  }

  /** The games shown are always an order-preserving subsequence of the games loaded. */
  lemma VisibleIsSubsequence(games: seq<GameView>, filter: string, favoritesOnly: bool)
    ensures IsSubsequence(Visible(games, filter, favoritesOnly), games)
  {
    if filter != AllSports && favoritesOnly {
      var both := (g: GameView) => SportMatches(filter)(g) && FavoritesOnlyFilter(g);
      FilterFilter(games, SportMatches(filter), FavoritesOnlyFilter, both);
      FilterIsSubsequence(games, both);
    } else if filter != AllSports {
      FilterIsSubsequence(games, SportMatches(filter));
    } else if favoritesOnly {
      FilterIsSubsequence(games, FavoritesOnlyFilter);
    } else {
      SubsequenceReflexive(games);
    }
  }

  /** One game after the local update of `toggleFavorite`. */
  function Flipped(g: GameView, gameId: int): GameView {
    if g.id == gameId then g.(isFavorite := !g.isFavorite) else g
  }

  /** The local update of `toggleFavorite` after the server accepted it: the game
      with id `gameId` has its `isFavorite` negated. */
  function Flip(games: seq<GameView>, gameId: int): (r: seq<GameView>)
    ensures |r| == |games|
  {
    seq(|games|, i requires 0 <= i < |games| => Flipped(games[i], gameId))
  }

  /** The games with the toggled id keep their own columns and have `isFavorite`
      negated; every other game is unchanged, in its place. */
  lemma FlipChangesOnlyTarget(games: seq<GameView>, gameId: int)
    ensures forall i :: 0 <= i < |games| && games[i].id != gameId ==> Flip(games, gameId)[i] == games[i]
    ensures forall i :: 0 <= i < |games| && games[i].id == gameId ==>
      Base(Flip(games, gameId)[i]) == Base(games[i]) && Flip(games, gameId)[i].isFavorite == !games[i].isFavorite
  {
  }

  /** Flipping the same game twice restores the list. */
  lemma FlipInvolution(games: seq<GameView>, gameId: int)
    ensures Flip(Flip(games, gameId), gameId) == games
  {
    var once := Flip(games, gameId);
    assert forall i :: 0 <= i < |games| ==> once[i].id == games[i].id;
  }

  /** Game ids are distinct in the list the server returned. */
  predicate ViewIdsUnique(games: seq<GameView>) {
    forall i, j :: 0 <= i < j < |games| ==> games[i].id != games[j].id
  }

  /** When ids are distinct and the game is listed, the flip changes exactly one element. */
  lemma FlipChangesExactlyOne(games: seq<GameView>, gameId: int, k: nat)
    requires ViewIdsUnique(games) && k < |games| && games[k].id == gameId
    ensures forall i :: 0 <= i < |games| ==> (Flip(games, gameId)[i] != games[i] <==> i == k)
  {
  }

  /** Flipping an id that is not listed changes nothing. */
  lemma FlipAbsent(games: seq<GameView>, gameId: int)
    requires forall i :: 0 <= i < |games| ==> games[i].id != gameId
    ensures Flip(games, gameId) == games
  {
  }

  /** `games.map(g => g.sport)`: one label per game. */
  function SportsOf(games: seq<GameView>): (r: seq<string>)
    ensures |r| == |games|
  {
    seq(|games|, i requires 0 <= i < |games| => games[i].sport)
  }

  /** The labels are exactly the sports of the games. */
  lemma SportsOfMembers(games: seq<GameView>)
    ensures forall s :: s in SportsOf(games) <==> exists i :: 0 <= i < |games| && games[i].sport == s
  {
    var sports := SportsOf(games);
    forall s ensures s in sports <==> exists i :: 0 <= i < |games| && games[i].sport == s {
      if s in sports {
        var i :| 0 <= i < |sports| && sports[i] == s;
        assert games[i].sport == s;
      }
      if exists i :: 0 <= i < |games| && games[i].sport == s {
        var i :| 0 <= i < |games| && games[i].sport == s;
        assert sports[i] == s;
      }
    }
  }

  /** `['all', ...new Set(games.map(g => g.sport))]`: the sport buttons. */
  function Sports(games: seq<GameView>): (r: seq<string>)
    ensures |r| >= 1 && r[0] == AllSports
  {
    [AllSports] + InsertionOrder(SportsOf(games))
  }

  /** After `'all'`, the buttons list each sport of some game, every such sport,
      once each, in the order the sports first occur in the list. */
  lemma SportsDistinctInFirstOccurrenceOrder(games: seq<GameView>)
    ensures forall s :: s in Sports(games)[1..] <==> exists i :: 0 <= i < |games| && games[i].sport == s
    ensures NoDuplicates(Sports(games)[1..])
    ensures InFirstOccurrenceOrder(Sports(games)[1..], SportsOf(games))
  {
    var sports := SportsOf(games);
    assert Sports(games)[1..] == InsertionOrder(sports);
    InsertionOrderIsFirstOccurrenceOrder(sports);
    SportsOfMembers(games);
  }

  /** The button list as a whole repeats no label exactly when no game's sport is literally `'all'`. */
  lemma SportsNoDuplicatesIff(games: seq<GameView>)
    ensures NoDuplicates(Sports(games)) <==> forall i :: 0 <= i < |games| ==> games[i].sport != AllSports
  {
    var r := Sports(games);
    var tail := InsertionOrder(SportsOf(games));
    assert r == [AllSports] + tail;
    if forall i :: 0 <= i < |games| ==> games[i].sport != AllSports {
      assert AllSports !in SportsOf(games);
      forall i, j | 0 <= i < j < |r| ensures r[i] != r[j] {
        assert r[j] == tail[j - 1];
        if i > 0 {
          assert r[i] == tail[i - 1];
        }
      }
    } else {
      var i :| 0 <= i < |games| && games[i].sport == AllSports;
      assert SportsOf(games)[i] == AllSports;
      assert AllSports in tail;
      var j :| 0 <= j < |tail| && tail[j] == AllSports;
      assert r[0] == r[j + 1];
    }
  }

  /** `getBadgeClass(sport)`: the fixed prefix, then a suffix no longer than the sport
      that is empty exactly when the sport is. */
  function BadgeClass(sport: string): (r: string)
    ensures |BadgePrefix| <= |r| <= |BadgePrefix| + |sport| && r[..|BadgePrefix|] == BadgePrefix
    ensures |r| == |BadgePrefix| <==> sport == ""
  {
    BadgePrefix + HyphenateSpaces(ToLowerCase(sport))
  }

  /** The badge class is the fixed prefix followed by a suffix without whitespace
      and without upper-case letters, built from hyphens and the sport's lower-cased characters. */
  lemma BadgeClassWellFormed(sport: string)
    ensures |BadgeClass(sport)| >= |BadgePrefix| && BadgeClass(sport)[..|BadgePrefix|] == BadgePrefix
    ensures forall i :: |BadgePrefix| <= i < |BadgeClass(sport)| ==>
      !IsSpace(BadgeClass(sport)[i]) && !IsUpper(BadgeClass(sport)[i])
      && (BadgeClass(sport)[i] == '-' || BadgeClass(sport)[i] in ToLowerCase(sport))
  {
    var lower := ToLowerCase(sport);
    var suffix := HyphenateSpaces(lower);
    HyphenateLeavesNoSpaces(lower, false);
    var b := BadgeClass(sport);
    forall i | |BadgePrefix| <= i < |b|
      ensures !IsSpace(b[i]) && !IsUpper(b[i]) && (b[i] == '-' || b[i] in lower)
    {
      assert b[i] == suffix[i - |BadgePrefix|];
      if b[i] != '-' {
        var k :| 0 <= k < |lower| && lower[k] == b[i];
      }
    }
  }

  /** A sport name with no whitespace gets its lower-cased name as the badge suffix. */
  lemma BadgeClassOfWord(sport: string)
    requires forall i :: 0 <= i < |sport| ==> !IsSpace(sport[i])
    ensures BadgeClass(sport) == BadgePrefix + ToLowerCase(sport)
  {
    HyphenateWithoutSpaces(ToLowerCase(sport), false);
  }

  /** How the request of `fetchGames` ended: the games it received, or an error
      whose response may carry a `message`. */
  datatype FetchOutcome = FetchOk(data: seq<GameView>) | FetchError(serverMessage: Option<string>)

  /** The component state of the games page, observed after the filter effect has run. */
  class GamesView {
    var games: seq<GameView>
    var filteredGames: seq<GameView>
    var loading: bool
    var error: string
    var filter: string
    var showFavoritesOnly: bool

    /** The filter effect has caught up: the shown list is the filtered loaded list. */
    ghost predicate Valid()
      reads this
    {
      filteredGames == Visible(games, filter, showFavoritesOnly)
    }

    /** The initial `useState` values. */
    constructor ()
      ensures Valid()
      ensures games == [] && filteredGames == [] && loading && error == ""
      ensures filter == AllSports && !showFavoritesOnly
    {
      games := [];
      filteredGames := [];
      loading := true;
      error := "";
      filter := AllSports;
      showFavoritesOnly := false;
    }

    /** `applyFilters`: recompute the shown list from the loaded list and the two filters. */
    method ApplyFilters()
      modifies this
      ensures Valid()
      ensures games == old(games) && loading == old(loading) && error == old(error)
      ensures filter == old(filter) && showFavoritesOnly == old(showFavoritesOnly)
    {
      var result := games;
      if filter != AllSports {
        result := Filter(result, SportMatches(filter));
      }
      if showFavoritesOnly {
        result := Filter(result, FavoritesOnlyFilter);
      }
      filteredGames := result;
    }

    /** `fetchGames`, then the filter effect: on success the loaded list is replaced
        and the error cleared; on failure the server's message, or a fixed one, is
        shown and the list kept. Loading is over either way. */
    method FetchGames(outcome: FetchOutcome)
      requires Valid()
      modifies this
      ensures Valid() && !loading
      ensures filter == old(filter) && showFavoritesOnly == old(showFavoritesOnly)
      ensures outcome.FetchOk? ==> games == outcome.data && error == ""
      ensures outcome.FetchError? ==> games == old(games)
      ensures outcome.FetchError? ==>
        error == (if Truthy(outcome.serverMessage) then outcome.serverMessage.value else LoadFailedMessage)
    {
      loading := true;
      match outcome {
        case FetchOk(data) =>
          games := data;
          error := "";
        case FetchError(serverMessage) =>
          error := if Truthy(serverMessage) then serverMessage.value else LoadFailedMessage;
      }
      loading := false;
      ApplyFilters();
    }

    /** `toggleFavorite(gameId)`, then the filter effect: when the request succeeded
        the game's flag is flipped locally; when it failed the list stays and an error is shown. */
    method ToggleFavorite(gameId: int, posted: bool)
      requires Valid()
      modifies this
      ensures Valid()
      ensures loading == old(loading) && filter == old(filter) && showFavoritesOnly == old(showFavoritesOnly)
      ensures posted ==> games == Flip(old(games), gameId) && error == old(error)
      ensures !posted ==> games == old(games) && filteredGames == old(filteredGames) && error == ToggleFailedMessage
    {
      if posted {
        games := Flip(games, gameId);
        ApplyFilters();
      } else {
        error := ToggleFailedMessage;
      }
    }

    /** A click on a sport button, then the filter effect. */
    method SelectSport(sport: string)
      requires Valid()
      modifies this
      ensures Valid() && filter == sport
      ensures games == old(games) && loading == old(loading) && error == old(error)
      ensures showFavoritesOnly == old(showFavoritesOnly)
    {
      filter := sport;
      ApplyFilters();
    }

    /** A click on "Favorites Only", then the filter effect. */
    method ToggleFavoritesOnly()
      requires Valid()
      modifies this
      ensures Valid() && showFavoritesOnly == !old(showFavoritesOnly)
      ensures games == old(games) && loading == old(loading) && error == old(error)
      ensures filter == old(filter)
    {
      showFavoritesOnly := !showFavoritesOnly;
      ApplyFilters();
    }
  }
}
