/**
 * The movie manager back end: a list of movies kept in case-insensitive
 * title order, filled from a movie lookup service.
 */
module Manager {
  import opened JavaLang
  import opened Movies

  function Title(m: Movie): string
  {
    m.movie.title
  }

  /** The list is in non-decreasing order of title, ignoring case. */
  predicate Sorted(list: seq<Movie>)
  {
    forall i, j :: 0 <= i < j < |list| ==> CompareToIgnoreCase(Title(list[i]), Title(list[j])) <= 0
  }

  /**
   * Where addSorted places `movie`: the first index whose title is strictly
   * greater ignoring case, or the end of the list.
   */
  function InsertionIndex(list: seq<Movie>, movie: Movie): (r: nat)
    ensures r <= |list|
    ensures forall k :: 0 <= k < r ==> CompareToIgnoreCase(Title(movie), Title(list[k])) >= 0
    ensures r < |list| ==> CompareToIgnoreCase(Title(movie), Title(list[r])) < 0
  {
    if list == [] then 0
    else if CompareToIgnoreCase(Title(movie), Title(list[0])) < 0 then 0
    else 1 + InsertionIndex(list[1..], movie)
  }

  /** The list after addSorted: `movie` inserted at its insertion index. */
  function InsertSorted(list: seq<Movie>, movie: Movie): seq<Movie>
  {
    var p := InsertionIndex(list, movie);
    list[..p] + [movie] + list[p..]
  }

  /**
   * Insertion adds exactly one element, the new movie, at the insertion
   * index; deleting it there gives back the old list.
   */
  lemma {:induction false} InsertSortedShape(list: seq<Movie>, movie: Movie)
    ensures var r, p := InsertSorted(list, movie), InsertionIndex(list, movie);
      && |r| == |list| + 1
      && r[p] == movie
      && r[..p] + r[p + 1..] == list
      && multiset(r) == multiset(list) + multiset{movie}
  {
    var r, p := InsertSorted(list, movie), InsertionIndex(list, movie);
    var front, back := list[..p], list[p..];
    assert r == front + [movie] + back;
    assert r[..p] == front;
    assert r[p + 1..] == back;
    assert list == front + back;
    MultisetOfInsert(front, movie, back);
  }

  lemma {:induction false} MultisetOfInsert(front: seq<Movie>, movie: Movie, back: seq<Movie>)
    ensures multiset(front + [movie] + back) == multiset(front + back) + multiset{movie}
  {
    calc {
      multiset(front + [movie] + back);
      multiset(front + [movie]) + multiset(back);
      multiset(front) + multiset{movie} + multiset(back);
      multiset(front + back) + multiset{movie};
    }
  }

  /** Inserting into a sorted list keeps it sorted. */
  lemma InsertSortedPreservesSorted(list: seq<Movie>, movie: Movie)
    requires Sorted(list)
    ensures Sorted(InsertSorted(list, movie))
  {
    var r, p := InsertSorted(list, movie), InsertionIndex(list, movie);
    assert forall k :: 0 <= k < p ==> r[k] == list[k];
    assert r[p] == movie;
    assert forall k :: p < k < |r| ==> r[k] == list[k - 1];
    forall i, j | 0 <= i < j < |r|
      ensures CompareToIgnoreCase(Title(r[i]), Title(r[j])) <= 0
    {
      if j < p {
      } else if j == p {
        CompareToIgnoreCaseAntisymmetric(Title(movie), Title(list[i]));
      } else if i < p {
      } else if i == p {
        if p < j - 1 {
          CompareToIgnoreCaseStrictTransitive(Title(movie), Title(list[p]), Title(list[j - 1]));
        }
      }
    }
  }

  /**
   * Among entries with the same title ignoring case, the new movie comes
   * last: every existing entry that compares equal stays before it, and in a
   * sorted list every entry after it is strictly greater.
   */
  lemma InsertSortedIsStable(list: seq<Movie>, movie: Movie)
    requires Sorted(list)
    ensures var p := InsertionIndex(list, movie);
      forall k :: p <= k < |list| ==> CompareToIgnoreCase(Title(movie), Title(list[k])) < 0
    ensures forall k :: 0 <= k < |list| && CompareToIgnoreCase(Title(list[k]), Title(movie)) == 0 ==>
      k < InsertionIndex(list, movie)
  {
    var p := InsertionIndex(list, movie);
    forall k | p <= k < |list|
      ensures CompareToIgnoreCase(Title(movie), Title(list[k])) < 0
    {
      if p < k {
        CompareToIgnoreCaseStrictTransitive(Title(movie), Title(list[p]), Title(list[k]));
      }
    }
    forall k | 0 <= k < |list| && CompareToIgnoreCase(Title(list[k]), Title(movie)) == 0
      ensures k < p
    {
      CompareToIgnoreCaseAntisymmetric(Title(list[k]), Title(movie));
    }
  }

  /** The list after `List.remove(movie)`: its first occurrence removed, if any. */
  function RemoveFirst(list: seq<Movie>, movie: Movie): seq<Movie>
  {
    var i := IndexOf(list, movie);
    if i == -1 then list else list[..i] + list[i + 1..]
  }

  /**
   * Removing a movie that is absent changes nothing; otherwise exactly one
   * occurrence, the first, goes and the rest keep their order.
   */
  lemma RemoveFirstShape(list: seq<Movie>, movie: Movie)
    ensures movie !in list ==> RemoveFirst(list, movie) == list
    ensures movie in list ==>
      var i := IndexOf(list, movie);
      && list[i] == movie && movie !in list[..i]
      && RemoveFirst(list, movie) == list[..i] + list[i + 1..]
      && |RemoveFirst(list, movie)| == |list| - 1
      && multiset(RemoveFirst(list, movie)) == multiset(list) - multiset{movie}
  {
    if movie in list {
      var i := IndexOf(list, movie);
      assert list == list[..i] + [movie] + list[i + 1..];
    }
  }

  /** One instance of sortedness. */
  lemma SortedAt(list: seq<Movie>, a: nat, b: nat)
    requires Sorted(list) && a < b < |list|
    ensures CompareToIgnoreCase(Title(list[a]), Title(list[b])) <= 0
  {
  }

  /** Removing an entry keeps a sorted list sorted. */
  lemma {:induction false} RemoveFirstPreservesSorted(list: seq<Movie>, movie: Movie)
    requires Sorted(list)
    ensures Sorted(RemoveFirst(list, movie))
  {
    var i := IndexOf(list, movie);
    if i != -1 {
      var r := list[..i] + list[i + 1..];
      forall a, b | 0 <= a < b < |r|
        ensures CompareToIgnoreCase(Title(r[a]), Title(r[b])) <= 0
      {
        var a', b' := if a < i then a else a + 1, if b < i then b else b + 1;
        assert r[a] == list[a'] && r[b] == list[b'];
        SortedAt(list, a', b');
      }
    }
  }

  /** Removing a movie just added, that was not there before, undoes the insertion. */
  lemma RemoveAfterInsert(list: seq<Movie>, movie: Movie)
    requires movie !in list
    ensures RemoveFirst(InsertSorted(list, movie), movie) == list
  {
    var r, p := InsertSorted(list, movie), InsertionIndex(list, movie);
    InsertSortedShape(list, movie);
    assert r[..p] == list[..p];
    assert movie !in r[..p];
    assert IndexOf(r, movie) == p;
  }

  class MovieManager {
    var movieList: seq<Movie>
    /** The lookup service's search: the detailed record of the first match, or none. */
    const findMovie: string -> Option<MovieDb>

    /** Starts with an empty list over the given lookup service. */
    constructor (findMovie: string -> Option<MovieDb>)
      ensures movieList == [] && this.findMovie == findMovie
    {
      this.findMovie := findMovie;
      movieList := [];
    }

    /**
     * Looks the name up; when a record is found, makes a movie of it, adds it
     * in title order and returns it, otherwise returns none and changes nothing.
     * The file argument is not passed on: the Movie constructor takes no file.
     */
    method AddMovie(movieName: string, movieFile: Option<string>) returns (added: Option<Movie>)
      modifies this
      ensures findMovie(movieName).None? ==> added.None? && movieList == old(movieList)
      ensures findMovie(movieName).Some? ==>
        && added.Some?
        && fresh(added.value)
        && added.value.movie == findMovie(movieName).value
        && added.value.castList == CastSummary(findMovie(movieName).value.cast)
        && movieList == InsertSorted(old(movieList), added.value)
        && RemoveFirst(movieList, added.value) == old(movieList)
      ensures Sorted(old(movieList)) ==> Sorted(movieList)
    {
      var movieDb := findMovie(movieName);
      if movieDb.Some? {
        var movie := new Movie(movieDb.value);
        AddSorted(movie);
        RemoveAfterInsert(old(movieList), movie);
        return Some(movie);
      }
      return None;
    }

    /** Removes the first occurrence of `movie` (by identity), if there is one. */
    method RemoveMovie(movie: Movie)
      modifies this
      ensures movieList == RemoveFirst(old(movieList), movie)
      ensures movie !in old(movieList) ==> movieList == old(movieList)
      ensures movie in old(movieList) ==> |movieList| == |old(movieList)| - 1
      ensures Sorted(old(movieList)) ==> Sorted(movieList)
    {
      RemoveFirstShape(movieList, movie);
      if Sorted(movieList) {
        RemoveFirstPreservesSorted(movieList, movie);
      }
      movieList := RemoveFirst(movieList, movie);
    }

    /**
     * The release year: the release date up to its first '-'; none where
     * substring would throw because the date has no '-'.
     */
    static function GetReleaseYear(movie: Movie): (r: Option<string>)
      ensures r.None? <==> '-' !in movie.movie.releaseDate
      ensures r.Some? ==>
        && '-' !in r.value
        && |r.value| < |movie.movie.releaseDate|
        && movie.movie.releaseDate[..|r.value|] == r.value
        && movie.movie.releaseDate[|r.value|] == '-'
    {
      var releaseDate := movie.movie.releaseDate;
      var r := Substring(releaseDate, 0, IndexOf(releaseDate, '-'));
      if r.Some? then
        var i := IndexOf(releaseDate, '-');
        assert r.value == releaseDate[..i];
        r
      else r
    }

    /**
     * Inserts `movie` before the first entry whose title is strictly greater
     * ignoring case, or at the end.
     */
    method AddSorted(movie: Movie)
      modifies this
      ensures movieList == InsertSorted(old(movieList), movie)
      ensures |movieList| == |old(movieList)| + 1 && movie in movieList
      ensures multiset(movieList) == multiset(old(movieList)) + multiset{movie}
      ensures Sorted(old(movieList)) ==> Sorted(movieList)
    {
      InsertSortedShape(movieList, movie);
      if Sorted(movieList) {
        InsertSortedPreservesSorted(movieList, movie);
      }
      if |movieList| == 0 {
        movieList := movieList + [movie];
        return;
      }
      ghost var p := InsertionIndex(movieList, movie);
      var i := 0;
      while i < |movieList|
        invariant 0 <= i <= |movieList| && movieList == old(movieList)
        invariant forall k :: 0 <= k < i ==> CompareToIgnoreCase(Title(movie), Title(movieList[k])) >= 0
      {
        if CompareToIgnoreCase(Title(movie), Title(movieList[i])) < 0 {
          assert i == p;
          movieList := movieList[..i] + [movie] + movieList[i..];
          return;
        }
        i := i + 1;
      }
      assert p == |movieList|;
      movieList := movieList + [movie];
    }
  }
}
