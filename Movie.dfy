/**
 * A catalogued movie: the metadata record returned by the lookup service
 * together with the cast summary derived from it when the movie is made.
 */
module Movies {
  import opened JavaLang

  /** One credited cast member; only the name is used. */
  datatype PersonCast = PersonCast(name: string)

  /** The parts of the lookup service's movie record that the core reads. */
  datatype MovieDb = MovieDb(title: string, releaseDate: string, cast: seq<PersonCast>)

  /** The index bound of the cast loop: indices 0 to 10 are listed. */
  const MaxCastMembers: nat := 10

  /** How many cast members the summary lists. */
  function CastCount(cast: seq<PersonCast>): (n: nat)
    ensures n <= |cast| && n <= MaxCastMembers + 1
    ensures n == |cast| || n == MaxCastMembers + 1
  {
    if |cast| <= MaxCastMembers then |cast| else MaxCastMembers + 1
  }

  /**
   * The summary text after the first `n` members: each name is followed by
   * ", " except the name at index MaxCastMembers.
   */
  function CastPrefix(cast: seq<PersonCast>, n: nat): string
    requires n <= |cast|
  {
    if n == 0 then ""
    else CastPrefix(cast, n - 1) + cast[n - 1].name + (if n - 1 != MaxCastMembers then ", " else "")
  }

  /** The cast summary that createCast stores in castList. */
  function CastSummary(cast: seq<PersonCast>): string
  {
    CastPrefix(cast, CastCount(cast))
  }

  /** The names of the cast members, in credited order. */
  function Names(cast: seq<PersonCast>): (r: seq<string>)
    ensures |r| == |cast| && forall k :: 0 <= k < |cast| ==> r[k] == cast[k].name
  {
    seq(|cast|, k requires 0 <= k < |cast| => cast[k].name)
  }

  lemma {:induction false} CastPrefixIsJoin(cast: seq<PersonCast>, n: nat)
    requires n <= |cast| && n <= MaxCastMembers
    ensures CastPrefix(cast, n) == if n == 0 then "" else Join(Names(cast[..n]), ", ") + ", "
  {
    if n == 1 {
      assert Names(cast[..1]) == [cast[0].name];
    } else if n > 1 {
      CastPrefixIsJoin(cast, n - 1);
      assert Names(cast[..n]) == Names(cast[..n - 1]) + [cast[n - 1].name];
      JoinSnoc(Names(cast[..n - 1]), cast[n - 1].name, ", ");
    }
  }

  /**
   * The summary joins the names of the first min(|cast|, 11) members with
   * ", "; when there are 1 to 10 members a further ", " trails the last name.
   */
  lemma CastSummaryShape(cast: seq<PersonCast>)
    ensures |cast| == 0 ==> CastSummary(cast) == ""
    ensures 1 <= |cast| <= MaxCastMembers ==> CastSummary(cast) == Join(Names(cast), ", ") + ", "
    ensures |cast| > MaxCastMembers ==>
      CastSummary(cast) == Join(Names(cast[..MaxCastMembers + 1]), ", ")
  {
    if |cast| <= MaxCastMembers {
      CastPrefixIsJoin(cast, |cast|);
      assert cast[..|cast|] == cast;
    } else {
      CastPrefixIsJoin(cast, MaxCastMembers);
      assert Names(cast[..MaxCastMembers + 1])
          == Names(cast[..MaxCastMembers]) + [cast[MaxCastMembers].name];
      JoinSnoc(Names(cast[..MaxCastMembers]), cast[MaxCastMembers].name, ", ");
    }
  }

  /** Members after index 10 never reach the summary. */
  lemma CastSummaryIgnoresLaterMembers(cast: seq<PersonCast>, more: seq<PersonCast>)
    requires |cast| > MaxCastMembers
    ensures CastSummary(cast + more) == CastSummary(cast)
  {
    CastSummaryShape(cast);
    CastSummaryShape(cast + more);
    assert (cast + more)[..MaxCastMembers + 1] == cast[..MaxCastMembers + 1];
  }

  /**
   * A short cast leaves a trailing ", "; a cast of 11 or more ends with the
   * name at index 10.
   */
  lemma CastSummaryEnding(cast: seq<PersonCast>)
    ensures 1 <= |cast| <= MaxCastMembers ==> EndsWith(CastSummary(cast), ", ")
    ensures |cast| > MaxCastMembers ==> EndsWith(CastSummary(cast), cast[MaxCastMembers].name)
  {
    CastSummaryShape(cast);
    if |cast| > MaxCastMembers {
      assert Names(cast[..MaxCastMembers + 1])
          == Names(cast[..MaxCastMembers]) + [cast[MaxCastMembers].name];
      JoinSnoc(Names(cast[..MaxCastMembers]), cast[MaxCastMembers].name, ", ");
    }
  }

  /** The trailing separator shows even for a single member. */
  lemma CastSummaryExamples()
    ensures CastSummary([]) == ""
    ensures CastSummary([PersonCast("Keanu Reeves")]) == "Keanu Reeves, "
    ensures CastSummary([PersonCast("A"), PersonCast("B")]) == "A, B, "
  {
    CastSummaryShape([PersonCast("Keanu Reeves")]);
    assert Names([PersonCast("Keanu Reeves")]) == ["Keanu Reeves"];
    CastSummaryShape([PersonCast("A"), PersonCast("B")]);
    assert Names([PersonCast("A"), PersonCast("B")]) == ["A", "B"];
    assert ["A", "B"][1..] == ["B"];
  }

  class Movie {
    const movie: MovieDb
    const castList: string

    /** Records the metadata and builds the cast summary. */
    constructor (movie: MovieDb)
      ensures this.movie == movie
      ensures castList == CastSummary(movie.cast)
    {
      this.movie := movie;
      var summary := CreateCast(movie);
      castList := summary;
    }

    /** Appends the names at indices 0 to 10, each but the one at 10 followed by ", ". */
    static method CreateCast(movie: MovieDb) returns (castList: string)
      ensures castList == CastSummary(movie.cast)
    {
      var cast := movie.cast;
      var builder := "";
      var i := 0;
      while i < |cast| && i <= MaxCastMembers
        invariant i <= |cast| && i <= MaxCastMembers + 1
        invariant builder == CastPrefix(cast, i)
      {
        builder := builder + cast[i].name;
        if i != MaxCastMembers {
          builder := builder + ", ";
        }
        i := i + 1;
      }
      castList := builder;
    }

    /** The display text of a movie is its title. */
    function ToString(): (s: string)
      ensures s == movie.title
    {
      movie.title
    }

    /** The natural order of movies: case-sensitive lexicographic order of titles. */
    function CompareTo(o: Movie): (r: int)
      ensures r == 0 <==> movie.title == o.movie.title
      ensures r < 0 <==> LexLess(movie.title, o.movie.title)
      ensures r > 0 <==> LexLess(o.movie.title, movie.title)
    {
      var a, b := movie.title, o.movie.title;
      CompareToAntisymmetric(a, b);
      CompareToNegativeIsLexLess(a, b);
      CompareToNegativeIsLexLess(b, a);
      JavaLang.CompareTo(a, b)
    }
  }
}
