/**
 * The two file-name helpers of the scanning front end: recognising movie
 * files by their name's ending, and turning a file name into a search title.
 */
module Gui {
  import opened JavaLang

  /** The endings a movie file's name may have, tried in this order. */
  const MovieExtensions: seq<string> := ["mp4", "avi", "flv", "webm", "ogg", "mov", "3gp", "wmv"]

  /** The name ends with one of the movie endings (raw and case-sensitive). */
  predicate HasMovieExtension(fileName: string)
  {
    exists k :: 0 <= k < |MovieExtensions| && EndsWith(fileName, MovieExtensions[k])
  }

  /** Tries each ending in turn and answers true at the first that the name ends with. */
  method IsMovieFile(fileName: string) returns (r: bool)
    ensures r == HasMovieExtension(fileName)
  {
    for k := 0 to |MovieExtensions|
      invariant forall j :: 0 <= j < k ==> !EndsWith(fileName, MovieExtensions[j])
    {
      if EndsWith(fileName, MovieExtensions[k]) {
        return true;
      }
    }
    return false;
  }

  /**
   * The test reads only the last three characters, or the last four for
   * "webm": it is a raw suffix test, not a comparison of the extension.
   */
  lemma MovieExtensionByTail(fileName: string)
    ensures HasMovieExtension(fileName) <==>
      || (|fileName| >= 3 && fileName[|fileName| - 3..] in {"mp4", "avi", "flv", "ogg", "mov", "3gp", "wmv"})
      || (|fileName| >= 4 && fileName[|fileName| - 4..] == "webm")
  {
    if HasMovieExtension(fileName) {
      var k :| 0 <= k < |MovieExtensions| && EndsWith(fileName, MovieExtensions[k]);
      assert k == 3 || |MovieExtensions[k]| == 3;
    } else {
      assert !EndsWith(fileName, MovieExtensions[0]);
      assert !EndsWith(fileName, MovieExtensions[1]);
      assert !EndsWith(fileName, MovieExtensions[2]);
      assert !EndsWith(fileName, MovieExtensions[3]);
      assert !EndsWith(fileName, MovieExtensions[4]);
      assert !EndsWith(fileName, MovieExtensions[5]);
      assert !EndsWith(fileName, MovieExtensions[6]);
      assert !EndsWith(fileName, MovieExtensions[7]);
    }
  }

  /** "clip.mp4" is a movie file, and so is "weird.xmp4", whose extension is not mp4. */
  lemma MovieFileAccepts()
    ensures HasMovieExtension("clip.mp4")
    ensures HasMovieExtension("weird.xmp4")
  {
    assert EndsWith("clip.mp4", MovieExtensions[0]);
    assert EndsWith("weird.xmp4", MovieExtensions[0]);
  }

  /** Case matters: "clip.MP4" is refused, like "notes.txt". */
  lemma MovieFileRefuses()
    ensures !HasMovieExtension("clip.MP4")
    ensures !HasMovieExtension("notes.txt")
  {
    MovieExtensionByTail("clip.MP4");
    assert "clip.MP4"[5..] == "MP4" && "clip.MP4"[4..] == ".MP4";
    MovieExtensionByTail("notes.txt");
    assert "notes.txt"[6..] == "txt" && "notes.txt"[5..] == ".txt";
  }

  /**
   * Putting characters in front of a movie file's name keeps it one, and for
   * names of at least four characters (the longest ending) the answer does
   * not change at all. Shorter names can change: "p4" is not a movie file
   * but "mp4" is.
   */
  lemma MovieFileDependsOnTail(prefix: string, fileName: string)
    ensures HasMovieExtension(fileName) ==> HasMovieExtension(prefix + fileName)
    ensures |fileName| >= 4 ==> HasMovieExtension(prefix + fileName) == HasMovieExtension(fileName)
  {
    forall k | 0 <= k < |MovieExtensions|
      ensures EndsWith(fileName, MovieExtensions[k]) ==> EndsWith(prefix + fileName, MovieExtensions[k])
      ensures |fileName| >= 4 ==>
        EndsWith(prefix + fileName, MovieExtensions[k]) == EndsWith(fileName, MovieExtensions[k])
    {
      if EndsWith(fileName, MovieExtensions[k]) {
        EndsWithPrepend(prefix, fileName, MovieExtensions[k]);
      }
      if |fileName| >= 4 {
        EndsWithTail(prefix, fileName, MovieExtensions[k]);
      }
    }
  }

  lemma ShortNameCanChange()
    ensures !HasMovieExtension("p4") && HasMovieExtension("m" + "p4")
  {
    assert EndsWith("mp4", MovieExtensions[0]);
  }

  // ---------------------------------------------------------------------
  // Search title from a file name
  // ---------------------------------------------------------------------

  /** Each part followed by one space, all concatenated. */
  function Spaced(parts: seq<string>): string
  {
    if parts == [] then "" else Spaced(parts[..|parts| - 1]) + parts[|parts| - 1] + " "
  }

  /** The longest prefix of `parts` of which no part parses as an int. */
  function LeadingNonNumeric(parts: seq<string>): (r: seq<string>)
    ensures |r| <= |parts| && r == parts[..|r|]
    ensures forall k :: 0 <= k < |r| ==> ParseInt(r[k]).None?
    ensures |r| < |parts| ==> ParseInt(parts[|r|]).Some?
  {
    if parts == [] then []
    else if ParseInt(parts[0]).Some? then []
    else
      var rest := LeadingNonNumeric(parts[1..]);
      assert [parts[0]] + rest == parts[..|rest| + 1];
      [parts[0]] + rest
  }

  /**
   * The kept prefix is the one that ends at the first part that parses, or
   * at the end of the list.
   */
  lemma {:induction false} LeadingNonNumericAt(parts: seq<string>, i: nat)
    requires i <= |parts|
    requires forall k :: 0 <= k < i ==> ParseInt(parts[k]).None?
    requires i < |parts| ==> ParseInt(parts[i]).Some?
    ensures LeadingNonNumeric(parts) == parts[..i]
  {
    if i > 0 {
      LeadingNonNumericAt(parts[1..], i - 1);
      assert parts[..i] == [parts[0]] + parts[1..][..i - 1];
    }
  }

  /** The title that getMovieName derives from a file name. */
  function MovieName(fileName: string): string
  {
    Spaced(LeadingNonNumeric(Split(fileName, '.')))
  }

  /**
   * Splits the name at each '.', then appends each part and a space until a
   * part parses as an int.
   */
  method GetMovieName(fileName: string) returns (name: string)
    ensures name == MovieName(fileName)
  {
    var builder := "";
    var parts := Split(fileName, '.');
    var i := 0;
    while i < |parts|
      invariant 0 <= i <= |parts|
      invariant forall k :: 0 <= k < i ==> ParseInt(parts[k]).None?
      invariant builder == Spaced(parts[..i])
    {
      if ParseInt(parts[i]).Some? {
        break;
      }
      assert parts[..i + 1][..i] == parts[..i];
      builder := builder + parts[i] + " ";
      i := i + 1;
    }
    LeadingNonNumericAt(parts, i);
    name := builder;
  }

  function TotalLength(parts: seq<string>): nat
  {
    if parts == [] then 0 else TotalLength(parts[..|parts| - 1]) + |parts[|parts| - 1]|
  }

  /** Each kept part contributes its characters and one space. */
  lemma {:induction false} SpacedLength(parts: seq<string>)
    ensures |Spaced(parts)| == TotalLength(parts) + |parts|
  {
    if parts != [] {
      SpacedLength(parts[..|parts| - 1]);
    }
  }

  /** A non-empty title ends with a space; it is empty exactly when nothing is kept. */
  lemma MovieNameShape(fileName: string)
    ensures var lead := LeadingNonNumeric(Split(fileName, '.'));
      |MovieName(fileName)| == TotalLength(lead) + |lead|
    ensures MovieName(fileName) != "" ==> MovieName(fileName)[|MovieName(fileName)| - 1] == ' '
    ensures MovieName(fileName) == "" <==>
      var parts := Split(fileName, '.');
      parts == [] || ParseInt(parts[0]).Some?
  {
    var parts := Split(fileName, '.');
    var lead := LeadingNonNumeric(parts);
    SpacedLength(lead);
  }

  /** When no part parses as an int, every part is kept, the ending included. */
  lemma MovieNameKeepsAllParts(fileName: string)
    requires forall k :: 0 <= k < |Split(fileName, '.')| ==> ParseInt(Split(fileName, '.')[k]).None?
    ensures MovieName(fileName) == Spaced(Split(fileName, '.'))
  {
    var parts := Split(fileName, '.');
    LeadingNonNumericAt(parts, |parts|);
    assert parts[..|parts|] == parts;
  }

  /** The title stops before the first part that parses as an int. */
  lemma MovieNameStopsAtNumber(fileName: string, i: nat)
    requires i < |Split(fileName, '.')| && ParseInt(Split(fileName, '.')[i]).Some?
    requires forall k :: 0 <= k < i ==> ParseInt(Split(fileName, '.')[k]).None?
    ensures MovieName(fileName) == Spaced(Split(fileName, '.')[..i])
  {
    LeadingNonNumericAt(Split(fileName, '.'), i);
  }

  /**
   * For a name made of dot-free parts joined with '.', the title is the
   * parts before the first numeric one, each followed by a space.
   */
  lemma MovieNameOfJoin(parts: seq<string>, i: nat)
    requires |parts| >= 1 && parts[|parts| - 1] != ""
    requires forall k :: 0 <= k < |parts| ==> '.' !in parts[k]
    requires i <= |parts|
    requires forall k :: 0 <= k < i ==> ParseInt(parts[k]).None?
    requires i < |parts| ==> ParseInt(parts[i]).Some?
    ensures MovieName(Join(parts, ".")) == Spaced(parts[..i])
  {
    SplitOfJoin(parts, '.');
    LeadingNonNumericAt(parts, i);
  }

  /** The year part stops the title and is left out, as is everything after it. */
  lemma MovieNameWithYear()
    ensures MovieName("The.Matrix.1999.mp4") == "The Matrix "
  {
    var fileName := "The.Matrix.1999.mp4";
    var parts := ["The", "Matrix", "1999", "mp4"];
    assert Join(parts, ".") == fileName by {
      assert parts[1..] == ["Matrix", "1999", "mp4"] && parts[1..][1..] == ["1999", "mp4"];
      assert parts[1..][1..][1..] == ["mp4"];
    }
    assert ParseInt(parts[0]).None? && ParseInt(parts[1]).None? by {
      assert !IsAsciiDigit(parts[0][1]) && !IsAsciiDigit(parts[1][1]);
    }
    assert ParseInt(parts[2]).Some? by {
      assert "1999"[..3] == "199" && "199"[..2] == "19" && "19"[..1] == "1" && "1"[..0] == "";
    }
    assert Spaced(parts[..2]) == "The Matrix " by {
      assert parts[..2] == ["The", "Matrix"] && parts[..2][..1] == ["The"] && ["The"][..0] == [];
    }
    MovieNameOfJoin(parts, 2);
  }

  /** Without a numeric part every part is kept, the extension too. */
  lemma MovieNameWithoutNumber()
    ensures MovieName("Inception.mp4") == "Inception mp4 "
  {
    var fileName := "Inception.mp4";
    var parts := ["Inception", "mp4"];
    assert Join(parts, ".") == fileName by {
      assert parts[1..] == ["mp4"];
    }
    assert ParseInt(parts[0]).None? && ParseInt(parts[1]).None? by {
      assert !IsAsciiDigit(parts[0][1]) && !IsAsciiDigit(parts[1][1]);
    }
    assert Spaced(parts[..2]) == "Inception mp4 " by {
      assert parts[..2] == parts && parts[..1] == ["Inception"] && ["Inception"][..0] == [];
    }
    MovieNameOfJoin(parts, 2);
  }

  /** A leading number gives the empty title. */
  lemma MovieNameLeadingNumber()
    ensures MovieName("2012.mkv") == ""
  {
    var fileName := "2012.mkv";
    var parts := ["2012", "mkv"];
    assert Join(parts, ".") == fileName by {
      assert parts[1..] == ["mkv"];
    }
    assert ParseInt(parts[0]).Some? by {
      assert "2012"[..3] == "201" && "201"[..2] == "20" && "20"[..1] == "2" && "2"[..0] == "";
    }
    assert Spaced(parts[..0]) == "" by {
      assert parts[..0] == [];
    }
    MovieNameOfJoin(parts, 0);
  }

  /** A name made of dots only has no parts, hence the empty title. */
  lemma MovieNameOnlyDots()
    ensures MovieName("...") == ""
  {
    assert Split("...", '.') == [] by {
      assert forall i :: 0 <= i < |"..."| ==> "..."[i] == '.';
    }
  }

  /** An empty part between two dots contributes a lone space. */
  lemma MovieNameEmptyPart()
    ensures MovieName("a..b") == "a  b "
  {
    var fileName := "a..b";
    var parts := ["a", "", "b"];
    assert Join(parts, ".") == fileName by {
      assert parts[1..] == ["", "b"] && parts[1..][1..] == ["b"];
    }
    assert ParseInt(parts[0]).None? && ParseInt(parts[1]).None? && ParseInt(parts[2]).None?;
    assert Spaced(parts[..3]) == "a  b " by {
      assert parts[..3] == parts && parts[..2] == ["a", ""] && parts[..2][..1] == ["a"] && ["a"][..0] == [];
    }
    MovieNameOfJoin(parts, 3);
  }
}
