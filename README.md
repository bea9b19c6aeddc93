# MovieManager in Dafny

This project models the core of MovieManager, a small desktop program that keeps a list of movies. It scans a folder for files whose names end in a movie ending. From each file name it derives a search title and looks that title up in a movie database service. The record it gets back becomes a `Movie`, which the manager inserts into its list in case-insensitive title order.

Modules:

- `JavaLang` gives the meaning of the `java.lang` calls that the core relies on. These are:
  - `String.split` with a one-character pattern, including the removal of trailing empty pieces;
  - `Integer.parseInt`, with `None` for the NumberFormatException;
  - `endsWith`, `indexOf` and `substring`, with `None` for the out-of-bounds exception;
  - `compareTo`;
  - `compareToIgnoreCase`, following the JDK's upper-then-lower character loop.

  Several of these are proved against an independent characterisation:
  - split inverts join;
  - parseInt accepts exactly the sign-and-digits strings whose value fits in an int, and returns their signed value;
  - compareTo is lexicographic order;
  - compareToIgnoreCase is compareTo on the lower-cased strings.

  `endsWith`, `indexOf` and `substring` are direct definitions with lemmas about their use.
- `Movies` (`Movie.java`): the database record, the cast summary built by `createCast`, and the class `Movie` with `toString` and `compareTo`.
- `Manager` (`MovieManager.java`): the class `MovieManager`, whose `movieList` field is a sequence that `addMovie`, `addSorted` and `removeMovie` reassign, and `getReleaseYear`. `getReleaseYear` is an instance method in the source, but it reads no field of the manager, so it is modelled as a static function. Each method is proved against a specification function (`InsertSorted`, `RemoveFirst`). The lemmas about those functions show three things: the list stays sorted, exactly one element is added or removed, and removal undoes insertion.
- `Gui` (`MovieGui.java`): `isMovieFile` and `getMovieName`, both written as loop methods. Each is proved equal to a declarative definition (`HasMovieExtension`, `MovieName`), and the lemmas state what that definition means.

Java's `null` returns become `Option`. The database lookup `findMovie` is a function that the `MovieManager` constructor receives. `Movie` objects are compared by reference, as Java's default `equals` does, so `movieList.remove(movie)` removes the first reference-equal entry.

## Model

| member | source | states |
|---|---|---|
| JavaLang.Split | src/MovieGui.java:159 | No piece contains the separator. The result is empty exactly when the string is non-empty and made only of separators. |
| JavaLang.SplitOfJoin | src/MovieGui.java:159 | Splitting dot-free pieces joined with the separator gives the pieces back, provided the last piece is non-empty. |
| JavaLang.RawSplitJoin | src/MovieGui.java:159 | Joining the raw pieces with the separator rebuilds the string. |
| JavaLang.DropTrailingEmpty | src/MovieGui.java:159 | The result is a prefix of the input that does not end in an empty string, and only empty strings are dropped. |
| JavaLang.ParseInt | src/MovieGui.java:163 | A parsed value is inside the 32-bit int range and comes from an optional sign followed by only ASCII digits, at least one of them. |
| JavaLang.ParseIntOfIntToString | src/MovieGui.java:163 | parseInt reads back the decimal text of every int. |
| JavaLang.ParseIntOutOfRange | src/MovieGui.java:163 | parseInt refuses the decimal text of every value outside the int range. |
| JavaLang.ParseIntAcceptsDigits | src/MovieGui.java:163 | Every non-empty string of ASCII digits, leading zeros included, parses to its decimal value when that is at most 2147483647, and is refused otherwise. |
| JavaLang.ParseIntAcceptsSigned | src/MovieGui.java:163 | A `-` or `+` followed by one or more digits parses to the digits' value, negated after `-`, when it lies in the int range, and is refused otherwise. |
| JavaLang.ParseIntExamples | src/MovieGui.java:163 | "1999", "-42", "+7" and "007" parse. "", "-" and "12a" do not. |
| JavaLang.EndsWith | src/MovieGui.java:180 | `s` ends with `suffix` exactly when `s` is some string followed by `suffix`. |
| JavaLang.EndsWithPrepend | src/MovieGui.java:180 | A suffix survives putting characters in front. |
| JavaLang.EndsWithTail | src/MovieGui.java:180 | endsWith depends only on the last \|suffix\| characters. |
| JavaLang.IndexOf | src/MovieManager.java:92 | The result is -1 exactly when the element is absent. Otherwise it is the first index holding the element. |
| JavaLang.Substring | src/MovieManager.java:92 | substring succeeds exactly when 0 <= begin <= end <= length, and then it returns the characters from begin to end. |
| JavaLang.CompareTo | src/Movie.java:48 | compareTo is zero exactly for equal strings. When one string is a prefix of the other it is the difference of the lengths. |
| JavaLang.CompareToFirstDifference | src/Movie.java:48 | At the first index where the strings differ, compareTo is the difference of the two characters there. |
| JavaLang.CompareToAntisymmetric | src/Movie.java:48 | Swapping the arguments negates compareTo. |
| JavaLang.CompareToTransitive | src/Movie.java:48 | compareTo's "not after" is transitive. |
| JavaLang.CompareToNegativeIsLexLess | src/Movie.java:48 | compareTo is negative exactly when the first string comes first in lexicographic order. |
| JavaLang.LowerAscii | src/MovieManager.java:148 | Lower-casing keeps the length. |
| JavaLang.CompareToIgnoreCase | src/MovieManager.java:148 | The JDK's upper-then-lower loop equals compareTo of the lower-cased strings. |
| JavaLang.CompareToIgnoreCaseZero | src/MovieManager.java:148 | compareToIgnoreCase is zero exactly when the lower-cased strings are equal. |
| JavaLang.CompareToIgnoreCaseAntisymmetric | src/MovieManager.java:148 | Swapping the arguments negates compareToIgnoreCase. |
| JavaLang.CompareToIgnoreCaseTransitive | src/MovieManager.java:148 | compareToIgnoreCase's "not after" is transitive. |
| JavaLang.CompareToIgnoreCaseStrictTransitive | src/MovieManager.java:148 | Strictly before, then not after, gives strictly before. |
| JavaLang.CaseMattersOnlyToCompareTo | src/MovieManager.java:148 | The two orders differ: "abc" and "ABC" are equal ignoring case but 32 apart under compareTo, and "B"/"a" compare in opposite directions. |
| Movies.CastCount | src/Movie.java:58 | The loop visits min(\|cast\|, 11) members. |
| Movies.CastPrefixIsJoin | src/Movie.java:58-65 | After n <= 10 steps the builder holds the first n names joined by ", ", plus a trailing ", ". |
| Movies.CastSummaryShape | src/Movie.java:51-68 | An empty cast gives "". A cast of 1 to 10 members gives their names joined by ", " plus a trailing ", ". A larger cast gives the first 11 names joined by ", " with nothing after. |
| Movies.CastSummaryIgnoresLaterMembers | src/Movie.java:58 | Members after index 10 never reach the summary. |
| Movies.CastSummaryEnding | src/Movie.java:62-64 | A short cast's summary ends with ", ". A cast of 11 or more ends with the name at index 10. |
| Movies.CastSummaryExamples | src/Movie.java:51-68 | [] gives "", one member gives "Keanu Reeves, ", and two give "A, B, ". |
| Movies.Names | src/Movie.java:59-60 | The names of the cast, in credited order. |
| Movies.Movie.CreateCast | src/Movie.java:51-68 | The loop builds exactly the cast summary. |
| Movies.Movie.constructor | src/Movie.java:21-27 | Stores the record and sets castList to the cast summary. |
| Movies.Movie.ToString | src/Movie.java:41-44 | The display text is the record's title. |
| Movies.Movie.CompareTo | src/Movie.java:46-49 | Zero exactly for equal titles. Negative or positive exactly when this title comes before or after the other in case-sensitive lexicographic order. |
| Manager.InsertionIndex | src/MovieManager.java:146-154 | The index addSorted inserts at: every earlier title is not greater ignoring case, and the title at the index is strictly greater. |
| Manager.InsertSortedShape | src/MovieManager.java:141-154 | Insertion adds one element, the movie, at its index. Removing it there gives the old list back. The multiset grows by exactly the movie. |
| Manager.InsertSortedPreservesSorted | src/MovieManager.java:139-155 | Inserting into a sorted list keeps it sorted. |
| Manager.InsertSortedIsStable | src/MovieManager.java:148 | In a sorted list every entry from the index on is strictly greater, and entries with an equal title (ignoring case) stay before the new movie. |
| Manager.RemoveFirstShape | src/MovieManager.java:60 | An absent movie changes nothing. Otherwise only its first occurrence is removed, the rest keep their order, and the size drops by one. |
| Manager.RemoveFirstPreservesSorted | src/MovieManager.java:60 | Removing an entry keeps a sorted list sorted. |
| Manager.RemoveAfterInsert | src/MovieManager.java:43-61 | Removing a movie just added, that was absent before, restores the list. |
| Manager.MovieManager.constructor | src/MovieManager.java:27-36 | Starts with an empty list over the given lookup. |
| Manager.MovieManager.AddMovie | src/MovieManager.java:43-53 | No record means None and an unchanged list. A record means a fresh movie is returned, holding that record and its cast summary, and is inserted in title order, and removing it restores the old list. The list stays sorted. |
| Manager.MovieManager.RemoveMovie | src/MovieManager.java:59-61 | The new list is the old one with the first occurrence removed. An absent movie leaves it unchanged, a present one shrinks it by one, and sortedness is kept. |
| Manager.MovieManager.GetReleaseYear | src/MovieManager.java:90-93 | None exactly when the date has no '-' (substring(0, -1) throws). Otherwise the text before the first '-'. |
| Manager.MovieManager.AddSorted | src/MovieManager.java:139-155 | The new list is the old one with the movie inserted before the first strictly greater title, or at the end. One element is added, the multiset grows by the movie, and a sorted list stays sorted. |
| Gui.IsMovieFile | src/MovieGui.java:174-186 | True exactly when the name ends with one of the eight movie endings. |
| Gui.MovieExtensionByTail | src/MovieGui.java:176-180 | A name is a movie file exactly when its last three characters are one of the seven three-letter endings, or its last four are "webm". |
| Gui.MovieFileAccepts | src/MovieGui.java:174-186 | "clip.mp4" and "weird.xmp4" are accepted (the test is a raw suffix test, with no dot needed). |
| Gui.MovieFileRefuses | src/MovieGui.java:174-186 | "clip.MP4" and "notes.txt" are refused (the test is case-sensitive). |
| Gui.MovieFileDependsOnTail | src/MovieGui.java:180 | Prepending characters keeps a movie file a movie file, and for names of four or more characters it never changes the answer. |
| Gui.ShortNameCanChange | src/MovieGui.java:180 | "p4" is refused but "mp4" is accepted, so for short names prepending can change the answer. |
| Gui.LeadingNonNumeric | src/MovieGui.java:161-169 | The kept parts form a prefix, none of them parses as an int, and the next part (if any) does. |
| Gui.LeadingNonNumericAt | src/MovieGui.java:161-169 | The kept prefix is exactly the one that ends at the first part that parses. |
| Gui.GetMovieName | src/MovieGui.java:157-172 | The loop's result is the title of the declarative definition. |
| Gui.SpacedLength | src/MovieGui.java:167 | Every kept part contributes its characters and one space. |
| Gui.MovieNameShape | src/MovieGui.java:157-172 | The title's length is the kept parts' total length plus one per part. A non-empty title ends with a space. The title is empty exactly when there are no parts or the first part parses. |
| Gui.MovieNameKeepsAllParts | src/MovieGui.java:161-169 | With no numeric part, every part is kept, the file ending included. |
| Gui.MovieNameStopsAtNumber | src/MovieGui.java:163-164 | The title stops before the first numeric part. |
| Gui.MovieNameOfJoin | src/MovieGui.java:157-172 | For a name made of dot-free parts joined with '.', the title is the parts before the first numeric one, each followed by a space. |
| Gui.MovieNameWithYear | src/MovieGui.java:157-172 | "The.Matrix.1999.mp4" gives "The Matrix ". |
| Gui.MovieNameWithoutNumber | src/MovieGui.java:157-172 | "Inception.mp4" gives "Inception mp4 ". |
| Gui.MovieNameLeadingNumber | src/MovieGui.java:157-172 | "2012.mkv" gives "". |
| Gui.MovieNameOnlyDots | src/MovieGui.java:159 | "..." splits into no parts and gives "". |
| Gui.MovieNameEmptyPart | src/MovieGui.java:159-167 | "a..b" keeps the empty middle part and gives "a  b ". |

## Left out

- The Swing front end (`MovieGui` windows, panels, folder scanning and `createMoviePanel`) is not modelled. It is user-interface code and file-system I/O. Only the two name helpers, which work on strings, are modelled.
- `findMovie`, `getImageUrl` and `createImages` call the movie database service and read images over the network. The lookup is a function given to the manager's constructor, and images are not modelled.
- The manager constructor's failure path (logging and `System.exit(1)` when the API cannot be set up) and all logging are I/O and are left out.
- Movies.Movie.constructor: the `movieManager` back-reference, `createImages` and the `images` map are not modelled. In the source this is not only a missing field: when an image cannot be read, `createImages` catches the IOException and leaves `backdrop` or `poster` null. The next `getScaledInstance` call then throws NullPointerException, and `ImageIO.read` throws IllegalArgumentException when `getImageUrl` returns null. So the source constructor throws whenever an image fails to load (src/Movie.java:70-86). The model assumes both images load, and its constructor always returns.
- Manager.MovieManager.AddMovie: because the movie constructor throws when an image fails to load, the source's `addMovie` then throws after a successful lookup and inserts nothing. The model assumes the images load, so a found record always gives an added movie.
- Manager.MovieManager.AddMovie: the `File` argument is accepted and ignored. The constructor call in `addMovie` passes three arguments, but the `Movie` constructor in this revision takes two (manager and record), so the model builds the movie from the record alone, and nothing is done with the file.
- `getMovie`, `getCastList`, `getMovieList` and `getImage` are getters. The model reads the fields directly.
- JavaLang.CompareToIgnoreCase: case folding covers ASCII letters only. Java folds all of Unicode, so two non-ASCII letters that differ only in case compare as different here.
- JavaLang.ParseInt: only ASCII digits are accepted. Java also accepts other Unicode decimal digits.
- Strings are sequences of Dafny characters, not UTF-16 code units. Surrogate pairs are not modelled.
- `null` values (a missing title, cast or release date) are not modelled, and every record field is present. A null title or release date would throw NullPointerException in `compareToIgnoreCase` or `indexOf`. A null cast name does not throw: `StringBuilder.append(null)` at src/Movie.java:60 appends the text "null", which the model does not represent.
- Gui.MovieFileDependsOnTail: stated only for names of at least four characters (plus the one-way "stays a match" half), because for shorter names prepending can turn a non-match into a match (`Gui.ShortNameCanChange`).
