/**
 * The behaviour of the few java.lang library operations that the movie
 * manager relies on: String.split with a one-character literal pattern,
 * Integer.parseInt and Integer.toString, String.endsWith, String.indexOf,
 * String.substring, String.compareTo and String.compareToIgnoreCase.
 * Exceptions become Option results.
 */
module JavaLang {

  datatype Option<T> = None | Some(value: T)

  /** The range of a Java `int`. */
  const IntMin: int := -0x8000_0000
  const IntMax: int := 0x7FFF_FFFF

  /** Concatenation of the parts with `sep` between consecutive parts (String.join). */
  function Join(parts: seq<string>, sep: string): string
  {
    if |parts| == 0 then ""
    else if |parts| == 1 then parts[0]
    else parts[0] + sep + Join(parts[1..], sep)
  }

  lemma {:induction false} JoinSnoc(parts: seq<string>, last: string, sep: string)
    requires |parts| >= 1
    ensures Join(parts + [last], sep) == Join(parts, sep) + sep + last
  {
    if |parts| == 1 {
      assert (parts + [last])[1..] == [last];
    } else {
      assert (parts + [last])[1..] == parts[1..] + [last];
      JoinSnoc(parts[1..], last, sep);
    }
  }

  // ---------------------------------------------------------------------
  // String.split with a pattern that is one literal character
  // ---------------------------------------------------------------------

  /** Every piece between occurrences of `sep`, empty pieces included. */
  function RawSplit(s: string, sep: char): (r: seq<string>)
    ensures |r| >= 1
    ensures forall k :: 0 <= k < |r| ==> sep !in r[k]
  {
    if s == [] then [""]
    else
      var rest := RawSplit(s[1..], sep);
      if s[0] == sep then [""] + rest
      else [[s[0]] + rest[0]] + rest[1..]
  }

  /** The pieces, put back together with the separator, give the input back. */
  lemma {:induction false} RawSplitJoin(s: string, sep: char)
    ensures Join(RawSplit(s, sep), [sep]) == s
  {
    if s != [] {
      var rest := RawSplit(s[1..], sep);
      RawSplitJoin(s[1..], sep);
      if s[0] == sep {
        assert ([""] + rest)[1..] == rest;
      } else {
        var r := [[s[0]] + rest[0]] + rest[1..];
        if |rest| == 1 {
          assert r == [[s[0]] + rest[0]];
        } else {
          assert r[1..] == rest[1..];
          assert Join(rest, [sep]) == rest[0] + [sep] + Join(rest[1..], [sep]);
        }
      }
    }
  }

  /** A string without the separator is one piece. */
  lemma {:induction false} RawSplitNoSeparator(s: string, sep: char)
    requires sep !in s
    ensures RawSplit(s, sep) == [s]
  {
    if s != [] {
      assert sep !in s[1..];
      RawSplitNoSeparator(s[1..], sep);
      assert [s[0]] + s[1..] == s;
    }
  }

  /** The piece before the first separator comes first, then the pieces after it. */
  lemma {:induction false} RawSplitAtSeparator(a: string, b: string, sep: char)
    requires sep !in a
    ensures RawSplit(a + [sep] + b, sep) == [a] + RawSplit(b, sep)
  {
    var s := a + [sep] + b;
    if a == [] {
      assert s[1..] == b;
    } else {
      assert s[1..] == a[1..] + [sep] + b;
      assert sep !in a[1..];
      RawSplitAtSeparator(a[1..], b, sep);
      assert [a[0]] + a[1..] == a;
    }
  }

  /** Joining pieces that contain no separator and splitting again gives them back. */
  lemma {:induction false} RawSplitOfJoin(parts: seq<string>, sep: char)
    requires |parts| >= 1
    requires forall k :: 0 <= k < |parts| ==> sep !in parts[k]
    ensures RawSplit(Join(parts, [sep]), sep) == parts
  {
    if |parts| == 1 {
      RawSplitNoSeparator(parts[0], sep);
    } else {
      RawSplitOfJoin(parts[1..], sep);
      RawSplitAtSeparator(parts[0], Join(parts[1..], [sep]), sep);
      assert [parts[0]] + parts[1..] == parts;
    }
  }

  /** Every piece is empty exactly when every character is the separator. */
  lemma {:induction false} RawSplitAllEmpty(s: string, sep: char)
    ensures (forall k :: 0 <= k < |RawSplit(s, sep)| ==> RawSplit(s, sep)[k] == "")
        <==> (forall i :: 0 <= i < |s| ==> s[i] == sep)
  {
    if s != [] {
      RawSplitAllEmpty(s[1..], sep);
      var rest := RawSplit(s[1..], sep);
      if s[0] == sep {
        var r := [""] + rest;
        assert RawSplit(s, sep) == r;
        assert forall k :: 1 <= k < |r| ==> r[k] == rest[k - 1];
        assert forall k :: 0 <= k < |rest| ==> rest[k] == r[k + 1];
        assert forall i :: 1 <= i < |s| ==> s[i] == s[1..][i - 1];
        assert forall i :: 0 <= i < |s[1..]| ==> s[1..][i] == s[i + 1];
      } else {
        assert RawSplit(s, sep)[0] != "";
      }
    }
  }

  /** The list with its trailing empty strings removed. */
  function DropTrailingEmpty(parts: seq<string>): (r: seq<string>)
    ensures |r| <= |parts| && r == parts[..|r|]
    ensures r == [] || r[|r| - 1] != ""
    ensures forall k :: |r| <= k < |parts| ==> parts[k] == ""
  {
    if parts == [] then []
    else if parts[|parts| - 1] == "" then DropTrailingEmpty(parts[..|parts| - 1])
    else parts
  }

  /**
   * `s.split(p)` where the pattern `p` matches the one character `sep`: when
   * `sep` does not occur the result is `[s]`, otherwise the pieces between
   * occurrences with the trailing empty pieces removed.
   */
  function Split(s: string, sep: char): (r: seq<string>)
    ensures forall k :: 0 <= k < |r| ==> sep !in r[k]
    ensures r == [] <==> |s| > 0 && forall i :: 0 <= i < |s| ==> s[i] == sep
  {
    if sep !in s then
      assert |s| > 0 ==> s[0] in s;
      [s]
    else
      var raw := RawSplit(s, sep);
      RawSplitAllEmpty(s, sep);
      var r := DropTrailingEmpty(raw);
      assert r == [] ==> forall k :: 0 <= k < |raw| ==> raw[k] == "";
      assert (forall k :: 0 <= k < |raw| ==> raw[k] == "") ==> r == [];
      r
  }

  /**
   * split gives back the pieces that were joined with the separator, as long
   * as none contains it and the last is not empty (its trailing empty pieces
   * would be dropped).
   */
  lemma SplitOfJoin(parts: seq<string>, sep: char)
    requires |parts| >= 1 && parts[|parts| - 1] != ""
    requires forall k :: 0 <= k < |parts| ==> sep !in parts[k]
    ensures Split(Join(parts, [sep]), sep) == parts
  {
    var s := Join(parts, [sep]);
    RawSplitOfJoin(parts, sep);
    if |parts| == 1 {
    } else {
      assert s == parts[0] + [sep] + Join(parts[1..], [sep]);
      assert s[|parts[0]|] == sep;
    }
  }

  // ---------------------------------------------------------------------
  // Integer.parseInt and Integer.toString, radix 10
  // ---------------------------------------------------------------------

  predicate IsAsciiDigit(c: char)
  {
    '0' <= c <= '9'
  }

  predicate AllDigits(s: string)
  {
    forall k :: 0 <= k < |s| ==> IsAsciiDigit(s[k])
  }

  /** The value of a string of decimal digits, most significant first. */
  function DigitsValue(ds: string): nat
    requires AllDigits(ds)
  {
    if ds == [] then 0
    else DigitsValue(ds[..|ds| - 1]) * 10 + (ds[|ds| - 1] as int - '0' as int)
  }

  /**
   * `Integer.parseInt(s)`: an optional `-` or `+`, then at least one digit;
   * `None` stands for the NumberFormatException thrown for anything else,
   * including the empty string, a lone sign and values outside the int range.
   */
  function ParseInt(s: string): (r: Option<int>)
    ensures r.Some? ==> IntMin <= r.value <= IntMax
    ensures r.Some? ==> exists k :: 0 <= k < |s| && IsAsciiDigit(s[k])
    ensures r.Some? ==> forall k :: 0 < k < |s| ==> IsAsciiDigit(s[k])
    ensures r.Some? ==> IsAsciiDigit(s[0]) || s[0] == '-' || s[0] == '+'
  {
    if s == [] then None
    else
      var signed := s[0] == '-' || s[0] == '+';
      var digits := if signed then s[1..] else s;
      if digits == [] || !AllDigits(digits) then None
      else
        assert IsAsciiDigit(s[|s| - 1]);
        var magnitude: int := DigitsValue(digits);
        var v := if s[0] == '-' then -magnitude else magnitude;
        if IntMin <= v <= IntMax then Some(v) else None
  }

  function DigitChar(d: nat): (c: char)
    requires d < 10
    ensures IsAsciiDigit(c) && c as int - '0' as int == d
  {
    ('0' as int + d) as char
  }

  /** The decimal digits of `n`, most significant first, without leading zeros. */
  function NatDigits(n: nat): (r: string)
    ensures |r| >= 1 && AllDigits(r)
  {
    if n < 10 then [DigitChar(n)] else NatDigits(n / 10) + [DigitChar(n % 10)]
  }

  /** `Integer.toString(n)`. */
  function IntToString(n: int): string
  {
    if n < 0 then "-" + NatDigits(-n) else NatDigits(n)
  }

  lemma {:induction false} DigitsValueOfNatDigits(n: nat)
    ensures DigitsValue(NatDigits(n)) == n
  {
    var ds := NatDigits(n);
    if n < 10 {
      assert ds[..|ds| - 1] == [];
    } else {
      assert ds[..|ds| - 1] == NatDigits(n / 10);
      DigitsValueOfNatDigits(n / 10);
    }
  }

  /** parseInt reads back every int that toString prints. */
  lemma ParseIntOfIntToString(n: int)
    requires IntMin <= n <= IntMax
    ensures ParseInt(IntToString(n)) == Some(n)
  {
    var s := IntToString(n);
    if n < 0 {
      assert s[1..] == NatDigits(-n);
      DigitsValueOfNatDigits(-n);
    } else {
      assert IsAsciiDigit(s[0]);
      DigitsValueOfNatDigits(n);
    }
  }

  /** parseInt refuses every value that does not fit in an int. */
  lemma ParseIntOutOfRange(n: int)
    requires n < IntMin || IntMax < n
    ensures ParseInt(IntToString(n)) == None
  {
    var s := IntToString(n);
    if n < 0 {
      assert s[1..] == NatDigits(-n);
      DigitsValueOfNatDigits(-n);
    } else {
      assert IsAsciiDigit(s[0]);
      DigitsValueOfNatDigits(n);
    }
  }

  /**
   * parseInt accepts every string of one or more digits whose value fits in
   * an int, leading zeros included, and refuses it when the value does not fit.
   */
  lemma {:induction false} ParseIntAcceptsDigits(ds: string)
    requires |ds| > 0 && AllDigits(ds)
    ensures ParseInt(ds) == if DigitsValue(ds) <= IntMax then Some(DigitsValue(ds)) else None
  {
    assert IsAsciiDigit(ds[0]);
  }

  /**
   * The same with a leading `-` or `+`: the value is the digits' value,
   * negated after `-`, when it fits in an int, and refused otherwise.
   */
  lemma {:induction false} ParseIntAcceptsSigned(sign: char, ds: string)
    requires sign == '-' || sign == '+'
    requires |ds| > 0 && AllDigits(ds)
    ensures var v: int := if sign == '-' then -(DigitsValue(ds) as int) else DigitsValue(ds);
      ParseInt([sign] + ds) == if IntMin <= v <= IntMax then Some(v) else None
  {
    var s := [sign] + ds;
    assert s[0] == sign && s[1..] == ds;
    var magnitude: int := DigitsValue(ds);
    if sign == '-' {
      assert ParseInt(s) == if IntMin <= -magnitude then Some(-magnitude) else None;
    } else {
      assert ParseInt(s) == if magnitude <= IntMax then Some(magnitude) else None;
    }
  }

  lemma ParseIntExamples()
    ensures ParseInt("1999") == Some(1999)
    ensures ParseInt("-42") == Some(-42)
    ensures ParseInt("+7") == Some(7)
    ensures ParseInt("007") == Some(7)
    ensures ParseInt("") == None
    ensures ParseInt("-") == None
    ensures ParseInt("12a") == None
  {
    assert "1999"[..3] == "199" && "199"[..2] == "19" && "19"[..1] == "1" && "1"[..0] == "";
    assert "-42"[1..] == "42" && "42"[..1] == "4" && "4"[..0] == "";
    assert "+7"[1..] == "7" && "7"[..0] == "";
    assert "007"[..2] == "00" && "00"[..1] == "0" && "0"[..0] == "";
    assert "-"[1..] == "";
    assert !IsAsciiDigit("12a"[2]);
  }

  // ---------------------------------------------------------------------
  // endsWith, indexOf, substring
  // ---------------------------------------------------------------------

  /** `s.endsWith(suffix)`: a raw, case-sensitive suffix test. */
  predicate EndsWith(s: string, suffix: string)
    ensures EndsWith(s, suffix) <==> exists p :: p + suffix == s
  {
    assert |suffix| <= |s| ==> s[..|s| - |suffix|] + s[|s| - |suffix|..] == s;
    assert forall p :: p + suffix == s ==> (p + suffix)[|p|..] == suffix;
    |suffix| <= |s| && s[|s| - |suffix|..] == suffix
  }

  /** A suffix stays a suffix when characters are put in front. */
  lemma EndsWithPrepend(prefix: string, s: string, suffix: string)
    requires EndsWith(s, suffix)
    ensures EndsWith(prefix + s, suffix)
  {
    assert (prefix + s)[|prefix + s| - |suffix|..] == s[|s| - |suffix|..];
  }

  /** Whether `s` ends with `suffix` depends only on its last |suffix| characters. */
  lemma EndsWithTail(prefix: string, s: string, suffix: string)
    requires |suffix| <= |s|
    ensures EndsWith(prefix + s, suffix) == EndsWith(s, suffix)
  {
    assert (prefix + s)[|prefix + s| - |suffix|..] == s[|s| - |suffix|..];
  }

  /**
   * `s.indexOf(x)` of String (a character) and of List (an element, compared
   * with `==`): the first index holding `x`, or -1.
   */
  function IndexOf<T(==)>(s: seq<T>, x: T): (r: int)
    ensures -1 <= r < |s|
    ensures r == -1 <==> x !in s
    ensures r >= 0 ==> s[r] == x && x !in s[..r]
  {
    if s == [] then -1
    else if s[0] == x then 0
    else
      var i := IndexOf(s[1..], x);
      if i == -1 then -1
      else
        assert s[..i + 1] == [s[0]] + s[1..][..i];
        i + 1
  }

  /**
   * `s.substring(begin, end)`; `None` stands for the
   * StringIndexOutOfBoundsException thrown unless 0 <= begin <= end <= |s|.
   */
  function Substring(s: string, begin: int, end: int): (r: Option<string>)
    ensures r.Some? <==> 0 <= begin <= end <= |s|
    ensures r.Some? ==> |r.value| == end - begin && forall k :: 0 <= k < |r.value| ==> r.value[k] == s[begin + k]
  {
    if 0 <= begin <= end <= |s| then Some(s[begin..end]) else None
  }

  // ---------------------------------------------------------------------
  // compareTo and compareToIgnoreCase
  // ---------------------------------------------------------------------

  /**
   * `a.compareTo(b)`: the difference of the first pair of characters that
   * differ, or the difference of the lengths when one is a prefix of the other.
   */
  function CompareTo(a: string, b: string): (r: int)
    ensures r == 0 <==> a == b
    ensures a <= b || b <= a ==> r == |a| - |b|
  {
    if a == [] || b == [] then |a| - |b|
    else if a[0] != b[0] then a[0] as int - b[0] as int
    else
      assert a == [a[0]] + a[1..] && b == [b[0]] + b[1..];
      CompareTo(a[1..], b[1..])
  }

  /**
   * When neither string is a prefix of the other, compareTo is the
   * difference of the characters at the first index where they differ.
   */
  lemma {:induction false} CompareToFirstDifference(a: string, b: string, k: nat)
    requires k < |a| && k < |b| && a[..k] == b[..k] && a[k] != b[k]
    ensures CompareTo(a, b) == a[k] as int - b[k] as int
  {
    if k > 0 {
      assert a[0] == a[..k][0] && b[0] == b[..k][0];
      assert a[1..][..k - 1] == a[..k][1..] && b[1..][..k - 1] == b[..k][1..];
      CompareToFirstDifference(a[1..], b[1..], k - 1);
    }
  }

  /** Lexicographic order, stated without recursion. */
  ghost predicate LexLess(a: string, b: string)
  {
    exists k :: 0 <= k <= |a| && k <= |b| && a[..k] == b[..k] &&
      ((k == |a| && k < |b|) || (k < |a| && k < |b| && a[k] < b[k]))
  }

  lemma {:induction false} CompareToAntisymmetric(a: string, b: string)
    ensures CompareTo(a, b) == -CompareTo(b, a)
  {
    if a != [] && b != [] && a[0] == b[0] {
      CompareToAntisymmetric(a[1..], b[1..]);
    }
  }

  lemma {:induction false} CompareToTransitive(a: string, b: string, c: string)
    requires CompareTo(a, b) <= 0 && CompareTo(b, c) <= 0
    ensures CompareTo(a, c) <= 0
  {
    if a != [] && b != [] && c != [] && a[0] == b[0] && b[0] == c[0] {
      CompareToTransitive(a[1..], b[1..], c[1..]);
    }
  }

  /** compareTo is negative exactly when `a` comes first in lexicographic order. */
  lemma {:induction false} CompareToNegativeIsLexLess(a: string, b: string)
    ensures CompareTo(a, b) < 0 <==> LexLess(a, b)
  {
    if a == [] || b == [] {
      if a == [] && b != [] {
        assert a[..0] == b[..0];
      }
    } else if a[0] != b[0] {
      if CompareTo(a, b) < 0 {
        assert a[..0] == b[..0];
      }
      if LexLess(a, b) {
        var k :| 0 <= k <= |a| && k <= |b| && a[..k] == b[..k] &&
          ((k == |a| && k < |b|) || (k < |a| && k < |b| && a[k] < b[k]));
        if k > 0 {
          assert a[..k][0] == b[..k][0];
        }
      }
    } else {
      CompareToNegativeIsLexLess(a[1..], b[1..]);
      if LexLess(a[1..], b[1..]) {
        var k :| 0 <= k <= |a[1..]| && k <= |b[1..]| && a[1..][..k] == b[1..][..k] &&
          ((k == |a[1..]| && k < |b[1..]|) || (k < |a[1..]| && k < |b[1..]| && a[1..][k] < b[1..][k]));
        assert a[..k + 1] == [a[0]] + a[1..][..k];
        assert b[..k + 1] == [b[0]] + b[1..][..k];
      }
      if LexLess(a, b) {
        var k :| 0 <= k <= |a| && k <= |b| && a[..k] == b[..k] &&
          ((k == |a| && k < |b|) || (k < |a| && k < |b| && a[k] < b[k]));
        assert k > 0;
        assert a[1..][..k - 1] == a[..k][1..];
        assert b[1..][..k - 1] == b[..k][1..];
        assert LexLess(a[1..], b[1..]);
      }
    }
  }

  /** `Character.toUpperCase`, restricted to ASCII letters. */
  function ToUpperAscii(c: char): char
  {
    if 'a' <= c <= 'z' then (c as int - 32) as char else c
  }

  /** `Character.toLowerCase`, restricted to ASCII letters. */
  function ToLowerAscii(c: char): char
  {
    if 'A' <= c <= 'Z' then (c as int + 32) as char else c
  }

  /** Every character folded to lower case. */
  function LowerAscii(s: string): (r: string)
    ensures |r| == |s|
  {
    if s == [] then [] else [ToLowerAscii(s[0])] + LowerAscii(s[1..])
  }

  /**
   * `a.compareToIgnoreCase(b)`, as String's case-insensitive comparator does
   * it: two characters that differ are compared again after toUpperCase and
   * then after toLowerCase, and the first pair that still differs gives the
   * difference of their lower-case forms; otherwise the length difference.
   */
  function CompareToIgnoreCase(a: string, b: string): (r: int)
    ensures r == CompareTo(LowerAscii(a), LowerAscii(b))
  {
    if a == [] || b == [] then |a| - |b|
    else
      var c1, c2 := a[0], b[0];
      var la, lb := LowerAscii(a), LowerAscii(b);
      assert la[0] == ToLowerAscii(ToUpperAscii(c1)) && la[1..] == LowerAscii(a[1..]);
      assert lb[0] == ToLowerAscii(ToUpperAscii(c2)) && lb[1..] == LowerAscii(b[1..]);
      if c1 == c2 then CompareToIgnoreCase(a[1..], b[1..])
      else
        var u1, u2 := ToUpperAscii(c1), ToUpperAscii(c2);
        if u1 == u2 then CompareToIgnoreCase(a[1..], b[1..])
        else
          var l1, l2 := ToLowerAscii(u1), ToLowerAscii(u2);
          if l1 == l2 then CompareToIgnoreCase(a[1..], b[1..])
          else l1 as int - l2 as int
  }

  lemma CompareToIgnoreCaseZero(a: string, b: string)
    ensures CompareToIgnoreCase(a, b) == 0 <==> LowerAscii(a) == LowerAscii(b)
  {
  }

  lemma CompareToIgnoreCaseAntisymmetric(a: string, b: string)
    ensures CompareToIgnoreCase(a, b) == -CompareToIgnoreCase(b, a)
  {
    CompareToAntisymmetric(LowerAscii(a), LowerAscii(b));
  }

  lemma CompareToIgnoreCaseTransitive(a: string, b: string, c: string)
    requires CompareToIgnoreCase(a, b) <= 0 && CompareToIgnoreCase(b, c) <= 0
    ensures CompareToIgnoreCase(a, c) <= 0
  {
    CompareToTransitive(LowerAscii(a), LowerAscii(b), LowerAscii(c));
  }

  /** Strictly before, then not after, gives strictly before. */
  lemma CompareToIgnoreCaseStrictTransitive(a: string, b: string, c: string)
    requires CompareToIgnoreCase(a, b) < 0 && CompareToIgnoreCase(b, c) <= 0
    ensures CompareToIgnoreCase(a, c) < 0
  {
    CompareToIgnoreCaseTransitive(a, b, c);
    if CompareToIgnoreCase(a, c) == 0 {
      CompareToIgnoreCaseZero(a, c);
        CompareToIgnoreCaseAntisymmetric(c, b);
    }
  }

  /** The two orderings differ: case matters to compareTo only. */
  lemma CaseMattersOnlyToCompareTo()
    ensures CompareTo("abc", "ABC") == 32
    ensures CompareToIgnoreCase("abc", "ABC") == 0
    ensures CompareTo("B", "a") < 0 && CompareToIgnoreCase("B", "a") > 0
  {
    assert LowerAscii("ABC") == "abc";
    CompareToIgnoreCaseZero("abc", "ABC");
  }
}
