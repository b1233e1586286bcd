/**
 * The few pieces of java.lang behaviour the modelled code relies on:
 * the exceptions it can throw, String.toLowerCase, String.trim,
 * String.equalsIgnoreCase, String.split(",") and int division.
 */
module JavaLang {

  /** The exceptions that can escape the modelled methods. */
  datatype Exception =
    | IndexOutOfBounds(index: int)   // ArrayIndexOutOfBounds / IndexOutOfBounds
    | NullPointer                    // a method called on a null reference
    | ClassCast(field: string)       // a field cast to the wrong Lucene field class
    | IOException
    | NumberFormat(text: string)     // Double.valueOf on a malformed number
    | IllegalArgument                // new ArrayList(n) with n < 0; a document the writer refuses
    | AlreadyClosed                  // adding to a closed IndexWriter
    | OutOfMemory

  // ---------------------------------------------------------------- case

  /** Character.toLowerCase, on the ASCII letters. */
  function LowerChar(c: char): char
  {
    if 'A' <= c <= 'Z' then (c as int + 32) as char else c
  }

  /** String.toLowerCase, on the ASCII letters. */
  function Lower(s: string): (r: string)
    ensures |r| == |s|
    ensures forall i :: 0 <= i < |s| ==> r[i] == LowerChar(s[i])
  {
    seq(|s|, i requires 0 <= i < |s| => LowerChar(s[i]))
  }

  /** No ASCII capital letter occurs in `s`. */
  predicate NoUpper(s: string)
  {
    forall i :: 0 <= i < |s| ==> !('A' <= s[i] <= 'Z')
  }

  /** Lower-casing leaves no capital, and changes nothing where there is none. */
  lemma LowerNoUpper(s: string)
    ensures NoUpper(Lower(s))
    ensures NoUpper(s) ==> Lower(s) == s
  {
  }

  lemma LowerIdempotent(s: string)
    ensures Lower(Lower(s)) == Lower(s)
  {
  }

  /** String.equalsIgnoreCase, on the ASCII letters: strings of equal length whose characters match ignoring case. */
  predicate EqualsIgnoreCase(a: string, b: string)
    ensures EqualsIgnoreCase(a, b) <==> |a| == |b| && forall i :: 0 <= i < |a| ==> LowerChar(a[i]) == LowerChar(b[i])
  {
    Lower(a) == Lower(b)
  }

  /** Ignoring case is an equivalence: reflexive, symmetric and transitive. */
  lemma EqualsIgnoreCaseEquivalence(a: string, b: string, c: string)
    ensures EqualsIgnoreCase(a, a)
    ensures EqualsIgnoreCase(a, b) ==> EqualsIgnoreCase(b, a)
    ensures EqualsIgnoreCase(a, b) && EqualsIgnoreCase(b, c) ==> EqualsIgnoreCase(a, c)
  {
  }

  // ---------------------------------------------------------------- trim

  /** String.trim removes every leading and trailing character at or below U+0020. */
  predicate IsSpace(c: char)
  {
    c <= ' '
  }

  predicate AllSpace(s: string)
  {
    forall k :: 0 <= k < |s| ==> IsSpace(s[k])
  }

  /** The first index at or after i that holds no space character, or |s|. */
  function FirstNonSpace(s: string, i: nat): (n: nat)
    requires i <= |s|
    ensures i <= n <= |s|
    ensures forall k :: i <= k < n ==> IsSpace(s[k])
    ensures n < |s| ==> !IsSpace(s[n])
    decreases |s| - i
  {
    if i < |s| && IsSpace(s[i]) then FirstNonSpace(s, i + 1) else i
  }

  /** The end of s[lo..hi] once its trailing space characters are dropped. */
  function EndNonSpace(s: string, lo: nat, hi: nat): (n: nat)
    requires lo <= hi <= |s|
    ensures lo <= n <= hi
    ensures forall k :: n <= k < hi ==> IsSpace(s[k])
    ensures n > lo ==> !IsSpace(s[n - 1])
    decreases hi
  {
    if hi > lo && IsSpace(s[hi - 1]) then EndNonSpace(s, lo, hi - 1) else hi
  }

  /** Number of space characters String.trim drops from the front of `s`. */
  function Leading(s: string): (n: nat)
    ensures n <= |s|
  {
    FirstNonSpace(s, 0)
  }

  /**
   * String.trim: the result is the slice of `s` left after dropping the
   * leading and trailing space characters, and it neither starts nor ends
   * with one.
   */
  function Trim(s: string): (r: string)
    ensures Leading(s) + |r| <= |s|
    ensures r == s[Leading(s)..Leading(s) + |r|]
    ensures forall k :: 0 <= k < Leading(s) ==> IsSpace(s[k])
    ensures forall k :: Leading(s) + |r| <= k < |s| ==> IsSpace(s[k])
    ensures r == [] || (!IsSpace(r[0]) && !IsSpace(r[|r| - 1]))
  {
    var lo := FirstNonSpace(s, 0);
    var hi := EndNonSpace(s, lo, |s|);
    s[lo..hi]
  }

  /** Trimming a string that neither starts nor ends with a space changes nothing. */
  lemma TrimOfTrimmed(s: string)
    requires s == [] || (!IsSpace(s[0]) && !IsSpace(s[|s| - 1]))
    ensures Trim(s) == s
  {
  }

  lemma TrimIdempotent(s: string)
    ensures Trim(Trim(s)) == Trim(s)
  {
    TrimOfTrimmed(Trim(s));
  }

  /** A string is blank (its trim is empty) exactly when all its characters are spaces. */
  lemma TrimEmptyIffAllSpace(s: string)
    ensures Trim(s) == [] <==> AllSpace(s)
  {
    var r := Trim(s);
    var lo := Leading(s);
    if r == [] {
      assert s == s[..lo] + s[lo..];
    }
  }

  /** Trimming keeps a capital-free string capital-free. */
  lemma TrimNoUpper(s: string)
    requires NoUpper(s)
    ensures NoUpper(Trim(s))
  {
    var r := Trim(s);
    forall i | 0 <= i < |r| ensures !('A' <= r[i] <= 'Z') {
      assert r[i] == s[Leading(s) + i];
    }
  }

  /** Lower-casing maps space characters to themselves, so it commutes with trim. */
  lemma LowerKeepsSpaces(c: char)
    ensures IsSpace(LowerChar(c)) <==> IsSpace(c)
  {
  }

  // ---------------------------------------------------------------- split

  /** Pieces of `s` between commas, keeping empty pieces. */
  function RawSplit(s: string): (r: seq<string>)
    ensures |r| >= 1
    ensures forall i :: 0 <= i < |r| ==> ',' !in r[i]
    decreases |s|
  {
    if s == [] then [[]]
    else
      var rest := RawSplit(s[1..]);
      if s[0] == ',' then [[]] + rest
      else [[s[0]] + rest[0]] + rest[1..]
  }

  /** Joins pieces with commas; the inverse of `RawSplit`. */
  function Join(pieces: seq<string>): string
  {
    if pieces == [] then []
    else if |pieces| == 1 then pieces[0]
    else pieces[0] + "," + Join(pieces[1..])
  }

  function Commas(k: nat): string
  {
    if k == 0 then [] else Commas(k - 1) + ","
  }

  function DropTrailingEmpty(pieces: seq<string>): (r: seq<string>)
    ensures |r| <= |pieces| && r == pieces[..|r|]
    ensures r == [] || r[|r| - 1] != []
    ensures forall i :: |r| <= i < |pieces| ==> pieces[i] == []
  {
    if pieces != [] && pieces[|pieces| - 1] == [] then DropTrailingEmpty(pieces[..|pieces| - 1])
    else pieces
  }

  /**
   * String.split(","): the comma-separated pieces with trailing empty pieces
   * removed, except that a string without any comma is returned whole.
   */
  function SplitComma(s: string): (r: seq<string>)
    ensures ',' !in s ==> r == [s]
    ensures ',' in s ==> r == [] || r[|r| - 1] != []
  {
    if ',' !in s then [s] else DropTrailingEmpty(RawSplit(s))
  }

  lemma {:induction false} JoinRawSplit(s: string)
    ensures Join(RawSplit(s)) == s
    decreases |s|
  {
    if s != [] {
      var rest := RawSplit(s[1..]);
      JoinRawSplit(s[1..]);
      assert s == [s[0]] + s[1..];
      if s[0] == ',' {
        assert RawSplit(s) == [[]] + rest;
        assert Join(RawSplit(s)) == [] + "," + Join(rest);
      } else {
        assert RawSplit(s) == [[s[0]] + rest[0]] + rest[1..];
        JoinCons(s[0], rest);
      }
    }
  }

  /** Prepending a character to the first piece prepends it to the joined string. */
  lemma JoinCons(c: char, pieces: seq<string>)
    requires |pieces| >= 1
    ensures Join([[c] + pieces[0]] + pieces[1..]) == [c] + Join(pieces)
  {
    var r := [[c] + pieces[0]] + pieces[1..];
    if |pieces| > 1 {
      assert r[1..] == pieces[1..];
    }
  }

  lemma {:induction false} JoinDropTrailingEmpty(pieces: seq<string>)
    requires |pieces| >= 1
    ensures exists k: nat :: Join(pieces) == Join(DropTrailingEmpty(pieces)) + Commas(k)
    decreases |pieces|
  {
    if pieces[|pieces| - 1] == [] {
      var init := pieces[..|pieces| - 1];
      if init == [] {
        assert Join(pieces) == [] == Join(DropTrailingEmpty(pieces)) + Commas(0);
      } else {
        JoinDropTrailingEmpty(init);
        var k: nat :| Join(init) == Join(DropTrailingEmpty(init)) + Commas(k);
        JoinSnoc(init, []);
        assert pieces == init + [[]];
        assert Join(pieces) == Join(init) + "," + [];
        assert Join(pieces) == Join(DropTrailingEmpty(init)) + Commas(k + 1);
      }
    } else {
      assert Join(pieces) == Join(DropTrailingEmpty(pieces)) + Commas(0);
    }
  }

  lemma {:induction false} JoinSnoc(pieces: seq<string>, last: string)
    requires pieces != []
    ensures Join(pieces + [last]) == Join(pieces) + "," + last
    decreases |pieces|
  {
    if |pieces| == 1 {
      assert pieces + [last] == [pieces[0], last];
      assert [pieces[0], last][1..] == [last];
    } else {
      JoinSnoc(pieces[1..], last);
      assert (pieces + [last])[1..] == pieces[1..] + [last];
    }
  }

  /**
   * Round trip of String.split(","): no piece holds a comma, and joining the
   * pieces with commas gives back the input up to the trailing commas that
   * split dropped; a string without a comma is its own only piece, and
   * otherwise no empty piece is left at the end.
   */
  lemma SplitCommaRoundTrip(s: string)
    ensures ',' !in s ==> SplitComma(s) == [s]
    ensures ',' in s ==> SplitComma(s) == [] || SplitComma(s)[|SplitComma(s)| - 1] != []
    ensures forall i :: 0 <= i < |SplitComma(s)| ==> ',' !in SplitComma(s)[i]
    ensures exists k: nat :: s == Join(SplitComma(s)) + Commas(k)
  {
    if ',' !in s {
      assert s == Join(SplitComma(s)) + Commas(0);
    } else {
      JoinRawSplit(s);
      JoinDropTrailingEmpty(RawSplit(s));
    }
  }

  // ---------------------------------------------------------------- arithmetic

  /**
   * Java's int division, which truncates toward zero: the quotient is the
   * multiple of b nearest to a on the side of zero.
   */
  function JavaDiv(a: int, b: int): (q: int)
    requires b > 0
    ensures a >= 0 ==> q * b <= a < q * b + b
    ensures a < 0 ==> q * b - b < a <= q * b
  {
    if a >= 0 then a / b else -((-a) / b)
  }

  /** Euclidean division is determined by the division law. */
  lemma DivUnique(a: int, b: int, q: int, r: int)
    requires b > 0 && a == q * b + r && 0 <= r < b
    ensures a / b == q && a % b == r
  {
    var q' := a / b;
    var r' := a % b;
    if q > q' {
      MulStep(q' + 1, q, b);
    } else if q < q' {
      MulStep(q + 1, q', b);
    }
  }

  /** Multiplying by a positive b keeps the order of the factors. */
  lemma MulStep(x: int, y: int, b: int)
    requires x <= y && b > 0
    ensures x * b <= y * b
  {
  }

  /** Truncation and Euclidean division agree exactly on non-negative dividends and on exact multiples; otherwise truncation is one more. */
  lemma JavaDivVersusEuclid(a: int, b: int)
    requires b > 0
    ensures a >= 0 || a % b == 0 ==> JavaDiv(a, b) == a / b
    ensures a < 0 && a % b != 0 ==> JavaDiv(a, b) == a / b + 1
  {
    if a < 0 {
      var n := -a;
      var m := n / b;
      var k := n % b;
      assert n == m * b + k;
      if k == 0 {
        DivUnique(a, b, -m, 0);
      } else {
        DivUnique(a, b, -m - 1, b - k);
      }
    }
  }

  /** The example of the difference: -1 / 10 is 0 in Java and -1 in Euclidean division. */
  lemma JavaDivMinusOne()
    ensures JavaDiv(-1, 10) == 0 && -1 / 10 == -1
  {
  }
}
