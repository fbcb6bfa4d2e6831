/**
 * The pieces of java.lang.String and java.lang.Integer behaviour that the library
 * and tweet code rely on: the `\s` character class and `split("\\s")`,
 * `Integer.toString` on non-negative values, the sign of `String.compareTo`,
 * ASCII lower-casing and the width padding of `String.format("%<w>s")`.
 */
module JavaText {

  /** The characters matched by the regex `\s` (no UNICODE_CHARACTER_CLASS): [ \t\n\x0B\f\r]. */
  predicate IsSpaceChar(c: char) {
    c == ' ' || c == '\t' || c == '\n' || c == '\U{000B}' || c == '\U{000C}' || c == '\r'
  }

  /** s contains no `\s` character. */
  predicate NoSpace(s: string) {
    s == [] || (!IsSpaceChar(s[0]) && NoSpace(s[1..]))
  }

  lemma {:induction false} NoSpaceChars(s: string)
    ensures NoSpace(s) <==> forall i | 0 <= i < |s| :: !IsSpaceChar(s[i])
  {
    if s != [] {
      NoSpaceChars(s[1..]);
      assert forall i | 1 <= i < |s| :: s[i] == s[1..][i - 1];
    }
  }

  /** The stretches of s between single `\s` characters: k separators give k + 1 pieces. */
  function Pieces(s: string): (r: seq<string>)
    ensures |r| >= 1
  {
    if s == [] then [[]]
    else
      var rest := Pieces(s[1..]);
      if IsSpaceChar(s[0]) then [[]] + rest else [[s[0]] + rest[0]] + rest[1..]
  }

  /** No piece holds a separator. */
  lemma {:induction false} PiecesNoSpace(s: string)
    ensures forall i | 0 <= i < |Pieces(s)| :: NoSpace(Pieces(s)[i])
  {
    if s != [] {
      PiecesNoSpace(s[1..]);
      var rest := Pieces(s[1..]);
      if !IsSpaceChar(s[0]) {
        assert ([s[0]] + rest[0])[1..] == rest[0];
      }
    }
  }

  /** The `\s` characters of s, in order. */
  function Separators(s: string): (r: string)
    ensures forall i | 0 <= i < |r| :: IsSpaceChar(r[i])
  {
    if s == [] then []
    else if IsSpaceChar(s[0]) then [s[0]] + Separators(s[1..])
    else Separators(s[1..])
  }

  /** Puts the separators back between the pieces. */
  function Interleave(pieces: seq<string>, seps: string): string
    requires |pieces| == |seps| + 1
  {
    if seps == [] then pieces[0] else pieces[0] + [seps[0]] + Interleave(pieces[1..], seps[1..])
  }

  /** Splitting into pieces loses nothing: the separators put back give s again. */
  lemma {:induction false} PiecesRoundTrip(s: string)
    ensures |Pieces(s)| == |Separators(s)| + 1
    ensures Interleave(Pieces(s), Separators(s)) == s
  {
    if s != [] {
      PiecesRoundTrip(s[1..]);
      var rest := Pieces(s[1..]);
      var seps := Separators(s[1..]);
      if IsSpaceChar(s[0]) {
        assert Pieces(s) == [[]] + rest;
        assert Separators(s) == [s[0]] + seps;
      } else {
        assert Pieces(s) == [[s[0]] + rest[0]] + rest[1..];
        assert Separators(s) == seps;
        if seps == [] {
          assert Interleave(Pieces(s), seps) == [s[0]] + rest[0];
        } else {
          assert Interleave(Pieces(s), seps) == [s[0]] + rest[0] + [seps[0]] + Interleave(rest[1..], seps[1..]);
        }
      }
    }
  }

  /** Drops the empty strings at the end, as `split` with limit 0 does. */
  function DropTrailingEmpty(p: seq<string>): seq<string> {
    if p == [] then []
    else if p[|p| - 1] == [] then DropTrailingEmpty(p[..|p| - 1])
    else p
  }

  /** What is kept is a prefix ending in a non-empty string; what is dropped is all empty. */
  lemma {:induction false} DropTrailingEmptyPrefix(p: seq<string>)
    ensures var r := DropTrailingEmpty(p);
      |r| <= |p| && r == p[..|r|] && (r != [] ==> r[|r| - 1] != []) &&
      forall i | |r| <= i < |p| :: p[i] == []
  {
    if p != [] && p[|p| - 1] == [] {
      DropTrailingEmptyPrefix(p[..|p| - 1]);
    }
  }

  /**
   * `s.split("\\s")`: when no separator occurs the result is [s] itself (also for
   * the empty string); otherwise the pieces between single separators, keeping
   * leading and inner empty pieces and dropping the trailing empty ones.
   */
  function Split(s: string): seq<string> {
    if NoSpace(s) then [s] else DropTrailingEmpty(Pieces(s))
  }

  /** No token of a split holds a separator. */
  lemma SplitNoSpace(s: string)
    ensures forall i | 0 <= i < |Split(s)| :: NoSpace(Split(s)[i])
  {
    if !NoSpace(s) {
      PiecesNoSpace(s);
      DropTrailingEmptyPrefix(Pieces(s));
      var r := DropTrailingEmpty(Pieces(s));
      forall i | 0 <= i < |r| ensures NoSpace(r[i]) {
        assert r[i] == Pieces(s)[..|r|][i];
      }
    }
  }

  /** A word without separators splits into itself. */
  lemma SplitOneWord(s: string)
    requires NoSpace(s)
    ensures Split(s) == [s]
  {
  }

  /** Dropping trailing empties commutes with a non-empty first piece. */
  lemma {:induction false} DropTrailingEmptyCons(a: string, p: seq<string>)
    requires a != []
    ensures DropTrailingEmpty([a] + p) == [a] + DropTrailingEmpty(p)
    decreases |p|
  {
    if p != [] && p[|p| - 1] == [] {
      assert ([a] + p)[..|p|] == [a] + p[..|p| - 1];
      DropTrailingEmptyCons(a, p[..|p| - 1]);
    }
  }

  /** The pieces of a + [c] + b when a holds no separator and c is one. */
  lemma {:induction false} PiecesCons(a: string, c: char, b: string)
    requires NoSpace(a) && IsSpaceChar(c)
    ensures Pieces(a + [c] + b) == [a] + Pieces(b)
    decreases |a|
  {
    if a == [] {
      assert a + [c] + b == [c] + b;
      assert ([c] + b)[1..] == b;
    } else {
      assert (a + [c] + b)[1..] == a[1..] + [c] + b;
      PiecesCons(a[1..], c, b);
      assert [a[0]] + a[1..] == a;
    }
  }

  /**
   * Splitting peels off a leading word: the form used to compute the split of a
   * concrete text one word at a time.
   */
  lemma SplitCons(a: string, c: char, b: string)
    requires NoSpace(a) && a != [] && IsSpaceChar(c) && b != []
    ensures Split(a + [c] + b) == [a] + Split(b)
  {
    var s := a + [c] + b;
    assert s[|a|] == c;
    NoSpaceChars(s);
    assert !NoSpace(s);
    PiecesCons(a, c, b);
    DropTrailingEmptyCons(a, Pieces(b));
    if NoSpace(b) {
      assert Pieces(b) == [b] by { PiecesOfWord(b); }
      assert DropTrailingEmpty([b]) == [b];
    }
  }

  /** A word without separators is a single piece. */
  lemma {:induction false} PiecesOfWord(s: string)
    requires NoSpace(s)
    ensures Pieces(s) == [s]
  {
    if s != [] {
      PiecesOfWord(s[1..]);
      assert [s[0]] + s[1..] == s;
    }
  }

  /**
   * A token of a split is its own split: splitting it again gives back [t].
   * This is what keeps the index's side effect of `find` harmless.
   */
  lemma SplitTokenIsFixpoint(s: string, t: string)
    requires t in Split(s)
    ensures Split(t) == [t]
  {
    SplitNoSpace(s);
    var i :| 0 <= i < |Split(s)| && Split(s)[i] == t;
    assert NoSpace(t);
  }

  /** Whenever s holds a separator, a non-empty split ends with a non-empty token. */
  lemma SplitLastNonEmpty(s: string)
    requires !NoSpace(s) && Split(s) != []
    ensures Split(s)[|Split(s)| - 1] != []
  {
    DropTrailingEmptyPrefix(Pieces(s));
  }

  // ---------------------------------------------------------------- decimal

  predicate IsDigit(c: char) {
    '0' <= c <= '9'
  }

  function Digit(d: nat): (c: char)
    requires d < 10
    ensures IsDigit(c) && c as int - '0' as int == d
  {
    ('0' as int + d) as char
  }

  /** `Integer.toString(n)` for n >= 0: decimal digits, no sign, no leading zero. */
  function DecimalString(n: nat): (r: string)
    ensures |r| >= 1
    ensures forall i | 0 <= i < |r| :: IsDigit(r[i])
    ensures r[0] == '0' <==> n == 0
    ensures n == 0 ==> r == "0"
  {
    if n < 10 then [Digit(n)] else DecimalString(n / 10) + [Digit(n % 10)]
  }

  /** `Integer.toString(n)`: a minus sign before the digits of a negative number. */
  function IntToString(n: int): (r: string)
    ensures |r| >= 1
    ensures n >= 0 ==> r == DecimalString(n)
    ensures n < 0 ==> r == "-" + DecimalString(-n)
  {
    if n >= 0 then DecimalString(n) else "-" + DecimalString(-n)
  }

  /** `Integer.compare(a, b)`. */
  function IntCompare(a: int, b: int): (r: int)
    ensures r < 0 <==> a < b
    ensures r == 0 <==> a == b
    ensures r > 0 <==> a > b
  {
    if a < b then -1 else if a == b then 0 else 1
  }

  /** The value of a string of decimal digits (what `Integer.parseInt` reads). */
  function DecimalValue(s: string): nat
    requires forall i | 0 <= i < |s| :: IsDigit(s[i])
  {
    if s == [] then 0
    else
      assert IsDigit(s[|s| - 1]);
      DecimalValue(s[..|s| - 1]) * 10 + (s[|s| - 1] as int - '0' as int)
  }

  /** Reading back the decimal rendering gives the number. */
  lemma {:induction false} DecimalRoundTrip(n: nat)
    ensures DecimalValue(DecimalString(n)) == n
  {
    if n >= 10 {
      DecimalRoundTrip(n / 10);
      var s := DecimalString(n);
      assert s[..|s| - 1] == DecimalString(n / 10);
    }
  }

  /** Distinct numbers have distinct renderings. */
  lemma DecimalStringInjective(m: nat, n: nat)
    requires DecimalString(m) == DecimalString(n)
    ensures m == n
  {
    DecimalRoundTrip(m);
    DecimalRoundTrip(n);
  }

  // ---------------------------------------------------------------- compareTo

  /**
   * The sign of `a.compareTo(b)`: the first differing character decides; when one
   * is a prefix of the other, the shorter comes first.
   */
  function CompareStrings(a: string, b: string): (r: int)
    ensures -1 <= r <= 1
    ensures r == 0 <==> a == b
  {
    if a == [] && b == [] then 0
    else if a == [] then -1
    else if b == [] then 1
    else if a[0] < b[0] then -1
    else if a[0] > b[0] then 1
    else
      var r := CompareStrings(a[1..], b[1..]);
      assert r == 0 ==> a == [a[0]] + a[1..] == [b[0]] + b[1..] == b;
      r
  }

  lemma {:induction false} CompareStringsAntisymmetric(a: string, b: string)
    ensures CompareStrings(b, a) == -CompareStrings(a, b)
  {
    if a != [] && b != [] && a[0] == b[0] {
      CompareStringsAntisymmetric(a[1..], b[1..]);
    }
  }

  lemma {:induction false} CompareStringsTransitive(a: string, b: string, c: string)
    requires CompareStrings(a, b) < 0 && CompareStrings(b, c) < 0
    ensures CompareStrings(a, c) < 0
  {
    if a != [] && b != [] && c != [] && a[0] == b[0] == c[0] {
      CompareStringsTransitive(a[1..], b[1..], c[1..]);
    }
  }

  // ---------------------------------------------------------------- case

  /** `Character.toLowerCase` restricted to ASCII: only 'A'..'Z' change. */
  function LowerChar(c: char): (r: char)
    ensures 'A' <= c <= 'Z' ==> r as int == c as int + 32
    ensures !('A' <= c <= 'Z') ==> r == c
  {
    if 'A' <= c <= 'Z' then (c as int + 32) as char else c
  }

  /** `String.toLowerCase`, ASCII only. */
  function Lower(s: string): (r: string)
    ensures |r| == |s|
    ensures forall i | 0 <= i < |s| :: r[i] == LowerChar(s[i])
  {
    seq(|s|, i requires 0 <= i < |s| => LowerChar(s[i]))
  }

  predicate IsLower(s: string) {
    forall i | 0 <= i < |s| :: !('A' <= s[i] <= 'Z')
  }

  /** Lower-casing leaves no upper-case letter and is the identity on lower-case text. */
  lemma LowerIsLower(s: string)
    ensures IsLower(Lower(s))
    ensures IsLower(s) ==> Lower(s) == s
  {
  }

  /** Case-insensitive equality is an equivalence that Lower turns into plain equality. */
  lemma LowerIdempotent(s: string)
    ensures Lower(Lower(s)) == Lower(s)
  {
    LowerIsLower(s);
    LowerIsLower(Lower(s));
  }

  // ---------------------------------------------------------------- format

  function Spaces(n: nat): (r: string)
    ensures |r| == n && forall i | 0 <= i < n :: r[i] == ' '
  {
    seq(n, i => ' ')
  }

  /** `String.format("%<width>s", s)`: right-justified, padded with spaces to the width. */
  function PadLeft(s: string, width: nat): (r: string)
    ensures |r| == if |s| >= width then |s| else width
    ensures r[|r| - |s|..] == s
    ensures forall i | 0 <= i < |r| - |s| :: r[i] == ' '
  {
    if |s| >= width then s else Spaces(width - |s|) + s
  }
}
