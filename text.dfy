/**
 * Text as an output stream produces it: unsigned integers in decimal, and
 * strings built of pieces that each end with a terminator character. The
 * splitting and parsing functions here are the inverses used to state what
 * the written text contains.
 */
module Text {

  /** The decimal digit character for d. */
  function DigitChar(d: nat): (c: char)
    requires d < 10
    ensures '0' <= c <= '9'
  {
    (48 + d) as char
  }

  /** The value of a decimal digit character (0 for any other character). */
  function DigitValue(c: char): nat
  {
    if '0' <= c <= '9' then c as int - 48 else 0
  }

  predicate AllDigits(s: string)
  {
    forall i :: 0 <= i < |s| ==> '0' <= s[i] <= '9'
  }

  /** A non-empty string of decimal digits. */
  predicate IsNumeral(s: string)
  {
    |s| > 0 && AllDigits(s)
  }

  /** n written in decimal, as `operator<<` writes an unsigned integer: no sign, no leading zero. */
  function NatToString(n: nat): (s: string)
    ensures IsNumeral(s)
    ensures s[0] == '0' ==> n == 0 && s == "0"
  {
    if n < 10 then [DigitChar(n)] else NatToString(n / 10) + [DigitChar(n % 10)]
  }

  /** The value of a string of decimal digits, read from the left. */
  function ParseNat(s: string): nat
  {
    if s == [] then 0 else 10 * ParseNat(s[..|s| - 1]) + DigitValue(s[|s| - 1])
  }

  /** Reading back a decimal rendering gives the number written. */
  lemma {:induction false} ParseNatToString(n: nat)
    ensures ParseNat(NatToString(n)) == n
  {
    var s := NatToString(n);
    if n < 10 {
      assert s[..0] == [];
    } else {
      ParseNatToString(n / 10);
      assert s[..|s| - 1] == NatToString(n / 10);
    }
  }

  /** Each string of ls followed by the terminator t, all concatenated. */
  function Terminated(ls: seq<string>, t: char): (s: string)
    ensures |s| >= |ls|
  {
    if ls == [] then [] else ls[0] + [t] + Terminated(ls[1..], t)
  }

  lemma {:induction false} TerminatedAppend(a: seq<string>, b: seq<string>, t: char)
    ensures Terminated(a + b, t) == Terminated(a, t) + Terminated(b, t)
  {
    if a == [] {
      assert a + b == b;
    } else {
      assert (a + b)[1..] == a[1..] + b;
      TerminatedAppend(a[1..], b, t);
    }
  }

  /** Writing one more piece appends it and its terminator. */
  lemma TerminatedSnoc(ls: seq<string>, x: string, t: char)
    ensures Terminated(ls + [x], t) == Terminated(ls, t) + x + [t]
  {
    TerminatedAppend(ls, [x], t);
    assert [x][1..] == [];
  }

  /** A character that is neither the terminator nor in any piece is not in the text. */
  lemma {:induction false} NotInTerminated(ls: seq<string>, t: char, c: char)
    requires c != t
    requires forall i :: 0 <= i < |ls| ==> c !in ls[i]
    ensures c !in Terminated(ls, t)
  {
    if ls != [] {
      NotInTerminated(ls[1..], t, c);
    }
  }

  /** Number of occurrences of c in s. */
  function Occurrences(s: string, c: char): nat
  {
    if s == [] then 0 else (if s[0] == c then 1 else 0) + Occurrences(s[1..], c)
  }

  lemma {:induction false} OccurrencesAppend(a: string, b: string, c: char)
    ensures Occurrences(a + b, c) == Occurrences(a, c) + Occurrences(b, c)
  {
    if a == [] {
      assert a + b == b;
    } else {
      assert (a + b)[1..] == a[1..] + b;
      OccurrencesAppend(a[1..], b, c);
    }
  }

  lemma {:induction false} OccurrencesAbsent(s: string, c: char)
    requires c !in s
    ensures Occurrences(s, c) == 0
  {
    if s != [] {
      OccurrencesAbsent(s[1..], c);
    }
  }

  /** A terminator that occurs in no piece occurs once per piece. */
  lemma {:induction false} OccurrencesOfTerminator(ls: seq<string>, t: char)
    requires forall i :: 0 <= i < |ls| ==> t !in ls[i]
    ensures Occurrences(Terminated(ls, t), t) == |ls|
  {
    if ls != [] {
      OccurrencesOfTerminator(ls[1..], t);
      OccurrencesAbsent(ls[0], t);
      OccurrencesAppend(ls[0], [t], t);
      OccurrencesAppend(ls[0] + [t], Terminated(ls[1..], t), t);
    }
  }

  /** Position of the first c in s, or |s| when there is none. */
  function IndexOf(s: string, c: char): (i: nat)
    ensures i <= |s|
    ensures i < |s| ==> s[i] == c
    ensures forall j :: 0 <= j < i ==> s[j] != c
  {
    if s == [] then 0 else if s[0] == c then 0 else 1 + IndexOf(s[1..], c)
  }

  /**
   * Splits s at every sep. Each piece is the text before its separator; text
   * after the last separator, when non-empty, is a final piece of its own.
   */
  function Pieces(s: string, sep: char): seq<string>
    decreases |s|
  {
    if s == [] then []
    else
      var i := IndexOf(s, sep);
      if i == |s| then [s] else [s[..i]] + Pieces(s[i + 1..], sep)
  }

  /** Splitting at sep starts with the text before the first sep. */
  lemma PiecesCons(x: string, sep: char, rest: string)
    requires sep !in x
    ensures Pieces(x + [sep] + rest, sep) == [x] + Pieces(rest, sep)
  {
    var s := x + [sep] + rest;
    var i := IndexOf(s, sep);
    assert s[|x|] == sep;
    assert i == |x|;
    assert s[..i] == x;
    assert s[i + 1..] == rest;
  }

  /** A non-empty string without sep is a single piece. */
  lemma PiecesSingle(x: string, sep: char)
    requires x != [] && sep !in x
    ensures Pieces(x, sep) == [x]
  {
  }

  /** Splitting undoes terminating, when no piece contains the terminator. */
  lemma {:induction false} PiecesOfTerminated(ls: seq<string>, sep: char)
    requires forall i :: 0 <= i < |ls| ==> sep !in ls[i]
    ensures Pieces(Terminated(ls, sep), sep) == ls
  {
    if ls != [] {
      PiecesCons(ls[0], sep, Terminated(ls[1..], sep));
      PiecesOfTerminated(ls[1..], sep);
    }
  }
}
