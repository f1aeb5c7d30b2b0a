/**
 * The pieces of java.lang.String and java.util.List behaviour that the
 * controllers rely on: single-character split, List.indexOf, endsWith,
 * contains and trim. Strings are sequences of characters.
 */
module JavaText {

  /** Index of the first occurrence of `c` in `s`, or |s| when there is none. */
  function IndexOfChar(s: string, c: char): (r: nat)
    ensures r <= |s|
    ensures r < |s| ==> s[r] == c
    ensures forall j :: 0 <= j < r ==> s[j] != c
    ensures r == |s| <==> c !in s
  {
    if s == [] then 0
    else if s[0] == c then 0
    else 1 + IndexOfChar(s[1..], c)
  }

  /**
   * Every piece of `s` between occurrences of `sep`, empty pieces included
   * (what a regular-expression split with a negative limit returns).
   */
  function SplitAll(s: string, sep: char): (r: seq<string>)
    ensures |r| >= 1
    ensures forall j :: 0 <= j < |r| ==> sep !in r[j]
    ensures Join(r, sep) == s
    decreases |s|
  {
    var i := IndexOfChar(s, sep);
    if i == |s| then [s]
    else
      var rest := SplitAll(s[i + 1..], sep);
      assert sep !in s[..i] by {
        forall j | 0 <= j < i ensures s[..i][j] != sep { assert s[..i][j] == s[j]; }
      }
      assert ([s[..i]] + rest)[1..] == rest;
      assert s == s[..i] + [sep] + s[i + 1..];
      [s[..i]] + rest
  }

  /** Glue pieces together with `sep` between consecutive pieces. */
  function Join(pieces: seq<string>, sep: char): string
    requires |pieces| >= 1
  {
    if |pieces| == 1 then pieces[0] else pieces[0] + [sep] + Join(pieces[1..], sep)
  }

  /** Drop empty strings from the end of a split result, as String.split(regex) does. */
  function StripTrailingEmpty(pieces: seq<string>): (r: seq<string>)
    ensures |r| <= |pieces| && r == pieces[..|r|]
    ensures |r| > 0 ==> r[|r| - 1] != []
    ensures forall j :: |r| <= j < |pieces| ==> pieces[j] == []
  {
    if |pieces| > 0 && pieces[|pieces| - 1] == [] then StripTrailingEmpty(pieces[..|pieces| - 1])
    else pieces
  }

  /**
   * String.split on a one-character pattern: when the separator does not occur
   * the result is the string itself (so "" splits into [""]); otherwise the
   * pieces with trailing empty strings removed (so "," splits into []).
   */
  function JavaSplit(s: string, sep: char): (r: seq<string>)
    ensures sep !in s ==> r == [s]
    ensures sep in s ==> r == [] || r[|r| - 1] != []
    ensures forall j :: 0 <= j < |r| ==> sep !in r[j]
  {
    if sep !in s then [s] else StripTrailingEmpty(SplitAll(s, sep))
  }

  /** List.indexOf: the first position holding `x`, or -1. */
  function IndexOf(xs: seq<string>, x: string): (r: int)
    ensures -1 <= r < |xs|
    ensures r >= 0 ==> xs[r] == x && forall j :: 0 <= j < r ==> xs[j] != x
    ensures r == -1 <==> x !in xs
  {
    if xs == [] then -1
    else if xs[0] == x then 0
    else
      var r := IndexOf(xs[1..], x);
      if r < 0 then -1 else r + 1
  }

  predicate EndsWith(s: string, suffix: string) {
    |suffix| <= |s| && s[|s| - |suffix|..] == suffix
  }

  predicate OccursAt(s: string, t: string, i: int) {
    0 <= i <= |s| - |t| && s[i..i + |t|] == t
  }

  /** String.contains. */
  predicate Contains(s: string, t: string) {
    exists i :: 0 <= i <= |s| - |t| && OccursAt(s, t, i)
  }

  /** String.trim: remove every character at or below U+0020 from both ends. */
  function Trim(s: string): (r: string)
    ensures |r| <= |s|
    ensures r != [] ==> r[0] > ' ' && r[|r| - 1] > ' '
  {
    TrimEnd(TrimStart(s))
  }

  function TrimStart(s: string): (r: string)
    ensures |r| <= |s| && r == s[|s| - |r|..]
    ensures r != [] ==> r[0] > ' '
  {
    if s != [] && s[0] <= ' ' then TrimStart(s[1..]) else s
  }

  function TrimEnd(s: string): (r: string)
    ensures |r| <= |s| && r == s[..|r|]
    ensures r != [] ==> r[|r| - 1] > ' '
  {
    if s != [] && s[|s| - 1] <= ' ' then TrimEnd(s[..|s| - 1]) else s
  }

  // ---------------------------------------------------------------------------
  // Properties

  /** Splitting a joined list of separator-free pieces gives the pieces back. */
  lemma {:induction false} SplitJoin(pieces: seq<string>, sep: char)
    requires |pieces| >= 1
    requires forall j :: 0 <= j < |pieces| ==> sep !in pieces[j]
    ensures SplitAll(Join(pieces, sep), sep) == pieces
  {
    if |pieces| > 1 {
      SplitJoin(pieces[1..], sep);
      SplitCons(pieces[0], Join(pieces[1..], sep), sep);
    }
  }

  /** A separator-free prefix followed by the separator is split off as one piece. */
  lemma SplitCons(a: string, b: string, sep: char)
    requires sep !in a
    ensures SplitAll(a + [sep] + b, sep) == [a] + SplitAll(b, sep)
  {
    var s := a + [sep] + b;
    assert s[|a|] == sep;
    assert forall j :: 0 <= j < |a| ==> s[j] == a[j];
    assert IndexOfChar(s, sep) == |a|;
    assert s[..|a|] == a;
    assert s[|a| + 1..] == b;
  }

  /** Java's split of a string whose last piece is non-empty keeps every piece. */
  lemma JavaSplitKeepsPieces(s: string, sep: char)
    requires SplitAll(s, sep)[|SplitAll(s, sep)| - 1] != []
    ensures JavaSplit(s, sep) == SplitAll(s, sep)
  {
  }

  /** Java's split of separator-free pieces joined by the separator gives the pieces back, when the last is non-empty. */
  lemma JavaSplitJoin(pieces: seq<string>, sep: char)
    requires |pieces| >= 1 && pieces[|pieces| - 1] != []
    requires forall j :: 0 <= j < |pieces| ==> sep !in pieces[j]
    ensures JavaSplit(Join(pieces, sep), sep) == pieces
  {
    var s := Join(pieces, sep);
    SplitJoin(pieces, sep);
    if sep in s {
      JavaSplitKeepsPieces(s, sep);
    } else {
      assert SplitAll(s, sep) == [s];
    }
  }

  /** The first piece of a Java split is everything before the first separator. */
  lemma JavaSplitFirst(s: string, sep: char)
    ensures |JavaSplit(s, sep)| > 0 ==> JavaSplit(s, sep)[0] == s[..IndexOfChar(s, sep)]
  {
    if sep in s && |SplitAll(s, sep)| > 1 {
      assert SplitAll(s, sep)[0] == s[..IndexOfChar(s, sep)];
    }
  }

  /** Trimming a space-led token whose ends are visible characters yields the token. */
  lemma TrimPadded(lead: string, t: string)
    requires forall j :: 0 <= j < |lead| ==> lead[j] <= ' '
    requires t != [] && t[0] > ' ' && t[|t| - 1] > ' '
    ensures Trim(lead + t) == t
  {
    if lead != [] {
      assert (lead + t)[1..] == lead[1..] + t;
      TrimPadded(lead[1..], t);
    } else {
      assert lead + t == t;
    }
  }
}
