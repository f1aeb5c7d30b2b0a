/**
 * The text form in which the public node forwards a query's location ids to
 * an archive node, and the archive node's reading of it: Arrays.toString on
 * the public side, strip-brackets / split on ',' / trim / parseInt on the
 * archive side.
 */
module LocationIds {
  import opened Wrappers
  import opened JavaText
  import opened JavaNumbers

  /** The pieces between commas in Arrays.toString: every element after the first carries a leading space. */
  function Pieces(xs: seq<int>): (r: seq<string>)
    ensures |r| == |xs|
  {
    seq(|xs|, i requires 0 <= i < |xs| => (if i == 0 then "" else " ") + DecimalString(xs[i]))
  }

  /** Arrays.toString(Integer[]): "[" elements separated by ", " "]". */
  function ArraysToString(xs: seq<int>): (r: string)
    ensures xs == [] ==> r == "[]"
    ensures xs != [] ==>
      && |r| >= 2 && r[0] == '[' && r[|r| - 1] == ']'
      && JavaSplit(r[1..|r| - 1], ',') == Pieces(xs)
  {
    if xs == [] then "[]"
    else
      var inside := Join(Pieces(xs), ',');
      var r := "[" + inside + "]";
      assert r[1..|r| - 1] == inside;
      SplitPieces(xs);
      r
  }

  /** parseInt applied to every trimmed piece, failing on the first piece that does not parse. */
  function ParseAll(pieces: seq<string>): (r: Option<seq<int>>)
    ensures r.Some? <==> forall j :: 0 <= j < |pieces| ==> ParseInt(Trim(pieces[j])).Some?
    ensures r.Some? ==> |r.value| == |pieces|
    ensures r.Some? ==> forall j :: 0 <= j < |pieces| ==> ParseInt(Trim(pieces[j])) == Some(r.value[j])
  {
    if pieces == [] then Some([])
    else
      var head := ParseInt(Trim(pieces[0]));
      var tail := ParseAll(pieces[1..]);
      assert forall j :: 1 <= j < |pieces| ==> pieces[j] == pieces[1..][j - 1];
      if head.None? || tail.None? then None
      else Some([head.value] + tail.value)
  }

  /**
   * The archive node's reading of the locationIds request parameter. A string
   * shorter than two characters makes substring throw; any piece that is not
   * an int after trimming makes parseInt throw. Both surface as None.
   */
  function ParseLocationIds(s: string): (r: Option<seq<int>>)
    ensures |s| < 2 ==> r == None
    ensures r.Some? ==> forall j :: 0 <= j < |r.value| ==> IsInt(r.value[j])
  {
    if |s| < 2 then None else ParseAll(JavaSplit(s[1..|s| - 1], ','))
  }

  // ---------------------------------------------------------------------------
  // Properties

  /** A piece is an optional space and a decimal number: no comma, and it ends in a digit. */
  lemma PieceShape(xs: seq<int>, j: int)
    requires 0 <= j < |xs|
    ensures Pieces(xs)[j] == (if j == 0 then "" else " ") + DecimalString(xs[j])
    ensures ',' !in Pieces(xs)[j]
    ensures Pieces(xs)[j] != [] && Pieces(xs)[j][|Pieces(xs)[j]| - 1] > ' '
  {
    DecimalStringVisible(xs[j]);
  }

  /** Splitting the inside of Arrays.toString on ',' gives back the pieces. */
  lemma SplitPieces(xs: seq<int>)
    requires xs != []
    ensures JavaSplit(Join(Pieces(xs), ','), ',') == Pieces(xs)
  {
    var p := Pieces(xs);
    forall j | 0 <= j < |p| ensures ',' !in p[j] {
      PieceShape(xs, j);
    }
    PieceShape(xs, |xs| - 1);
    JavaSplitJoin(p, ',');
  }

  /** One piece trims to its element's decimal form, which parseInt reads back. */
  lemma PieceParses(xs: seq<int>, j: int)
    requires 0 <= j < |xs| && IsInt(xs[j])
    ensures ParseInt(Trim(Pieces(xs)[j])) == Some(xs[j])
  {
    PieceShape(xs, j);
    DecimalStringVisible(xs[j]);
    TrimPadded(if j == 0 then "" else " ", DecimalString(xs[j]));
    ParseOfDecimalString(xs[j], IntMin, IntMax);
  }

  /** parseInt over all pieces reads back the ids. */
  lemma ParsePieces(xs: seq<int>)
    requires forall j :: 0 <= j < |xs| ==> IsInt(xs[j])
    ensures ParseAll(Pieces(xs)) == Some(xs)
  {
    var p := Pieces(xs);
    forall j | 0 <= j < |p| ensures ParseInt(Trim(p[j])) == Some(xs[j]) {
      PieceParses(xs, j);
    }
    assert ParseAll(p).Some?;
    var r := ParseAll(p).value;
    assert |r| == |xs|;
    assert forall j :: 0 <= j < |xs| ==> r[j] == xs[j];
    assert r == xs;
  }

  /**
   * Round trip across the two nodes: any non-empty query of int ids that the
   * public node forwards is read back by the archive node unchanged.
   */
  lemma {:induction false} LocationIdsRoundTrip(xs: seq<int>)
    requires xs != []
    requires forall j :: 0 <= j < |xs| ==> IsInt(xs[j])
    ensures ParseLocationIds(ArraysToString(xs)) == Some(xs)
  {
    ParsePieces(xs);
  }

  /**
   * An empty query is forwarded as "[]", whose inside "" splits into [""],
   * which parseInt rejects; "[,]" on the other hand splits into no pieces.
   */
  lemma EmptyQueryRejected()
    ensures ArraysToString([]) == "[]"
    ensures ParseLocationIds("[]") == None
    ensures ParseLocationIds("[,]") == Some([])
  {
    assert "[]"[1..1] == "";
    assert ParseInt(Trim("")) == None;
    var inner := "[,]"[1..2];
    assert inner == ",";
    assert SplitAll(inner, ',') == [""] + SplitAll("", ',');
  }
}
