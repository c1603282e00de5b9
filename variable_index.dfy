/**
 * The variable index: for each variable key, the ordered list of positions of
 * the factors that involve it, with the two counters kept beside the map.
 * Modelled here: exact equality, and the export of the index as a hypergraph
 * in METIS text form (variables are hyperedges, factors are vertices).
 */
module VariableIndexes {
  import opened Wrappers
  import opened Text
  import FactorGraphs

  /** Variables are identified by the same keys as in the factor graph. */
  type Key = FactorGraphs.Key

  /** A snapshot of the index: the key-to-positions map and the counters `nEntries_`, `nFactors_`. */
  datatype VariableIndex = VariableIndex(index: map<Key, seq<nat>>, nEntries: nat, nFactors: nat)
  {
    /** Number of variables in the index. */
    function Size(): nat { |index| }
  }

  // ---------------------------------------------------------------------
  // equals

  /** `VariableIndex::equals`: exact on both counters and the map; the tolerance plays no part. */
  function Equals(a: VariableIndex, b: VariableIndex, tol: real): (r: bool)
    ensures r <==> a == b
  {
    a.nEntries == b.nEntries && a.nFactors == b.nFactors && a.index == b.index
  }

  /** Equality of indexes is an equivalence relation and ignores the tolerance. */
  lemma EqualsIsEquivalence(a: VariableIndex, b: VariableIndex, c: VariableIndex, tol: real, tol': real)
    ensures Equals(a, a, tol)
    ensures Equals(a, b, tol) == Equals(b, a, tol)
    ensures Equals(a, b, tol) && Equals(b, c, tol) ==> Equals(a, c, tol)
    ensures Equals(a, b, tol) == Equals(a, b, tol')
  {
  }

  // ---------------------------------------------------------------------
  // outputMetisFormat

  /**
   * The order in which the map is walked: every key of the index exactly
   * once. (An ordered map walks its keys in ascending order, which is one
   * such enumeration.)
   */
  predicate IsKeyOrder(vi: VariableIndex, order: seq<Key>)
  {
    && (forall i, j :: 0 <= i < j < |order| ==> order[i] != order[j])
    && (forall i :: 0 <= i < |order| ==> order[i] in vi.index)
    && (forall k :: k in vi.index ==> k in order)
  }

  /** The line for one variable: each position, made 1-based, followed by a space. */
  function EdgeTokens(positions: seq<nat>): seq<string>
  {
    seq(|positions|, j requires 0 <= j < |positions| => NatToString(positions[j] + 1))
  }

  function EdgeLine(positions: seq<nat>): string
  {
    Terminated(EdgeTokens(positions), ' ')
  }

  /** The first line: the number of variables, a space, the factor counter. */
  function HeaderLine(vi: VariableIndex): string
  {
    NatToString(vi.Size()) + " " + NatToString(vi.nFactors)
  }

  /** All lines of the export, without their newlines. */
  function MetisLines(vi: VariableIndex, order: seq<Key>): seq<string>
    requires IsKeyOrder(vi, order)
  {
    [HeaderLine(vi)] + seq(|order|, i requires 0 <= i < |order| => EdgeLine(vi.index[order[i]]))
  }

  /** The exported text: every line followed by a newline. */
  function MetisFormat(vi: VariableIndex, order: seq<Key>): string
    requires IsKeyOrder(vi, order)
  {
    Terminated(MetisLines(vi, order), '\n')
  }

  /**
   * `VariableIndex::outputMetisFormat`: writes the header, then walks the
   * variables and writes one line for each. The inner walk over a variable's
   * positions is `WriteEdgeLine`.
   */
  method OutputMetisFormat(vi: VariableIndex, order: seq<Key>) returns (os: string)
    requires IsKeyOrder(vi, order)
    ensures os == MetisFormat(vi, order)
    ensures DecodeMetis(os) == Some(Hypergraph(vi.Size(), vi.nFactors, OneBased(vi, order)))
  {
    ghost var lines := MetisLines(vi, order);
    os := NatToString(|vi.index|) + " " + NatToString(vi.nFactors) + "\n";
    assert lines[..1] == [HeaderLine(vi)];
    TerminatedSnoc([], HeaderLine(vi), '\n');
    for i := 0 to |order|
      invariant os == Terminated(lines[..i + 1], '\n')
    {
      var line := WriteEdgeLine(vi.index[order[i]]);
      LineStep(vi, order, lines, i);
      os := os + line + "\n";
    }
    assert lines[..|order| + 1] == lines;
    MetisRoundTrip(vi, order);
  }

  /** The inner loop of the export: each position of one variable, made 1-based, then a space. */
  method WriteEdgeLine(factors: seq<nat>) returns (os: string)
    ensures os == EdgeLine(factors)
    ensures ParseFields(os) == Some(Shifted(factors))
  {
    os := [];
    ghost var tokens := EdgeTokens(factors);
    for j := 0 to |factors|
      invariant os == Terminated(tokens[..j], ' ')
    {
      WriteToken(tokens, j);
      os := os + NatToString(factors[j] + 1) + " ";
    }
    assert tokens[..|factors|] == tokens;
    EdgeLineRoundTrip(factors);
  }

  /** Writing token j extends the text of tokens 0 to j - 1. */
  lemma WriteToken(tokens: seq<string>, j: nat)
    requires j < |tokens|
    ensures Terminated(tokens[..j + 1], ' ') == Terminated(tokens[..j], ' ') + tokens[j] + " "
  {
    assert tokens[..j + 1] == tokens[..j] + [tokens[j]];
    TerminatedSnoc(tokens[..j], tokens[j], ' ');
  }

  /** Finishing the line of the i-th variable extends the text of the lines before it. */
  lemma LineStep(vi: VariableIndex, order: seq<Key>, lines: seq<string>, i: nat)
    requires IsKeyOrder(vi, order) && lines == MetisLines(vi, order)
    requires i < |order|
    ensures Terminated(lines[..i + 2], '\n')
      == Terminated(lines[..i + 1], '\n') + Terminated(EdgeTokens(vi.index[order[i]]), ' ') + "\n"
  {
    assert lines[..i + 2] == lines[..i + 1] + [lines[i + 1]];
    TerminatedSnoc(lines[..i + 1], lines[i + 1], '\n');
  }

  // ---------------------------------------------------------------------
  // Reading the export back

  /** A hypergraph as the METIS text describes it: the two header numbers and the vertex lists. */
  datatype Hypergraph = Hypergraph(nEdges: nat, nVertices: nat, edges: seq<seq<nat>>)

  /** The numbers of a line separated by spaces; None if some field is not a numeral. */
  function ParseFields(line: string): Option<seq<nat>>
  {
    ParseNumerals(Pieces(line, ' '))
  }

  function ParseNumerals(fields: seq<string>): Option<seq<nat>>
  {
    if fields == [] then Some([])
    else if !IsNumeral(fields[0]) then None
    else match ParseNumerals(fields[1..])
      case Some(rest) => Some([ParseNat(fields[0])] + rest)
      case None => None
  }

  function ParseLines(lines: seq<string>): Option<seq<seq<nat>>>
  {
    if lines == [] then Some([])
    else match (ParseFields(lines[0]), ParseLines(lines[1..]))
      case (Some(first), Some(rest)) => Some([first] + rest)
      case _ => None
  }

  /** Reads METIS hypergraph text: a header of two numbers, then one line of numbers per hyperedge. */
  function DecodeMetis(s: string): Option<Hypergraph>
  {
    var lines := Pieces(s, '\n');
    if lines == [] then None
    else match (ParseFields(lines[0]), ParseLines(lines[1..]))
      case (Some(header), Some(edges)) =>
        if |header| == 2 then Some(Hypergraph(header[0], header[1], edges)) else None
      case _ => None
  }

  /** Positions made 1-based. */
  function Shifted(positions: seq<nat>): seq<nat>
  {
    seq(|positions|, j requires 0 <= j < |positions| => positions[j] + 1)
  }

  /** Each variable's positions in walk order, shifted to be 1-based. */
  function OneBased(vi: VariableIndex, order: seq<Key>): seq<seq<nat>>
    requires IsKeyOrder(vi, order)
  {
    seq(|order|, i requires 0 <= i < |order| => Shifted(vi.index[order[i]]))
  }

  lemma NumeralHasNoSeparator(n: nat)
    ensures ' ' !in NatToString(n) && '\n' !in NatToString(n)
  {
  }

  /** No line of the export contains a newline of its own. */
  lemma LinesHaveNoNewline(vi: VariableIndex, order: seq<Key>)
    requires IsKeyOrder(vi, order)
    ensures forall i :: 0 <= i < |MetisLines(vi, order)| ==> '\n' !in MetisLines(vi, order)[i]
  {
    var lines := MetisLines(vi, order);
    NumeralHasNoSeparator(vi.Size());
    NumeralHasNoSeparator(vi.nFactors);
    forall i | 1 <= i < |lines| ensures '\n' !in lines[i] {
      EdgeLineHasNoNewline(vi.index[order[i - 1]]);
    }
  }

  lemma EdgeLineHasNoNewline(positions: seq<nat>)
    ensures '\n' !in EdgeLine(positions)
  {
    var tokens := EdgeTokens(positions);
    forall j | 0 <= j < |tokens| ensures '\n' !in tokens[j] {
      NumeralHasNoSeparator(positions[j] + 1);
    }
    NotInTerminated(tokens, ' ', '\n');
  }

  /** A variable's line reads back as its positions plus one, in stored order. */
  lemma EdgeLineRoundTrip(positions: seq<nat>)
    ensures ParseFields(EdgeLine(positions)) == Some(Shifted(positions))
  {
    var tokens := EdgeTokens(positions);
    forall i | 0 <= i < |tokens| ensures ' ' !in tokens[i] {
      NumeralHasNoSeparator(positions[i] + 1);
    }
    PiecesOfTerminated(tokens, ' ');
    NumeralsRoundTrip(positions);
  }

  /** The 1-based numerals of a position list read back as the shifted positions. */
  lemma {:induction false} NumeralsRoundTrip(positions: seq<nat>)
    ensures ParseNumerals(EdgeTokens(positions)) == Some(Shifted(positions))
  {
    if positions != [] {
      var tokens := EdgeTokens(positions);
      NumeralsRoundTrip(positions[1..]);
      ParseNatToString(positions[0] + 1);
      assert tokens[0] == NatToString(positions[0] + 1);
      assert IsNumeral(tokens[0]);
      assert tokens[1..] == EdgeTokens(positions[1..]);
      assert Shifted(positions) == [positions[0] + 1] + Shifted(positions[1..]);
    }
  }

  /** The header reads back as the number of variables and the factor counter. */
  lemma HeaderRoundTrip(vi: VariableIndex)
    ensures ParseFields(HeaderLine(vi)) == Some([vi.Size(), vi.nFactors])
  {
    var a, b := NatToString(vi.Size()), NatToString(vi.nFactors);
    NumeralHasNoSeparator(vi.Size());
    NumeralHasNoSeparator(vi.nFactors);
    PiecesCons(a, ' ', b);
    PiecesSingle(b, ' ');
    assert HeaderLine(vi) == a + [' '] + b;
    ParseNatToString(vi.Size());
    ParseNatToString(vi.nFactors);
    assert Pieces(HeaderLine(vi), ' ') == [a, b];
    assert [a, b][1..] == [b];
    assert [b][1..] == [];
    assert IsNumeral(a) && IsNumeral(b);
    assert ParseNumerals([b][1..]) == Some([]);
    assert [ParseNat(b)] + [] == [vi.nFactors];
    assert ParseNumerals([b]) == Some([vi.nFactors]);
    assert ParseNumerals([a, b]) == Some([vi.Size()] + [vi.nFactors]);
    assert [vi.Size()] + [vi.nFactors] == [vi.Size(), vi.nFactors];
    assert ParseFields(HeaderLine(vi)) == ParseNumerals([a, b]);
  }

  lemma {:induction false} ParseLinesOf(lines: seq<string>, expected: seq<seq<nat>>)
    requires |lines| == |expected|
    requires forall i :: 0 <= i < |lines| ==> ParseFields(lines[i]) == Some(expected[i])
    ensures ParseLines(lines) == Some(expected)
  {
    if lines != [] {
      ParseLinesOf(lines[1..], expected[1..]);
      assert [expected[0]] + expected[1..] == expected;
    }
  }

  /**
   * Reading the export back gives: the number of variables and the factor
   * counter from the header, then one line per variable in walk order,
   * holding that variable's positions plus one, in stored order.
   */
  lemma MetisRoundTrip(vi: VariableIndex, order: seq<Key>)
    requires IsKeyOrder(vi, order)
    ensures DecodeMetis(MetisFormat(vi, order)) == Some(Hypergraph(vi.Size(), vi.nFactors, OneBased(vi, order)))
  {
    var lines := MetisLines(vi, order);
    LinesHaveNoNewline(vi, order);
    PiecesOfTerminated(lines, '\n');
    HeaderRoundTrip(vi);
    forall i | 0 <= i < |order| ensures ParseFields(lines[1..][i]) == Some(OneBased(vi, order)[i]) {
      EdgeLineRoundTrip(vi.index[order[i]]);
    }
    ParseLinesOf(lines[1..], OneBased(vi, order));
  }

  /** A walk that visits each key once has one step per key. */
  lemma {:induction false} KeyOrderLength(vi: VariableIndex, order: seq<Key>)
    requires IsKeyOrder(vi, order)
    ensures |order| == vi.Size()
  {
    DistinctCardinality(order);
    assert Elements(order) == vi.index.Keys;
  }

  /** The elements of a sequence, as a set. */
  function Elements(s: seq<Key>): set<Key>
  {
    set k: Key | k in s
  }

  lemma {:induction false} DistinctCardinality(s: seq<Key>)
    requires forall i, j :: 0 <= i < j < |s| ==> s[i] != s[j]
    ensures |Elements(s)| == |s|
  {
    if s != [] {
      var n := |s| - 1;
      var init := s[..n];
      DistinctCardinality(init);
      assert s == init + [s[n]];
      assert Elements(s) == Elements(init) + {s[n]};
      assert s[n] !in Elements(init);
    }
  }

  /**
   * The export is newline-terminated and has exactly one line per variable
   * after the header.
   */
  lemma MetisLineCount(vi: VariableIndex, order: seq<Key>)
    requires IsKeyOrder(vi, order)
    ensures Occurrences(MetisFormat(vi, order), '\n') == 1 + vi.Size()
    ensures MetisFormat(vi, order)[|MetisFormat(vi, order)| - 1] == '\n'
  {
    var lines := MetisLines(vi, order);
    LinesHaveNoNewline(vi, order);
    OccurrencesOfTerminator(lines, '\n');
    KeyOrderLength(vi, order);
    assert lines == lines[..|lines| - 1] + [lines[|lines| - 1]];
    TerminatedSnoc(lines[..|lines| - 1], lines[|lines| - 1], '\n');
  }

  /** Every index written is at least 1, and a line holds as many indices as the variable has positions. */
  lemma MetisIndicesOneBased(vi: VariableIndex, order: seq<Key>, i: nat)
    requires IsKeyOrder(vi, order)
    requires i < |order|
    ensures var h := DecodeMetis(MetisFormat(vi, order));
      && h.Some?
      && |h.value.edges| == |order|
      && |h.value.edges[i]| == |vi.index[order[i]]|
      && forall j :: 0 <= j < |h.value.edges[i]| ==> h.value.edges[i][j] >= 1
  {
    MetisRoundTrip(vi, order);
  }

  /** The two-variable index over positions 0 and 2: key 1 at [0], key 2 at [0, 2]. */
  lemma TwoVariableExample()
    ensures MetisFormat(VariableIndex(map[1 := [0], 2 := [0, 2]], 3, 2), [1, 2]) == "2 2\n1 \n1 3 \n"
  {
    var vi := VariableIndex(map[1 := [0], 2 := [0, 2]], 3, 2);
    ExampleLines(vi);
    ExampleText();
  }

  lemma ExampleLines(vi: VariableIndex)
    requires vi == VariableIndex(map[1 := [0], 2 := [0, 2]], 3, 2)
    ensures IsKeyOrder(vi, [1, 2]) && MetisLines(vi, [1, 2]) == ["2 2", "1 ", "1 3 "]
  {
    assert vi.index.Keys == {1, 2};
    assert HeaderLine(vi) == "2 2";
    ExampleEdgeLines();
  }

  lemma ExampleEdgeLines()
    ensures EdgeLine([0]) == "1 " && EdgeLine([0, 2]) == "1 3 "
  {
    assert EdgeTokens([0]) == ["1"];
    assert EdgeTokens([0, 2]) == ["1", "3"];
    assert ["1", "3"][1..] == ["3"];
  }

  lemma ExampleText()
    ensures Terminated(["2 2", "1 ", "1 3 "], '\n') == "2 2\n1 \n1 3 \n"
  {
    TerminatedSnoc([], "2 2", '\n');
    assert [] + ["2 2"] == ["2 2"];
    TerminatedSnoc(["2 2"], "1 ", '\n');
    assert ["2 2"] + ["1 "] == ["2 2", "1 "];
    TerminatedSnoc(["2 2", "1 "], "1 3 ", '\n');
    assert ["2 2", "1 "] + ["1 3 "] == ["2 2", "1 ", "1 3 "];
  }
}
