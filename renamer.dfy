/** `process_col_file` of lab3/codigo/examples/renamer.py: keeps the edge lines
  * `e u v` of a DIMACS colouring file and writes them as `u v` lines. The file
  * contents are a parameter; opening and writing files is not modelled. */
module ColEdgeExtractor {
  import opened Text

  /** Python's `xs[1:]`, which is empty rather than an error on an empty list. */
  function DropFirst(ws: seq<string>): seq<string>
  {
    if |ws| == 0 then [] else ws[1..]
  }

  predicate IsEdgeLine(line: string) {
    StartsWith(line, "e ")
  }

  /** The lines that contribute output, in file order. */
  function EdgeSourceLines(lines: seq<string>): (r: seq<string>)
    ensures |r| <= |lines|
    ensures forall i :: 0 <= i < |r| ==> IsEdgeLine(r[i]) && r[i] in lines
  {
    if |lines| == 0 then []
    else if IsEdgeLine(lines[0]) then [lines[0]] + EdgeSourceLines(lines[1..])
    else EdgeSourceLines(lines[1..])
  }

  /** The filter goes line by line: the edge lines of `a + b` are those of
    * `a` followed by those of `b`, and a single line is kept exactly when
    * it is an edge line, so every edge line is kept, in file order. */
  lemma {:induction false} EdgeSourceLinesAppend(a: seq<string>, b: seq<string>)
    ensures EdgeSourceLines(a + b) == EdgeSourceLines(a) + EdgeSourceLines(b)
    ensures |a| == 1 ==> EdgeSourceLines(a) == if IsEdgeLine(a[0]) then a else []
    decreases |a|
  {
    if |a| > 0 {
      assert (a + b)[1..] == a[1..] + b;
      EdgeSourceLinesAppend(a[1..], b);
    } else {
      assert a + b == b;
    }
  }

  /** `' '.join(line.strip().split()[1:])`. */
  function EdgeText(line: string): (r: string)
    ensures '\n' !in r
  {
    var ws := DropFirst(Words(line));
    WordsShape(line);
    assert forall i :: 0 <= i < |ws| ==> '\n' !in ws[i] by {
      forall i | 0 <= i < |ws| ensures '\n' !in ws[i] {
        assert ws[i] == Words(line)[i + 1];
        assert NoSpace(ws[i]);
      }
    }
    JoinAvoids(ws, ' ', '\n');
    JoinWith(ws, ' ')
  }

  /** The `edges` list built by the loop over the lines: one entry per edge
    * line, in the same order. */
  function Edges(lines: seq<string>): (r: seq<string>)
    ensures |r| == |EdgeSourceLines(lines)|
    ensures forall i :: 0 <= i < |r| ==> r[i] == EdgeText(EdgeSourceLines(lines)[i])
  {
    if |lines| == 0 then []
    else if IsEdgeLine(lines[0]) then [EdgeText(lines[0])] + Edges(lines[1..])
    else Edges(lines[1..])
  }

  /** The text written to the output file. */
  function ProcessColFile(content: string): string
  {
    JoinWith(Edges(ReadLines(content)), '\n')
  }

  /** The output name used when none is given. */
  function DefaultOutputName(inputFile: string): string
  {
    ReplaceAll(inputFile, ".col", "_edges.txt")
  }

  /** Reading the output back line by line gives exactly the edge list, in
    * order, whenever at least one edge line was present. */
  lemma OutputLines(content: string)
    requires |Edges(ReadLines(content))| >= 1
    ensures SplitOn(ProcessColFile(content), '\n') == Edges(ReadLines(content))
  {
    var es := Edges(ReadLines(content));
    SplitJoin(es, '\n');
  }

  /** With no edge line the output is empty. */
  lemma {:induction false} NoEdgesEmptyOutput(content: string)
    requires forall i :: 0 <= i < |ReadLines(content)| ==> !IsEdgeLine(ReadLines(content)[i])
    ensures ProcessColFile(content) == ""
  {
    NoEdgeLinesNoEdges(ReadLines(content));
  }

  lemma {:induction false} NoEdgeLinesNoEdges(lines: seq<string>)
    requires forall i :: 0 <= i < |lines| ==> !IsEdgeLine(lines[i])
    ensures Edges(lines) == []
  {
    if |lines| > 0 {
      NoEdgeLinesNoEdges(lines[1..]);
    }
  }

  /** Each output line holds the tokens of its source line after the first,
    * separated by single spaces. */
  lemma EdgeTextTokens(line: string)
    ensures Words(EdgeText(line)) == DropFirst(Words(line))
  {
    WordsShape(line);
    WordsJoin(DropFirst(Words(line)));
  }

  /** A name `stem.col` whose only `.col` is the suffix becomes `stem_edges.txt`. */
  lemma DefaultNameOfColFile(stem: string)
    requires NoMatchBefore(stem + ".col", ".col", |stem|)
    ensures DefaultOutputName(stem + ".col") == stem + "_edges.txt"
  {
    ReplaceSuffix(stem, ".col", "_edges.txt");
  }

  /** A name without `.col` is used unchanged, so the input would be overwritten. */
  lemma DefaultNameWithoutCol(name: string)
    requires NoMatchBefore(name, ".col", |name| + 1)
    ensures DefaultOutputName(name) == name
  {
    ReplaceAbsent(name, ".col", "_edges.txt");
  }
}
