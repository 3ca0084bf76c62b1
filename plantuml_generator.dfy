/** The diagram generator: renders a sequence of commit nodes as PlantUML
    source text. The text is a header, one class block per commit in list
    order, one edge line per non-empty parent hash (commits in list order,
    parents in their own order), and a footer. */
module PlantUmlGenerator {
  import opened Commits

  const Header: string := "@startuml\n"
  const Footer: string := "@enduml\n"

  /** The concatenation of `f(x)` for every `x` of `xs`, in order. */
  function FlatMap<T, U>(xs: seq<T>, f: T -> seq<U>): seq<U>
  {
    if |xs| == 0 then [] else FlatMap(xs[..|xs| - 1], f) + f(xs[|xs| - 1])
  }

  /** Appending one more element appends its text. */
  lemma FlatMapSnoc<T, U>(xs: seq<T>, f: T -> seq<U>, k: nat)
    requires k < |xs|
    ensures FlatMap(xs[..k + 1], f) == FlatMap(xs[..k], f) + f(xs[k])
  {
    assert xs[..k + 1][..k] == xs[..k];
  }

  /** One regrouping of a concatenation. */
  lemma Regroup(a: string, b: string, c: string)
    ensures a + (b + c) == (a + b) + c
  {
  }

  /** The line of one modified file inside a class block. */
  function FileLine(file: string): string
  {
    "  " + file + "\n"
  }

  /** The opening line of a class block. */
  function ClassOpen(node: CommitNode): string
  {
    "class " + node.commitHash + " {\n"
  }

  /** The quoted message line of a class block. */
  function MessageLine(node: CommitNode): string
  {
    "  \"" + node.commitMessage + "\"\n"
  }

  const ClassClose: string := "}\n"

  /** The class block of one commit. */
  function ClassBlock(node: CommitNode): string
  {
    ClassOpen(node) + MessageLine(node) + FlatMap(node.modifiedFiles, FileLine) + ClassClose
  }

  /** The line of one edge from a parent to a child commit. */
  function EdgeLine(parent: string, child: string): string
  {
    parent + " --> " + child + "\n"
  }

  /** The text a parent hash of `child` contributes: its edge line, or
      nothing when the hash is empty. */
  function ParentText(child: string): string -> string
  {
    parent => if parent == "" then "" else EdgeLine(parent, child)
  }

  /** The edge lines of one commit. */
  function NodeEdges(node: CommitNode): string
  {
    FlatMap(node.parentHashes, ParentText(node.commitHash))
  }

  function Blocks(commits: seq<CommitNode>): string
  {
    FlatMap(commits, ClassBlock)
  }

  function Edges(commits: seq<CommitNode>): string
  {
    FlatMap(commits, NodeEdges)
  }

  /** The whole diagram: every class block comes before every edge line. */
  function PlantUml(commits: seq<CommitNode>): string
  {
    Header + Blocks(commits) + Edges(commits) + Footer
  }

  /** The generator, appending to one accumulator in the order of the nested
      loops: the class blocks first, then the edge lines. Each assignment
      appends what one chain of appends in the builder adds. */
  method GeneratePlantUmlSource(commits: seq<CommitNode>) returns (source: string)
    ensures source == PlantUml(commits)
  {
    var sb := Header;
    for i := 0 to |commits|
      invariant sb == Header + Blocks(commits[..i])
    {
      var node := commits[i];
      ghost var before := sb;
      sb := sb + ("class " + node.commitHash + " {\n");
      sb := sb + ("  \"" + node.commitMessage + "\"\n");
      ghost var head := sb;
      for j := 0 to |node.modifiedFiles|
        invariant sb == head + FlatMap(node.modifiedFiles[..j], FileLine)
      {
        FlatMapSnoc(node.modifiedFiles, FileLine, j);
        Regroup(head, FlatMap(node.modifiedFiles[..j], FileLine), FileLine(node.modifiedFiles[j]));
        sb := sb + ("  " + node.modifiedFiles[j] + "\n");
      }
      assert node.modifiedFiles[..|node.modifiedFiles|] == node.modifiedFiles;
      sb := sb + "}\n";
      BlockAppended(before, node);
      FlatMapSnoc(commits, ClassBlock, i);
      Regroup(Header, Blocks(commits[..i]), ClassBlock(node));
    }
    assert commits[..|commits|] == commits;
    ghost var blocksDone := sb;
    for i := 0 to |commits|
      invariant sb == blocksDone + Edges(commits[..i])
    {
      var node := commits[i];
      ghost var before := sb;
      for j := 0 to |node.parentHashes|
        invariant sb == before + FlatMap(node.parentHashes[..j], ParentText(node.commitHash))
      {
        var parentHash := node.parentHashes[j];
        FlatMapSnoc(node.parentHashes, ParentText(node.commitHash), j);
        Regroup(before, FlatMap(node.parentHashes[..j], ParentText(node.commitHash)),
                ParentText(node.commitHash)(parentHash));
        if parentHash != "" {
          sb := sb + (parentHash + " --> " + node.commitHash + "\n");
        }
      }
      assert node.parentHashes[..|node.parentHashes|] == node.parentHashes;
      FlatMapSnoc(commits, NodeEdges, i);
      Regroup(blocksDone, Edges(commits[..i]), NodeEdges(node));
    }
    sb := sb + Footer;
    source := sb;
  }

  /** The accumulator after the appends of one class block. */
  lemma BlockAppended(before: string, node: CommitNode)
    ensures before + ClassOpen(node) + MessageLine(node) + FlatMap(node.modifiedFiles, FileLine) + ClassClose
         == before + ClassBlock(node)
  {
    var o, m, f := ClassOpen(node), MessageLine(node), FlatMap(node.modifiedFiles, FileLine);
    Regroup(before, o, m);
    Regroup(before, o + m, f);
    Regroup(before, o + m + f, ClassClose);
  }

  // ---------------------------------------------------------------------------
  // Concatenation

  lemma {:induction false} FlatMapAppend<T, U>(xs: seq<T>, ys: seq<T>, f: T -> seq<U>)
    ensures FlatMap(xs + ys, f) == FlatMap(xs, f) + FlatMap(ys, f)
    decreases |ys|
  {
    if |ys| > 0 {
      var n := |ys| - 1;
      assert (xs + ys)[..|xs + ys| - 1] == xs + ys[..n];
      FlatMapAppend(xs, ys[..n], f);
    } else {
      assert xs + ys == xs;
    }
  }

  /** The text of element `k` sits between those of the elements before and
      after it. */
  lemma FlatMapAt<T, U>(xs: seq<T>, f: T -> seq<U>, k: nat)
    requires k < |xs|
    ensures FlatMap(xs, f) == FlatMap(xs[..k], f) + f(xs[k]) + FlatMap(xs[k + 1..], f)
  {
    FlatMapSplit(xs, f, k + 1);
    FlatMapSnoc(xs, f, k);
  }

  /** Cutting the elements anywhere cuts the text there. */
  lemma FlatMapSplit<T, U>(xs: seq<T>, f: T -> seq<U>, n: nat)
    requires n <= |xs|
    ensures FlatMap(xs, f) == FlatMap(xs[..n], f) + FlatMap(xs[n..], f)
  {
    assert xs[..n] + xs[n..] == xs;
    FlatMapAppend(xs[..n], xs[n..], f);
  }

  /** `t` occurs in `s`. */
  ghost predicate IsInfix(t: string, s: string)
  {
    exists pre, post :: s == pre + t + post
  }

  lemma InfixSelf(t: string)
    ensures IsInfix(t, t)
  {
    assert t == "" + t + "";
  }

  lemma InfixExtend(t: string, a: string, s: string, b: string)
    requires IsInfix(t, s)
    ensures IsInfix(t, a + s) && IsInfix(t, s + b)
  {
    var pre, post :| s == pre + t + post;
    assert a + s == (a + pre) + t + post;
    assert s + b == pre + t + (post + b);
  }

  /** A singleton contributes its own text. */
  lemma FlatMapSingle<T, U>(x: T, f: T -> seq<U>)
    ensures FlatMap([x], f) == f(x)
  {
    assert [x][..0] == [];
  }

  lemma FlatMapPair<T, U>(x: T, y: T, f: T -> seq<U>)
    ensures FlatMap([x, y], f) == f(x) + f(y)
  {
    assert [x, y][..1] == [x];
    FlatMapSingle(x, f);
  }

  // ---------------------------------------------------------------------------
  // Header, blocks and footer

  /** The diagram opens with the start marker and closes with the end marker. */
  lemma Markers(commits: seq<CommitNode>)
    ensures var s := PlantUml(commits);
      |s| >= |Header| + |Footer| && s[..|Header|] == Header && s[|s| - |Footer|..] == Footer
  {
    var body := Blocks(commits) + Edges(commits);
    Regroup(Header, Blocks(commits), Edges(commits));
    var s := Header + body + Footer;
    assert s[..|Header|] == Header;
    assert s[|s| - |Footer|..] == Footer;
  }

  /** No commits: just the header and the footer. */
  lemma NoCommits()
    ensures PlantUml([]) == "@startuml\n@enduml\n"
  {
  }

  /** Block `i` comes after the blocks of the commits before it and before
      those of the commits after it, and all blocks come before the edges. */
  lemma BlockAt(commits: seq<CommitNode>, i: nat)
    requires i < |commits|
    ensures PlantUml(commits)
         == Header + Blocks(commits[..i]) + ClassBlock(commits[i]) + Blocks(commits[i + 1..])
            + Edges(commits) + Footer
  {
    var a, x, b := Blocks(commits[..i]), ClassBlock(commits[i]), Blocks(commits[i + 1..]);
    FlatMapAt(commits, ClassBlock, i);
    Regroup(Header, a + x, b);
    Regroup(Header, a, x);
  }

  /** Two blocks appear in the order of their commits. */
  lemma BlocksInOrder(commits: seq<CommitNode>, i: nat, j: nat)
    requires i < j < |commits|
    ensures PlantUml(commits)
         == Header + Blocks(commits[..i]) + ClassBlock(commits[i]) + Blocks(commits[i + 1..j])
            + ClassBlock(commits[j]) + Blocks(commits[j + 1..]) + Edges(commits) + Footer
  {
    var before := commits[..j];
    assert before[..i] == commits[..i] && before[i] == commits[i] && before[i + 1..] == commits[i + 1..j];
    var a, x, b := Blocks(commits[..i]), ClassBlock(commits[i]), Blocks(commits[i + 1..j]);
    var y, c := ClassBlock(commits[j]), Blocks(commits[j + 1..]);
    FlatMapAt(before, ClassBlock, i);
    FlatMapAt(commits, ClassBlock, j);
    assert Blocks(commits) == a + x + b + y + c;
    Regroup(Header, a + x + b + y, c);
    Regroup(Header, a + x + b, y);
    Regroup(Header, a + x, b);
    Regroup(Header, a, x);
  }

  /** Inside a block, file `k` comes after the header lines and the files
      before it, and before the files after it and the closing brace. */
  lemma FileLineAt(node: CommitNode, k: nat)
    requires k < |node.modifiedFiles|
    ensures ClassBlock(node)
         == ClassOpen(node) + MessageLine(node) + FlatMap(node.modifiedFiles[..k], FileLine)
            + FileLine(node.modifiedFiles[k]) + FlatMap(node.modifiedFiles[k + 1..], FileLine) + ClassClose
  {
    var fs := node.modifiedFiles;
    var a, x, b := FlatMap(fs[..k], FileLine), FileLine(fs[k]), FlatMap(fs[k + 1..], FileLine);
    FlatMapAt(fs, FileLine, k);
    var head := ClassOpen(node) + MessageLine(node);
    Regroup(head, a + x, b);
    Regroup(head, a, x);
  }

  /** Every commit's class header line is in the diagram. */
  lemma ContainsClassHeader(commits: seq<CommitNode>, i: nat)
    requires i < |commits|
    ensures IsInfix("class " + commits[i].commitHash + " {\n", PlantUml(commits))
  {
    var c := commits[i];
    var o := ClassOpen(c);
    InfixSelf(o);
    InfixExtend(o, "", o, MessageLine(c));
    InfixExtend(o, "", o + MessageLine(c), FlatMap(c.modifiedFiles, FileLine));
    InfixExtend(o, "", o + MessageLine(c) + FlatMap(c.modifiedFiles, FileLine), ClassClose);
    FlatMapAt(commits, ClassBlock, i);
    var a, b := Blocks(commits[..i]), Blocks(commits[i + 1..]);
    InfixExtend(o, a, ClassBlock(c), "");
    InfixExtend(o, "", a + ClassBlock(c), b);
    InfixExtend(o, Header, Blocks(commits), Edges(commits));
    InfixExtend(o, "", Header + Blocks(commits), Edges(commits));
    InfixExtend(o, "", Header + Blocks(commits) + Edges(commits), Footer);
  }

  // ---------------------------------------------------------------------------
  // Edges

  /** An edge of the commit graph. */
  datatype Edge = Edge(parent: string, child: string)

  /** The edge a parent hash of `child` stands for: none when it is empty. */
  function ParentEdge(child: string): string -> seq<Edge>
  {
    parent => if parent == "" then [] else [Edge(parent, child)]
  }

  function NodeEdgeList(node: CommitNode): seq<Edge>
  {
    FlatMap(node.parentHashes, ParentEdge(node.commitHash))
  }

  /** The edges of the diagram, in emission order. */
  function EdgeList(commits: seq<CommitNode>): seq<Edge>
  {
    FlatMap(commits, NodeEdgeList)
  }

  function RenderEdge(e: Edge): string
  {
    EdgeLine(e.parent, e.child)
  }

  lemma {:induction false} NodeEdgesRendered(parents: seq<string>, child: string)
    ensures FlatMap(parents, ParentText(child))
         == FlatMap(FlatMap(parents, ParentEdge(child)), RenderEdge)
  {
    if |parents| > 0 {
      var n := |parents| - 1;
      NodeEdgesRendered(parents[..n], child);
      FlatMapAppend(FlatMap(parents[..n], ParentEdge(child)), ParentEdge(child)(parents[n]), RenderEdge);
      if parents[n] != "" {
        assert [Edge(parents[n], child)][..0] == [];
      }
    }
  }

  /** The edge section is one edge line per edge, in order, and nothing else. */
  lemma {:induction false} EdgesRendered(commits: seq<CommitNode>)
    ensures Edges(commits) == FlatMap(EdgeList(commits), RenderEdge)
  {
    if |commits| > 0 {
      var n := |commits| - 1;
      EdgesRendered(commits[..n]);
      NodeEdgesRendered(commits[n].parentHashes, commits[n].commitHash);
      FlatMapAppend(EdgeList(commits[..n]), NodeEdgeList(commits[n]), RenderEdge);
    }
  }

  /** The number of non-empty parent hashes of the commits. */
  function NonEmptyParents(commits: seq<CommitNode>): nat
  {
    if |commits| == 0 then 0
    else
      var ps := commits[|commits| - 1].parentHashes;
      NonEmptyParents(commits[..|commits| - 1]) + (|ps| - multiset(ps)[""])
  }

  lemma {:induction false} NodeEdgeCount(parents: seq<string>, child: string)
    ensures |FlatMap(parents, ParentEdge(child))| == |parents| - multiset(parents)[""]
  {
    if |parents| > 0 {
      var n := |parents| - 1;
      var init, last := parents[..n], parents[n];
      NodeEdgeCount(init, child);
      assert |FlatMap(parents, ParentEdge(child))|
          == |FlatMap(init, ParentEdge(child))| + |ParentEdge(child)(last)|;
      assert multiset(parents) == multiset(init) + multiset{last} by {
        assert parents == init + [last];
      }
    }
  }

  /** There is exactly one edge per non-empty parent hash. */
  lemma {:induction false} EdgeCount(commits: seq<CommitNode>)
    ensures |EdgeList(commits)| == NonEmptyParents(commits)
  {
    if |commits| > 0 {
      var n := |commits| - 1;
      EdgeCount(commits[..n]);
      NodeEdgeCount(commits[n].parentHashes, commits[n].commitHash);
    }
  }

  /** The edges are exactly the pairs of a non-empty parent hash and the hash
      of a commit that lists it. */
  lemma {:induction false} EdgeListMembers(commits: seq<CommitNode>, e: Edge)
    ensures e in EdgeList(commits) <==>
      e.parent != "" &&
      exists i, j :: 0 <= i < |commits| && 0 <= j < |commits[i].parentHashes| &&
        commits[i].commitHash == e.child && commits[i].parentHashes[j] == e.parent
  {
    if |commits| > 0 {
      var n := |commits| - 1;
      EdgeListMembers(commits[..n], e);
      NodeEdgeListMembers(commits[n].parentHashes, commits[n].commitHash, e);
      assert EdgeList(commits) == EdgeList(commits[..n]) + NodeEdgeList(commits[n]);
      if e in EdgeList(commits) {
        if e in EdgeList(commits[..n]) {
          var i, j :| 0 <= i < n && 0 <= j < |commits[..n][i].parentHashes| &&
            commits[..n][i].commitHash == e.child && commits[..n][i].parentHashes[j] == e.parent;
          assert commits[..n][i] == commits[i];
        }
      } else if e.parent != "" {
        forall i, j | 0 <= i < |commits| && 0 <= j < |commits[i].parentHashes| &&
          commits[i].commitHash == e.child
          ensures commits[i].parentHashes[j] != e.parent
        {
          if i < n { assert commits[..n][i] == commits[i]; }
        }
      }
    }
  }

  lemma {:induction false} NodeEdgeListMembers(parents: seq<string>, child: string, e: Edge)
    ensures e in FlatMap(parents, ParentEdge(child)) <==>
      e.parent != "" && e.child == child && e.parent in parents
  {
    if |parents| > 0 {
      var n := |parents| - 1;
      NodeEdgeListMembers(parents[..n], child, e);
      assert parents == parents[..n] + [parents[n]];
    }
  }

  /** The edge line of every non-empty parent hash is in the diagram. */
  lemma ContainsEdge(commits: seq<CommitNode>, i: nat, j: nat)
    requires i < |commits| && j < |commits[i].parentHashes| && commits[i].parentHashes[j] != ""
    ensures IsInfix(commits[i].parentHashes[j] + " --> " + commits[i].commitHash + "\n", PlantUml(commits))
  {
    var e := Edge(commits[i].parentHashes[j], commits[i].commitHash);
    EdgeListMembers(commits, e);
    var edges := EdgeList(commits);
    var k :| 0 <= k < |edges| && edges[k] == e;
    EdgesRendered(commits);
    FlatMapAt(edges, RenderEdge, k);
    var x := RenderEdge(e);
    var a, b := FlatMap(edges[..k], RenderEdge), FlatMap(edges[k + 1..], RenderEdge);
    InfixSelf(x);
    InfixExtend(x, a, x, "");
    InfixExtend(x, "", a + x, b);
    InfixExtend(x, Header + Blocks(commits), Edges(commits), "");
    InfixExtend(x, "", Header + Blocks(commits) + Edges(commits), Footer);
  }

  /** A commit whose parent hashes are all empty (a root commit, whose parent
      field git leaves empty) contributes no edge line. */
  lemma {:induction false} EmptyParentsSkipped(parents: seq<string>, child: string)
    requires forall k :: 0 <= k < |parents| ==> parents[k] == ""
    ensures FlatMap(parents, ParentText(child)) == ""
  {
    if |parents| > 0 {
      EmptyParentsSkipped(parents[..|parents| - 1], child);
    }
  }

  /** When no hash holds a line break, the edge section has exactly one line
      per non-empty parent hash. */
  lemma EdgeLineCount(commits: seq<CommitNode>)
    requires forall e :: e in EdgeList(commits) ==> '\n' !in e.parent && '\n' !in e.child
    ensures multiset(Edges(commits))['\n'] == NonEmptyParents(commits)
  {
    EdgesRendered(commits);
    EdgeCount(commits);
    RenderedLineCount(EdgeList(commits));
  }

  lemma {:induction false} RenderedLineCount(edges: seq<Edge>)
    requires forall e :: e in edges ==> '\n' !in e.parent && '\n' !in e.child
    ensures multiset(FlatMap(edges, RenderEdge))['\n'] == |edges|
  {
    if |edges| > 0 {
      var n := |edges| - 1;
      RenderedLineCount(edges[..n]);
      EdgeLineBreaks(edges[n].parent, edges[n].child);
    }
  }

  lemma EdgeLineBreaks(parent: string, child: string)
    requires '\n' !in parent && '\n' !in child
    ensures multiset(EdgeLine(parent, child))['\n'] == 1
  {
    assert '\n' !in " --> ";
    assert multiset(" --> ")['\n'] == 0;
    assert multiset("\n")['\n'] == 1;
  }

  // ---------------------------------------------------------------------------
  // The generator's unit scenario

  /** Two commits, the second a child of the first: two blocks in order and
      the one edge from the first to the second. */
  lemma TwoCommitDiagram(first: string, second: string, m1: string, m2: string, f1: string, f2: string)
    requires first != ""
    ensures var c1, c2 := CommitNode(first, m1, [f1], []), CommitNode(second, m2, [f2], [first]);
      EdgeList([c1, c2]) == [Edge(first, second)] &&
      PlantUml([c1, c2]) == Header + ClassBlock(c1) + ClassBlock(c2) + EdgeLine(first, second) + Footer
  {
    var c1, c2 := CommitNode(first, m1, [f1], []), CommitNode(second, m2, [f2], [first]);
    var commits := [c1, c2];
    FlatMapSingle(first, ParentEdge(second));
    FlatMapSingle(first, ParentText(second));
    assert NodeEdgeList(c1) == [];
    assert NodeEdges(c1) == "";
    FlatMapPair(c1, c2, NodeEdgeList);
    FlatMapPair(c1, c2, NodeEdges);
    FlatMapPair(c1, c2, ClassBlock);
    Regroup(Header, ClassBlock(c1), ClassBlock(c2));
  }

  /** The block of a commit with one modified file. */
  lemma OneFileBlock(node: CommitNode)
    requires |node.modifiedFiles| == 1
    ensures ClassBlock(node)
         == "class " + node.commitHash + " {\n" + "  \"" + node.commitMessage + "\"\n"
            + "  " + node.modifiedFiles[0] + "\n" + "}\n"
  {
    assert node.modifiedFiles == [node.modifiedFiles[0]];
    FlatMapSingle(node.modifiedFiles[0], FileLine);
  }
}
