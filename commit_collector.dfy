/** The commit collector: parses the history listing of `git log --all
    --pretty=format:%H|%s|%P` line by line and completes every parsed line with
    the file list of `git diff-tree --no-commit-id --name-only -r <hash>`.
    The command runner is replaced by its output: the history listing is a
    sequence of lines, and the diff listing is a function from a hash to the
    lines printed for it. */
module CommitCollector {
  import opened Wrappers
  import opened Commits
  import opened JavaSplit

  /** Separator of the three fields of a history line. */
  const FieldSep: char := '|'
  /** Separator of the parent hashes in the third field. */
  const ParentSep: char := ' '

  /** The triple parsed from one history line. */
  datatype LogEntry = LogEntry(hash: string, message: string, parents: seq<string>)

  /** A history line without a field separator has no `parts[1]`: the
      collector fails there with an index-out-of-bounds error, reported here
      with the position of the offending line. */
  datatype ParseError = MissingMessageField(line: nat)

  /** One history line, split into at most three fields; the third field, when
      present, is split again into parent hashes. */
  function ParseLogLine(line: string): (r: Option<LogEntry>)
    ensures r.Some? <==> FieldSep in line
  {
    var parts := SplitLimit(line, FieldSep, 3);
    if |parts| < 2 then None
    else Some(LogEntry(parts[0], parts[1], if |parts| > 2 then Split(parts[2], ParentSep) else []))
  }

  /** The node the collector builds for a parsed line. */
  function NodeOf(e: LogEntry, diff: string -> seq<string>): CommitNode
  {
    CommitNode(e.hash, e.message, diff(e.hash), e.parents)
  }

  /** Every history line, parsed. */
  function ParsedLines(lines: seq<string>): (r: seq<Option<LogEntry>>)
    ensures |r| == |lines| && forall i :: 0 <= i < |lines| ==> r[i] == ParseLogLine(lines[i])
  {
    seq(|lines|, i requires 0 <= i < |lines| => ParseLogLine(lines[i]))
  }

  /** The collector's loop over parsed lines: the nodes of all entries in
      order, or the error of the first entry that failed to parse. */
  function CollectEntries(entries: seq<Option<LogEntry>>, diff: string -> seq<string>)
    : Result<seq<CommitNode>, ParseError>
  {
    if |entries| == 0 then Ok([])
    else
      match CollectEntries(entries[..|entries| - 1], diff)
      case Err(e) => Err(e)
      case Ok(nodes) =>
        match entries[|entries| - 1]
        case None => Err(MissingMessageField(|entries| - 1))
        case Some(e) => Ok(nodes + [NodeOf(e, diff)])
  }

  /** What the collector returns for the history lines `lines`. */
  function Collect(lines: seq<string>, diff: string -> seq<string>): Result<seq<CommitNode>, ParseError>
  {
    CollectEntries(ParsedLines(lines), diff)
  }

  /** The node of one commit: its modified files are exactly the diff lines,
      in order and with duplicates; hash, message and parents pass through. */
  method AnalyzeCommit(commitHash: string, commitMessage: string, parentHashes: seq<string>,
                       diffOutput: seq<string>)
    returns (node: CommitNode)
    ensures node.commitHash == commitHash && node.commitMessage == commitMessage
    ensures node.modifiedFiles == diffOutput && node.parentHashes == parentHashes
  {
    var modifiedFiles: seq<string> := [];
    var i := 0;
    while i < |diffOutput|
      invariant 0 <= i <= |diffOutput|
      invariant modifiedFiles == diffOutput[..i]
    {
      modifiedFiles := modifiedFiles + [diffOutput[i]];
      i := i + 1;
    }
    node := CommitNode(commitHash, commitMessage, modifiedFiles, parentHashes);
  }

  /** The collector loop: one node per history line, stopping at the first
      line that has no separator. */
  method CollectCommits(logOutput: seq<string>, diff: string -> seq<string>)
    returns (r: Result<seq<CommitNode>, ParseError>)
    ensures r == Collect(logOutput, diff)
  {
    ghost var entries := ParsedLines(logOutput);
    var commitNodes: seq<CommitNode> := [];
    var i := 0;
    while i < |logOutput|
      invariant 0 <= i <= |logOutput|
      invariant CollectEntries(entries[..i], diff) == Ok(commitNodes)
    {
      var line := logOutput[i];
      var entry := ParseLogLine(line);
      if entry.None? {
        CollectStopsAt(entries, i, commitNodes, diff);
        return Err(MissingMessageField(i));
      }
      var node := AnalyzeCommit(entry.value.hash, entry.value.message, entry.value.parents,
                                diff(entry.value.hash));
      CollectStepOk(entries, i, commitNodes, diff);
      commitNodes := commitNodes + [node];
      i := i + 1;
    }
    assert entries[..i] == entries;
    r := Ok(commitNodes);
  }

  // ---------------------------------------------------------------------------
  // Parsing one line

  /** The hash is the text before the first separator; the message is the text
      between the first and the second separator, or all the rest when there is
      no second one; the parents are the rest after the second separator split
      on spaces, and there are none without a second separator. */
  lemma ParseLogLineFields(line: string)
    requires FieldSep in line
    ensures var i := FirstIndex(line, FieldSep);
      var rest := line[i + 1..];
      var e := ParseLogLine(line).value;
      e.hash == line[..i] && FieldSep !in e.hash &&
      (FieldSep !in rest ==> e.message == rest && e.parents == []) &&
      (FieldSep in rest ==>
        var j := FirstIndex(rest, FieldSep);
        e.message == rest[..j] && e.parents == Split(rest[j + 1..], ParentSep))
  {
  }

  /** A line `hash|message|parents` with separator-free hash and message. */
  lemma ParseWithParentField(hash: string, message: string, parentField: string)
    requires FieldSep !in hash && FieldSep !in message
    ensures ParseLogLine(hash + "|" + message + "|" + parentField)
         == Some(LogEntry(hash, message, Split(parentField, ParentSep)))
  {
    var line := hash + "|" + message + "|" + parentField;
    assert line == hash + [FieldSep] + (message + [FieldSep] + parentField);
    SplitLimitCons(hash, FieldSep, message + [FieldSep] + parentField, 3);
    SplitLimitCons(message, FieldSep, parentField, 2);
  }

  /** A line `hash|message`, with no parent field, has no parents. */
  lemma ParseWithoutParentField(hash: string, message: string)
    requires FieldSep !in hash && FieldSep !in message
    ensures ParseLogLine(hash + "|" + message) == Some(LogEntry(hash, message, []))
  {
    SplitLimitCons(hash, FieldSep, message, 3);
    SplitLimitNoSep(message, FieldSep, 2);
  }

  /** The line git prints for a commit: the parent hashes, non-empty and free
      of spaces, come back in order; a root commit has an empty parent field,
      which parses as the one empty parent `[""]`. */
  lemma ParseGitRecord(hash: string, message: string, parents: seq<string>)
    requires FieldSep !in hash && FieldSep !in message
    requires forall k :: 0 <= k < |parents| ==> ParentSep !in parents[k] && parents[k] != ""
    ensures ParseLogLine(hash + "|" + message + "|" + Join(parents, ParentSep))
         == Some(LogEntry(hash, message, if parents == [] then [""] else parents))
  {
    ParseWithParentField(hash, message, Join(parents, ParentSep));
    if parents != [] {
      SplitJoin(parents, ParentSep);
    }
  }

  /** A subject containing the separator shifts the fields: the limit of three
      parts cuts the message at its first separator and the remainder of the
      message becomes part of the parent field. */
  lemma MessageWithSeparator()
    ensures ParseLogLine("abc|fix a|b|def") == Some(LogEntry("abc", "fix a", ["b|def"]))
  {
    assert "abc" + "|" + "fix a" + "|" + "b|def" == "abc|fix a|b|def";
    assert ParentSep !in "b|def";
    ParseWithParentField("abc", "fix a", "b|def");
  }

  /** With a separator in the subject, the words of the subject after it
      become parent hashes, and its last word absorbs the first real parent:
      subject `message|w1 w2` with parents `p1 p2` gives the parents `w1`,
      `w2|p1` and `p2`. */
  lemma SubjectWordsBecomeParents(hash: string, message: string, w1: string, w2: string,
                                  p1: string, p2: string)
    requires FieldSep !in hash && FieldSep !in message
    requires w1 != "" && w2 != "" && p1 != "" && p2 != ""
    requires ParentSep !in w1 && ParentSep !in w2 && ParentSep !in p1 && ParentSep !in p2
    ensures ParseLogLine(hash + "|" + message + "|" + w1 + " " + w2 + "|" + p1 + " " + p2)
         == Some(LogEntry(hash, message, [w1, w2 + "|" + p1, p2]))
  {
    var field := w1 + " " + w2 + "|" + p1 + " " + p2;
    var pre := hash + "|" + message + "|";
    Assoc(pre, w1 + " " + w2 + "|" + p1 + " ", p2);
    Assoc(pre, w1 + " " + w2 + "|" + p1, " ");
    Assoc(pre, w1 + " " + w2 + "|", p1);
    Assoc(pre, w1 + " " + w2, "|");
    Assoc(pre, w1 + " ", w2);
    Assoc(pre, w1, " ");
    ParseWithParentField(hash, message, field);
    ThreeParents(w1, w2 + "|" + p1, p2);
    Assoc(w1 + " ", w2 + "|", p1);
    Assoc(w1 + " ", w2, "|");
  }

  /** Three non-empty space-free words joined by spaces split back into them. */
  lemma ThreeParents(a: string, b: string, c: string)
    requires a != "" && b != "" && c != ""
    requires ParentSep !in a && ParentSep !in b && ParentSep !in c
    ensures Split(a + " " + b + " " + c, ParentSep) == [a, b, c]
  {
    JoinCons(b, [c], ParentSep);
    assert [b] + [c] == [b, c];
    JoinCons(a, [b, c], ParentSep);
    assert [a] + [b, c] == [a, b, c];
    Assoc(a + " ", b + " ", c);
    Assoc(a + " ", b, " ");
    var parts := [a, b, c];
    assert forall k :: 0 <= k < |parts| ==> ParentSep !in parts[k] && parts[k] != "";
    SplitJoin(parts, ParentSep);
  }

  /** One regrouping of a concatenation. */
  lemma Assoc(a: string, b: string, c: string)
    ensures a + (b + c) == a + b + c
  {
  }

  /** Nothing requires the hash field to be non-empty. */
  lemma EmptyHashAccepted()
    ensures ParseLogLine("|msg") == Some(LogEntry("", "msg", []))
  {
    ParseWithoutParentField("", "msg");
    assert "" + "|" + "msg" == "|msg";
  }

  // ---------------------------------------------------------------------------
  // The collector

  /** Once a prefix of the entries fails, all of them fail the same way. */
  lemma {:induction false} CollectErrPersists(entries: seq<Option<LogEntry>>, k: nat,
                                              diff: string -> seq<string>)
    requires k <= |entries|
    requires CollectEntries(entries[..k], diff).Err?
    ensures CollectEntries(entries, diff) == CollectEntries(entries[..k], diff)
    decreases |entries| - k
  {
    if k < |entries| {
      assert entries[..k + 1][..k] == entries[..k];
      CollectErrPersists(entries, k + 1, diff);
    } else {
      assert entries[..k] == entries;
    }
  }

  /** One more parsed entry appends its node. */
  lemma CollectStepOk(entries: seq<Option<LogEntry>>, i: nat, nodes: seq<CommitNode>,
                      diff: string -> seq<string>)
    requires i < |entries| && entries[i].Some?
    requires CollectEntries(entries[..i], diff) == Ok(nodes)
    ensures CollectEntries(entries[..i + 1], diff) == Ok(nodes + [NodeOf(entries[i].value, diff)])
  {
    assert entries[..i + 1][..i] == entries[..i];
  }

  /** A failed entry after a successful prefix is the collection's error. */
  lemma CollectStopsAt(entries: seq<Option<LogEntry>>, i: nat, nodes: seq<CommitNode>,
                       diff: string -> seq<string>)
    requires i < |entries| && entries[i].None?
    requires CollectEntries(entries[..i], diff) == Ok(nodes)
    ensures CollectEntries(entries, diff) == Err(MissingMessageField(i))
  {
    assert entries[..i + 1][..i] == entries[..i];
    CollectErrPersists(entries, i + 1, diff);
  }

  /** When every entry parsed, there is one node per entry, in order. */
  lemma {:induction false} CollectEntriesAllParsed(entries: seq<Option<LogEntry>>,
                                                   diff: string -> seq<string>)
    requires forall i :: 0 <= i < |entries| ==> entries[i].Some?
    ensures CollectEntries(entries, diff).Ok?
    ensures |CollectEntries(entries, diff).value| == |entries|
    ensures forall i :: 0 <= i < |entries| ==>
      CollectEntries(entries, diff).value[i] == NodeOf(entries[i].value, diff)
  {
    if |entries| > 0 {
      CollectEntriesAllParsed(entries[..|entries| - 1], diff);
    }
  }

  /** A successful collection had every entry parsed. */
  lemma {:induction false} CollectEntriesOk(entries: seq<Option<LogEntry>>, diff: string -> seq<string>)
    requires CollectEntries(entries, diff).Ok?
    ensures forall i :: 0 <= i < |entries| ==> entries[i].Some?
  {
    if |entries| > 0 {
      var n := |entries| - 1;
      CollectEntriesOk(entries[..n], diff);
      assert forall j :: 0 <= j < n ==> entries[..n][j] == entries[j];
    }
  }

  /** A failed collection names the first entry that did not parse. */
  lemma {:induction false} CollectEntriesErr(entries: seq<Option<LogEntry>>, diff: string -> seq<string>)
    requires CollectEntries(entries, diff).Err?
    ensures var k := CollectEntries(entries, diff).error.line;
      k < |entries| && entries[k].None? && forall j :: 0 <= j < k ==> entries[j].Some?
  {
    var n := |entries| - 1;
    var init := entries[..n];
    assert forall j :: 0 <= j < n ==> init[j] == entries[j];
    if CollectEntries(init, diff).Err? {
      CollectEntriesErr(init, diff);
    } else {
      CollectEntriesOk(init, diff);
    }
  }

  /** When every line has a separator, the collector returns exactly one node
      per line, in input order, each the node of its own line. */
  lemma CollectAllWellFormed(lines: seq<string>, diff: string -> seq<string>)
    requires forall i :: 0 <= i < |lines| ==> FieldSep in lines[i]
    ensures Collect(lines, diff).Ok?
    ensures |Collect(lines, diff).value| == |lines|
    ensures forall i :: 0 <= i < |lines| ==>
      Collect(lines, diff).value[i] == NodeOf(ParseLogLine(lines[i]).value, diff)
  {
    CollectEntriesAllParsed(ParsedLines(lines), diff);
  }

  /** Only a history whose every line has a separator is collected. */
  lemma CollectOkWellFormed(lines: seq<string>, diff: string -> seq<string>)
    requires Collect(lines, diff).Ok?
    ensures forall i :: 0 <= i < |lines| ==> FieldSep in lines[i]
  {
    var entries := ParsedLines(lines);
    CollectEntriesOk(entries, diff);
    forall i | 0 <= i < |lines| ensures FieldSep in lines[i] {
      assert entries[i].Some?;
    }
  }

  /** A failed collection names the first line that has no separator: the
      error of the index-out-of-bounds access on that line. */
  lemma CollectFailsAtFirstMalformed(lines: seq<string>, diff: string -> seq<string>)
    requires Collect(lines, diff).Err?
    ensures var k := Collect(lines, diff).error.line;
      k < |lines| && FieldSep !in lines[k] &&
      forall j :: 0 <= j < k ==> FieldSep in lines[j]
  {
    var entries := ParsedLines(lines);
    CollectEntriesErr(entries, diff);
    var k := Collect(lines, diff).error.line;
    assert entries[k].None?;
    forall j | 0 <= j < k ensures FieldSep in lines[j] {
      assert entries[j].Some?;
    }
  }

  /** The two-line history of the collector's unit scenario, with any hashes
      and messages: a line with a parent and a line without a parent field
      give two nodes, in order, the first with that one parent and the second
      with none. */
  lemma CollectTwoCommits(first: string, second: string, m1: string, m2: string,
                          diff: string -> seq<string>)
    requires FieldSep !in first && FieldSep !in second && ParentSep !in second && second != ""
    requires FieldSep !in m1 && FieldSep !in m2
    ensures Collect([first + "|" + m1 + "|" + second, second + "|" + m2], diff)
         == Ok([CommitNode(first, m1, diff(first), [second]),
                CommitNode(second, m2, diff(second), [])])
  {
    var lines := [first + "|" + m1 + "|" + second, second + "|" + m2];
    ParseGitRecord(first, m1, [second]);
    assert Join([second], ParentSep) == second;
    ParseWithoutParentField(second, m2);
    CollectTwoParsed(lines, LogEntry(first, m1, [second]), LogEntry(second, m2, []), diff);
  }

  /** Two lines that both parse give their two nodes, in order. */
  lemma CollectTwoParsed(lines: seq<string>, e0: LogEntry, e1: LogEntry, diff: string -> seq<string>)
    requires |lines| == 2
    requires ParseLogLine(lines[0]) == Some(e0) && ParseLogLine(lines[1]) == Some(e1)
    ensures Collect(lines, diff) == Ok([NodeOf(e0, diff), NodeOf(e1, diff)])
  {
    var entries := [Some(e0), Some(e1)];
    assert ParsedLines(lines) == entries;
    CollectEntriesAllParsed(entries, diff);
    var nodes := CollectEntries(entries, diff).value;
    assert nodes == [NodeOf(e0, diff), NodeOf(e1, diff)];
  }
}
