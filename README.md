# ConfHW2 commit graph visualizer: a Dafny model of its core

The visualizer reads a repository's history from `git log --all
--pretty=format:%H|%s|%P`. For each commit it asks `git diff-tree
--no-commit-id --name-only -r <hash>` for the files the commit touched, and
builds one `CommitNode` (hash, message, modified files, parent hashes) per
history line. It then renders the nodes as PlantUML source text:
- a `@startuml` header;
- one `class <hash> { ... }` block per commit holding its quoted message and
  one line per file;
- one `<parent> --> <child>` line per non-empty parent hash;
- an `@enduml` footer.

This project models that core:

- `wrappers.dfy` (`Wrappers`): `Option` and `Result`.
- `commit_node.dfy` (`Commits`): the immutable `CommitNode` record as a
  datatype. Its constructor is the all-arguments constructor and its
  destructors are the getters.
- `java_split.dfy` (`JavaSplit`): `java.lang.String.split` for a pattern
  that matches one literal character, as the collector uses it.
  - `SplitLimit` is `split("\\|", 3)`: at most `limit - 1` splits, the rest
    kept whole, empty parts kept.
  - `Split` is `split(" ")`: split everywhere and drop trailing empty
    parts, but an input without the separator comes back whole, so `""`
    gives `[""]` and `" "` gives `[]`.
- `commit_collector.dfy` (`CommitCollector`): `analyzeCommit` and
  `collectCommits` as methods with the source's loops. `CollectCommits` is
  proved equal to `Collect`, which parses each line with `ParseLogLine`;
  `AnalyzeCommit` returns the diff lines unchanged as its files.
- `plantuml_generator.dfy` (`PlantUmlGenerator`): `generatePlantUmlSource`
  as a method with the source's nested loops and its single accumulator,
  proved equal to the function `PlantUml`, plus an edge-list view of the
  graph.

The external commands become inputs. The output of `git log` is a
`seq<string>` of lines. `git diff-tree` is a function from a commit hash to
its output lines. Output that ends without a final line break gives the same
lines as output that ends with one, as in `BufferedReader.readLine`.

A history line without `|` has no `parts[1]`, so Java throws
`ArrayIndexOutOfBoundsException` and returns no list. The model returns
`Err(MissingMessageField(i))`, where `i` is the index of the first line without `|`. The nodes collected
before it are discarded, as the exception discards them.

Behaviour of the code worth knowing:
- **Empty hash.** Nothing checks field 0, so an empty hash is accepted
  (`"|msg"` parses, see `EmptyHashAccepted`).
- **Root commits.** The unit test at DependencyGraphVisualizerTest.java:28
  feeds `def456|Second commit`, with no third field, and expects no parents
  (:55). But `%H|%s|%P` always prints the third field, so a root commit's
  line is `hash|message|`, and `"".split(" ")` is `[""]`: such a node gets
  one empty parent hash (`ParseGitRecord`). The generator skips it
  (`EmptyParentsSkipped`).
- **Empty parents only.** The generator tests `isEmpty()`, so only `""` is
  skipped, not a blank hash. A parent made only of spaces cannot come out
  of `split(" ")`.
- **`|` in a subject.** The message field ends at the subject's first `|`.
  `split("\\|", 3)` keeps everything after it whole as the third field: the
  rest of the subject, a `|`, then git's real parent list. That field is then
  split on spaces, so each word of the subject's rest becomes a parent hash.
  The last such word absorbs the first real parent, and every piece yields
  an edge line. For example, `h|fix a|b c|p1 p2` gives the message `fix a` and
  the parents `b`, `c|p1`, `p2` (`SubjectWordsBecomeParents`), and
  `abc|fix a|b|def` gives the single parent `b|def` (`MessageWithSeparator`).

## Model

| member | source | states |
|---|---|---|
| JavaSplit.SplitLimit | src/main/java/example/DependencyGraphVisualizer.java:66 | `split(sep, limit)` yields between 1 and `limit` parts. |
| JavaSplit.SplitLimitJoin | src/main/java/example/DependencyGraphVisualizer.java:66 | Joining the parts of `split(sep, limit)` with the separator gives back the input: nothing is lost or reordered. |
| JavaSplit.SplitLimitParts | src/main/java/example/DependencyGraphVisualizer.java:66 | No part but the last contains the separator. The last contains none either when fewer than `limit` parts came out. |
| JavaSplit.SplitLimitCons | src/main/java/example/DependencyGraphVisualizer.java:66 | A separator-free head followed by the separator is split off as the first part, and the rest is split with one part less. |
| JavaSplit.SplitLimitNoSep | src/main/java/example/DependencyGraphVisualizer.java:66 | Without the separator the input is the only part. |
| JavaSplit.Split | src/main/java/example/DependencyGraphVisualizer.java:69 | `split(" ")`: an input without a space comes back whole; no part holds a space; when a space occurs, the result is empty or ends in a non-empty part. Its full value is given by SplitCharacterization, its inverse by SplitJoin, and its edge cases by the lemmas below. |
| JavaSplit.DropTrailingEmpty | src/main/java/example/DependencyGraphVisualizer.java:69 | The result is a prefix of the parts that does not end in an empty part, and everything dropped is empty. |
| JavaSplit.JoinSplitAll | src/main/java/example/DependencyGraphVisualizer.java:69 | Splitting at every separator loses nothing: the parts rejoin to the input. |
| JavaSplit.SplitAllJoin | src/main/java/example/DependencyGraphVisualizer.java:69 | Splitting at every separator inverts joining, for separator-free parts (empty parts included). |
| JavaSplit.SplitAllNoSepInParts | src/main/java/example/DependencyGraphVisualizer.java:69 | No part of splitting at every separator contains the separator. |
| JavaSplit.SplitCharacterization | src/main/java/example/DependencyGraphVisualizer.java:69 | `split(" ")` returns the input whole when it has no space. Otherwise it returns the every-occurrence split minus its trailing empty parts, which are all dropped, and its parts are space-free. |
| JavaSplit.SplitJoin | src/main/java/example/DependencyGraphVisualizer.java:69 | Round trip: non-empty space-free parents joined by spaces and split again give the same list, in order and with duplicates. |
| JavaSplit.SplitEmpty | src/main/java/example/DependencyGraphVisualizer.java:69 | `"".split(" ")` is `[""]`. |
| JavaSplit.SplitLoneSeparator | src/main/java/example/DependencyGraphVisualizer.java:69 | `" ".split(" ")` is `[]`. |
| JavaSplit.SplitTwoParts | src/main/java/example/DependencyGraphVisualizer.java:69 | Two parents separated by one space give the two of them. |
| JavaSplit.SplitDoubledSeparator | src/main/java/example/DependencyGraphVisualizer.java:69 | A doubled space gives an empty parent hash between the two. |
| JavaSplit.SplitTrailingSeparator | src/main/java/example/DependencyGraphVisualizer.java:69 | A trailing space adds no part. |
| CommitCollector.ParseLogLine | src/main/java/example/DependencyGraphVisualizer.java:66-69 | A line yields an entry exactly when it holds a `\|`. Without one, `parts[1]` does not exist. |
| CommitCollector.ParseLogLineFields | src/main/java/example/DependencyGraphVisualizer.java:66-69 | The hash is the text before the first `\|`. With a second `\|`, the message lies between the two and the parents are the rest split on spaces. Without one, the message is all the rest and there are no parents. |
| CommitCollector.ParseWithParentField | src/main/java/example/DependencyGraphVisualizer.java:66-69 | `hash\|message\|field` gives that hash and message and `field.split(" ")` as parents. |
| CommitCollector.ParseWithoutParentField | src/main/java/example/DependencyGraphVisualizer.java:66-69 | `hash\|message` gives an empty parent list. |
| CommitCollector.ParseGitRecord | src/main/java/example/DependencyGraphVisualizer.java:61-69 | For a subject without `\|`, the line git prints for a commit parses back to its hash, message and parents. A root commit gets the single parent `""`. |
| CommitCollector.MessageWithSeparator | src/main/java/example/DependencyGraphVisualizer.java:66-69 | On `abc\|fix a\|b\|def` the message is cut at the subject's `\|`. The rest of the subject, the `\|` and the real parent `def` form the one parent hash `b\|def`. |
| CommitCollector.SubjectWordsBecomeParents | src/main/java/example/DependencyGraphVisualizer.java:66-69 | For a subject `message\|w1 w2` and parents `p1 p2`, the parents are `w1`, `w2\|p1` and `p2`: each word after the subject's `\|` becomes a parent, and the last absorbs the first real parent. |
| CommitCollector.EmptyHashAccepted | src/main/java/example/DependencyGraphVisualizer.java:66-67 | An empty hash field is accepted as the hash. |
| CommitCollector.AnalyzeCommit | src/main/java/example/DependencyGraphVisualizer.java:85-102 | The node keeps hash, message and parents as given. Its modified files are exactly the diff lines, in order and with duplicates. |
| CommitCollector.CollectCommits | src/main/java/example/DependencyGraphVisualizer.java:59-82 | The loop returns exactly `Collect` of the history lines: the node of every line in order, or the error of the first line without `\|`. |
| CommitCollector.CollectStepOk | src/main/java/example/DependencyGraphVisualizer.java:65-73 | One more parsed line appends its node to the collected list. |
| CommitCollector.CollectStopsAt | src/main/java/example/DependencyGraphVisualizer.java:66-68 | A line without `\|` after successfully parsed lines is the error of the whole collection. |
| CommitCollector.CollectErrPersists | src/main/java/example/DependencyGraphVisualizer.java:65-73 | Once a prefix of the history fails, the whole history fails with the same error. |
| CommitCollector.CollectEntriesAllParsed | src/main/java/example/DependencyGraphVisualizer.java:65-73 | When every entry parsed, the result has one node per entry, and node `i` is built from entry `i`. |
| CommitCollector.CollectEntriesOk | src/main/java/example/DependencyGraphVisualizer.java:65-73 | A successful collection had every entry parsed. |
| CommitCollector.CollectEntriesErr | src/main/java/example/DependencyGraphVisualizer.java:65-73 | A failed collection names an entry that did not parse, and every entry before it parsed. |
| CommitCollector.CollectAllWellFormed | src/main/java/example/DependencyGraphVisualizer.java:59-82 | For N lines that all hold `\|` the result is N nodes in input order, node `i` built from line `i` and its diff. |
| CommitCollector.CollectOkWellFormed | src/main/java/example/DependencyGraphVisualizer.java:59-82 | Only a history whose every line holds `\|` is collected. |
| CommitCollector.CollectFailsAtFirstMalformed | src/main/java/example/DependencyGraphVisualizer.java:59-82 | A failure names the first line without `\|`: that line has none, and every earlier line has one. |
| CommitCollector.CollectTwoCommits | src/test/java/example/DependencyGraphVisualizerTest.java:23-55 | Two lines, the first with one parent and the second without a parent field, give two nodes in order. The first has that parent and the second none, each with its own diff lines as files. |
| CommitCollector.CollectTwoParsed | src/main/java/example/DependencyGraphVisualizer.java:65-73 | Two lines that both parse give their two nodes, in order. |
| PlantUmlGenerator.GeneratePlantUmlSource | src/main/java/example/DependencyGraphVisualizer.java:104-130 | The accumulated text equals `PlantUml`: header, every class block in list order, every edge line, footer. |
| PlantUmlGenerator.Markers | src/main/java/example/DependencyGraphVisualizer.java:106-128 | The text starts with `@startuml\n` and ends with `@enduml\n`. |
| PlantUmlGenerator.NoCommits | src/main/java/example/DependencyGraphVisualizer.java:104-130 | No commits give exactly `@startuml\n@enduml\n`. |
| PlantUmlGenerator.BlockAt | src/main/java/example/DependencyGraphVisualizer.java:108-115 | Commit `i`'s block sits after the blocks of the commits before it, before those after it, and before all edge lines. |
| PlantUmlGenerator.BlocksInOrder | src/main/java/example/DependencyGraphVisualizer.java:108-115 | For `i < j`, commit `i`'s block comes before commit `j`'s. |
| PlantUmlGenerator.FileLineAt | src/main/java/example/DependencyGraphVisualizer.java:109-114 | Inside a block, file `k`'s line follows the class and message lines and the files before it, and precedes the later files and the closing brace. |
| PlantUmlGenerator.OneFileBlock | src/main/java/example/DependencyGraphVisualizer.java:109-114 | The block of a one-file commit is literally `class <hash> {`, the quoted message, the indented file and `}`, one per line. |
| PlantUmlGenerator.ContainsClassHeader | src/main/java/example/DependencyGraphVisualizer.java:109 | Every commit's `class <hash> {` line occurs in the text. |
| PlantUmlGenerator.EdgesRendered | src/main/java/example/DependencyGraphVisualizer.java:117-126 | The edge section is one edge line per element of `EdgeList`, in order, and nothing else. |
| PlantUmlGenerator.NodeEdgesRendered | src/main/java/example/DependencyGraphVisualizer.java:118-125 | One commit's edge lines are the rendering of its edges, in parent order. |
| PlantUmlGenerator.EdgeListMembers | src/main/java/example/DependencyGraphVisualizer.java:117-126 | An edge is listed if and only if its parent is non-empty and is a parent hash of a commit with the edge's child hash. |
| PlantUmlGenerator.NodeEdgeListMembers | src/main/java/example/DependencyGraphVisualizer.java:118-125 | One commit's edges are exactly its non-empty parents paired with its hash. |
| PlantUmlGenerator.EdgeCount | src/main/java/example/DependencyGraphVisualizer.java:117-126 | There is exactly one edge per non-empty parent hash, duplicates counted. |
| PlantUmlGenerator.NodeEdgeCount | src/main/java/example/DependencyGraphVisualizer.java:118-125 | One commit has as many edges as it has parent hashes other than `""`. |
| PlantUmlGenerator.ContainsEdge | src/main/java/example/DependencyGraphVisualizer.java:117-126 | For every non-empty parent hash, `<parent> --> <child>` followed by a line break occurs in the text. |
| PlantUmlGenerator.EmptyParentsSkipped | src/main/java/example/DependencyGraphVisualizer.java:119 | A commit whose parent hashes are all `""`, as a parsed root commit's are, contributes no edge text. |
| PlantUmlGenerator.EdgeLineCount | src/main/java/example/DependencyGraphVisualizer.java:117-126 | When no hash holds a line break, the edge section has exactly as many lines as there are non-empty parent hashes. |
| PlantUmlGenerator.RenderedLineCount | src/main/java/example/DependencyGraphVisualizer.java:120-123 | Rendering line-break-free edges gives one line break per edge. |
| PlantUmlGenerator.EdgeLineBreaks | src/main/java/example/DependencyGraphVisualizer.java:120-123 | One edge line holds exactly one line break. |
| PlantUmlGenerator.TwoCommitDiagram | src/test/java/example/DependencyGraphVisualizerTest.java:80-90 | A root commit and its child give the root's block, the child's block, the one edge `<root> --> <child>` and the footer, in that order. The root's empty parent list gives no edge. |

## Left out

- `generateDependencyGraph` (DependencyGraphVisualizer.java:40-56) is not part of this model. It writes the text to a temporary file and runs the PlantUML renderer, which is file-system and process I/O.
- `Main` and `ProcessExecutorImpl` are not part of this model. They handle argument checking and launching processes.
- Byte decoding and line reading (`InputStreamReader`, `BufferedReader.readLine`) are left out. Command output is modelled as its sequence of lines.
- Subprocess exit codes and the warnings printed to standard error are left out. They never change the returned value.
- `IOException` and `InterruptedException` from launching or reading a process are left out. The model has no I/O that could fail.
- The order and number of the calls to the diff command are not modelled: `diff` is a pure function of the hash.
- Commits.CommitNode: the modified files and parent hashes are value sequences. In Java the getters return the mutable `ArrayList` (DependencyGraphVisualizer.java:86) and the `Arrays.asList` view (:69), so a caller could change a node's lists after construction. The core never does, and the model does not capture that aliasing.
- Java `null` is not modelled: strings and sequences here cannot be null. `generatePlantUmlSource` is public and accepts hand-built nodes. There, `StringBuilder.append` writes a null hash or message as `null` (DependencyGraphVisualizer.java:109-110). A null file list or parent list throws `NullPointerException` at :111 or :118, and so does a null parent hash at `isEmpty()` (:119). The collector never builds such nodes.
- CollectCommits: the Java exception becomes an error value, `Err(MissingMessageField(i))`. No partial list escapes, as in Java.
