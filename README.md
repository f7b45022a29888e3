# City connections

A model of a small Rust program that reads a file in two sections:

1. connection lines, each naming two cities joined by an undirected road;
2. after the first line that gives no pair (a blank line), request lines, each
   naming two cities.

For each request it prints whether a chain of one or more roads joins the two
cities. The model covers the whole program logic in `src/main.rs`:

- `lines.dfy`, module `LineParser`: `parse_line`. A line shorter than two
  bytes gives no pair. Any other line is trimmed of Unicode whitespace and
  split on single spaces, and its first two pieces are the pair. A trimmed
  line without a space has no second piece, and indexing it panics. The model
  keeps that panic as the result `Panic`.
- `graph.dfy`, module `Graph`: the edge list (`ConnectionList`) and the
  neighbour list that the search builds from it. It also defines what a query
  means: `Reachable`, a walk of one or more edges, each usable in either
  direction.
- `search.dfy`, module `Search`: the recursive depth-first search
  `is_connected`. The caller's visit map is a class `VisitMap` whose key set
  the search updates in place. The search is proved to answer `true` exactly
  when `Reachable` holds, when it starts from an empty map as `main` does.
- `reader.dfy`, module `Reader`: the two-phase loop of `main` (`ReaderState`).
  It is written as an imperative loop (`ReadAll`) and proved equal to a left
  fold (`Replay`) of one step per parsed line. Lemmas about the fold state the
  behaviour of each section.

The following facts follow the code as written:

- A line of two or more bytes with no space after trimming makes the program
  panic. Such a line neither ends the first section nor is skipped.
- A query from a city to itself is not answered `true` outright. It is
  answered `true` exactly when the city lies on some edge: the walk goes out
  along that edge and comes back.

## Model

| member | source | states |
|---|---|---|
| LineParser.TrimRemovesOuterWhitespace | src/main.rs:19 | `s.trim()` gives a slice of the line surrounded only by whitespace, and it neither starts nor ends with whitespace |
| LineParser.TrimStartFromSkipsWhitespace | src/main.rs:19 | the start cut of `trim` passes over whitespace only and stops at the first non-whitespace character or the end |
| LineParser.TrimEndFromSkipsWhitespace | src/main.rs:19 | the end cut of `trim` passes over whitespace only and stops after the last non-whitespace character |
| LineParser.SplitCount | src/main.rs:19 | `split(" ")` yields a second piece exactly when the string holds a space |
| LineParser.JoinSplit | src/main.rs:19 | splitting on single spaces loses nothing: the pieces rejoined with spaces give the string back |
| LineParser.SplitPiecesHaveNoSpace | src/main.rs:19 | no piece of `split(" ")` contains a space |
| LineParser.SplitGivesFirstTwoFields | src/main.rs:19-21 | `parts[0]` and `parts[1]` are the text before the first space and the text between it and the next space or the end |
| LineParser.FirstTwoFieldsUnique | src/main.rs:19-21 | the two fields that `parts[0]` and `parts[1]` pick out are determined by the trimmed line |
| LineParser.ShortIff | src/main.rs:14-16 | `s.len() < 2` counts UTF-8 bytes: it holds exactly for the empty line and for a single ASCII character |
| LineParser.ParseLineCases | src/main.rs:13-25 | `parse_line` returns `None` exactly when the line is under two bytes, and panics exactly when the trimmed line (two bytes or more) has no space. Otherwise it returns the first two space-separated fields of the trimmed line, the first of them non-empty |
| LineParser.ParseWrittenLine | src/main.rs:13-25 | a line `l r\n` written from two whitespace-free names parses back to `(l, r)` |
| Graph.Neighbours | src/main.rs:34-38 | the neighbour list has at most one entry per edge, and every entry is a city of the edge list |
| Graph.NeighboursIff | src/main.rs:34-38 | a city is in the neighbour list of `src` exactly when some edge joins the two, written either way round |
| Graph.NeighboursAppend | src/main.rs:34-38 | the neighbour list follows edge order: the edges of a concatenation contribute in turn, and duplicate edges give duplicate entries |
| Graph.NeighboursOfOneEdge | src/main.rs:36-37 | one edge `(a, b)` contributes `b` when `a` is the city, `a` when only `b` is, the city itself for a self-loop, and nothing otherwise |
| Graph.AdjacentReachable | src/main.rs:50 | a neighbour equal to the target is a walk of one edge |
| Graph.ReachablePrepend | src/main.rs:50 | a walk found from a neighbour extends to a walk from `src` |
| Graph.ReachableTransitive | src/main.rs:27-56 | walks compose: what is reachable from a reachable city is reachable |
| Graph.ReachableSymmetric | src/main.rs:36-37 | the filter matches either end of an edge, so a connection answer is the same both ways round |
| Graph.ReachableEndsInCities | src/main.rs:34-38 | both ends of a walk are named by some edge; a city on no edge reaches nothing |
| Graph.SelfReachable | src/main.rs:34-55 | a city reaches itself exactly when some edge mentions it |
| Graph.WalkStaysInside | src/main.rs:40-55 | a walk whose first step lands in a set closed under taking neighbours stays in that set |
| Graph.ClosedSetBlocksWalks | src/main.rs:40-55 | a set holding all neighbours of `src` and of its own members, without the target, rules out every walk to the target |
| Graph.SelfQueries | src/main.rs:84 | with the single edge `(A, B)`, `A` to `A` is connected and `C` to `C` is not |
| Search.VisitMap.constructor | src/main.rs:84 | `HashMap::new()` starts with no visited city |
| Search.IsConnected | src/main.rs:27-56 | the visit map only grows, and only by cities of the edge list, which bounds the recursion. `true` comes with a walk to the target, which is then in the map. `false` leaves every neighbour of `src`, and of every city this call added, in the map, and the target not added by this call |
| Search.Query | src/main.rs:84-88 | a search from an empty visit map answers `connected` exactly when a walk of one or more edges joins the two cities |
| Reader.ParseAllAt | src/main.rs:72 | each line of the file is parsed on its own, by `parse_line` |
| Reader.Advance | src/main.rs:71-94 | one pass of the loop body is the step of the fold: in `Connection` a pair is pushed and a missing pair switches to `Request`; in `Request` a pair gets one answer from a fresh query and a missing pair is skipped; a panic stops the run |
| Reader.ReadAll | src/main.rs:61-96 | the loop over all lines ends in the state the fold gives for the parsed file, and stops at the first panic |
| Reader.PanicIsFinal | src/main.rs:19-21 | after a panic of `parse_line`, no later line changes anything |
| Reader.RequestIsFinal | src/main.rs:79-94 | once in `Request`, the state never returns to `Connection`, the edge list is never changed, and the answers only grow |
| Reader.ReplayConnections | src/main.rs:72-77 | from the start, lines that each give a pair stay in `Connection`. They push exactly their pairs, in order, and print no answer |
| Reader.ReplayRequests | src/main.rs:82-93 | in `Request`, lines that do not panic leave the edges alone. They add one answer per pair, in input order, and none for a line without a pair |
| Reader.ReplaySections | src/main.rs:61-96 | a file of connection lines, one line without a pair, then request lines ends in `Request`. Its edge list is the connection pairs in order, and each request pair gets exactly one answer, in order |
| Reader.SampleInput | src/main.rs:61-96 | the file `a b`, `b c`, blank, `a c`, `a d` (with `d` on no edge) gives edges `[(a,b),(b,c)]`, `a c` connected and `a d` not connected |
| Reader.SampleLines | src/main.rs:13-25 | the lines of that file parse to two pairs, no pair, and two pairs |
| Reader.SampleReplay | src/main.rs:64-94 | replaying those parsed lines gives the edges and the two answers above |
| Reader.SampleAnswers | src/main.rs:84-90 | with edges `(a,b)` and `(b,c)`, `a c` is connected through `b` and `a d` is not |

## Left out

- Opening `cities.txt`, `read_line` and its I/O and UTF-8 errors, and the `?` that returns them. `ReadAll` takes the file as a sequence of lines, each still carrying its newline, if any.
- The `println!` output. Each `request:` line is kept as a `Reply` value in `Run.replies`. A `connection:` line is printed exactly once per edge pushed, so the edge list stands for those lines.
- The hash map's hashing and its `()` values. Only its key set is modelled, as a set field of `VisitMap`. Borrowing and lifetimes are not modelled: cities are compared by value, as `==` on `String` does.
- Stack depth: the recursion of `is_connected` can be as deep as the number of cities, and a stack overflow is not modelled.
- A panic is modelled as a final state (`panicked`). Aborting the process and printing the panic message are not modelled.
- `Search.IsConnected`: when it returns `false` from a non-empty visit map, its contract does not say that no walk exists. The source does not promise that either; `Query` states the full answer for the empty map that `main` passes.
