/** The input loop of `main`: a two-phase state machine (`ReaderState`) over
    the lines of the input file. In `Connection` every parsed line is pushed
    onto the edge list; the first line that gives no pair switches to
    `Request` for good; in `Request` every parsed line is answered with a
    fresh reachability query and lines that give no pair are skipped. A
    panic of the line parser ends the run. */
module Reader {
  import opened LineParser
  import opened Graph
  import Search

  datatype Phase = Connection | Request

  /** One printed `request:` line: the two cities and the answer. */
  datatype Reply = Reply(lval: City, rval: City, connected: bool)

  /** The state of the loop: the phase, the edge list built so far, the
      answers printed so far, and whether the line parser has panicked. */
  datatype Run = Run(phase: Phase, edges: seq<Edge>, replies: seq<Reply>, panicked: bool)

  const Start := Run(Connection, [], [], false)

  /** What one line, once parsed, does to the state. */
  ghost function Step(st: Run, p: Parsed): Run {
    if st.panicked then st
    else
      match p
      case Panic => st.(panicked := true)
      case NoPair => if st.phase == Connection then st.(phase := Request) else st
      case Pair(l, r) =>
        if st.phase == Connection then st.(edges := st.edges + [(l, r)])
        else st.(replies := st.replies + [Reply(l, r, Reachable(st.edges, l, r))])
  }

  /** The state after the given parsed lines, from the start state. */
  ghost function Replay(ps: seq<Parsed>): Run {
    if ps == [] then Start
    else Step(Replay(ps[..|ps| - 1]), ps[|ps| - 1])
  }

  /** Every line of the file through the line parser. */
  function ParseAll(lines: seq<string>): (ps: seq<Parsed>)
    ensures |ps| == |lines|
  {
    if lines == [] then [] else ParseAll(lines[..|lines| - 1]) + [ParseLine(lines[|lines| - 1])]
  }

  /** Each line is parsed on its own, in place. */
  lemma {:induction false} ParseAllAt(lines: seq<string>, k: nat)
    requires k < |lines|
    ensures ParseAll(lines)[k] == ParseLine(lines[k])
    decreases |lines|
  {
    if k < |lines| - 1 {
      ParseAllAt(lines[..|lines| - 1], k);
    }
  }

  /** The body of the loop of `main` for one parsed line: in `Connection` a
      pair is pushed onto the edge list and a line without a pair switches to
      `Request`; in `Request` a pair is answered by a fresh query and a line
      without a pair is skipped. */
  method Advance(st: Run, p: Parsed) returns (next: Run)
    requires !st.panicked
    ensures next == Step(st, p)
  {
    next := st;
    match p {
      case Panic =>
        next := st.(panicked := true);
      case NoPair =>
        if st.phase == Connection {
          next := st.(phase := Request);
        }
      case Pair(lval, rval) =>
        if st.phase == Connection {
          next := st.(edges := st.edges + [(lval, rval)]);
        } else {
          var connected := Search.Query(st.edges, lval, rval);
          next := st.(replies := st.replies + [Reply(lval, rval, connected)]);
        }
    }
  }

  /** The loop of `main`, with the file's lines given as a sequence (each
      still carrying its newline) and each printed line kept as a value. The
      loop ends after the last line, or at a panic of the line parser. */
  method ReadAll(lines: seq<string>) returns (run: Run)
    ensures run == Replay(ParseAll(lines))
  {
    ghost var ps := ParseAll(lines);
    run := Start;
    var i := 0;
    while i < |lines| && !run.panicked
      invariant 0 <= i <= |lines|
      invariant Replay(ps[..i]) == run
    {
      ReplayNext(ps, i);
      ParseAllAt(lines, i);
      run := Advance(run, ParseLine(lines[i]));
      i := i + 1;
    }
    if run.panicked {
      PanicIsFinal(ps[..i], ps[i..]);
      assert ps[..i] + ps[i..] == ps;
    } else {
      assert ps[..i] == ps;
    }
  }

  /** The state after one more line. */
  lemma ReplayNext(ps: seq<Parsed>, i: nat)
    requires i < |ps|
    ensures Replay(ps[..i + 1]) == Step(Replay(ps[..i]), ps[i])
  {
    assert ps[..i + 1][..i] == ps[..i];
  }

  /** The state after a non-empty suffix is one step past its last line. */
  lemma ReplayLast(pre: seq<Parsed>, rest: seq<Parsed>)
    requires rest != []
    ensures Replay(pre + rest) == Step(Replay(pre + rest[..|rest| - 1]), rest[|rest| - 1])
  {
    assert (pre + rest)[..|pre + rest| - 1] == pre + rest[..|rest| - 1];
  }

  /** Once the parser has panicked, later lines change nothing. */
  lemma {:induction false} PanicIsFinal(pre: seq<Parsed>, rest: seq<Parsed>)
    requires Replay(pre).panicked
    ensures Replay(pre + rest) == Replay(pre)
    decreases |rest|
  {
    if rest != [] {
      ReplayLast(pre, rest);
      PanicIsFinal(pre, rest[..|rest| - 1]);
    } else {
      assert pre + rest == pre;
    }
  }

  /** In `Request` the phase never returns to `Connection` and the edge list
      is never touched; the answers only grow. */
  lemma {:induction false} RequestIsFinal(pre: seq<Parsed>, rest: seq<Parsed>)
    requires Replay(pre).phase == Request
    ensures Replay(pre + rest).phase == Request
    ensures Replay(pre + rest).edges == Replay(pre).edges
    ensures Replay(pre).replies <= Replay(pre + rest).replies
    decreases |rest|
  {
    if rest != [] {
      ReplayLast(pre, rest);
      RequestIsFinal(pre, rest[..|rest| - 1]);
    } else {
      assert pre + rest == pre;
    }
  }

  /** The edges named by a run of parsed connection lines, in order. */
  function EdgesOf(conn: seq<Parsed>): (edges: seq<Edge>)
    requires forall k :: 0 <= k < |conn| ==> conn[k].Pair?
    ensures |edges| == |conn|
  {
    if conn == [] then []
    else
      var last := conn[|conn| - 1];
      EdgesOf(conn[..|conn| - 1]) + [(last.lval, last.rval)]
  }

  /** The answers owed to a run of parsed request lines: one per pair, in
      input order, none for the other lines. */
  ghost function Answers(edges: seq<Edge>, reqs: seq<Parsed>): seq<Reply> {
    if reqs == [] then []
    else Answers(edges, reqs[..|reqs| - 1]) + AnswerFor(edges, reqs[|reqs| - 1])
  }

  /** The answer owed to one parsed request line. */
  ghost function AnswerFor(edges: seq<Edge>, p: Parsed): seq<Reply> {
    match p
    case Pair(l, r) => [Reply(l, r, Reachable(edges, l, r))]
    case _ => []
  }

  /** Lines that all parse keep the reader in `Connection`, each adding
      exactly one edge and no answer. */
  lemma {:induction false} ReplayConnections(conn: seq<Parsed>)
    requires forall k :: 0 <= k < |conn| ==> conn[k].Pair?
    ensures Replay(conn) == Run(Connection, EdgesOf(conn), [], false)
  {
    if conn != [] {
      ReplayConnections(conn[..|conn| - 1]);
    }
  }

  /** In `Request`, lines that do not panic leave the edges alone and add
      one answer for each pair, in input order. */
  lemma {:induction false} ReplayRequests(pre: seq<Parsed>, reqs: seq<Parsed>, edges: seq<Edge>, replies: seq<Reply>)
    requires Replay(pre) == Run(Request, edges, replies, false)
    requires forall k :: 0 <= k < |reqs| ==> reqs[k] != Panic
    ensures Replay(pre + reqs) == Run(Request, edges, replies + Answers(edges, reqs), false)
    decreases |reqs|
  {
    if reqs == [] {
      assert pre + reqs == pre;
    } else {
      var shorter := reqs[..|reqs| - 1];
      ReplayLast(pre, reqs);
      ReplayRequests(pre, shorter, edges, replies);
      assert replies + Answers(edges, shorter) + AnswerFor(edges, reqs[|reqs| - 1])
          == replies + Answers(edges, reqs);
    }
  }

  /** A whole input file: connection lines that all parse, one line without
      a pair (the blank separator line, which is discarded), and request lines
      that do not panic. The edge list is the connection lines in order, and
      there is exactly one answer per parsed request line, in order, telling
      whether a walk joins its two cities. */
  lemma ReplaySections(conn: seq<Parsed>, reqs: seq<Parsed>)
    requires forall k :: 0 <= k < |conn| ==> conn[k].Pair?
    requires forall k :: 0 <= k < |reqs| ==> reqs[k] != Panic
    ensures Replay(conn + [NoPair] + reqs)
         == Run(Request, EdgesOf(conn), Answers(EdgesOf(conn), reqs), false)
  {
    ReplayConnections(conn);
    var pre := conn + [NoPair];
    assert pre[..|pre| - 1] == conn;
    ReplayRequests(pre, reqs, EdgesOf(conn), []);
    assert [] + Answers(EdgesOf(conn), reqs) == Answers(EdgesOf(conn), reqs);
  }

  /** The shape of the sample input file (London Paris, Paris Berlin, a blank
      line, then London Berlin and London Madrid): `a` reaches `c` through
      `b`, and `d`, named by no edge, is reached by nothing. */
  lemma SampleInput(a: City, b: City, c: City, d: City)
    requires IsName(a) && IsName(b) && IsName(c) && IsName(d)
    requires d != a && d != b && d != c
    ensures Replay(ParseAll([WrittenLine(a, b), WrittenLine(b, c), "\n", WrittenLine(a, c), WrittenLine(a, d)]))
         == Run(Request, [(a, b), (b, c)], [Reply(a, c, true), Reply(a, d, false)], false)
  {
    SampleLines(a, b, c, d);
    SampleReplay(a, b, c, d);
  }

  /** The lines of the sample file, parsed. */
  lemma SampleLines(a: City, b: City, c: City, d: City)
    requires IsName(a) && IsName(b) && IsName(c) && IsName(d)
    ensures ParseAll([WrittenLine(a, b), WrittenLine(b, c), "\n", WrittenLine(a, c), WrittenLine(a, d)])
         == [Pair(a, b), Pair(b, c), NoPair, Pair(a, c), Pair(a, d)]
  {
    var lines := [WrittenLine(a, b), WrittenLine(b, c), "\n", WrittenLine(a, c), WrittenLine(a, d)];
    ParseWrittenLine(a, b);
    ParseWrittenLine(b, c);
    ParseWrittenLine(a, c);
    ParseWrittenLine(a, d);
    ParseLineCases("\n");
    ParseAllOfFive(lines);
  }

  /** A file of five lines, parsed line by line. */
  lemma ParseAllOfFive(lines: seq<string>)
    requires |lines| == 5
    ensures ParseAll(lines)
         == [ParseLine(lines[0]), ParseLine(lines[1]), ParseLine(lines[2]), ParseLine(lines[3]), ParseLine(lines[4])]
  {
    ParseAllAt(lines, 0);
    ParseAllAt(lines, 1);
    ParseAllAt(lines, 2);
    ParseAllAt(lines, 3);
    ParseAllAt(lines, 4);
  }

  /** The sample file's parsed lines, replayed. */
  lemma SampleReplay(a: City, b: City, c: City, d: City)
    requires d != a && d != b && d != c
    ensures Replay([Pair(a, b), Pair(b, c), NoPair, Pair(a, c), Pair(a, d)])
         == Run(Request, [(a, b), (b, c)], [Reply(a, c, true), Reply(a, d, false)], false)
  {
    var conn := [Pair(a, b), Pair(b, c)];
    var reqs := [Pair(a, c), Pair(a, d)];
    assert EdgesOf(conn) == [(a, b), (b, c)] by {
      assert conn[..1] == [Pair(a, b)];
    }
    SampleAnswers(a, b, c, d);
    ReplaySections(conn, reqs);
    assert conn + [NoPair] + reqs == [Pair(a, b), Pair(b, c), NoPair, Pair(a, c), Pair(a, d)];
  }

  /** The two answers of the sample: `a` reaches `c` through `b`; `d` is on
      no edge, so nothing reaches it. */
  lemma SampleAnswers(a: City, b: City, c: City, d: City)
    requires d != a && d != b && d != c
    ensures Answers([(a, b), (b, c)], [Pair(a, c), Pair(a, d)])
         == [Reply(a, c, true), Reply(a, d, false)]
  {
    var edges := [(a, b), (b, c)];
    var reqs := [Pair(a, c), Pair(a, d)];
    assert Reachable(edges, a, c) by {
      assert Adjacent(edges, b, c);
      AdjacentReachable(edges, b, c);
      assert Adjacent(edges, a, b);
      ReachablePrepend(edges, a, b, c);
    }
    assert !Reachable(edges, a, d) by {
      if Reachable(edges, a, d) {
        ReachableEndsInCities(edges, a, d);
        forall e | e in edges ensures e.0 != d && e.1 != d {
          assert e == (a, b) || e == (b, c);
        }
      }
    }
    assert reqs[..1] == [Pair(a, c)];
    assert Answers(edges, reqs[..1]) == [Reply(a, c, true)] by {
      assert reqs[..1][..0] == [];
    }
  }
}
