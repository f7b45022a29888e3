/** The line parser (`parse_line`): one raw line, as read together with its
    trailing newline, becomes nothing (the line is too short), a pair of city
    names (the first two fields of the trimmed line split on single spaces),
    or a panic (the trimmed line has no second field, so `parts[1]` is out of
    bounds). */
module LineParser {

  /** What `parse_line` does with one raw line. `Panic` is the out-of-bounds
      index `parts[1]`, which aborts the program. */
  datatype Parsed = NoPair | Pair(lval: string, rval: string) | Panic

  /** Rust's `char::is_whitespace`: the Unicode White_Space property. */
  predicate IsWhitespace(c: char) {
    || c == ' '
    || ('\t' <= c <= '\r')
    || c == '\U{85}' || c == '\U{A0}' || c == '\U{1680}'
    || ('\U{2000}' <= c <= '\U{200A}')
    || c == '\U{2028}' || c == '\U{2029}' || c == '\U{202F}'
    || c == '\U{205F}' || c == '\U{3000}'
  }

  /** Where `str::trim_start` cuts: the first index at or after `i` that
      does not hold whitespace, or the length of `s`. */
  function TrimStartFrom(s: string, i: nat): (lo: nat)
    requires i <= |s|
    ensures i <= lo <= |s|
    decreases |s| - i
  {
    if i < |s| && IsWhitespace(s[i]) then TrimStartFrom(s, i + 1) else i
  }

  /** The start cut skips whitespace only, and all of it. */
  lemma {:induction false} TrimStartFromSkipsWhitespace(s: string, i: nat)
    requires i <= |s|
    ensures forall k :: i <= k < TrimStartFrom(s, i) ==> IsWhitespace(s[k])
    ensures TrimStartFrom(s, i) == |s| || !IsWhitespace(s[TrimStartFrom(s, i)])
    decreases |s| - i
  {
    if i < |s| && IsWhitespace(s[i]) {
      TrimStartFromSkipsWhitespace(s, i + 1);
    }
  }

  /** Where `str::trim_end` cuts: going down from `j` but not below `lo`, the
      first index whose predecessor does not hold whitespace. */
  function TrimEndFrom(s: string, lo: nat, j: nat): (hi: nat)
    requires lo <= j <= |s|
    ensures lo <= hi <= j
    decreases j
  {
    if j > lo && IsWhitespace(s[j - 1]) then TrimEndFrom(s, lo, j - 1) else j
  }

  /** The end cut skips whitespace only, and all of it down to `lo`. */
  lemma {:induction false} TrimEndFromSkipsWhitespace(s: string, lo: nat, j: nat)
    requires lo <= j <= |s|
    ensures forall k :: TrimEndFrom(s, lo, j) <= k < j ==> IsWhitespace(s[k])
    ensures TrimEndFrom(s, lo, j) == lo || !IsWhitespace(s[TrimEndFrom(s, lo, j) - 1])
    decreases j
  {
    if j > lo && IsWhitespace(s[j - 1]) {
      TrimEndFromSkipsWhitespace(s, lo, j - 1);
    }
  }

  /** `t` is `s` with its leading and trailing whitespace removed: a slice of
      `s` whose surroundings are whitespace and whose ends are not. */
  ghost predicate IsTrimOf(s: string, t: string) {
    && (t == [] || (!IsWhitespace(t[0]) && !IsWhitespace(t[|t| - 1])))
    && exists i :: 0 <= i <= |s| - |t| && TrimmedAt(s, t, i)
  }

  /** `t` sits at offset `i` of `s` with only whitespace around it. */
  ghost predicate TrimmedAt(s: string, t: string, i: int)
    requires 0 <= i <= |s| - |t|
  {
    && s[i..i + |t|] == t
    && (forall k :: 0 <= k < i ==> IsWhitespace(s[k]))
    && (forall k :: i + |t| <= k < |s| ==> IsWhitespace(s[k]))
  }

  /** `str::trim`. */
  function Trim(s: string): string {
    var lo := TrimStartFrom(s, 0);
    s[lo..TrimEndFrom(s, lo, |s|)]
  }

  /** Trimming removes exactly the leading and the trailing whitespace. */
  lemma TrimRemovesOuterWhitespace(s: string)
    ensures IsTrimOf(s, Trim(s))
  {
    var lo := TrimStartFrom(s, 0);
    TrimStartFromSkipsWhitespace(s, 0);
    TrimEndFromSkipsWhitespace(s, lo, |s|);
    assert TrimmedAt(s, Trim(s), lo);
  }

  /** Index of the first space in `s`. */
  function FirstSpace(s: string): (i: nat)
    requires ' ' in s
    ensures i < |s| && s[i] == ' ' && ' ' !in s[..i]
  {
    if s[0] == ' ' then 0
    else
      var j := FirstSpace(s[1..]);
      assert s[..j + 1] == [s[0]] + s[1..][..j];
      j + 1
  }

  /** `str::split(" ")`: the pieces between single spaces, empty pieces
      included; a string without a space is one piece. */
  function Split(s: string): (parts: seq<string>)
    ensures |parts| >= 1
    decreases |s|
  {
    if ' ' in s then
      var i := FirstSpace(s);
      [s[..i]] + Split(s[i + 1..])
    else
      [s]
  }

  /** A split has a second piece exactly when there is a space. */
  lemma SplitCount(s: string)
    ensures |Split(s)| >= 2 <==> ' ' in s
  {
  }

  /** The pieces glued back together with single spaces. */
  function Join(parts: seq<string>): string
    requires |parts| >= 1
  {
    if |parts| == 1 then parts[0] else parts[0] + " " + Join(parts[1..])
  }

  /** Splitting loses nothing: the pieces rejoined give the input back. */
  lemma {:induction false} JoinSplit(s: string)
    ensures Join(Split(s)) == s
    decreases |s|
  {
    if ' ' in s {
      var i := FirstSpace(s);
      JoinSplit(s[i + 1..]);
      assert s == s[..i] + " " + s[i + 1..];
    }
  }

  /** No piece of a split contains the separator. */
  lemma {:induction false} SplitPiecesHaveNoSpace(s: string)
    ensures forall k :: 0 <= k < |Split(s)| ==> ' ' !in Split(s)[k]
    decreases |s|
  {
    if ' ' in s {
      var i := FirstSpace(s);
      SplitPiecesHaveNoSpace(s[i + 1..]);
    }
  }

  /** `f` is the leading field of `s`: it holds no space and is followed by a
      space or by the end of `s`. */
  predicate FieldOf(s: string, f: string) {
    && ' ' !in f
    && (s == f || (|f| < |s| && s[..|f|] == f && s[|f|] == ' '))
  }

  /** `l` and `r` are the first two fields of `t`: `l` is everything before the
      first space, `r` everything between it and the next space or the end. */
  predicate FirstTwoFields(t: string, l: string, r: string) {
    && ' ' !in l
    && |l| < |t| && t[..|l|] == l && t[|l|] == ' '
    && FieldOf(t[|l| + 1..], r)
  }

  /** A string has only one leading field. */
  lemma FieldOfUnique(s: string, f1: string, f2: string)
    requires FieldOf(s, f1) && FieldOf(s, f2)
    ensures f1 == f2
  {
  }

  /** The first two fields of a string are determined by it. */
  lemma FirstTwoFieldsUnique(t: string, l1: string, r1: string, l2: string, r2: string)
    requires FirstTwoFields(t, l1, r1) && FirstTwoFields(t, l2, r2)
    ensures l1 == l2 && r1 == r2
  {
    FieldOfUnique(t, l1, l2);
    FieldOfUnique(t[|l1| + 1..], r1, r2);
  }

  /** The first two pieces of a split of a string with a space are its first
      two fields. */
  lemma SplitGivesFirstTwoFields(t: string)
    requires ' ' in t
    ensures FirstTwoFields(t, Split(t)[0], Split(t)[1])
  {
    var i := FirstSpace(t);
    var rest := t[i + 1..];
    assert Split(t)[1] == Split(rest)[0];
    if ' ' in rest {
      var j := FirstSpace(rest);
      assert Split(rest)[0] == rest[..j];
    }
  }

  /** `str::len`: the length of the UTF-8 encoding, in bytes. */
  function Utf8Length(s: string): (n: nat)
    ensures n >= |s|
  {
    if s == [] then 0
    else
      var c := s[0] as int;
      (if c < 0x80 then 1 else if c < 0x800 then 2 else if c < 0x10000 then 3 else 4)
        + Utf8Length(s[1..])
  }

  /** A string is shorter than two bytes exactly when it is empty or a single
      ASCII character. */
  lemma ShortIff(s: string)
    ensures Utf8Length(s) < 2 <==> s == [] || (|s| == 1 && s[0] as int < 0x80)
  {
    if |s| == 1 {
      assert s[1..] == [];
    }
  }

  /** `parse_line`: a line shorter than two bytes gives no pair; any
      other line is trimmed and split on single spaces, and the first two
      pieces are the pair; indexing a missing second piece panics. */
  function ParseLine(line: string): Parsed {
    if Utf8Length(line) < 2 then NoPair
    else
      var parts := Split(Trim(line));
      if |parts| < 2 then Panic
      else Pair(parts[0], parts[1])
  }

  /** No pair exactly for lines shorter than two bytes (counting the
      newline, so a lone newline is the section separator); a panic exactly
      when the trimmed line has no space; otherwise the first two fields of
      the trimmed line, the first of them non-empty. */
  lemma ParseLineCases(line: string)
    ensures ParseLine(line) == NoPair <==> Utf8Length(line) < 2
    ensures ParseLine(line) == Panic <==> Utf8Length(line) >= 2 && ' ' !in Trim(line)
    ensures ParseLine(line).Pair? ==>
              && FirstTwoFields(Trim(line), ParseLine(line).lval, ParseLine(line).rval)
              && ParseLine(line).lval != []
  {
    SplitCount(Trim(line));
    if Utf8Length(line) >= 2 && ' ' in Trim(line) {
      SplitGivesFirstTwoFields(Trim(line));
      TrimRemovesOuterWhitespace(line);
    }
  }

  /** A city name as the input file writes it: non-empty, no whitespace. */
  predicate IsName(x: string) {
    x != [] && forall k :: 0 <= k < |x| ==> !IsWhitespace(x[k])
  }

  /** A line of the input file naming two cities, with its newline. */
  function WrittenLine(l: string, r: string): string {
    l + " " + r + "\n"
  }

  /** A line written from two names parses back into those names. */
  lemma ParseWrittenLine(l: string, r: string)
    requires IsName(l) && IsName(r)
    ensures ParseLine(WrittenLine(l, r)) == Pair(l, r)
  {
    var line := WrittenLine(l, r);
    var t := l + " " + r;
    assert TrimStartFrom(line, 0) == 0;
    assert TrimEndFrom(line, 0, |line| - 1) == |line| - 1;
    assert line[0..|line| - 1] == t;
    assert t[|l| + 1..] == r;
    assert ' ' !in l by {
      forall k | 0 <= k < |l| ensures l[k] != ' ' { }
    }
    assert ' ' !in r by {
      forall k | 0 <= k < |r| ensures r[k] != ' ' { }
    }
    assert FirstTwoFields(t, l, r);
    ParseLineCases(line);
    var p := ParseLine(line);
    FirstTwoFieldsUnique(t, p.lval, p.rval, l, r);
  }
}
