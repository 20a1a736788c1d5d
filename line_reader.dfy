/**
 * The input reader of the loader: a `bufio.Reader` read with
 * `ReadString('\n')` until it reports end of file or an error, and the
 * lines that this yields.
 */
module LineReader {
  import opened Wrappers
  import opened Runes
  import opened Seqs

  /** An error of the underlying reader other than end of file. */
  datatype IoError = IoError(message: string)

  /**
   * What the underlying reader delivers: the runes of `data`, then either end
   * of file (`failure == None`) or the error `failure`.
   */
  datatype Stream = Stream(data: Text, failure: Option<IoError>)

  /** The error half of `ReadString`'s result: nil, `io.EOF`, or another error. */
  datatype ReadStatus = Delimited | AtEof | Broken(error: IoError)

  /**
   * One call of `ReadString('\n')` at reader position `pos`: the runes read
   * (with the delimiter when one was found), where the next call starts, and
   * the error returned beside them.
   */
  datatype Chunk = Chunk(line: Text, next: nat, status: ReadStatus)

  /** The position of the first newline of `d` at or after `pos`, or `|d|` if there is none. */
  function NextNewline(d: Text, pos: nat): (i: nat)
    requires pos <= |d|
    ensures pos <= i <= |d|
    ensures forall k :: pos <= k < i ==> d[k] != '\n'
    ensures i < |d| ==> d[i] == '\n'
    decreases |d| - pos
  {
    if pos == |d| then |d| else if d[pos] == '\n' then pos else NextNewline(d, pos + 1)
  }

  /**
   * `ReadString('\n')`: the runes up to and including the next newline;
   * when there is none, the rest of the data together with the reader's
   * final status (end of file or its error).
   */
  function ReadString(s: Stream, pos: nat): (c: Chunk)
    requires pos <= |s.data|
    ensures pos <= c.next <= |s.data| && c.line == s.data[pos..c.next]
    ensures c.status.Delimited? ==> pos < c.next
    ensures !c.status.Delimited? ==> c.next == |s.data|
    ensures c.status.Broken? <==> !c.status.Delimited? && s.failure.Some?
    ensures c.status.Broken? ==> Some(c.status.error) == s.failure
    ensures c.status.Delimited? <==> NextNewline(s.data, pos) < |s.data|
    ensures c.status.Delimited? ==> c.next == NextNewline(s.data, pos) + 1 && s.data[c.next - 1] == '\n'
  {
    var i := NextNewline(s.data, pos);
    if i < |s.data| then
      Chunk(s.data[pos..i + 1], i + 1, Delimited)
    else
      Chunk(s.data[pos..], |s.data|, if s.failure.Some? then Broken(s.failure.value) else AtEof)
  }

  /**
   * `ReadString` stops at the first newline: it reports a delimited line
   * exactly when a newline is left, and the chunk then ends with that
   * newline and holds no other; otherwise the chunk holds no newline.
   */
  lemma ReadStringStopsAtNewline(s: Stream, pos: nat)
    requires pos <= |s.data|
    ensures var c := ReadString(s, pos);
      && (c.status.Delimited? <==> '\n' in s.data[pos..])
      && (c.status.Delimited? ==> c.line[|c.line| - 1] == '\n' && '\n' !in c.line[..|c.line| - 1])
      && (!c.status.Delimited? ==> '\n' !in c.line)
  {
    var c := ReadString(s, pos);
    var i := NextNewline(s.data, pos);
    if '\n' in s.data[pos..] {
      var k :| 0 <= k < |s.data[pos..]| && s.data[pos..][k] == '\n';
      assert s.data[pos + k] == '\n';
    }
    if i < |s.data| {
      assert c.line[i - pos] == '\n';
      assert s.data[pos..][i - pos] == '\n';
      assert forall k | 0 <= k < i - pos :: c.line[..|c.line| - 1][k] == c.line[k];
    } else {
      assert c.line == s.data[pos..];
    }
  }

  /** `ls` joined with a newline between consecutive elements. */
  function Join(ls: seq<Text>): Text
    requires |ls| >= 1
  {
    if |ls| == 1 then ls[0] else ls[0] + ['\n'] + Join(ls[1..])
  }

  /**
   * The lines of `d` from position `pos` on: the pieces between its newline
   * characters. The last piece is the text after the last newline, possibly
   * empty.
   */
  function LinesFrom(d: Text, pos: nat): (ls: seq<Text>)
    requires pos <= |d|
    ensures |ls| >= 1
    decreases |d| - pos
  {
    var i := NextNewline(d, pos);
    if i == |d| then [d[pos..]]
    else [d[pos..i]] + LinesFrom(d, i + 1)
  }

  /** The lines of the whole of `d`. */
  function Lines(d: Text): seq<Text> {
    LinesFrom(d, 0)
  }

  /** The first newline from `pos` is the position `i` before which there is none. */
  lemma NextNewlineIs(d: Text, pos: nat, i: nat)
    requires pos <= i <= |d|
    requires forall k :: pos <= k < i ==> d[k] != '\n'
    requires i == |d| || d[i] == '\n'
    ensures NextNewline(d, pos) == i
  {
  }

  /** A newline at `i`, the first from `pos`, ends the first line from `pos`. */
  lemma LinesFromNewline(d: Text, pos: nat, i: nat)
    requires pos <= i < |d| && NextNewline(d, pos) == i
    ensures LinesFrom(d, pos) == [d[pos..i]] + LinesFrom(d, i + 1)
  {
  }

  /** No line holds a newline. */
  lemma {:induction false} LinesNoNewline(d: Text, pos: nat)
    requires pos <= |d|
    ensures forall l <- LinesFrom(d, pos) :: '\n' !in l
    decreases |d| - pos
  {
    var i := NextNewline(d, pos);
    assert forall k | 0 <= k < i - pos :: d[pos..i][k] == d[pos + k];
    if i < |d| {
      LinesNoNewline(d, i + 1);
      assert forall l <- LinesFrom(d, pos) :: l == d[pos..i] || l in LinesFrom(d, i + 1);
    } else {
      assert d[pos..i] == d[pos..];
    }
  }

  /** Joining the lines of `d` from `pos` with newlines gives back `d` from `pos`. */
  lemma {:induction false} JoinLines(d: Text, pos: nat)
    requires pos <= |d|
    ensures Join(LinesFrom(d, pos)) == d[pos..]
    decreases |d| - pos
  {
    var i := NextNewline(d, pos);
    if i < |d| {
      JoinLines(d, i + 1);
      JoinLinesStep(d, pos, i);
    } else {
      var last := d[pos..];
      assert LinesFrom(d, pos) == [last];
      assert Join([last]) == last;
    }
  }

  /** One step of `JoinLines`: the first line, a newline, then the join of the lines after it. */
  lemma JoinLinesStep(d: Text, pos: nat, i: nat)
    requires pos <= i < |d| && NextNewline(d, pos) == i
    requires Join(LinesFrom(d, i + 1)) == d[i + 1..]
    ensures Join(LinesFrom(d, pos)) == d[pos..]
  {
    var rest := LinesFrom(d, i + 1);
    LinesFromNewline(d, pos, i);
    JoinCons(d[pos..i], rest);
    SplitAtNewline(d, pos, i);
  }

  /**
   * Splitting undoes joining: the newline-free lines `ls`, joined with
   * newlines after any text `pre`, are the lines found from the end of `pre`.
   */
  lemma {:induction false} LinesOfJoinAfter(pre: Text, ls: seq<Text>)
    requires |ls| >= 1
    requires forall l <- ls :: '\n' !in l
    ensures LinesFrom(pre + Join(ls), |pre|) == ls
    decreases |ls|
  {
    var first := ls[0];
    assert '\n' !in first by { assert first in ls; }
    if |ls| == 1 {
      assert Join(ls) == first;
      LastLineAfter(pre, first);
      assert ls == [first];
    } else {
      var pre' := pre + first + ['\n'];
      var rest := Join(ls[1..]);
      LinesOfJoinAfter(pre', ls[1..]);
      FirstLineAfter(pre, first, rest, ls[1..]);
      assert Join(ls) == first + ['\n'] + rest;
      Regroup(pre, first + ['\n'], rest, first + ['\n'] + rest);
      Associative(pre, first, ['\n']);
      assert ls == [first] + ls[1..];
    }
  }

  lemma SplitAtNewline(d: Text, pos: nat, i: nat)
    requires pos <= i < |d| && d[i] == '\n'
    ensures d[pos..] == d[pos..i] + ['\n'] + d[i + 1..]
  {
  }

  lemma JoinCons(x: Text, rest: seq<Text>)
    requires |rest| >= 1
    ensures Join([x] + rest) == x + ['\n'] + Join(rest)
  {
    assert ([x] + rest)[1..] == rest;
  }

  /** A newline-free text after `pre`, with nothing after it, is one line. */
  lemma LastLineAfter(pre: Text, x: Text)
    requires '\n' !in x
    ensures LinesFrom(pre + x, |pre|) == [x]
  {
    var d := pre + x;
    forall k | |pre| <= k < |d| ensures d[k] != '\n' {
      assert d[k] == x[k - |pre|];
    }
    NextNewlineIs(d, |pre|, |d|);
    assert d[|pre|..] == x;
  }

  /**
   * A newline-free text after `pre`, followed by a newline, is the first
   * line from `pre` on; the lines of what follows come after it.
   */
  lemma FirstLineAfter(pre: Text, x: Text, rest: Text, tail: seq<Text>)
    requires '\n' !in x
    requires LinesFrom(pre + x + ['\n'] + rest, |pre + x + ['\n']|) == tail
    ensures LinesFrom(pre + x + ['\n'] + rest, |pre|) == [x] + tail
  {
    var d := pre + x + ['\n'] + rest;
    var n := |pre| + |x|;
    forall k | |pre| <= k < n ensures d[k] != '\n' {
      assert d[k] == x[k - |pre|];
    }
    assert d[n] == '\n';
    NextNewlineIs(d, |pre|, n);
    assert d[|pre|..n] == x;
  }

  /** Splitting undoes joining: `Lines` recovers any newline-free lines from their join. */
  lemma LinesOfJoin(ls: seq<Text>)
    requires |ls| >= 1
    requires forall l <- ls :: '\n' !in l
    ensures Lines(Join(ls)) == ls
  {
    LinesOfJoinAfter([], ls);
  }

  /**
   * One `ReadString` call at a line start consumes exactly the first line of
   * the remaining data (plus its newline); the lines after it are those of the
   * data the next call starts from.
   */
  lemma ReadStringTakesFirstLine(s: Stream, pos: nat)
    requires pos <= |s.data|
    ensures var c := ReadString(s, pos);
      LinesFrom(s.data, pos) ==
        if c.status.Delimited? then [c.line[..|c.line| - 1]] + LinesFrom(s.data, c.next)
        else [c.line]
  {
    var c := ReadString(s, pos);
    var j := NextNewline(s.data, pos);
    if j < |s.data| {
      assert c.line[..|c.line| - 1] == s.data[pos..j];
    }
  }

  lemma {:induction false} JoinAppend(ls: seq<Text>, last: Text)
    requires |ls| >= 1
    ensures Join(ls + [last]) == Join(ls) + ['\n'] + last
  {
    if |ls| > 1 {
      assert (ls + [last])[1..] == ls[1..] + [last];
      JoinAppend(ls[1..], last);
    }
  }

  /**
   * Text after the last newline is a line of its own: input whose final line
   * has no newline has that line as its last line.
   */
  lemma LastLineWithoutNewline(d: Text, last: Text)
    requires '\n' !in last
    ensures Lines(d + ['\n'] + last) == Lines(d) + [last]
  {
    var ls := Lines(d);
    JoinLines(d, 0);
    LinesNoNewline(d, 0);
    JoinAppend(ls, last);
    LinesOfJoin(ls + [last]);
  }
}
