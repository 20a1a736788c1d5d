/**
 * Idiom records and the part of the loader that decides which idioms are
 * stored and under which id.
 */
module Idiom {
  import opened Runes
  import opened LineReader
  import opened Seqs

  /**
   * A node of the idiom graph: the idiom's text and the integer id the
   * loader gave it. Nodes are created once and never changed.
   */
  datatype IdiomNode = IdiomNode(id: int, idiom: Text)

  /** The key of the (begin, end) index. */
  datatype BeKey = BeKey(b: char, e: char)

  /** An idiom has at least two runes. */
  predicate IsValidIdiom(s: Text) {
    |s| >= 2
  }

  /** The first rune of an idiom. */
  function Begin(t: Text): char
    requires |t| > 0
  {
    t[0]
  }

  /** The last rune of an idiom. */
  function End(t: Text): char
    requires |t| > 0
  {
    t[|t| - 1]
  }

  /** The (first, last) pair of an idiom. */
  function BeKeyOf(t: Text): BeKey
    requires |t| > 0
  {
    BeKey(Begin(t), End(t))
  }

  /**
   * The idioms the loader keeps from `lines`, in input order: every line
   * trimmed of surrounding white space, those of at least two runes kept.
   */
  function Accept(lines: seq<Text>): (r: seq<Text>)
    ensures |r| <= |lines|
    ensures forall t <- r :: IsValidIdiom(t)
  {
    if lines == [] then []
    else Kept(lines[0]) + Accept(lines[1..])
  }

  /** What one input line contributes: its trimmed text when that is a valid idiom, else nothing. */
  function Kept(line: Text): (r: seq<Text>)
    ensures |r| <= 1
    ensures forall t <- r :: IsValidIdiom(t)
  {
    var t := TrimSpace(line);
    if IsValidIdiom(t) then [t] else []
  }

  /** The idioms accepted from a whole input text, in input order. */
  function Accepted(data: Text): seq<Text> {
    Accept(Lines(data))
  }

  /**
   * A text is accepted exactly when some input line trims to it and it has
   * at least two runes.
   */
  lemma {:induction false} AcceptMembers(lines: seq<Text>, t: Text)
    ensures t in Accept(lines) <==> IsValidIdiom(t) && exists l <- lines :: TrimSpace(l) == t
  {
    if lines != [] {
      AcceptMembers(lines[1..], t);
      assert forall l <- lines :: l == lines[0] || l in lines[1..];
    }
  }

  /**
   * The idiom table after storing the accepted idioms `acc` in order, the
   * i-th of them as a node with id i, a later one replacing an earlier one
   * with the same text.
   */
  function Register(acc: seq<Text>): map<Text, IdiomNode>
  {
    if acc == [] then map[]
    else
      var last := acc[|acc| - 1];
      Register(acc[..|acc| - 1])[last := IdiomNode(|acc| - 1, last)]
  }

  /**
   * The table holds one node per distinct accepted text, under that text;
   * its id is the position of the text's LAST occurrence, so ids are below
   * the number of accepted lines and distinct texts have distinct ids.
   */
  lemma {:induction false} RegisterLastWins(acc: seq<Text>)
    ensures Register(acc).Keys == set t | t in acc
    ensures forall k :: k in Register(acc) ==>
      var n := Register(acc)[k];
      n.idiom == k && 0 <= n.id < |acc| && acc[n.id] == k &&
      forall j :: n.id < j < |acc| ==> acc[j] != k
  {
    if acc != [] {
      var front := acc[..|acc| - 1];
      RegisterLastWins(front);
      assert forall t :: t in acc <==> t in front || t == acc[|acc| - 1];
    }
  }

  /** Distinct stored idioms carry distinct ids. */
  lemma RegisterIdsDistinct(acc: seq<Text>, k1: Text, k2: Text)
    requires k1 in Register(acc) && k2 in Register(acc) && k1 != k2
    ensures Register(acc)[k1].id != Register(acc)[k2].id
  {
    RegisterLastWins(acc);
  }

  /** The idiom table's shape: every key is a valid idiom stored under its own text. */
  ghost predicate WellFormed(m: map<Text, IdiomNode>) {
    forall k :: k in m ==> IsValidIdiom(k) && m[k].idiom == k
  }

  /** Ids are distinct across the stored idioms. */
  ghost predicate DistinctIds(m: map<Text, IdiomNode>) {
    forall k1, k2 :: k1 in m && k2 in m && k1 != k2 ==> m[k1].id != m[k2].id
  }

  /** Storing one more accepted idiom: the map update of the read loop. */
  lemma RegisterAppend(acc: seq<Text>, t: Text)
    ensures Register(acc + [t]) == Register(acc)[t := IdiomNode(|acc|, t)]
  {
    assert (acc + [t])[..|acc|] == acc;
  }

  /** A table registered from valid idioms is well formed and has distinct ids. */
  lemma RegisterWellFormed(acc: seq<Text>)
    requires forall t <- acc :: IsValidIdiom(t)
    ensures WellFormed(Register(acc)) && DistinctIds(Register(acc))
  {
    RegisterLastWins(acc);
    forall k | k in Register(acc) ensures IsValidIdiom(k) {
      assert acc[Register(acc)[k].id] in acc;
    }
  }

  /**
   * One turn of the read loop: the line returned by `ReadString` is the first
   * input line (its newline is trimmed away), so the accepted idioms of the
   * remaining input are that line's, if kept, followed by those after it.
   */
  lemma AcceptReadLine(s: Stream, pos: nat)
    requires pos <= |s.data|
    ensures var c := ReadString(s, pos);
      var t := TrimSpace(c.line);
      Accept(LinesFrom(s.data, pos)) ==
        (if IsValidIdiom(t) then [t] else []) +
        (if c.status.Delimited? then Accept(LinesFrom(s.data, c.next)) else [])
  {
    var c := ReadString(s, pos);
    ReadStringTakesFirstLine(s, pos);
    ReadStringStopsAtNewline(s, pos);
    var line := if c.status.Delimited? then c.line[..|c.line| - 1] else c.line;
    var rest := if c.status.Delimited? then LinesFrom(s.data, c.next) else [];
    assert LinesFrom(s.data, pos) == [line] + rest;
    assert ([line] + rest)[1..] == rest;
    if c.status.Delimited? {
      assert c.line == line + ['\n'];
      TrimSpaceDropsTrailingSpace(line, '\n');
    }
  }

  /**
   * After loading, an idiom is stored exactly when some input line trims to
   * it and it has at least two runes; its id is the position of its last
   * occurrence among the accepted lines.
   */
  lemma LoadedIdioms(data: Text, t: Text)
    ensures t in Register(Accepted(data)) <==> IsValidIdiom(t) && exists l <- Lines(data) :: TrimSpace(l) == t
    ensures t in Register(Accepted(data)) ==>
      var acc := Accepted(data);
      var n := Register(acc)[t];
      n.idiom == t && 0 <= n.id < |acc| && acc[n.id] == t && forall j :: n.id < j < |acc| ==> acc[j] != t
  {
    var ls := Lines(data);
    var acc := Accept(ls);
    assert acc == Accepted(data);
    AcceptMembers(ls, t);
    RegisterLastWins(acc);
    assert t in Register(acc) <==> t in acc;
  }

  /**
   * The read loop's invariant is kept by one turn: `acc`, the idioms stored
   * so far, followed by the idioms accepted from the rest of the input, is
   * always the whole input's accepted idioms; after the last line, `acc` is.
   */
  lemma ReadLoopStep(s: Stream, pos: nat, acc: seq<Text>)
    requires pos <= |s.data|
    requires acc + Accept(LinesFrom(s.data, pos)) == Accepted(s.data)
    ensures var c := ReadString(s, pos);
      var t := TrimSpace(c.line);
      var acc' := if IsValidIdiom(t) then acc + [t] else acc;
      if c.status.Delimited? then acc' + Accept(LinesFrom(s.data, c.next)) == Accepted(s.data)
      else acc' == Accepted(s.data)
  {
    var c := ReadString(s, pos);
    var t := TrimSpace(c.line);
    AcceptReadLine(s, pos);
    var rest := if c.status.Delimited? then Accept(LinesFrom(s.data, c.next)) else [];
    var kept := if IsValidIdiom(t) then [t] else [];
    assert Accept(LinesFrom(s.data, pos)) == kept + rest;
    Associative(acc, kept, rest);
    var acc' := if IsValidIdiom(t) then acc + [t] else acc;
    if !IsValidIdiom(t) {
      RightUnit(acc);
    }
    if !c.status.Delimited? {
      RightUnit(acc + kept);
    }
  }

  lemma {:induction false} AcceptAppend(lines: seq<Text>, last: Text)
    ensures Accept(lines + [last]) == Accept(lines) + Kept(last)
  {
    if lines == [] {
      AcceptOne(last);
    } else {
      AcceptAppend(lines[1..], last);
      AcceptAppendStep(lines, last);
    }
  }

  lemma AcceptOne(last: Text)
    ensures Accept([] + [last]) == Accept([]) + Kept(last)
  {
    assert [] + [last] == [last];
    AcceptCons([last]);
    assert [last][1..] == [];
  }

  lemma AcceptAppendStep(lines: seq<Text>, last: Text)
    requires lines != []
    requires Accept(lines[1..] + [last]) == Accept(lines[1..]) + Kept(last)
    ensures Accept(lines + [last]) == Accept(lines) + Kept(last)
  {
    var rest := lines[1..];
    assert (lines + [last])[1..] == rest + [last];
    assert (lines + [last])[0] == lines[0];
    AcceptCons(lines + [last]);
    AcceptCons(lines);
    Regroup(Kept(lines[0]), Accept(rest), Kept(last), Accept(rest + [last]));
  }

  lemma AcceptCons(lines: seq<Text>)
    requires lines != []
    ensures Accept(lines) == Kept(lines[0]) + Accept(lines[1..])
  {
  }

  /**
   * A final line with no newline after it is still loaded: when it trims to
   * a valid idiom, that idiom is stored with the largest id, the one of the
   * last accepted line, replacing any earlier occurrence.
   */
  lemma LastLineLoaded(d: Text, last: Text)
    requires '\n' !in last && IsValidIdiom(TrimSpace(last))
    ensures var acc := Accepted(d + ['\n'] + last);
      && TrimSpace(last) in Register(acc)
      && Register(acc)[TrimSpace(last)] == IdiomNode(|acc| - 1, TrimSpace(last))
  {
    var t := TrimSpace(last);
    LastLineWithoutNewline(d, last);
    AcceptAppend(Lines(d), last);
    var acc := Accepted(d + ['\n'] + last);
    assert acc == Accepted(d) + [t];
    RegisterAppend(Accepted(d), t);
  }
}
