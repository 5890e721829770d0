/** Moving through a text table by pointer, line by line. */
module LineWalk {
  import opened Bytes
  import opened Lines

  /** The C string at `p` is made of these lines. */
  ghost predicate AtLines(buf: array<byte>, p: nat, end: nat, lines: seq<Text>)
    reads buf
  {
    lines != [] && AllWithout(lines, NEWLINE) && CString(buf, p, end) && buf[p..end] == Joined(NEWLINE, lines)
  }

  lemma SliceOfSlice(buf: array<byte>, p: nat, end: nat, from: nat, to: nat)
    requires p <= from <= to <= end <= buf.Length
    ensures buf[p..end][from - p..to - p] == buf[from..to]
  {
    var r := buf[p..end];
    var t := r[from - p..to - p];
    forall k | 0 <= k < to - from ensures t[k] == buf[from..to][k] {
      assert r[from - p + k] == buf[from + k];
    }
  }

  /** strchr(p, '\n') from the start of a line. */
  method EndOfLine(buf: array<byte>, p: nat, ghost end: nat, ghost lines: seq<Text>) returns (q: int)
    requires AtLines(buf, p, end, lines)
    ensures if |lines| == 1 then q == -1
            else p + |lines[0]| == q < end && AtLines(buf, q, end, [[]] + lines[1..])
  {
    q := StrChr(buf, p, end, NEWLINE);
    FirstPart(NEWLINE, lines);
    if |lines| > 1 {
      PartThenRest(NEWLINE, lines);
      FromOffset(buf[p..end], 0, |lines[0]|, buf[p..end]);
      assert buf[q..end] == buf[p..end][|lines[0]|..];
    }
  }

  /** The line the newline at `p` stands in front of. */
  lemma NextLine(buf: array<byte>, p: nat, end: nat, rows: seq<Text>)
    requires rows != [] && p < end && AtLines(buf, p, end, [[]] + rows)
    ensures AtLines(buf, p + 1, end, rows)
  {
    assert ([[]] + rows)[1..] == rows;
    PartEnds([], NEWLINE, Joined(NEWLINE, rows));
    assert [] + [NEWLINE] + Joined(NEWLINE, rows) == Joined(NEWLINE, [[]] + rows);
    assert buf[p + 1..end] == buf[p..end][1..];
    forall i | 0 <= i < |rows| ensures Without(rows[i], NEWLINE) {
      assert ([[]] + rows)[i + 1] == rows[i];
    }
  }

  lemma RowThenRest(rows: seq<Text>)
    requires rows != []
    ensures Joined(NEWLINE, rows) == rows[0] + if |rows| == 1 then [] else [NEWLINE] + Joined(NEWLINE, rows[1..])
  {
    if |rows| > 1 {
      ConcatAssociates(rows[0], [NEWLINE], Joined(NEWLINE, rows[1..]));
    }
  }

  /** strchr to the end of a column that is not the last of its row. */
  method EndOfColumn(buf: array<byte>, p: nat, ghost end: nat, ghost columns: seq<Text>, ghost rest: Text)
    returns (t: int)
    requires CString(buf, p, end) && |columns| > 1 && Without(columns[0], TAB)
    requires buf[p..end] == Joined(TAB, columns) + rest
    ensures t == p + |columns[0]| < end && buf[p..t] == columns[0]
    ensures buf[t + 1..end] == Joined(TAB, columns[1..]) + rest
  {
    t := StrChr(buf, p, end, TAB);
    ghost var tail := Joined(TAB, columns[1..]) + rest;
    ConcatAssociates(columns[0] + [TAB], Joined(TAB, columns[1..]), rest);
    PartEnds(columns[0], TAB, tail);
    assert buf[p..end] == columns[0] + [TAB] + tail;
    SliceOfSlice(buf, p, end, p, t);
    SliceOfSlice(buf, p, end, t + 1, end);
    assert buf[p..end][t + 1 - p..end - p] == buf[p..end][t + 1 - p..];
  }

  /** Two columns and what follows them. */
  method ReadTwo(buf: array<byte>, p: nat, ghost end: nat, ghost columns: seq<Text>, ghost rest: Text)
    returns (first: Text, second: Text, next: nat)
    requires CString(buf, p, end) && |columns| > 2 && Without(columns[0], TAB) && Without(columns[1], TAB)
    requires buf[p..end] == Joined(TAB, columns) + rest
    ensures first == columns[0] && second == columns[1]
    ensures next == p + |columns[0]| + |columns[1]| + 2 <= end && buf[next..end] == Joined(TAB, columns[2..]) + rest
  {
    ghost var tail := columns[1..];
    assert tail[0] == columns[1] && tail[1..] == columns[2..];
    var tempend := EndOfColumn(buf, p, end, columns, rest);
    first := buf[p..tempend];
    next := tempend + 1;
    tempend := EndOfColumn(buf, next, end, tail, rest);
    second := buf[next..tempend];
    next := tempend + 1;
  }
}
