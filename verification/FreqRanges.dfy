/** Lists of frequency ranges and their text, as in 2412-2432,2462,5000-6000 (common.c). */
module FreqRanges {
  import opened Bytes
  import opened Decimal
  import opened Lines

  const UINT_SIZE := 0x1_0000_0000
  const BYTES_PER_RANGE := 30

  /** Both bounds are unsigned 32-bit numbers. */
  datatype Range = Range(min: int, max: int)

  predicate IsUnsigned(r: Range) {
    0 <= r.min < UINT_SIZE && 0 <= r.max < UINT_SIZE
  }

  /** atoi reads a long, which strtol caps, and keeps its low 32 bits. */
  datatype Long = Long32 | Long64

  function LimitOf(long: Long): int {
    match long
    case Long32 => 0x8000_0000
    case Long64 => 0x8000_0000_0000_0000
  }

  /** A number read by atoi and stored as a 32-bit unsigned int. */
  function ToUnsigned(long: Long, n: int): (r: int)
    ensures 0 <= r < UINT_SIZE && (0 <= n < UINT_SIZE ==> (r == n <==> n < LimitOf(long)))
  {
    var limit := LimitOf(long);
    var capped := if n >= limit then limit - 1 else if n < -limit then -limit else n;
    capped % UINT_SIZE
  }

  // ----- parsing

  function ParsedRange(long: Long, s: Text): Range {
    var dash, comma := IndexOf(s, MINUS), IndexOf(s, COMMA);
    var min := ToUnsigned(long, Atoi(s));
    Range(min, if dash >= 0 && (comma < 0 || dash < comma) then ToUnsigned(long, Atoi(s[dash + 1..])) else min)
  }

  function Parsed(long: Long, s: Text): seq<Range> {
    if s == [] then []
    else
      var comma := IndexOf(s, COMMA);
      [ParsedRange(long, s)] + if comma < 0 then [] else Parsed(long, s[comma + 1..])
  }

  /** The bounds of the range at `pos`: a second one only if its dash comes before the comma. */
  method ParseBounds(long: Long, value: array<byte>, pos: nat, ghost end: nat, pos2: int, pos3: int)
    returns (range: Range)
    requires CString(value, pos, end) && pos < end
    requires var dash := IndexOf(value[pos..end], MINUS); pos2 == if dash < 0 then -1 else pos + dash
    requires var comma := IndexOf(value[pos..end], COMMA); pos3 == if comma < 0 then -1 else pos + comma
    ensures range == ParsedRange(long, value[pos..end])
  {
    var stop := StrEnd(value, pos, end);
    var min := ToUnsigned(long, Atoi(value[pos..stop]));
    range := Range(min, min);
    if pos2 != -1 && (pos3 == -1 || pos2 < pos3) {
      TailOfSlice(value, pos, end, pos2 + 1);
      range := Range(min, ToUnsigned(long, Atoi(value[pos2 + 1..stop])));
    }
  }

  /** The range at `pos` and where the next one starts, or -1. */
  method ParseOne(long: Long, value: array<byte>, pos: nat, ghost end: nat) returns (range: Range, next: int)
    requires CString(value, pos, end) && pos < end
    ensures range == ParsedRange(long, value[pos..end])
    ensures var comma := IndexOf(value[pos..end], COMMA);
      if comma < 0 then next == -1
      else pos < next <= end && value[next..end] == value[pos..end][comma + 1..]
  {
    var pos2 := StrChr(value, pos, end, MINUS);
    var pos3 := StrChr(value, pos, end, COMMA);
    range := ParseBounds(long, value, pos, end, pos2, pos3);
    next := pos3;
    if next != -1 {
      next := next + 1;
      TailOfSlice(value, pos, end, next);
    }
  }

  /** freq_range_list_parse; no text at all gives the empty list. */
  method FreqRangeListParse(long: Long, value: array?<byte>, ghost end: nat) returns (ranges: seq<Range>)
    requires value != null ==> CString(value, 0, end)
    ensures ranges == if value == null then [] else Parsed(long, value[..end])
  {
    ranges := [];
    if value == null {
      return;
    }
    var pos := 0;
    assert value[0..end] == value[..end];
    while pos != -1 && value[pos] != NUL
      invariant pos == -1 || 0 <= pos <= end
      invariant Parsed(long, value[..end]) == ranges + if pos == -1 then [] else Parsed(long, value[pos..end])
      decreases if pos == -1 then 0 else end - pos + 1
    {
      var range, next := ParseOne(long, value, pos, end);
      ParsedStep(long, value[pos..end]);
      Appended(ranges, range, if next == -1 then [] else Parsed(long, value[next..end]));
      ranges := ranges + [range];
      pos := next;
    }
  }

  lemma ParsedStep(long: Long, s: Text)
    requires s != []
    ensures var comma := IndexOf(s, COMMA);
      Parsed(long, s) == [ParsedRange(long, s)] + if comma < 0 then [] else Parsed(long, s[comma + 1..])
  {
  }

  lemma Appended(a: seq<Range>, r: Range, b: seq<Range>)
    ensures a + ([r] + b) == (a + [r]) + b
  {
  }

  // ----- printing

  function RangeText(r: Range): Text
    requires IsUnsigned(r)
  {
    if r.min == r.max then Digits(r.min) else Digits(r.min) + [MINUS] + Digits(r.max)
  }

  function Texts(list: seq<Range>): seq<Text>
    requires forall i :: 0 <= i < |list| ==> IsUnsigned(list[i])
  {
    seq(|list|, i requires 0 <= i < |list| => RangeText(list[i]))
  }

  function ListText(list: seq<Range>): Text
    requires list != [] && forall i :: 0 <= i < |list| ==> IsUnsigned(list[i])
  {
    Joined(COMMA, Texts(list))
  }

  /** A printed range and a comma never take more than 22 bytes. */
  lemma RangeTextLength(r: Range)
    requires IsUnsigned(r)
    ensures |RangeText(r)| <= 21
  {
    assert PowerOfTen(10) == 10000000000 by {
      assert PowerOfTen(5) == 100000;
      assert PowerOfTen(10) == 10 * 10 * 10 * 10 * 10 * PowerOfTen(5);
    }
    DigitsLength(r.min, 10);
    DigitsLength(r.max, 10);
  }

  /** What snprintf adds for range `i`. */
  function Piece(list: seq<Range>, i: nat): Text
    requires i < |list| && IsUnsigned(list[i])
  {
    (if i == 0 then [] else [COMMA]) + RangeText(list[i])
  }

  ghost predicate AllUnsigned(list: seq<Range>) {
    forall i :: 0 <= i < |list| ==> IsUnsigned(list[i])
  }

  /** freq_range_list_str: the text and its terminator always fit. */
  method FreqRangeListStr(list: seq<Range>) returns (buf: array?<byte>, ghost n: nat)
    requires AllUnsigned(list)
    ensures list == [] <==> buf == null
    ensures list != [] ==> buf.Length == |list| * BYTES_PER_RANGE && CString(buf, 0, n) && buf[..n] == ListText(list)
  {
    n := 0;
    if list == [] {
      return null, 0;
    }
    var maxlen := |list| * BYTES_PER_RANGE;
    var text := new byte[maxlen];
    var pos, i := 0, 0;
    while i < |list|
      invariant 0 <= i <= |list| && 0 <= pos && Printed(text, pos, list, i)
    {
      pos := PutRange(text, pos, list, i);
      i := i + 1;
    }
    assert list[..i] == list;
    assert forall j :: 0 <= j < pos ==> text[..pos][j] == text[j];
    n := pos;
    buf := text;
  }

  /** The text of the first `i` ranges stands before `pos`, and its terminator there. */
  ghost predicate Printed(text: array<byte>, pos: nat, list: seq<Range>, i: nat)
    reads text
  {
    && AllUnsigned(list) && i <= |list| && text.Length == |list| * BYTES_PER_RANGE && pos <= 22 * i && pos < text.Length
    && text[..pos] == (if i == 0 then [] else ListText(list[..i])) && NulFree(text[..pos])
    && (i > 0 ==> text[pos] == NUL)
  }

  /** One turn of the loop: range `i` and, in front of it, a comma. */
  method PutRange(text: array<byte>, pos: nat, list: seq<Range>, i: nat) returns (next: nat)
    requires i < |list| && Printed(text, pos, list, i)
    modifies text
    ensures Printed(text, next, list, i + 1)
  {
    RangeTextLength(list[i]);
    PieceNext(list, i);
    next := PutPiece(text, pos, Piece(list, i));
    assert text[..next] == old(text[..pos]) + Piece(list, i);
  }

  /** snprintf of a text that fits with its terminator. */
  method PutPiece(text: array<byte>, pos: nat, piece: Text) returns (next: nat)
    requires pos + |piece| < text.Length
    modifies text
    ensures next == pos + |piece| && text[..next] == old(text[..pos]) + piece && text[next] == NUL
  {
    next := pos + |piece|;
    forall k | 0 <= k < |piece| {
      text[pos + k] := piece[k];
    }
    text[next] := NUL;
  }

  lemma PieceNext(list: seq<Range>, i: nat)
    requires AllUnsigned(list) && i < |list|
    ensures NulFree(Piece(list, i))
    ensures ListText(list[..i + 1]) == (if i == 0 then [] else ListText(list[..i])) + Piece(list, i)
  {
    assert list[..i + 1] == list[..i] + [list[i]];
    if i > 0 {
      assert Texts(list[..i + 1]) == Texts(list[..i]) + [RangeText(list[i])];
      JoinedConcat(COMMA, Texts(list[..i]), [RangeText(list[i])]);
      ConcatAssociates(ListText(list[..i]), [COMMA], RangeText(list[i]));
    }
  }

  // ----- the round trip

  predicate AfterRange(rest: Text) {
    rest == [] || rest[0] == COMMA
  }

  /** What a printed range is read as. */
  function ReadBack(long: Long, r: Range): Range {
    Range(ToUnsigned(long, r.min), ToUnsigned(long, r.max))
  }

  /** Reading a printed range, whatever ranges follow it. */
  lemma RangeIsRead(long: Long, r: Range, rest: Text)
    requires IsUnsigned(r) && AfterRange(rest)
    ensures var s := RangeText(r) + rest;
      && s != [] && ParsedRange(long, s) == ReadBack(long, r)
      && IndexOf(s, COMMA) == if rest == [] then -1 else |RangeText(r)|
  {
    var s := RangeText(r) + rest;
    RangeEnds(r, rest, s);
    if r.min == r.max {
      NumberIsRead(long, r, rest, s);
    } else {
      PairIsRead(long, r, rest, s);
    }
  }

  lemma RangeEnds(r: Range, rest: Text, s: Text)
    requires IsUnsigned(r) && AfterRange(rest) && s == RangeText(r) + rest
    ensures s != [] && IndexOf(s, COMMA) == if rest == [] then -1 else |RangeText(r)|
  {
    var text := RangeText(r);
    assert forall j :: 0 <= j < |text| ==> s[j] == text[j] && text[j] != COMMA;
    assert rest != [] ==> s[|text|] == COMMA;
    CommaIs(s, |text|, rest);
  }

  lemma NumberIsRead(long: Long, r: Range, rest: Text, s: Text)
    requires IsUnsigned(r) && AfterRange(rest) && r.min == r.max && s == Digits(r.min) + rest
    requires IndexOf(s, COMMA) == if rest == [] then -1 else |Digits(r.min)|
    ensures ParsedRange(long, s) == ReadBack(long, r)
  {
    AtoiPrinted(r.min, rest);
    assert forall j :: 0 <= j < |Digits(r.min)| ==> s[j] == Digits(r.min)[j] != MINUS;
  }

  lemma PairIsRead(long: Long, r: Range, rest: Text, s: Text)
    requires IsUnsigned(r) && AfterRange(rest) && r.min != r.max && s == RangeText(r) + rest
    requires IndexOf(s, COMMA) == if rest == [] then -1 else |RangeText(r)|
    ensures ParsedRange(long, s) == ReadBack(long, r)
  {
    DashIs(Digits(r.min), Digits(r.max), rest);
    AtoiPrinted(r.min, [MINUS] + Digits(r.max) + rest);
    AtoiPrinted(r.max, rest);
  }

  lemma DashIs(low: Text, high: Text, rest: Text)
    requires Without(low, MINUS)
    ensures var s := low + [MINUS] + high + rest;
      && s == low + ([MINUS] + high + rest)
      && IndexOf(s, MINUS) == |low| && s[|low| + 1..] == high + rest
  {
    var s := low + [MINUS] + high + rest;
    PartEnds(low, MINUS, high + rest);
    assert s == low + [MINUS] + (high + rest);
  }

  lemma CommaIs(s: Text, n: nat, rest: Text)
    requires |s| == n + |rest| && forall j :: 0 <= j < n ==> s[j] != COMMA
    requires if rest == [] then |s| == n else s[n] == COMMA
    ensures IndexOf(s, COMMA) == if rest == [] then -1 else n
  {
  }

  function AllReadBack(long: Long, list: seq<Range>): seq<Range> {
    seq(|list|, i requires 0 <= i < |list| => ReadBack(long, list[i]))
  }

  lemma ParsedNext(long: Long, r: Range, more: Text)
    requires IsUnsigned(r)
    ensures Parsed(long, RangeText(r)) == [ReadBack(long, r)]
    ensures Parsed(long, RangeText(r) + [COMMA] + more) == [ReadBack(long, r)] + Parsed(long, more)
  {
    var rest := [COMMA] + more;
    RangeIsRead(long, r, []);
    assert RangeText(r) + [] == RangeText(r);
    RangeIsRead(long, r, rest);
    assert RangeText(r) + [COMMA] + more == RangeText(r) + rest;
    assert (RangeText(r) + rest)[|RangeText(r)| + 1..] == more;
  }

  /** What is parsed from a printed list, of any length. */
  lemma {:induction false} PrintedIsRead(long: Long, list: seq<Range>)
    requires list != [] && AllUnsigned(list)
    ensures Parsed(long, ListText(list)) == AllReadBack(long, list)
  {
    var more := list[1..];
    if |list| == 1 {
      ParsedNext(long, list[0], []);
      assert ListText(list) == RangeText(list[0]);
    } else {
      ListTextNext(list);
      ParsedNext(long, list[0], ListText(more));
      PrintedIsRead(long, more);
    }
    ReadBackNext(long, list);
  }

  lemma ReadBackNext(long: Long, list: seq<Range>)
    requires list != []
    ensures AllReadBack(long, list) ==
      [ReadBack(long, list[0])] + if |list| == 1 then [] else AllReadBack(long, list[1..])
  {
  }

  lemma ListTextNext(list: seq<Range>)
    requires |list| > 1 && AllUnsigned(list)
    ensures ListText(list) == RangeText(list[0]) + [COMMA] + ListText(list[1..])
  {
    assert Texts(list)[1..] == Texts(list[1..]);
  }

  /** Parsing what was printed gives back the list exactly when every bound is a
      long: with longs of 64 bits always, with 32 bits for bounds below 2^31. */
  lemma ParsedPrinted(long: Long, list: seq<Range>)
    requires list != [] && AllUnsigned(list)
    ensures Parsed(long, ListText(list)) == list <==>
      forall i :: 0 <= i < |list| ==> list[i].min < LimitOf(long) && list[i].max < LimitOf(long)
  {
    PrintedIsRead(long, list);
    var back := AllReadBack(long, list);
    forall i | 0 <= i < |list|
      ensures back[i] == list[i] <==> list[i].min < LimitOf(long) && list[i].max < LimitOf(long)
    {
      assert list[i] == Range(list[i].min, list[i].max);
    }
  }

  predicate Includes(list: seq<Range>, freq: int) {
    exists i :: 0 <= i < |list| && list[i].min <= freq <= list[i].max
  }

  method FreqRangeListIncludes(list: seq<Range>, freq: int) returns (ret: int)
    ensures ret == if Includes(list, freq) then 1 else 0
  {
    var i := 0;
    while i < |list|
      invariant 0 <= i <= |list| && !Includes(list[..i], freq)
    {
      if freq >= list[i].min && freq <= list[i].max {
        return 1;
      }
      i := i + 1;
    }
    assert list[..i] == list;
    ret := 0;
  }
}
