/** Texts made of parts with a separator between them: lines of a table, fields
    of a row.  The walkers move through such a text part by part. */
module Lines {
  import opened Bytes

  predicate Without(part: Text, sep: byte) {
    forall i :: 0 <= i < |part| ==> part[i] != sep
  }

  predicate AllWithout(parts: seq<Text>, sep: byte) {
    forall i :: 0 <= i < |parts| ==> Without(parts[i], sep)
  }

  function Joined(sep: byte, parts: seq<Text>): Text
    requires parts != []
  {
    if |parts| == 1 then parts[0] else parts[0] + [sep] + Joined(sep, parts[1..])
  }

  /** A part ends at the first separator after it starts. */
  lemma PartEnds(part: Text, sep: byte, rest: Text)
    requires Without(part, sep)
    ensures IndexOf(part, sep) == -1
    ensures IndexOf(part + [sep] + rest, sep) == |part|
    ensures (part + [sep] + rest)[..|part|] == part && (part + [sep] + rest)[|part| + 1..] == rest
  {
    assert (part + [sep] + rest)[|part|] == sep;
  }

  /** Where the first part of a joined text ends and what follows it. */
  lemma FirstPart(sep: byte, parts: seq<Text>)
    requires parts != [] && Without(parts[0], sep)
    ensures var s := Joined(sep, parts);
      if |parts| == 1 then s == parts[0] && IndexOf(s, sep) == -1
      else IndexOf(s, sep) == |parts[0]| && s[..|parts[0]|] == parts[0] &&
           s[|parts[0]| + 1..] == Joined(sep, parts[1..])
  {
    if |parts| == 1 {
      assert IndexOf(parts[0], sep) == -1;
    } else {
      PartEnds(parts[0], sep, Joined(sep, parts[1..]));
    }
  }

  lemma {:induction false} JoinedWithout(sep: byte, parts: seq<Text>, c: byte)
    requires parts != [] && AllWithout(parts, c) && c != sep
    ensures Without(Joined(sep, parts), c)
  {
    if |parts| > 1 {
      JoinedWithout(sep, parts[1..], c);
    }
  }

  /** Joining commutes with concatenation of part lists. */
  lemma {:induction false} JoinedConcat(sep: byte, a: seq<Text>, b: seq<Text>)
    requires a != [] && b != []
    ensures Joined(sep, a + b) == Joined(sep, a) + [sep] + Joined(sep, b)
  {
    if |a| == 1 {
      assert (a + b)[1..] == b;
    } else {
      assert (a + b)[1..] == a[1..] + b;
      JoinedConcat(sep, a[1..], b);
    }
  }

  // ----- searching a text for a pattern that holds no separator

  lemma OccursAcross(part: Text, sep: byte, rest: Text, pat: Text, k: int)
    requires pat != [] && Without(pat, sep)
    ensures OccursAt(part + [sep] + rest, pat, k) <==>
      OccursAt(part, pat, k) || (|part| < k && OccursAt(rest, pat, k - |part| - 1))
  {
    var s := part + [sep] + rest;
    if OccursAt(s, pat, k) {
      forall q | k <= q < k + |pat| ensures s[q] != sep {
        assert s[k + (q - k)] == pat[q - k];
      }
      assert s[|part|] == sep;
      if |part| < k {
        forall m | 0 <= m < |pat| ensures rest[k - |part| - 1 + m] == pat[m] {
          assert s[k + m] == pat[m];
        }
      } else {
        forall m | 0 <= m < |pat| ensures part[k + m] == pat[m] {
          assert s[k + m] == pat[m];
        }
      }
    }
  }

  lemma FindAcross(part: Text, sep: byte, rest: Text, pat: Text)
    requires pat != [] && Without(pat, sep)
    ensures Find(part + [sep] + rest, pat) ==
      if Find(part, pat) >= 0 then Find(part, pat)
      else if Find(rest, pat) >= 0 then |part| + 1 + Find(rest, pat)
      else -1
  {
    var s := part + [sep] + rest;
    forall k ensures OccursAt(s, pat, k) <==>
      OccursAt(part, pat, k) || (|part| < k && OccursAt(rest, pat, k - |part| - 1))
    {
      OccursAcross(part, sep, rest, pat, k);
    }
    var p, r := Find(part, pat), Find(rest, pat);
    if p >= 0 {
      FindIs(s, pat, p);
    } else if r >= 0 {
      FindIs(s, pat, |part| + 1 + r);
    }
  }

  /** The first part at or after `from` that holds the pattern, or -1. */
  function FirstWith(parts: seq<Text>, pat: Text, from: nat): (j: int)
    ensures j < 0 ==> j == -1 && forall i :: from <= i < |parts| ==> Find(parts[i], pat) < 0
    ensures j >= 0 ==> from <= j < |parts| && Find(parts[j], pat) >= 0
    ensures j >= 0 ==> forall i :: from <= i < j ==> Find(parts[i], pat) < 0
    decreases |parts| - from
  {
    if from >= |parts| then -1
    else if Find(parts[from], pat) >= 0 then from
    else FirstWith(parts, pat, from + 1)
  }

  /** How far part `j` starts after part `i`. */
  function Offset(parts: seq<Text>, i: nat, j: nat): nat
    requires i <= j <= |parts|
    decreases j - i
  {
    if i == j then 0 else |parts[i]| + 1 + Offset(parts, i + 1, j)
  }

  /** A search through a joined text stops in the first part that holds the pattern. */
  lemma {:induction false} FindInJoined(sep: byte, parts: seq<Text>, pat: Text, i: nat)
    requires i < |parts| && pat != [] && Without(pat, sep)
    ensures var j := FirstWith(parts, pat, i);
      Find(Joined(sep, parts[i..]), pat) == if j < 0 then -1 else Offset(parts, i, j) + Find(parts[j], pat)
    decreases |parts| - i
  {
    var rest := parts[i..];
    if |rest| > 1 {
      assert rest[1..] == parts[i + 1..];
      FindAcross(parts[i], sep, Joined(sep, rest[1..]), pat);
      FindInJoined(sep, parts, pat, i + 1);
    }
  }

  // ----- searching for any pattern

  /** Searched from part `i` on, the pattern starts in that part or at the separator behind it. */
  predicate StartsIn(sep: byte, parts: seq<Text>, i: nat, pat: Text)
    requires i < |parts|
  {
    0 <= Find(Joined(sep, parts[i..]), pat) <= |parts[i]|
  }

  /** The first part at or after `from` in which the pattern starts, or -1. */
  function FirstStart(sep: byte, parts: seq<Text>, pat: Text, from: nat): (j: int)
    ensures j < 0 ==> j == -1 && forall i :: from <= i < |parts| ==> !StartsIn(sep, parts, i, pat)
    ensures j >= 0 ==> from <= j < |parts| && StartsIn(sep, parts, j, pat)
    ensures j >= 0 ==> forall i :: from <= i < j ==> !StartsIn(sep, parts, i, pat)
    decreases |parts| - from
  {
    if from >= |parts| then -1
    else if StartsIn(sep, parts, from, pat) then from
    else FirstStart(sep, parts, pat, from + 1)
  }

  lemma OccursBehind(part: Text, sep: byte, rest: Text, pat: Text, k: nat)
    ensures OccursAt(part + [sep] + rest, pat, |part| + 1 + k) <==> OccursAt(rest, pat, k)
  {
    var s, o := part + [sep] + rest, |part| + 1;
    assert s[o..] == rest;
    if OccursAt(rest, pat, k) {
      forall m | 0 <= m < |pat| ensures s[o + k + m] == pat[m] {
        assert s[o + k + m] == rest[k + m];
      }
    }
    if OccursAt(s, pat, o + k) {
      forall m | 0 <= m < |pat| ensures rest[k + m] == pat[m] {
        assert s[o + k + m] == rest[k + m];
      }
    }
  }

  lemma FindBehind(part: Text, sep: byte, rest: Text, pat: Text)
    requires !(0 <= Find(part + [sep] + rest, pat) <= |part|)
    ensures Find(part + [sep] + rest, pat) == if Find(rest, pat) < 0 then -1 else |part| + 1 + Find(rest, pat)
  {
    var s, o := part + [sep] + rest, |part| + 1;
    var k, r := Find(s, pat), Find(rest, pat);
    if k >= 0 {
      OccursBehind(part, sep, rest, pat, k - o);
      forall j | 0 <= j < k - o ensures !OccursAt(rest, pat, j) {
        OccursBehind(part, sep, rest, pat, j);
      }
      FindIs(rest, pat, k - o);
    } else if r >= 0 {
      OccursBehind(part, sep, rest, pat, r);
    }
  }

  /** A search through a joined text stops where the pattern starts first. */
  lemma {:induction false} FindFirstStart(sep: byte, parts: seq<Text>, pat: Text, i: nat)
    requires i < |parts| && pat != []
    ensures var j := FirstStart(sep, parts, pat, i);
      Find(Joined(sep, parts[i..]), pat) ==
        if j < 0 then -1 else Offset(parts, i, j) + Find(Joined(sep, parts[j..]), pat)
    decreases |parts| - i
  {
    var rest := parts[i..];
    if |rest| > 1 && !StartsIn(sep, parts, i, pat) {
      assert rest[1..] == parts[i + 1..];
      FindBehind(parts[i], sep, Joined(sep, rest[1..]), pat);
      FindFirstStart(sep, parts, pat, i + 1);
    }
  }

  /** A pattern without separators starts in the first part exactly when that part holds it. */
  lemma StartsInPart(sep: byte, parts: seq<Text>, pat: Text)
    requires parts != [] && pat != [] && Without(pat, sep)
    ensures var k := Find(Joined(sep, parts), pat);
      (0 <= k <= |parts[0]| <==> Contains(parts[0], pat)) && (Contains(parts[0], pat) ==> k == Find(parts[0], pat))
  {
    if |parts| > 1 {
      FindAcross(parts[0], sep, Joined(sep, parts[1..]), pat);
    }
  }

  lemma {:induction false} JoinedFrom(sep: byte, parts: seq<Text>, i: nat, j: nat)
    requires i <= j < |parts|
    ensures Offset(parts, i, j) <= |Joined(sep, parts[i..])|
    ensures Joined(sep, parts[i..])[Offset(parts, i, j)..] == Joined(sep, parts[j..])
    ensures i < j ==> Offset(parts, i, j) > 0 && Joined(sep, parts[i..])[Offset(parts, i, j) - 1] == sep
    decreases j - i
  {
    var rest := parts[i..];
    if i < j {
      assert rest[1..] == parts[i + 1..];
      JoinedFrom(sep, parts, i + 1, j);
    }
  }

  /** Where part `j` lies in the joined text and what follows it. */
  lemma PartAt(sep: byte, parts: seq<Text>, j: nat)
    requires j < |parts| && Without(parts[j], sep)
    ensures var s, o := Joined(sep, parts), Offset(parts, 0, j);
      && o + |parts[j]| <= |s| && s[o..o + |parts[j]|] == parts[j]
      && (j > 0 ==> o > 0 && s[o - 1] == sep)
      && (if j + 1 == |parts| then o + |parts[j]| == |s|
          else o + |parts[j]| < |s| && s[o + |parts[j]|] == sep &&
               s[o + |parts[j]|..] == Joined(sep, [[]] + parts[j + 1..]))
  {
    var tail := parts[j..];
    assert tail[1..] == parts[j + 1..];
    JoinedTail(sep, parts, j, tail);
    HeadAt(sep, tail);
    FromOffset(Joined(sep, parts), Offset(parts, 0, j), |parts[j]|, Joined(sep, tail));
  }

  /** The first part of a joined text and what follows it. */
  lemma HeadAt(sep: byte, parts: seq<Text>)
    requires parts != []
    ensures var s, n := Joined(sep, parts), |parts[0]|;
      && n <= |s| && s[..n] == parts[0]
      && (if |parts| == 1 then n == |s|
          else n < |s| && s[n] == sep && s[n..] == Joined(sep, [[]] + parts[1..]))
  {
    if |parts| > 1 {
      PartThenRest(sep, parts);
      PartIsFirst(sep, parts);
    }
  }

  lemma JoinedTail(sep: byte, parts: seq<Text>, j: nat, tail: seq<Text>)
    requires j < |parts| && tail == parts[j..]
    ensures var s, o := Joined(sep, parts), Offset(parts, 0, j);
      o <= |s| && s[o..] == Joined(sep, tail) && (j > 0 ==> o > 0 && s[o - 1] == sep)
  {
    assert parts[0..] == parts;
    JoinedFrom(sep, parts, 0, j);
  }

  lemma PartIsFirst(sep: byte, parts: seq<Text>)
    requires |parts| > 1
    ensures |parts[0]| <= |Joined(sep, parts)| && Joined(sep, parts)[..|parts[0]|] == parts[0]
  {
    ConcatAssociates(parts[0], [sep], Joined(sep, parts[1..]));
  }

  lemma FromOffset(s: Text, o: nat, n: nat, rest: Text)
    requires o <= |s| && s[o..] == rest && n <= |rest|
    ensures s[o..o + n] == rest[..n] && s[o + n..] == rest[n..]
    ensures n < |rest| ==> s[o + n] == rest[n]
  {
  }

  lemma PartThenRest(sep: byte, parts: seq<Text>)
    requires |parts| > 1
    ensures var s := Joined(sep, parts);
      |parts[0]| < |s| && s[|parts[0]|] == sep && s[|parts[0]|..] == Joined(sep, [[]] + parts[1..])
  {
    ConcatAssociates(parts[0], [sep], Joined(sep, parts[1..]));
    assert ([[]] + parts[1..])[1..] == parts[1..];
    assert [] + [sep] + Joined(sep, parts[1..]) == [sep] + Joined(sep, parts[1..]);
  }
}
