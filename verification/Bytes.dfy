/** Byte strings as the C code handles them.

    A `Text` is the contents of a C string without its terminating NUL; the
    constants are the bytes the protocol and the codecs give a meaning to. */
module Bytes {

  type byte = b: int | 0 <= b < 256

  type Text = seq<byte>

  datatype Option<+T> = None | Some(value: T)

  const NUL: byte := 0
  const TAB: byte := 9
  const NEWLINE: byte := 10
  const CARRIAGE_RETURN: byte := 13
  const ESCAPE: byte := 27
  const SPACE: byte := 32
  const QUOTE: byte := 34
  const COMMA: byte := 44
  const MINUS: byte := 45
  const DIGIT_ZERO: byte := 48
  const BACKSLASH: byte := 92
  const LOWER_A: byte := 97
  const LOWER_X: byte := 120

  predicate NulFree(s: Text) {
    forall i :: 0 <= i < |s| ==> s[i] != NUL
  }

  /** The bytes of a printable ASCII literal. */
  function Ascii(s: string): (t: Text)
    requires forall i :: 0 <= i < |s| ==> ' ' <= s[i] <= '~'
    ensures |t| == |s| && forall i :: 0 <= i < |t| ==> 32 <= t[i] <= 126
  {
    seq(|s|, i requires 0 <= i < |s| => s[i] as int)
  }

  /** The byte a C string read at `i` yields: its terminator is readable, nothing after it is. */
  function At(s: Text, i: nat): byte
    requires i <= |s|
  {
    if i < |s| then s[i] else NUL
  }

  /** The first `n` bytes, or all if there are fewer. */
  function Prefix(t: Text, n: nat): Text {
    if |t| <= n then t else t[..n]
  }

  lemma ConcatAssociates(a: Text, b: Text, c: Text)
    ensures (a + b) + c == a + (b + c)
  {
  }

  /** Replaces every byte of `s` by the text `f` gives for it. */
  function Spread(f: byte -> Text, s: Text): (t: Text) {
    if s == [] then [] else f(s[0]) + Spread(f, s[1..])
  }

  lemma {:induction false} SpreadConcat(f: byte -> Text, s: Text, t: Text)
    ensures Spread(f, s + t) == Spread(f, s) + Spread(f, t)
  {
    if s == [] {
      assert s + t == t;
    } else {
      assert (s + t)[1..] == s[1..] + t;
      SpreadConcat(f, s[1..], t);
    }
  }

  /** One more byte of `s` lengthens what a loop has produced by that byte's text. */
  lemma SpreadNext(f: byte -> Text, s: Text, i: nat)
    requires i < |s|
    ensures Spread(f, s[..i + 1]) == Spread(f, s[..i]) + f(s[i])
  {
    assert s[..i + 1] == s[..i] + [s[i]];
    SpreadConcat(f, s[..i], [s[i]]);
    assert Spread(f, [s[i]]) == f(s[i]) + Spread(f, []);
  }

  predicate OccursAt(s: Text, pat: Text, k: int) {
    0 <= k <= |s| - |pat| && forall m :: 0 <= m < |pat| ==> s[k + m] == pat[m]
  }

  /** strstr: the first occurrence of `pat`, or -1. */
  function Find(s: Text, pat: Text): (k: int)
    ensures k < 0 ==> k == -1 && forall j :: !OccursAt(s, pat, j)
    ensures k >= 0 ==> OccursAt(s, pat, k) && forall j :: j < k ==> !OccursAt(s, pat, j)
  {
    FindFrom(s, pat, 0)
  }

  function FindFrom(s: Text, pat: Text, from: nat): (k: int)
    ensures k < 0 ==> k == -1 && forall j :: from <= j ==> !OccursAt(s, pat, j)
    ensures k >= 0 ==> from <= k && OccursAt(s, pat, k) && forall j :: from <= j < k ==> !OccursAt(s, pat, j)
    decreases |s| - from
  {
    if from + |pat| > |s| then -1
    else if OccursAt(s, pat, from) then from
    else FindFrom(s, pat, from + 1)
  }

  predicate Contains(s: Text, pat: Text) {
    Find(s, pat) >= 0
  }

  /** An occurrence with no earlier one is what `Find` returns. */
  lemma FindIs(s: Text, pat: Text, k: nat)
    requires OccursAt(s, pat, k) && forall j :: j < k ==> !OccursAt(s, pat, j)
    ensures Find(s, pat) == k
  {
  }

  /** strchr: the first index of `c`, or -1. */
  function IndexOf(s: Text, c: byte): (k: int)
    ensures k < 0 ==> k == -1 && forall j :: 0 <= j < |s| ==> s[j] != c
    ensures k >= 0 ==> k < |s| && s[k] == c && forall j :: 0 <= j < k ==> s[j] != c
  {
    if s == [] then -1
    else if s[0] == c then 0
    else
      var k := IndexOf(s[1..], c);
      if k < 0 then -1 else k + 1
  }

  /** The C string at the front of a buffer: what stands before its first NUL. */
  function UpToNul(t: Text): (s: Text)
    ensures |s| <= |t| && s == t[..|s|] && NulFree(s) && (|s| < |t| ==> t[|s|] == NUL)
  {
    var k := IndexOf(t, NUL);
    if k < 0 then t else t[..k]
  }

  /** strrchr: the last index of `c`, or -1. */
  function LastIndexOf(s: Text, c: byte): (k: int)
    ensures k < 0 ==> k == -1 && forall j :: 0 <= j < |s| ==> s[j] != c
    ensures k >= 0 ==> k < |s| && s[k] == c && forall j :: k < j < |s| ==> s[j] != c
  {
    if s == [] then -1
    else if s[|s| - 1] == c then |s| - 1
    else LastIndexOf(s[..|s| - 1], c)
  }

  /** The C string that starts at `from` ends at `end`. */
  ghost predicate CString(a: array<byte>, from: nat, end: nat)
    reads a
  {
    from <= end < a.Length && a[end] == NUL && forall j :: from <= j < end ==> a[j] != NUL
  }

  lemma TailOfSlice(a: array<byte>, from: nat, end: nat, q: nat)
    requires from <= q <= end <= a.Length
    ensures a[from..end][q - from..] == a[q..end]
  {
    var s := a[from..end];
    forall k | 0 <= k < end - q ensures s[q - from..][k] == a[q..end][k] {
      assert s[q - from + k] == a[q + k];
    }
  }

  /** strchr on the C string that starts at `from` and ends at the NUL at `end`. */
  method StrChr(a: array<byte>, from: nat, ghost end: nat, c: byte) returns (k: int)
    requires CString(a, from, end) && c != NUL
    ensures var i := IndexOf(a[from..end], c); k == if i < 0 then -1 else from + i
  {
    ghost var i := IndexOf(a[from..end], c);
    k := from;
    while a[k] != c
      invariant from <= k <= end
      invariant i < 0 || k <= from + i
      decreases end - k
    {
      if a[k] == NUL {
        return -1;
      }
      assert a[from..end][k - from] == a[k];
      k := k + 1;
    }
    assert a[from..end][k - from] == a[k];
  }

  /** strrchr on the C string that starts at `from` and ends at the NUL at `end`. */
  method StrRChr(a: array<byte>, from: nat, ghost end: nat, c: byte) returns (k: int)
    requires CString(a, from, end) && c != NUL
    ensures var i := LastIndexOf(a[from..end], c); k == if i < 0 then -1 else from + i
  {
    ghost var s := a[from..end];
    k := -1;
    var j := from;
    while a[j] != NUL
      invariant from <= j <= end
      invariant k == -1 ==> forall m :: 0 <= m < j - from ==> s[m] != c
      invariant k != -1 ==> from <= k < j && s[k - from] == c && forall m :: k - from < m < j - from ==> s[m] != c
      decreases end - j
    {
      assert s[j - from] == a[j];
      if a[j] == c {
        k := j;
      }
      j := j + 1;
    }
  }

  /** strlen of the C string at `from`: where its terminator is. */
  method StrEnd(a: array<byte>, from: nat, ghost end: nat) returns (k: nat)
    requires CString(a, from, end)
    ensures k == end
  {
    k := from;
    while a[k] != NUL
      invariant from <= k <= end
      decreases end - k
    {
      k := k + 1;
    }
  }

  /** strstr on the C string that starts at `from` and ends at the NUL at `end`. */
  method StrStr(a: array<byte>, from: nat, ghost end: nat, pat: Text) returns (k: int)
    requires CString(a, from, end) && NulFree(pat)
    ensures var i := Find(a[from..end], pat); k == if i < 0 then -1 else from + i
  {
    ghost var s := a[from..end];
    k := from;
    while true
      invariant from <= k <= end
      invariant forall j :: j < k - from ==> !OccursAt(s, pat, j)
      decreases end - k
    {
      var m := 0;
      while m < |pat| && a[k + m] == pat[m]
        invariant 0 <= m <= |pat| && k + m <= end
        invariant forall i :: 0 <= i < m ==> s[k - from + i] == pat[i]
      {
        m := m + 1;
      }
      if m == |pat| {
        assert OccursAt(s, pat, k - from);
        return k;
      }
      if a[k] == NUL {
        return -1;
      }
      k := k + 1;
    }
    k := -1;
  }

  /** The first token strtok cuts from the C string at `from`: separators in
      front are skipped, the one behind becomes a NUL. */
  method StrTok(a: array<byte>, from: nat, ghost end: nat, c: byte) returns (p: int, stop: nat)
    requires CString(a, from, end) && c != NUL
    modifies a
    ensures forall k :: 0 <= k < a.Length && k != stop ==> a[k] == old(a[k])
    ensures from <= stop <= end && a[stop] == NUL
    ensures p == -1 ==> stop == end && forall k :: from <= k < end ==> old(a[k]) == c
    ensures p != -1 ==>
      && from <= p < stop && old(a[p]) != c && (stop == end || old(a[stop]) == c)
      && (forall k :: from <= k < p ==> old(a[k]) == c) && (forall k :: p <= k < stop ==> old(a[k]) != c)
  {
    p := from;
    while a[p] == c
      invariant from <= p <= end && forall k :: from <= k < p ==> a[k] == c
      decreases end - p
    {
      p := p + 1;
    }
    stop := p;
    if a[p] == NUL {
      return -1, stop;
    }
    while a[stop] != NUL && a[stop] != c
      invariant p <= stop <= end && (stop > p || a[p] != NUL) && forall k :: p <= k < stop ==> a[k] != c
      decreases end - stop
    {
      stop := stop + 1;
    }
    a[stop] := NUL;
  }
}
