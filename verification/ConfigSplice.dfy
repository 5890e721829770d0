/** update_ctrl_interface: replacing the value of the first ctrl_interface entry
    of a configuration file inside the buffer the file was read into
    (wifimanager/wifi.c). */
module ConfigSplice {
  import opened Bytes

  const IFACE_VALUE_MAX := 32
  const KEY: Text := Ascii("ctrl_interface=")
  const DIR_KEY: Text := Ascii("ctrl_interface=DIR=")
  const SLASH_KEY: Text := Ascii("ctrl_interface=/")
  const CONTROL_IFACE_PATH: Text := Ascii("/etc/wifi/sockets")

  function Newlines(n: nat): Text {
    seq(n, i => NEWLINE)
  }

  function StartsWith(t: Text, from: nat, s: Text): bool
    requires from <= |t|
  {
    from + |s| <= |t| && t[from..from + |s|] == s
  }

  /** The value is to be replaced: up to the first NUL there is an entry, and none
      names a directory. */
  predicate Replaces(t: Text) {
    var s := UpToNul(t);
    Contains(s, KEY) && !Contains(s, DIR_KEY) && !Contains(s, SLASH_KEY)
  }

  function ValueStart(t: Text): (k: nat)
    requires Contains(UpToNul(t), KEY)
    ensures k <= |UpToNul(t)|
  {
    Find(UpToNul(t), KEY) + |KEY|
  }

  /** A value to be replaced stands on a line that ends. */
  predicate LineEnds(t: Text) {
    Replaces(t) ==> IndexOf(t[ValueStart(t)..], NEWLINE) >= 0
  }

  /** How long the old value is, up to the end of its line. */
  function ValueLength(t: Text): (n: nat)
    requires Contains(UpToNul(t), KEY)
    ensures ValueStart(t) + n <= |t|
    ensures Replaces(t) && LineEnds(t) ==> ValueStart(t) + n < |t| && t[ValueStart(t) + n] == NEWLINE
  {
    var rest := t[ValueStart(t)..];
    var k := IndexOf(rest, NEWLINE);
    if k < 0 then |rest| else k
  }

  /** What follows the value's line has a length, which the code hands to memmove,
      exactly when that line ends; otherwise it is -1. */
  lemma TailIsMovable(t: Text)
    requires Replaces(t)
    ensures LineEnds(t) <==> 0 <= |t| - (ValueStart(t) + ValueLength(t) + 1)
  {
  }

  function Wider(n: nat): nat {
    if n >= |CONTROL_IFACE_PATH| then n else |CONTROL_IFACE_PATH|
  }

  /** The new value and what fills up the line of an old one of length `n`. */
  function NewValue(n: nat): Text {
    CONTROL_IFACE_PATH + Newlines(Wider(n) + 1 - |CONTROL_IFACE_PATH|)
  }

  /** The file afterwards: the value replaced, its line filled up with newlines. */
  function Spliced(t: Text): Text
    requires LineEnds(t)
  {
    if !Replaces(t) then t
    else
      var at, n := ValueStart(t), ValueLength(t);
      t[..at] + NewValue(n) + t[at + n + 1..]
  }

  // ----- the buffer

  /** memmove inside one buffer. */
  method MoveBytes(a: array<byte>, dst: nat, src: nat, n: nat)
    requires dst + n <= a.Length && src + n <= a.Length
    modifies a
    ensures a[dst..dst + n] == old(a[src..src + n])
    ensures forall k :: 0 <= k < a.Length && !(dst <= k < dst + n) ==> a[k] == old(a[k])
  {
    forall k | dst <= k < dst + n {
      a[k] := a[k - dst + src];
    }
  }

  /** memset and memcpy over the old value. */
  method PutValue(a: array<byte>, at: nat, width: nat, ghost n: nat)
    requires width == Wider(n) + 1 && at + width <= a.Length
    modifies a
    ensures a[at..at + width] == NewValue(n)
    ensures forall k :: 0 <= k < a.Length && !(at <= k < at + width) ==> a[k] == old(a[k])
  {
    forall k | at <= k < at + width {
      a[k] := NEWLINE;
    }
    forall k | at <= k < at + |CONTROL_IFACE_PATH| {
      a[k] := CONTROL_IFACE_PATH[k - at];
    }
  }

  /** The length of the value, counted up to the end of its line. */
  method LineLength(pbuf: array<byte>, nread: nat, iptr: nat, ghost t: Text) returns (ilen: nat)
    requires Contains(UpToNul(t), KEY) && iptr == ValueStart(t) && nread == |t| <= pbuf.Length && pbuf[..nread] == t
    ensures ilen == ValueLength(t)
  {
    ghost var n := LineOf(t);
    ilen := 0;
    while ilen + iptr < nread && pbuf[iptr + ilen] != NEWLINE
      invariant ilen <= n
      decreases n - ilen
    {
      assert pbuf[iptr + ilen] == t[iptr + ilen];
      ilen := ilen + 1;
    }
    assert iptr + ilen < nread ==> pbuf[iptr + ilen] == t[iptr + ilen];
  }

  lemma LineOf(t: Text) returns (n: nat)
    requires Contains(UpToNul(t), KEY)
    ensures n == ValueLength(t) && forall k :: ValueStart(t) <= k < ValueStart(t) + n ==> t[k] != NEWLINE
    ensures ValueStart(t) + n < |t| ==> t[ValueStart(t) + n] == NEWLINE
  {
    n := ValueLength(t);
    var at, rest := ValueStart(t), t[ValueStart(t)..];
    assert forall k :: at <= k < |t| ==> t[k] == rest[k - at];
  }

  /** Moves what follows the value's line and puts the new value in its place. */
  method ReplaceValue(pbuf: array<byte>, nread: nat, iptr: nat, ilen: nat, mlen: nat, ghost t: Text) returns (size: nat)
    requires iptr + ilen + 1 <= nread == |t| && mlen == Wider(ilen) + 1
    requires nread + mlen - ilen - 1 <= pbuf.Length && pbuf[..nread] == t
    modifies pbuf
    ensures nread <= size == nread + mlen - ilen - 1
    ensures pbuf[..size] == t[..iptr] + NewValue(ilen) + t[iptr + ilen + 1..]
  {
    size := nread + mlen - ilen - 1;
    MoveTail(pbuf, nread, iptr, ilen, mlen, size, t);
    ghost var front, tail := t[..iptr], t[iptr + ilen + 1..];
    PutValue(pbuf, iptr, mlen, ilen);
    assert pbuf[iptr + mlen..size] == tail && pbuf[..iptr] == front;
    InThree(pbuf, iptr, iptr + mlen, size);
  }

  method MoveTail(pbuf: array<byte>, nread: nat, iptr: nat, ilen: nat, mlen: nat, ghost size: nat, ghost t: Text)
    requires iptr + ilen + 1 <= nread == |t| && ilen + 1 <= mlen && size == nread + mlen - ilen - 1 <= pbuf.Length
    requires pbuf[..nread] == t
    modifies pbuf
    ensures pbuf[iptr + mlen..size] == t[iptr + ilen + 1..] && pbuf[..iptr] == t[..iptr]
  {
    assert pbuf[iptr + ilen + 1..nread] == t[iptr + ilen + 1..] && pbuf[..iptr] == t[..iptr];
    MoveBytes(pbuf, iptr + mlen, iptr + ilen + 1, nread - (iptr + ilen + 1));
  }

  lemma InThree(a: array<byte>, i: nat, j: nat, n: nat)
    requires i <= j <= n <= a.Length
    ensures a[..n] == a[..i] + a[i..j] + a[j..n]
  {
  }

  /** Replaces the value inside the buffer; the new length of its contents. */
  method Splice(pbuf: array<byte>, nread: nat, iptr: nat, ghost t: Text) returns (size: nat)
    requires Replaces(t) && LineEnds(t) && iptr == ValueStart(t) && nread == |t|
    requires pbuf.Length == nread + IFACE_VALUE_MAX && pbuf[..nread] == t
    modifies pbuf
    ensures nread <= size <= pbuf.Length && pbuf[..size] == Spliced(t)
  {
    var ilen := LineLength(pbuf, nread, iptr, t);
    var mlen := Wider(ilen) + 1;
    size := ReplaceValue(pbuf, nread, iptr, ilen, mlen, t);
  }

  /** A write over the front of a file that is not truncated. */
  function WrittenOver(file: Text, front: Text): Text {
    if |front| >= |file| then front else front + file[|front|..]
  }

  /** `file` is what the file holds before and `updated` what it holds after: the
      buffer is written over its front without truncating it. */
  method UpdateCtrlInterface(file: Text) returns (ret: int, updated: Text)
    requires LineEnds(file)
    ensures ret == if Contains(UpToNul(file), KEY) then 0 else -1
    ensures updated == Spliced(file)
  {
    var nread := |file|;
    var pbuf := new byte[nread + IFACE_VALUE_MAX](i => if 0 <= i < |file| then file[i] else NUL);
    assert pbuf[..nread] == file;
    updated := file;
    var sptr;
    ret, sptr := FindEntry(pbuf, file);
    if sptr != -1 {
      var iptr := sptr + |KEY|;
      NoSlash(file);
      if !StartsWith(pbuf[..nread], iptr, CONTROL_IFACE_PATH) {
        var size := Splice(pbuf, nread, iptr, file);
        updated := WrittenOver(file, pbuf[..size]);
      }
    }
  }

  /** strstr for the entry, and for the two kinds of values that stay: the entry to
      be rewritten, or -1, and whether there is any. */
  method FindEntry(pbuf: array<byte>, ghost file: Text) returns (ret: int, sptr: int)
    requires |file| < pbuf.Length && pbuf[..|file|] == file && pbuf[|file|] == NUL
    ensures ret == if Contains(UpToNul(file), KEY) then 0 else -1
    ensures sptr == if Replaces(file) then Find(UpToNul(file), KEY) else -1
  {
    ghost var s := UpToNul(file);
    assert pbuf[0..|s|] == file[..|s|] == s;
    assert forall k :: 0 <= k < |s| ==> pbuf[k] == s[k];
    assert |s| < |file| ==> pbuf[|s|] == file[|s|];
    ret := -1;
    sptr := StrStr(pbuf, 0, |s|, KEY);
    if sptr != -1 {
      ret := 0;
      var dir := StrStr(pbuf, 0, |s|, DIR_KEY);
      var slash := StrStr(pbuf, 0, |s|, SLASH_KEY);
      if dir != -1 || slash != -1 {
        sptr := -1;
      }
    }
  }

  /** A value that is not a directory never starts with the new one. */
  lemma NoSlash(t: Text)
    requires Replaces(t)
    ensures ValueStart(t) <= |t| && !StartsWith(t, ValueStart(t), CONTROL_IFACE_PATH)
  {
    var s := UpToNul(t);
    var p, at := Find(s, KEY), ValueStart(t);
    if StartsWith(t, at, CONTROL_IFACE_PATH) {
      assert t[at] == t[at..at + |CONTROL_IFACE_PATH|][0] == CONTROL_IFACE_PATH[0] != NUL;
      assert s[at] == t[at];
      forall m | 0 <= m < |SLASH_KEY| ensures s[p + m] == SLASH_KEY[m] {
        assert m < |KEY| ==> s[p + m] == KEY[m] == SLASH_KEY[m];
      }
      assert OccursAt(s, SLASH_KEY, p);
    }
  }

  // ----- what the rewritten file is

  lemma FourParts(u: Text, a: Text, b: Text, c: Text, d: Text, i: nat, j: nat, k: nat)
    requires u == a + b + c + d && i == |a| && j == i + |b| && k == j + |c|
    ensures k <= |u| && u[..i] == a && u[i..j] == b && u[j..k] == c && u[k..] == d
  {
  }

  lemma SplicedLengths(t: Text, at: nat, n: nat)
    requires Replaces(t) && LineEnds(t) && at == ValueStart(t) && n == ValueLength(t)
    ensures at + n < |t| && |CONTROL_IFACE_PATH| == 17 && n <= Wider(n)
    ensures |Spliced(t)| == at + Wider(n) + 1 + |t| - (at + n + 1)
  {
  }

  /** Everything before the value and after its line survives in order; between
      them stand the new value and newlines only.  The file grows by at most the
      new value's length and never shrinks. */
  lemma SplicedMeans(t: Text)
    requires Replaces(t) && LineEnds(t)
    ensures var u, at, n, m := Spliced(t), ValueStart(t), ValueLength(t), |CONTROL_IFACE_PATH|;
      var grown := |u| - |t|;
      && 0 <= grown <= m <= IFACE_VALUE_MAX && u[..at] == t[..at] && u[at + n + 1 + grown..] == t[at + n + 1..]
      && u[at..at + m] == CONTROL_IFACE_PATH
      && at + m < at + n + 1 + grown && u[at + m..at + n + 1 + grown] == Newlines(n + 1 + grown - m)
  {
    var at, n := ValueStart(t), ValueLength(t);
    var j, k := at + |CONTROL_IFACE_PATH|, at + Wider(n) + 1;
    SplicedLengths(t, at, n);
    var fill := Newlines(k - j);
    ConcatAssociates(t[..at], CONTROL_IFACE_PATH, fill);
    FourParts(Spliced(t), t[..at], CONTROL_IFACE_PATH, fill, t[at + n + 1..], at, j, k);
  }

  /** The first entry of the rewritten file is at the same place and its value is
      the new path, up to the end of the line. */
  lemma SplicedEntry(t: Text)
    requires Replaces(t) && LineEnds(t)
    ensures var u := Spliced(t);
      && Find(UpToNul(u), KEY) == Find(UpToNul(t), KEY) && ValueLength(u) == |CONTROL_IFACE_PATH|
      && Contains(UpToNul(u), SLASH_KEY) && LineEnds(u)
  {
    var u, s, p, at := Spliced(t), UpToNul(t), Find(UpToNul(t), KEY), ValueStart(t);
    SplicedBytes(t);
    StringGoesOn(t, u, at);
    FindKept(s, UpToNul(u), p, at);
    ValueEndsAt(u, at, CONTROL_IFACE_PATH);
    SlashOccurs(UpToNul(u), p);
  }

  /** The string at the front of the rewritten file reaches behind the new value. */
  lemma StringGoesOn(t: Text, u: Text, at: nat)
    requires at <= |UpToNul(t)| && at + |CONTROL_IFACE_PATH| < |u| && u[..at] == t[..at]
    requires u[at..at + |CONTROL_IFACE_PATH|] == CONTROL_IFACE_PATH && u[at + |CONTROL_IFACE_PATH|] == NEWLINE
    ensures at + |CONTROL_IFACE_PATH| < |UpToNul(u)| && UpToNul(u)[..at] == UpToNul(t)[..at]
    ensures UpToNul(u)[at] == u[at]
  {
    var m, s := |CONTROL_IFACE_PATH|, UpToNul(u);
    forall k | 0 <= k <= at + m ensures u[k] != NUL {
      if k < at {
        assert u[k] == u[..at][k] == t[..at][k] == UpToNul(t)[k];
      } else if k < at + m {
        assert u[k] == u[at..at + m][k - at] == CONTROL_IFACE_PATH[k - at];
      }
    }
    assert UpToNul(t)[..at] == t[..at] && s[..at] == u[..at];
  }

  lemma SplicedBytes(t: Text)
    requires Replaces(t) && LineEnds(t)
    ensures var u, at, m := Spliced(t), ValueStart(t), |CONTROL_IFACE_PATH|;
      && at <= |t| && at + m < |u| && u[..at] == t[..at] && u[at..at + m] == CONTROL_IFACE_PATH
      && u[at] == CONTROL_IFACE_PATH[0] && u[at + m] == NEWLINE
  {
    var u, at, m := Spliced(t), ValueStart(t), |CONTROL_IFACE_PATH|;
    SplicedMeans(t);
    var n := ValueLength(t) + 1 + |u| - |t|;
    assert u[at + m] == u[at + m..at + n][0];
    assert u[at] == u[at..at + m][0];
  }

  lemma FindKept(t: Text, u: Text, p: nat, at: nat)
    requires Find(t, KEY) == p && at == p + |KEY| && at <= |t| && at <= |u| && u[..at] == t[..at]
    ensures Find(u, KEY) == p
  {
    forall k | 0 <= k < at ensures u[k] == t[k] {
      assert u[..at][k] == t[..at][k];
    }
    forall m | 0 <= m < |KEY| ensures u[p + m] == KEY[m] {
      assert t[p + m] == KEY[m];
    }
    forall j | j < p ensures !OccursAt(u, KEY, j) {
      if OccursAt(u, KEY, j) {
        OccursKept(t, u, at, j);
      }
    }
    FindIs(u, KEY, p);
  }

  lemma OccursKept(t: Text, u: Text, at: nat, j: int)
    requires at <= |t| && at <= |u| && u[..at] == t[..at] && j + |KEY| <= at && OccursAt(u, KEY, j)
    ensures OccursAt(t, KEY, j)
  {
    forall m | 0 <= m < |KEY| ensures t[j + m] == KEY[m] {
      assert u[..at][j + m] == t[..at][j + m];
      assert u[j + m] == KEY[m];
    }
  }

  lemma ValueEndsAt(u: Text, at: nat, value: Text)
    requires Contains(UpToNul(u), KEY) && ValueStart(u) == at && at + |value| < |u| && u[at + |value|] == NEWLINE
    requires u[at..at + |value|] == value && forall k :: 0 <= k < |value| ==> value[k] != NEWLINE
    ensures ValueLength(u) == |value|
  {
    var rest := u[at..];
    assert rest[|value|] == NEWLINE;
    forall k | 0 <= k < |value| ensures rest[k] != NEWLINE {
      assert rest[k] == u[at..at + |value|][k];
    }
  }

  lemma SlashOccurs(u: Text, p: nat)
    requires Find(u, KEY) == p && p + |KEY| < |u| && u[p + |KEY|] == CONTROL_IFACE_PATH[0]
    ensures Contains(u, SLASH_KEY)
  {
    forall m | 0 <= m < |SLASH_KEY| ensures u[p + m] == SLASH_KEY[m] {
      assert m < |KEY| ==> u[p + m] == KEY[m] == SLASH_KEY[m];
    }
    assert OccursAt(u, SLASH_KEY, p);
  }

  /** A second run changes nothing. */
  lemma SpliceIsIdempotent(t: Text)
    requires LineEnds(t)
    ensures LineEnds(Spliced(t)) && Spliced(Spliced(t)) == Spliced(t)
  {
    if Replaces(t) {
      SplicedEntry(t);
    }
  }
}
