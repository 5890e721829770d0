/** The printf-style escaping of arbitrary octets (common.c): an encoder that
    writes into a bounded buffer and the decoder that must undo it. */
module PrintfCodec {
  import opened Bytes

  const SSID_MAX_LEN := 32

  /** The digit `%x` prints for a nibble. */
  function HexDigit(n: int): byte
    requires 0 <= n < 16
  {
    if n < 10 then DIGIT_ZERO + n else LOWER_A + n - 10
  }

  /** Both hex digits of a byte, as `%02x` prints them. */
  function HexByte(b: byte): (t: Text) {
    [HexDigit(b / 16), HexDigit(b % 16)]
  }

  function Hex2Num(c: byte): (n: int)
    ensures -1 <= n < 16
  {
    if 48 <= c <= 57 then c - 48
    else if 97 <= c <= 102 then c - 97 + 10
    else if 65 <= c <= 70 then c - 65 + 10
    else -1
  }

  /** The second digit is read only when the first one is a digit, hence not the terminator. */
  function Hex2Byte(s: Text, i: nat): (v: int)
    requires i <= |s| && NulFree(s)
    ensures -1 <= v < 256
  {
    var a := Hex2Num(At(s, i));
    if a < 0 then -1 else
      var b := Hex2Num(At(s, i + 1));
      if b < 0 then -1 else 16 * a + b
  }

  function EncodeByte(b: byte): (e: Text)
    ensures 1 <= |e| <= 4 && forall i :: 0 <= i < |e| ==> 32 <= e[i] <= 126
  {
    if b == QUOTE then [BACKSLASH, QUOTE]
    else if b == BACKSLASH then [BACKSLASH, BACKSLASH]
    else if b == ESCAPE then [BACKSLASH, 101]
    else if b == NEWLINE then [BACKSLASH, 110]
    else if b == CARRIAGE_RETURN then [BACKSLASH, 114]
    else if b == TAB then [BACKSLASH, 116]
    else if 32 <= b <= 126 then [b]
    else [BACKSLASH, LOWER_X] + HexByte(b)
  }

  function Encode(data: Text): (t: Text) {
    Spread(EncodeByte, data)
  }

  /** What the decoder stores for the first item of a non-empty rest, and how far it moves. */
  datatype Item = Item(stored: Text, taken: nat)

  /** The byte a one-letter escape stands for, or -1. */
  function OneLetter(c: byte): (v: int)
    ensures -1 <= v < 256
  {
    if c == BACKSLASH || c == QUOTE then c
    else if c == 110 then NEWLINE
    else if c == 114 then CARRIAGE_RETURN
    else if c == 116 then TAB
    else if c == 101 then ESCAPE
    else -1
  }

  function DecodeItem(s: Text): (r: Item)
    requires s != [] && NulFree(s)
    ensures 1 <= r.taken <= |s| && |r.stored| <= 1
  {
    if s[0] != BACKSLASH then Item([s[0]], 1)
    else
      var c := At(s, 1);
      if OneLetter(c) >= 0 then Item([OneLetter(c)], 2)
      else if c == LOWER_X then HexItem(s)
      else if IsOctal(c) then OctalItem(s)
      else Item([], 1)
  }

  /** Two hex digits, or one, or none. */
  function HexItem(s: Text): (r: Item)
    requires |s| >= 2 && NulFree(s)
    ensures 2 <= r.taken <= |s| && |r.stored| <= 1
  {
    var val := Hex2Byte(s, 2);
    if val >= 0 then Item([val], 4)
    else if Hex2Num(At(s, 2)) >= 0 then Item([Hex2Num(At(s, 2))], 3)
    else Item([], 2)
  }

  predicate IsOctal(c: byte) {
    48 <= c <= 55
  }

  /** One to three octal digits; the stored byte keeps only the low eight bits. */
  function OctalItem(s: Text): (r: Item)
    requires |s| >= 2 && IsOctal(s[1]) && NulFree(s)
    ensures 2 <= r.taken <= |s| && |r.stored| == 1
  {
    var one := s[1] - 48;
    if !IsOctal(At(s, 2)) then Item([one], 2)
    else
      var two: int := one * 8 + (s[2] - 48);
      if !IsOctal(At(s, 3)) then Item([two], 3)
      else Item([(two * 8 + (s[3] - 48)) % 256], 4)
  }

  function Decode(s: Text): (d: Text)
    requires NulFree(s)
    ensures |d| <= |s|
  {
    if s == [] then [] else
      var item := DecodeItem(s);
      item.stored + Decode(s[item.taken..])
  }

  lemma DecodeNext(s: Text, pos: nat)
    requires NulFree(s) && pos < |s|
    ensures var item := DecodeItem(s[pos..]); Decode(s[pos..]) == item.stored + Decode(s[pos + item.taken..])
  {
    var item := DecodeItem(s[pos..]);
    assert s[pos..][item.taken..] == s[pos + item.taken..];
  }

  /** Decoding undoes encoding, for all octet strings, zero bytes included. */
  lemma {:induction false} DecodeEncode(data: Text)
    ensures NulFree(Encode(data)) && Decode(Encode(data)) == data
  {
    EncodeIsPrintable(data);
    if data != [] {
      var e, rest := EncodeByte(data[0]), Encode(data[1..]);
      EncodeIsPrintable(data[1..]);
      assert Encode(data) == e + rest && (e + rest)[|e|..] == rest;
      DecodeItemOfEncoded(data[0], rest);
      DecodeEncode(data[1..]);
    }
  }

  /** No escape swallows what follows it. */
  lemma DecodeItemOfEncoded(b: byte, rest: Text)
    requires NulFree(rest)
    ensures DecodeItem(EncodeByte(b) + rest) == Item([b], |EncodeByte(b)|)
  {
    assert b == 16 * (b / 16) + b % 16;
  }

  /** Whatever the octets, the encoded form holds printable ASCII only: no
      separator of the text tables and no terminator. */
  lemma {:induction false} EncodeIsPrintable(data: Text)
    ensures forall i :: 0 <= i < |Encode(data)| ==> 32 <= Encode(data)[i] <= 126
  {
    if data != [] {
      EncodeIsPrintable(data[1..]);
      assert Encode(data) == EncodeByte(data[0]) + Encode(data[1..]);
    }
  }

  lemma EncodeInjective(d1: Text, d2: Text)
    requires Encode(d1) == Encode(d2)
    ensures d1 == d2
  {
    DecodeEncode(d1);
    DecodeEncode(d2);
  }

  lemma {:induction false} EncodeLength(data: Text)
    ensures |data| <= |Encode(data)| <= 4 * |data|
  {
    if data != [] {
      EncodeLength(data[1..]);
    }
  }

  /** Writes the escape of one byte at `pos`; printing in hexadecimal also
      terminates the text, as snprintf does. */
  method PutEncoded(txt: array<byte>, pos: nat, b: byte) returns (next: nat)
    requires pos + 4 < txt.Length
    modifies txt
    ensures next == pos + |EncodeByte(b)|
    ensures txt[pos..next] == EncodeByte(b)
    ensures forall k :: 0 <= k < pos || next < k < txt.Length ==> txt[k] == old(txt[k])
  {
    if b == QUOTE || b == BACKSLASH {
      txt[pos], txt[pos + 1] := BACKSLASH, b;
      next := pos + 2;
    } else if b == ESCAPE {
      txt[pos], txt[pos + 1] := BACKSLASH, 101;
      next := pos + 2;
    } else if b == NEWLINE {
      txt[pos], txt[pos + 1] := BACKSLASH, 110;
      next := pos + 2;
    } else if b == CARRIAGE_RETURN {
      txt[pos], txt[pos + 1] := BACKSLASH, 114;
      next := pos + 2;
    } else if b == TAB {
      txt[pos], txt[pos + 1] := BACKSLASH, 116;
      next := pos + 2;
    } else if 32 <= b <= 126 {
      txt[pos] := b;
      next := pos + 1;
    } else {
      txt[pos], txt[pos + 1] := BACKSLASH, LOWER_X;
      txt[pos + 2], txt[pos + 3], txt[pos + 4] := HexDigit(b / 16), HexDigit(b % 16), NUL;
      next := pos + 4;
    }
  }

  /** Encodes as many bytes as fit, always leaving room for the longest escape
      and the terminator; `n` is how many. */
  method PrintfEncode(txt: array<byte>, maxlen: nat, data: Text) returns (ghost n: nat)
    requires 1 <= maxlen <= txt.Length
    modifies txt
    ensures n <= |data| && |Encode(data[..n])| < maxlen
    ensures txt[..|Encode(data[..n])|] == Encode(data[..n]) && txt[|Encode(data[..n])|] == NUL
    ensures forall k :: |Encode(data[..n])| < k < txt.Length ==> txt[k] == old(txt[k])
    ensures n < |data| ==> |Encode(data[..n])| + 4 >= maxlen
    ensures maxlen > 4 * |data| ==> n == |data|
  {
    var pos, i := 0, 0;
    while i < |data|
      invariant 0 <= i <= |data| && pos == |Encode(data[..i])| < maxlen
      invariant txt[..pos] == Encode(data[..i])
      invariant forall k :: pos < k < txt.Length ==> txt[k] == old(txt[k])
    {
      if pos + 4 >= maxlen {
        break;
      }
      ghost var start := pos;
      pos := PutEncoded(txt, pos, data[i]);
      SpreadNext(EncodeByte, data, i);
      assert txt[..pos] == txt[..start] + txt[start..pos];
      i := i + 1;
    }
    n := i;
    EncodeLength(data[..n]);
    txt[pos] := NUL;
  }

  /** The text form of an SSID: the static buffer holds any SSID whole. */
  method WpaSsidTxt(ssid: Text, ssidTxt: array<byte>)
    requires |ssid| <= SSID_MAX_LEN && ssidTxt.Length == SSID_MAX_LEN * 4 + 1
    modifies ssidTxt
    ensures |Encode(ssid)| < ssidTxt.Length
    ensures ssidTxt[..|Encode(ssid)|] == Encode(ssid) && ssidTxt[|Encode(ssid)|] == NUL
  {
    ghost var n := PrintfEncode(ssidTxt, ssidTxt.Length, ssid);
    assert ssid[..n] == ssid;
  }

  /** Decodes the item at `pos`: what is stored is what it stands for. */
  method TakeDecoded(buf: array<byte>, len: nat, str: Text, pos: nat) returns (newLen: nat, next: nat)
    requires len < buf.Length && NulFree(str) && pos < |str|
    modifies buf
    ensures len <= newLen <= len + 1 && pos < next <= |str|
    ensures buf[..newLen] + Decode(str[next..]) == old(buf[..len]) + Decode(str[pos..])
    ensures forall k :: newLen <= k < buf.Length ==> buf[k] == old(buf[k])
  {
    ghost var before, item := buf[..len], DecodeItem(str[pos..]);
    DecodeNext(str, pos);
    newLen, next := StoreItem(buf, len, str, pos);
    ConcatAssociates(before, item.stored, Decode(str[next..]));
  }

  method StoreItem(buf: array<byte>, len: nat, str: Text, pos: nat) returns (newLen: nat, next: nat)
    requires len < buf.Length && NulFree(str) && pos < |str|
    modifies buf
    ensures var item := DecodeItem(str[pos..]);
      newLen == len + |item.stored| <= buf.Length && next == pos + item.taken &&
        buf[..newLen] == old(buf[..len]) + item.stored
    ensures forall k :: newLen <= k < buf.Length ==> buf[k] == old(buf[k])
  {
    newLen, next := len, pos + 1;
    if str[pos] != BACKSLASH {
      buf[len], newLen := str[pos], len + 1;
    } else {
      var c := At(str, pos + 1);
      if OneLetter(c) >= 0 {
        buf[len], newLen, next := OneLetter(c), len + 1, pos + 2;
      } else if c == LOWER_X {
        newLen, next := StoreHex(buf, len, str, pos);
      } else if IsOctal(c) {
        newLen, next := StoreOctal(buf, len, str, pos);
      }
    }
  }

  method StoreHex(buf: array<byte>, len: nat, str: Text, start: nat) returns (newLen: nat, pos: nat)
    requires len < buf.Length && NulFree(str) && start + 2 <= |str|
    modifies buf
    ensures var item := HexItem(str[start..]);
      newLen == len + |item.stored| <= buf.Length && pos == start + item.taken &&
        buf[..newLen] == old(buf[..len]) + item.stored
    ensures forall k :: newLen <= k < buf.Length ==> buf[k] == old(buf[k])
  {
    newLen, pos := len, start + 2;
    var val := Hex2Byte(str, pos);
    if val < 0 {
      val := Hex2Num(At(str, pos));
      if val >= 0 {
        buf[len], newLen, pos := val, len + 1, pos + 1;
      }
    } else {
      buf[len], newLen, pos := val, len + 1, pos + 2;
    }
  }

  method StoreOctal(buf: array<byte>, len: nat, str: Text, start: nat) returns (newLen: nat, pos: nat)
    requires len < buf.Length && NulFree(str) && start + 2 <= |str| && IsOctal(str[start + 1])
    modifies buf
    ensures var item := OctalItem(str[start..]);
      newLen == len + 1 && pos == start + item.taken && buf[..newLen] == old(buf[..len]) + item.stored
    ensures forall k :: newLen <= k < buf.Length ==> buf[k] == old(buf[k])
  {
    var val: int := str[start + 1] - 48;
    pos := start + 2;
    if IsOctal(At(str, pos)) {
      val, pos := val * 8 + (At(str, pos) - 48), pos + 1;
      if IsOctal(At(str, pos)) {
        val, pos := val * 8 + (At(str, pos) - 48), pos + 1;
      }
    }
    buf[len], newLen := val % 256, len + 1;
  }

  /** Decodes until the text ends or one place is left for the terminator. */
  method PrintfDecode(buf: array<byte>, maxlen: nat, str: Text) returns (len: nat)
    requires maxlen <= buf.Length && NulFree(str)
    modifies buf
    ensures len == if |Decode(str)| < maxlen then |Decode(str)| else if maxlen == 0 then 0 else maxlen - 1
    ensures buf[..len] == Decode(str)[..len]
    ensures maxlen > 0 ==> buf[len] == NUL
    ensures forall k :: len < k < buf.Length ==> buf[k] == old(buf[k])
  {
    ghost var d := Decode(str);
    var pos := 0;
    len := 0;
    assert str[pos..] == str;
    while At(str, pos) != NUL && len + 1 < maxlen
      invariant pos <= |str| && len <= maxlen
      invariant maxlen > 0 ==> len < maxlen
      invariant d == buf[..len] + Decode(str[pos..])
      invariant forall k :: len <= k < buf.Length ==> buf[k] == old(buf[k])
      decreases |str| - pos
    {
      len, pos := TakeDecoded(buf, len, str, pos);
    }
    if maxlen > len {
      buf[len] := NUL;
    }
  }
}
