/** The other spellings of an SSID: the scan form and the configuration form the
    manager builds (wifimanager.c), the value parser of the supplicant
    (common.c), and the unescaping of scan rows (wifi/wifi.c).  The lemmas say
    on exactly which SSIDs these agree with the printf-style form. */
module SsidCodec {
  import opened Bytes
  import opened PrintfCodec

  predicate IsAscii(s: Text) {
    forall i :: 0 <= i < |s| ==> s[i] <= 0x7f
  }

  // ----- the two converters

  function ScanByte(b: byte): (t: Text) {
    if b <= 0x7f then [b] else [BACKSLASH, LOWER_X] + HexByte(b)
  }

  function ScanForm(s: Text): (t: Text) {
    Spread(ScanByte, s)
  }

  function ConfForm(s: Text): (t: Text) {
    Spread(HexByte, s)
  }

  method SsidAppToWpaScan(appSsid: Text, scanSsid: array<byte>) returns (ret: int)
    requires NulFree(appSsid) && |ScanForm(appSsid)| < scanSsid.Length
    modifies scanSsid
    ensures ret == if appSsid == [] then -1 else if IsAscii(appSsid) then 0 else 1
    ensures appSsid != [] ==>
      scanSsid[..|ScanForm(appSsid)|] == ScanForm(appSsid) && scanSsid[|ScanForm(appSsid)|] == NUL
  {
    if appSsid == [] {
      return -1;
    }
    var pos, i, chineseIn := 0, 0, false;
    while i < |appSsid|
      invariant 0 <= i <= |appSsid| && pos == |ScanForm(appSsid[..i])|
      invariant chineseIn <==> exists k :: 0 <= k < i && appSsid[k] > 0x7f
      invariant pos < scanSsid.Length && scanSsid[..pos] == ScanForm(appSsid[..i])
    {
      ghost var start := pos;
      SpreadNext(ScanByte, appSsid, i);
      FormGrows(ScanByte, appSsid, i);
      pos := PutScanByte(scanSsid, pos, appSsid[i]);
      assert scanSsid[..pos] == scanSsid[..start] + scanSsid[start..pos];
      chineseIn := chineseIn || appSsid[i] > 0x7f;
      i := i + 1;
    }
    assert appSsid[..i] == appSsid;
    scanSsid[pos] := NUL;
    ret := if chineseIn then 1 else 0;
  }

  method PutScanByte(scanSsid: array<byte>, pos: nat, b: byte) returns (next: nat)
    requires pos + |ScanByte(b)| <= scanSsid.Length
    modifies scanSsid
    ensures next == pos + |ScanByte(b)| && scanSsid[pos..next] == ScanByte(b)
    ensures forall k :: 0 <= k < pos ==> scanSsid[k] == old(scanSsid[k])
  {
    if b <= 0x7f {
      scanSsid[pos] := b;
      next := pos + 1;
    } else {
      scanSsid[pos], scanSsid[pos + 1] := BACKSLASH, LOWER_X;
      scanSsid[pos + 2], scanSsid[pos + 3] := HexDigit(b / 16), HexDigit(b % 16);
      next := pos + 4;
    }
  }

  method SsidAppToWpaConf(appSsid: Text, confSsid: array<byte>) returns (ret: int)
    requires NulFree(appSsid) && |ConfForm(appSsid)| < confSsid.Length
    modifies confSsid
    ensures ret == if appSsid == [] then -1 else 0
    ensures appSsid != [] ==>
      confSsid[..|ConfForm(appSsid)|] == ConfForm(appSsid) && confSsid[|ConfForm(appSsid)|] == NUL
  {
    if appSsid == [] {
      return -1;
    }
    var pos, i := 0, 0;
    while i < |appSsid|
      invariant 0 <= i <= |appSsid| && pos == |ConfForm(appSsid[..i])|
      invariant pos < confSsid.Length && confSsid[..pos] == ConfForm(appSsid[..i])
    {
      ghost var done := confSsid[..pos];
      SpreadNext(HexByte, appSsid, i);
      FormGrows(HexByte, appSsid, i);
      confSsid[pos], confSsid[pos + 1] := HexDigit(appSsid[i] / 16), HexDigit(appSsid[i] % 16);
      pos := pos + 2;
      assert confSsid[..pos] == done + HexByte(appSsid[i]);
      i := i + 1;
    }
    assert appSsid[..i] == appSsid;
    confSsid[pos] := NUL;
    ret := 0;
  }

  lemma FormGrows(f: byte -> Text, s: Text, i: nat)
    requires i < |s|
    ensures |Spread(f, s[..i + 1])| <= |Spread(f, s)|
  {
    assert s == s[..i + 1] + s[i + 1..];
    SpreadConcat(f, s[..i + 1], s[i + 1..]);
  }

  /** The ssid value the manager puts into SET_NETWORK. */
  function SetNetworkValue(appSsid: Text): Text {
    if IsAscii(appSsid) then [QUOTE] + appSsid + [QUOTE] else ConfForm(appSsid)
  }

  // ----- the value parser

  function HexBytes(s: Text): (r: Option<Text>)
    requires |s| % 2 == 0 && NulFree(s)
    ensures r.Some? ==> |r.value| == |s| / 2
  {
    if s == [] then Some([])
    else
      var v, rest := Hex2Byte(s, 0), HexBytes(s[2..]);
      if v < 0 || rest.None? then None else Some([v] + rest.value)
  }

  /** The text between an opening quote already passed and a quote that ends the value. */
  function Quoted(rest: Text): Option<Text> {
    var k := LastIndexOf(rest, QUOTE);
    if k < 0 || k + 1 != |rest| then None else Some(rest[..k])
  }

  function ParsedString(value: Text): Option<Text>
    requires NulFree(value)
  {
    if At(value, 0) == QUOTE then Quoted(value[1..])
    else if At(value, 0) == 80 && At(value, 1) == QUOTE then
      var inner := Quoted(value[2..]);
      if inner.None? then None else Some(Decode(inner.value))
    else if |value| % 2 == 1 then None
    else HexBytes(value)
  }

  method HexStr2Bin(hex: Text, buf: array<byte>, len: nat) returns (ret: int)
    requires |hex| == 2 * len && len <= buf.Length && NulFree(hex)
    modifies buf
    ensures ret == if HexBytes(hex).None? then -1 else 0
    ensures ret == 0 ==> buf[..len] == HexBytes(hex).value
    ensures forall k :: len <= k < buf.Length ==> buf[k] == old(buf[k])
  {
    var i := 0;
    ghost var whole := HexBytes(hex);
    assert hex[0..] == hex;
    while i < len
      invariant i <= len
      invariant whole.None? <==> HexBytes(hex[2 * i..]).None?
      invariant whole.Some? ==> whole.value == buf[..i] + HexBytes(hex[2 * i..]).value
      invariant forall k :: i <= k < buf.Length ==> buf[k] == old(buf[k])
    {
      var a := Hex2Byte(hex, 2 * i);
      ghost var rest, done := hex[2 * i..], buf[..i];
      assert rest[2..] == hex[2 * (i + 1)..] && Hex2Byte(rest, 0) == a;
      if a < 0 {
        return -1;
      }
      buf[i] := a;
      i := i + 1;
      assert buf[..i] == done + [a];
      if whole.Some? {
        ConcatAssociates(done, [a], HexBytes(hex[2 * i..]).value);
      }
    }
    ret := 0;
  }

  method DupBinStr(src: Text) returns (res: array<byte>)
    ensures fresh(res) && res.Length == |src| + 1 && res[..|src|] == src && res[|src|] == NUL
  {
    res := new byte[|src| + 1](i requires 0 <= i <= |src| => if i < |src| then src[i] else NUL);
  }

  /** Returns a new NUL-terminated copy of the value a setting stands for, or null. */
  method WpaConfigParseString(value: Text) returns (str: array?<byte>, len: nat)
    requires NulFree(value)
    ensures str == null <==> ParsedString(value).None?
    ensures str != null ==> fresh(str) && len < str.Length && str[len] == NUL && ParsedString(value) == Some(str[..len])
  {
    len := 0;
    if At(value, 0) == QUOTE {
      var rest := value[1..];
      var pos := LastIndexOf(rest, QUOTE);
      if pos < 0 || pos + 1 != |rest| {
        return null, 0;
      }
      len := pos;
      str := DupBinStr(rest[..len]);
    } else if At(value, 0) == 80 && At(value, 1) == QUOTE {
      var rest := value[2..];
      var pos := LastIndexOf(rest, QUOTE);
      if pos < 0 || pos + 1 != |rest| {
        return null, 0;
      }
      str := new byte[pos + 1];
      len := PrintfDecode(str, pos + 1, rest[..pos]);
      assert Decode(rest[..pos])[..len] == Decode(rest[..pos]);
    } else {
      if |value| % 2 == 1 {
        return null, 0;
      }
      var bin := new byte[|value| / 2 + 1];
      var ret := HexStr2Bin(value, bin, |value| / 2);
      if ret != 0 {
        return null, 0;
      }
      len := |value| / 2;
      bin[len] := NUL;
      str := bin;
    }
  }

  // ----- what goes to the supplicant comes back

  /** Whatever the SSID, quotes and escapes included, the supplicant reads the
      value sent to it as exactly that SSID. */
  lemma SetNetworkRoundTrip(ssid: Text)
    requires ssid != [] && NulFree(ssid)
    ensures NulFree(SetNetworkValue(ssid)) && ParsedString(SetNetworkValue(ssid)) == Some(ssid)
  {
    if IsAscii(ssid) {
      var rest := ssid + [QUOTE];
      assert SetNetworkValue(ssid)[1..] == rest;
      assert LastIndexOf(rest, QUOTE) == |ssid| && rest[..|ssid|] == ssid;
    } else {
      HexRoundTrip(ssid);
    }
  }

  lemma {:induction false} HexRoundTrip(ssid: Text)
    ensures NulFree(ConfForm(ssid)) && |ConfForm(ssid)| == 2 * |ssid|
    ensures HexBytes(ConfForm(ssid)) == Some(ssid)
    ensures forall i :: 0 <= i < |ConfForm(ssid)| ==> Hex2Num(ConfForm(ssid)[i]) >= 0
  {
    if ssid != [] {
      HexRoundTrip(ssid[1..]);
      var b, rest := ssid[0], ConfForm(ssid[1..]);
      assert b == 16 * (b / 16) + b % 16;
      assert ConfForm(ssid) == HexByte(b) + rest;
      assert (HexByte(b) + rest)[2..] == rest;
      assert Hex2Byte(HexByte(b) + rest, 0) == b;
      assert ssid == [b] + ssid[1..];
    }
  }

  // ----- scan form against the printf-style form of the scan table

  /** The bytes that both spellings treat alike. */
  predicate Agreeable(b: byte) {
    (32 <= b <= 126 && b != QUOTE && b != BACKSLASH) || 128 <= b
  }

  predicate AllAgreeable(s: Text) {
    forall i :: 0 <= i < |s| ==> Agreeable(s[i])
  }

  lemma {:induction false} ScanFormAgainstEncode(s: Text)
    ensures AllAgreeable(s) ==> ScanForm(s) == Encode(s)
    ensures |ScanForm(s)| <= |Encode(s)|
    ensures !AllAgreeable(s) ==> |ScanForm(s)| < |Encode(s)|
  {
    if s != [] {
      ScanFormAgainstEncode(s[1..]);
    }
  }

  /** The string match against the scan table finds the SSID asked for and no
      other one exactly when all its bytes are agreeable. */
  lemma ScanFormIdentifies(s: Text)
    ensures AllAgreeable(s) <==> forall t: Text :: ScanForm(s) == Encode(t) <==> s == t
  {
    ScanFormAgainstEncode(s);
    if AllAgreeable(s) {
      forall t: Text ensures ScanForm(s) == Encode(t) <==> s == t {
        if ScanForm(s) == Encode(t) {
          EncodeInjective(s, t);
        }
      }
    }
  }

  /** A configuration form is the printed form of one SSID only: the one that
      consists of those hex digits.  It never is the printed form of the SSID it
      stands for, so looking it up in the network list cannot find that SSID. */
  lemma ConfFormIsPrintedOnlyByItself(ssid: Text, other: Text)
    requires ssid != []
    ensures Encode(other) == ConfForm(ssid) <==> other == ConfForm(ssid)
    ensures Encode(ssid) != ConfForm(ssid)
  {
    HexRoundTrip(ssid);
    EncodePlain(ConfForm(ssid));
    if Encode(other) == ConfForm(ssid) {
      EncodeInjective(other, ConfForm(ssid));
    }
    if Encode(ssid) == ConfForm(ssid) {
      EncodeInjective(ssid, ConfForm(ssid));
    }
  }

  lemma {:induction false} EncodePlain(s: Text)
    requires forall i :: 0 <= i < |s| ==> EncodeByte(s[i]) == [s[i]]
    ensures Encode(s) == s
  {
    if s != [] {
      EncodePlain(s[1..]);
      assert s == [s[0]] + s[1..];
    }
  }

  // ----- the unescaping of scan rows

  /** Bitwise or of two nibbles. */
  function NibbleOr(a: int, b: int): (r: int)
    requires 0 <= a < 16 && 0 <= b < 16
    ensures 0 <= r < 16 && (a == 0 ==> r == b)
  {
    var bit := (x: int, y: int) => if x % 2 == 1 || y % 2 == 1 then 1 else 0;
    bit(a, b) + 2 * bit(a / 2, b / 2) + 4 * bit(a / 4, b / 4) + 8 * bit(a / 8, b / 8)
  }

  /** The digit of a lower-case hex character, or -1. */
  function LowerHex(c: byte): (n: int)
    ensures -1 <= n < 16
  {
    if 48 <= c <= 57 then c - 48 else if 97 <= c <= 102 then c - 97 + 10 else -1
  }

  function WithHigh(temp: byte, c: byte): byte {
    if LowerHex(c) >= 0 then 16 * LowerHex(c) else temp
  }

  function WithLow(temp: byte, c: byte): byte {
    if LowerHex(c) >= 0 then 16 * (temp / 16) + NibbleOr(temp % 16, LowerHex(c)) else temp
  }

  /** All the bytes the unescaping would write given room; `temp` is the byte
      left over from the previous hexadecimal escape, which a bad digit reuses. */
  function Changed(src: Text, temp: byte): (d: Text)
    ensures |d| <= |src|
  {
    if src == [] then []
    else if src[0] != BACKSLASH then [src[0]] + Changed(src[1..], temp)
    else if |src| == 1 then []
    else if src[1] != LOWER_X then [BACKSLASH, src[1]] + Changed(src[2..], temp)
    else if |src| < 4 then []
    else
      var v := WithLow(WithHigh(temp, src[2]), src[3]);
      [v] + Changed(src[4..], v)
  }

  /** What a row's reader sees of one SSID byte. */
  function ShownByte(b: byte): (t: Text) {
    if ShortEscaped(b) then EncodeByte(b) else [b]
  }

  predicate ShortEscaped(b: byte) {
    b == QUOTE || b == BACKSLASH || b == ESCAPE || b == NEWLINE || b == CARRIAGE_RETURN || b == TAB
  }

  lemma {:induction false} ChangedEncode(s: Text, temp: byte)
    ensures Changed(Encode(s), temp) == Spread(ShownByte, s)
  {
    if s != [] {
      var b, e, rest := s[0], EncodeByte(s[0]), Encode(s[1..]);
      var v := if |e| == 4 then b else temp;
      ChangedEncode(s[1..], v);
      ChangedItem(b, rest, temp);
    }
  }

  lemma ChangedItem(b: byte, rest: Text, temp: byte)
    ensures var v := if |EncodeByte(b)| == 4 then b else temp;
      Changed(EncodeByte(b) + rest, temp) == ShownByte(b) + Changed(rest, v)
  {
    var e := EncodeByte(b);
    assert (e + rest)[|e|..] == rest;
    if |e| == 4 {
      ChangedHexItem(b, temp);
      assert (e + rest)[1] == LOWER_X && (e + rest)[2] == HexDigit(b / 16) && (e + rest)[3] == HexDigit(b % 16);
    }
  }

  lemma ChangedHexItem(b: byte, temp: byte)
    ensures WithLow(WithHigh(temp, HexDigit(b / 16)), HexDigit(b % 16)) == b
  {
    assert b == 16 * (b / 16) + b % 16;
    assert LowerHex(HexDigit(b / 16)) == b / 16 && LowerHex(HexDigit(b % 16)) == b % 16;
  }

  lemma {:induction false} ShownLength(s: Text)
    ensures |Spread(ShownByte, s)| >= |s|
    ensures (exists i :: 0 <= i < |s| && ShortEscaped(s[i])) ==> |Spread(ShownByte, s)| > |s|
    ensures (forall i :: 0 <= i < |s| ==> !ShortEscaped(s[i])) ==> Spread(ShownByte, s) == s
  {
    if s != [] {
      ShownLength(s[1..]);
      assert s == [s[0]] + s[1..];
    }
  }

  /** Unescaping a printed SSID gives the SSID back exactly when none of its
      bytes has a two-character escape. */
  lemma ChangeStringInvertsEncode(s: Text, temp: byte)
    ensures Changed(Encode(s), temp) == s <==> forall i :: 0 <= i < |s| ==> !ShortEscaped(s[i])
  {
    ChangedEncode(s, temp);
    ShownLength(s);
  }

  /** The manager's own scan form, unescaped by the row reader. */
  lemma ChangeStringInvertsScanForm(s: Text)
    requires AllAgreeable(s)
    ensures Changed(ScanForm(s), 0) == s
  {
    ScanFormAgainstEncode(s);
    ChangeStringInvertsEncode(s, 0);
  }

  /** Unescapes the item at `i`.  Where a cut-off escape ends the loop, `i` moves to the end. */
  method PutChanged(src: Text, i: nat, temp: byte, dest: array<byte>, j: nat)
    returns (i': nat, temp': byte, j': nat)
    requires i < |src| && j < dest.Length
    modifies dest
    ensures i < i' <= |src| && j <= j' <= dest.Length && dest[..j] == old(dest[..j])
    ensures j' - j <= |Changed(src[i..], temp)| && dest[j..j'] == Changed(src[i..], temp)[..j' - j]
    ensures j' < dest.Length ==> Changed(src[i..], temp)[j' - j..] == Changed(src[i'..], temp')
    ensures forall k :: j' <= k < dest.Length ==> dest[k] == old(dest[k])
  {
    ghost var rest := src[i..];
    i', temp', j' := i + 1, temp, j + 1;
    if src[i] != BACKSLASH {
      dest[j] := src[i];
    } else if i + 1 >= |src| {
      i', j' := |src|, j;
    } else if src[i + 1] == LOWER_X {
      if i + 3 >= |src| {
        i', j' := |src|, j;
      } else {
        temp' := WithLow(WithHigh(temp, src[i + 2]), src[i + 3]);
        dest[j] := temp';
        i' := i + 4;
      }
    } else {
      dest[j] := BACKSLASH;
      i' := i + 2;
      if j' < dest.Length {
        dest[j'] := src[i + 1];
        j' := j' + 1;
      }
    }
    assert rest[i' - i..] == src[i'..];
  }

  method ChangeString(src: Text, dest: array<byte>)
    modifies dest
    ensures var n := if |Changed(src, 0)| < dest.Length then |Changed(src, 0)| else dest.Length;
      dest[..n] == Changed(src, 0)[..n] && forall k :: n <= k < dest.Length ==> dest[k] == NUL
  {
    forall k | 0 <= k < dest.Length {
      dest[k] := NUL;
    }
    ghost var d := Changed(src, 0);
    var i, j := 0, 0;
    var temp: byte := 0;
    assert src[0..] == src;
    while i < |src| && j < dest.Length
      invariant i <= |src| && j <= dest.Length
      invariant j <= |d| && dest[..j] == d[..j]
      invariant j < dest.Length ==> d[j..] == Changed(src[i..], temp)
      invariant forall k :: j <= k < dest.Length ==> dest[k] == NUL
      decreases |src| - i
    {
      ghost var before, tail := j, Changed(src[i..], temp);
      i, temp, j := PutChanged(src, i, temp, dest, j);
      assert d[..j] == d[..before] + tail[..j - before] && dest[..j] == dest[..before] + dest[before..j];
      assert d[j..] == tail[j - before..];
    }
  }
}
