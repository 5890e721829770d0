/** The bytes of a hotspot node and what copying the columns of a row into them
    does (inetd.h, wifi/wifi.c): the copies are as long as the columns, the
    fields are not. */
module NodeLayout {
  import opened Bytes

  const HOTSPOT_STRING_LENGTH := 64

  const BSSID_AT := 0
  const SSID_AT := 64
  const FREQUENCY_AT := 128
  const CAPABILITIES_AT := 192
  const SIGNAL_AT := 256
  const IS_CONNECT_AT := 260
  const NEXT_AT := 264

  /** memcpy of `s` to offset `at`; what lands behind the image is not followed. */
  function Put(image: Text, at: nat, s: Text): (r: Text)
    ensures |r| == |image| && forall k :: 0 <= k < |r| ==> r[k] == if at <= k < at + |s| then s[k - at] else image[k]
  {
    seq(|image|, k requires 0 <= k < |image| => if at <= k < at + |s| then s[k - at] else image[k])
  }

  /** A 32-bit integer in memory, lowest byte first. */
  function IntBytes(n: int): (t: Text)
    ensures |t| == 4
  {
    [n % 256, (n / 256) % 256, (n / 65536) % 256, (n / 16777216) % 256]
  }

  /** The fields of a node up to its link, filled in the order of the code. */
  function NodeImage(bssid: Text, frequency: Text, signal: int, capabilities: Text, ssid: Text): (image: Text)
    ensures |image| == NEXT_AT
  {
    var blank := seq(NEXT_AT, k => NUL);
    var named := Put(Put(blank, BSSID_AT, bssid), FREQUENCY_AT, frequency);
    Put(Put(Put(named, SIGNAL_AT, IntBytes(signal)), CAPABILITIES_AT, capabilities), SSID_AT, ssid)
  }

  /** The text in the field at `at`, if it ends inside the field. */
  function FieldText(image: Text, at: nat): Option<Text>
    requires at + HOTSPOT_STRING_LENGTH <= |image|
  {
    var field := image[at..at + HOTSPOT_STRING_LENGTH];
    var k := IndexOf(field, NUL);
    if k < 0 then None else Some(field[..k])
  }

  /** Every field of the node holds what was copied into it. */
  predicate Keeps(image: Text, bssid: Text, frequency: Text, signal: int, capabilities: Text, ssid: Text)
    requires |image| == NEXT_AT
  {
    && FieldText(image, BSSID_AT) == Some(bssid) && FieldText(image, SSID_AT) == Some(ssid)
    && FieldText(image, FREQUENCY_AT) == Some(frequency) && FieldText(image, CAPABILITIES_AT) == Some(capabilities)
    && image[SIGNAL_AT..IS_CONNECT_AT] == IntBytes(signal)
    && forall k :: IS_CONNECT_AT <= k < NEXT_AT ==> image[k] == NUL
  }

  /** A field whose bytes are the column and NULs holds it; one full of the
      column's bytes holds no text. */
  lemma FieldHolds(image: Text, at: nat, column: Text)
    requires at + HOTSPOT_STRING_LENGTH <= |image| && NulFree(column)
    requires forall k :: at <= k < at + HOTSPOT_STRING_LENGTH ==>
      image[k] == if k < at + |column| then column[k - at] else NUL
    ensures FieldText(image, at) == if |column| < HOTSPOT_STRING_LENGTH then Some(column) else None
  {
    var field := image[at..at + HOTSPOT_STRING_LENGTH];
    assert forall k :: 0 <= k < HOTSPOT_STRING_LENGTH ==> field[k] == image[at + k];
    if |column| < HOTSPOT_STRING_LENGTH {
      assert field[|column|] == NUL;
      assert field[..|column|] == column;
    }
  }

  /** What is where after the copies, as long as the SSID stays in its field. */
  lemma ImageAt(bssid: Text, frequency: Text, signal: int, capabilities: Text, ssid: Text, k: nat)
    requires |ssid| < HOTSPOT_STRING_LENGTH && k < NEXT_AT
    ensures var image := NodeImage(bssid, frequency, signal, capabilities, ssid);
      && (k < 64 ==> image[k] == if k < |bssid| then bssid[k] else NUL)
      && (64 <= k < 64 + |ssid| ==> image[k] == ssid[k - 64])
      && (128 <= k < 192 && k < 128 + |frequency| ==> image[k] == frequency[k - 128])
      && (192 <= k < 260 && k < 192 + |capabilities| ==> image[k] == capabilities[k - 192])
      && (256 <= k < 260 && k >= 192 + |capabilities| ==> image[k] == IntBytes(signal)[k - 256])
  {
  }

  /** An SSID that fills its field, which is copied last, holds no text there. */
  lemma SsidIsLost(bssid: Text, frequency: Text, signal: int, capabilities: Text, ssid: Text)
    requires NulFree(ssid) && |ssid| >= HOTSPOT_STRING_LENGTH
    ensures FieldText(NodeImage(bssid, frequency, signal, capabilities, ssid), SSID_AT) == None
  {
    FieldHolds(NodeImage(bssid, frequency, signal, capabilities, ssid), SSID_AT, ssid);
  }

  /** The node keeps the row exactly when every column is shorter than its field. */
  lemma KeepsExactly(bssid: Text, frequency: Text, signal: int, capabilities: Text, ssid: Text)
    requires NulFree(bssid) && NulFree(frequency) && NulFree(capabilities) && NulFree(ssid)
    ensures Keeps(NodeImage(bssid, frequency, signal, capabilities, ssid), bssid, frequency, signal, capabilities, ssid)
      <==>
      && |bssid| < HOTSPOT_STRING_LENGTH && |frequency| < HOTSPOT_STRING_LENGTH
      && |capabilities| < HOTSPOT_STRING_LENGTH && |ssid| < HOTSPOT_STRING_LENGTH
  {
    var image := NodeImage(bssid, frequency, signal, capabilities, ssid);
    if |ssid| >= 64 {
      SsidIsLost(bssid, frequency, signal, capabilities, ssid);
    } else {
      ShortSsidKeeps(image, bssid, frequency, signal, capabilities, ssid);
    }
  }

  lemma ShortSsidKeeps(image: Text, bssid: Text, frequency: Text, signal: int, capabilities: Text, ssid: Text)
    requires NulFree(bssid) && NulFree(frequency) && NulFree(capabilities) && NulFree(ssid) && |ssid| < 64
    requires image == NodeImage(bssid, frequency, signal, capabilities, ssid)
    ensures Keeps(image, bssid, frequency, signal, capabilities, ssid) <==>
      |bssid| < 64 && |frequency| < 64 && |capabilities| < 64
  {
    forall k | 0 <= k < NEXT_AT {
      ImageAt(bssid, frequency, signal, capabilities, ssid, k);
    }
    if |bssid| >= 64 {
      FieldHolds(image, BSSID_AT, bssid);
    } else if |frequency| >= 64 {
      FieldHolds(image, FREQUENCY_AT, frequency);
    } else if |capabilities| >= 64 {
      FieldHolds(image, CAPABILITIES_AT, capabilities);
    } else {
      AllFieldsHold(image, bssid, frequency, signal, capabilities, ssid);
    }
  }

  lemma ByteAt(image: Text, bssid: Text, frequency: Text, signal: int, capabilities: Text, ssid: Text, k: nat)
    requires |bssid| < 64 && |frequency| < 64 && |capabilities| < 64 && |ssid| < 64 && k < NEXT_AT
    requires image == NodeImage(bssid, frequency, signal, capabilities, ssid)
    ensures k < 64 ==> image[k] == if k < |bssid| then bssid[k] else NUL
    ensures 64 <= k < 128 ==> image[k] == if k < 64 + |ssid| then ssid[k - 64] else NUL
    ensures 128 <= k < 192 ==> image[k] == if k < 128 + |frequency| then frequency[k - 128] else NUL
    ensures 192 <= k < 256 ==> image[k] == if k < 192 + |capabilities| then capabilities[k - 192] else NUL
    ensures SIGNAL_AT <= k < IS_CONNECT_AT ==> image[k] == IntBytes(signal)[k - SIGNAL_AT]
    ensures IS_CONNECT_AT <= k ==> image[k] == NUL
  {
  }

  lemma AllFieldsHold(image: Text, bssid: Text, frequency: Text, signal: int, capabilities: Text, ssid: Text)
    requires NulFree(bssid) && NulFree(frequency) && NulFree(capabilities) && NulFree(ssid)
    requires |bssid| < 64 && |frequency| < 64 && |capabilities| < 64 && |ssid| < 64
    requires image == NodeImage(bssid, frequency, signal, capabilities, ssid)
    ensures Keeps(image, bssid, frequency, signal, capabilities, ssid)
  {
    forall k | 0 <= k < NEXT_AT
      ensures k < 64 ==> image[k] == if k < |bssid| then bssid[k] else NUL
      ensures 64 <= k < 128 ==> image[k] == if k < 64 + |ssid| then ssid[k - 64] else NUL
      ensures 128 <= k < 192 ==> image[k] == if k < 128 + |frequency| then frequency[k - 128] else NUL
      ensures 192 <= k < 256 ==> image[k] == if k < 192 + |capabilities| then capabilities[k - 192] else NUL
      ensures SIGNAL_AT <= k < IS_CONNECT_AT ==> image[k] == IntBytes(signal)[k - SIGNAL_AT]
      ensures IS_CONNECT_AT <= k ==> image[k] == NUL
    {
      ByteAt(image, bssid, frequency, signal, capabilities, ssid, k);
    }
    FieldHolds(image, BSSID_AT, bssid);
    FieldHolds(image, SSID_AT, ssid);
    FieldHolds(image, FREQUENCY_AT, frequency);
    FieldHolds(image, CAPABILITIES_AT, capabilities);
    assert image[SIGNAL_AT..IS_CONNECT_AT] == IntBytes(signal);
  }

  /** Flags of 68 bytes or more stand in the place of the signal: no level a scan
      reports survives. */
  lemma LongFlagsLoseSignal(bssid: Text, frequency: Text, level: int, flags: Text, ssid: Text)
    requires |ssid| < HOTSPOT_STRING_LENGTH && NulFree(flags) && |flags| >= 68 && -100 <= level < 156
    ensures var image := NodeImage(bssid, frequency, 100 + level, flags, ssid);
      image[SIGNAL_AT..IS_CONNECT_AT] == flags[64..68] != IntBytes(100 + level)
  {
    var image := NodeImage(bssid, frequency, 100 + level, flags, ssid);
    forall k | SIGNAL_AT <= k < IS_CONNECT_AT {
      ImageAt(bssid, frequency, 100 + level, flags, ssid, k);
    }
    assert image[SIGNAL_AT..IS_CONNECT_AT] == flags[64..68];
    assert flags[64..68][1] == flags[65];
    assert IntBytes(100 + level)[1] == 0;
  }
}
