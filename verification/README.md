# Wi-Fi control of inetd: a verified model

`inetd` drives Wi-Fi through the text protocol of `wpa_supplicant`.  This
project models, in Dafny, the parts of it where several functions or threads
have to agree, and proves what they keep between them.

- **Hotspot list and events** (`HotspotList`, `HotspotEvents`, `HotspotReport`):
  a scan report is a linked list whose nodes exchange their contents in place;
  the new list is compared with the stored one and replaces it.  A client that
  replays the events fired, and empties its table on a disconnect or close,
  holds the server's table after every run.
- **Saved networks and the connect transaction** (`Supplicant`, `NetworkListing`,
  `NetworkLookup`, `LookupWalk`, `NetworkMatching`, `NetworkTable`, `Connect`, `ConnectLaws`,
  `ConnectApi`): the supplicant is an environment in which any command may fail;
  the walkers over LIST_NETWORKS read, cut and overwrite the reply in place; a
  connect attempt is a long transaction with rollback.
- **Threads** (`Runs`, `ScanPause`, `WifiMachine`): the scan thread and its pause
  flag, the event thread and the DHCP threads, as interleaved steps.
- **Text tables** (`Lines`, `LineWalk`, `ScanTable`, `ScanParser`, `NodeLayout`): SCAN_RESULTS
  searched with temporary NULs, truncated, and parsed into the nodes of the hotspot list.
- **Codecs and small tools** (`Bytes`, `Decimal`, `PrintfCodec`, `SsidCodec`,
  `FreqRanges`, `ConfigSplice`): the spellings of an SSID and exactly when they
  agree; frequency range lists; the configuration splice.

Buffers are arrays of bytes, C strings end at a NUL, pointers are indices, and
list nodes are objects.  Threads are step functions over shared state.  What a
command does to the supplicant, what other threads write during a wait, and
which rows the scan table holds are choices of the environment.

Where the code and its own documentation differ the model follows the code, and
where a natural property of the code is false the exact condition is proved:

- Scans stay out of a connect attempt exactly when there is at most one caller:
  early exits resume the scan thread without having paused it
  (`ScanPause.OverlapFreedom`).
- Two exits of the connect attempt leave the new network saved: those after a
  last poll of DISCONNECTED without a known reason, and of DISCONNECTING
  (`Connect.WifiManager.ConnectApInner`, by `EndingOf`).
- `wpa_conf_is_ap_exist` searches by substring.  It returns 0 or 2, not the
  documented -1, when nothing matches, and takes ids and ends of longer SSIDs for
  the SSID (`NetworkMatching.HitInColumns`, `NetworkMatching.LookupFindsAnother`).
- The spelling looked up is the one listed exactly for plain text
  (`NetworkMatching.FormIsPrinted`).  A row is a hit for its own SSID exactly when
  the id, or else the printed SSID, ends where that spelling first occurs in it
  (`NetworkMatching.OwnNameIsHit`).  For the printed SSID these are exactly the
  ASCII SSIDs with nothing but backslashes and then at most one quote in front of
  plain text, unless they are backslashes only, and the single octets above 127
  (`NetworkMatching.OwnColumnExactly`).  Connecting again to a saved network saves
  it a second time exactly when it is not found or another row matches before it
  (`ConnectLaws.SavedAgain`).
- Disconnecting and closing empty the hotspot list without an event.  A client
  that hears the events alone keeps exactly the access points listed at that
  moment and not reported since (`HotspotEvents.ListenerHoldsMore`).
- BSSID, frequency and flags of a scan row are copied into 64-byte fields whatever
  their length, the SSID after it is unescaped into a buffer of 64 bytes.  The node
  keeps the row exactly when the three columns are shorter than 64 bytes and the
  SSID is not one of 32 octets that all have two-character escapes
  (`ScanParser.NodeKeepsRow`); flags of 68 bytes or more stand in the place of the
  signal (`NodeLayout.LongFlagsLoseSignal`).
- The loop of `wpa_conf_is_ap_exist` never ends exactly when the SSID starts with a
  newline, the listing holds it, and no TAB follows its first occurrence
  (`LookupWalk.NeverEndsExactly`); for the SSID that is a newline, exactly when the
  listing has a row (`LookupWalk.NewlineStalls`).  It takes a row's start from a
  null pointer exactly where `NetworkLookup.CourseFrom` says `Wild`: when a hit has
  no newline in front of it.  Neither happens to an SSID without a newline, and no
  other reaches the lookup from `aw_wifi_connect_ap`.
- `change_string` undoes the printed form exactly for SSIDs without
  two-character escapes (`SsidCodec.ChangeStringInvertsEncode`).
- PASSWORD_INCORRECT needs two bad-key messages once; afterwards one is enough,
  because the counter is never reset (`WifiMachine.PasswordIncorrectMeans`).
- The DHCP thread of an earlier link-up can declare CONNECTED during an attempt
  for another network (`WifiMachine.StaleConnection`).  After an id is stored this
  can happen exactly when, at that moment, a DHCP thread that may still declare
  CONNECTED or a link-up on its way to one was let through for something else
  (`WifiMachine.StaleExactly`).  Every link seen from then on is the stored
  network's own exactly when, besides, no link was up (`WifiMachine.OnlyOwnLinksSeen`).
- The value of the configuration entry can be replaced exactly when its line ends;
  otherwise memmove is asked for -1 bytes (`ConfigSplice.TailIsMovable`).

## Model

| member | source | states |
|---|---|---|
| PrintfCodec.PrintfEncode | inetd/src/wifimanager/common.c:462-508 | for every buffer of at least one byte the output is a NUL-terminated prefix of the escaped form that ends between two escapes, all of it when 4*len+1 bytes are there |
| PrintfCodec.PutEncoded | inetd/src/wifimanager/common.c:471-504 | one byte's escape is written and nothing before it changes |
| PrintfCodec.WpaSsidTxt | inetd/src/wifimanager/common.c:607-618 | an SSID of up to 32 octets is encoded completely into its fixed buffer |
| PrintfCodec.PrintfDecode | inetd/src/wifimanager/common.c:511-590 | the decoder stores a prefix of the decoded text, all of it when the buffer is one longer than the input |
| PrintfCodec.TakeDecoded | inetd/src/wifimanager/common.c:517-585 | one turn of the decoder stores the item at the position and moves behind it |
| PrintfCodec.StoreItem | inetd/src/wifimanager/common.c:521-580 | an escape stores what it stands for, or nothing when it is malformed |
| PrintfCodec.StoreHex | inetd/src/wifimanager/common.c:548-561 | a hexadecimal escape of one or two digits stores their value |
| PrintfCodec.StoreOctal | inetd/src/wifimanager/common.c:562-576 | an octal escape of up to three digits stores their value modulo 256 |
| PrintfCodec.DecodeEncode | inetd/src/wifimanager/common.c:462-590 | decoding an encoded octet string gives it back, zero octets included, and a cut between escapes gives back a prefix |
| PrintfCodec.EncodeInjective | inetd/src/wifimanager/common.c:462-508 | two octet strings with the same printed form are equal |
| PrintfCodec.EncodeIsPrintable | inetd/src/wifimanager/common.c:462-508 | the printed form never holds a separator of the text tables nor a terminator |
| PrintfCodec.EncodeLength | inetd/src/wifimanager/common.c:462-508 | the printed form is between one and four times as long as the octets |
| SsidCodec.SsidAppToWpaScan | inetd/src/wifimanager/wifimanager.c:121-169 | the scan form is written and terminated; the result tells empty, ASCII and other SSIDs apart |
| SsidCodec.SsidAppToWpaConf | inetd/src/wifimanager/wifimanager.c:172-210 | the lower-case hexadecimal form is written and terminated |
| SsidCodec.HexStr2Bin | inetd/src/wifimanager/common.c:185-200 | decodes pairs of hexadecimal digits, fails exactly on a bad digit |
| SsidCodec.DupBinStr | inetd/src/wifimanager/common.c:751-764 | a terminated copy of the bytes |
| SsidCodec.WpaConfigParseString | inetd/src/wifimanager/common.c:627-681 | the quoted, P-quoted and hexadecimal forms of a value, or NULL for a malformed one |
| SsidCodec.SetNetworkRoundTrip | inetd/src/wifimanager/wifimanager.c:651-658 | every non-empty NUL-free SSID, quotes included, is read by the supplicant's parser as sent |
| SsidCodec.HexRoundTrip | inetd/src/wifimanager/wifimanager.c:172-210 | the hexadecimal form is decoded back and holds hexadecimal digits only |
| SsidCodec.ScanFormAgainstEncode | inetd/src/wifimanager/wifimanager.c:121-169 | scan form and printed form agree on agreeable bytes and differ in length otherwise |
| SsidCodec.ScanFormIdentifies | inetd/src/wifimanager/network_manager.c:159 | comparing the scan form with printed SSIDs identifies the raw SSID if and only if all its bytes are agreeable |
| SsidCodec.ConfFormIsPrintedOnlyByItself | inetd/src/wifimanager/wifimanager.c:1006-1012 | the hexadecimal form of an SSID is never its printed form, only that of the SSID spelled by the digits |
| SsidCodec.ChangedEncode | inetd/src/wifi/wifi.c:26-78 | unescaping a printed SSID undoes the hexadecimal escapes and leaves the two-character ones |
| SsidCodec.ChangeStringInvertsEncode | inetd/src/wifi/wifi.c:26-78 | unescaping gives the SSID back if and only if none of its bytes has a two-character escape |
| SsidCodec.ChangeStringInvertsScanForm | inetd/src/wifi/wifi.c:26-78 | unescaping undoes the manager's own scan form on agreeable SSIDs |
| SsidCodec.ChangeString | inetd/src/wifi/wifi.c:26-78 | the destination holds the unescaped text as far as it has room, then NULs |
| SsidCodec.PutChanged | inetd/src/wifi/wifi.c:38-75 | one turn of the unescaping writes one item, a cut-off escape ends it |
| HotspotList.Hotspot.Store | inetd/src/inetd/wifi.c:808-810 | memcpy of a node copies content and link |
| HotspotList.ExchangeNodes | inetd/src/inetd/wifi.c:804-810 | two nodes exchange contents while each keeps its own link |
| HotspotList.Exchange | inetd/src/inetd/wifi.c:804-810 | in a list the exchange swaps two positions and keeps every node and link |
| HotspotList.SortTail | inetd/src/inetd/wifi.c:790-815 | positions 1 to number-1 become non-increasing in signal, position 0 is untouched, nodes, links and payloads stay |
| HotspotList.CompareExchange | inetd/src/inetd/wifi.c:802-811 | the inner step keeps the sorting state one position further |
| HotspotList.SelectStrongest | inetd/src/inetd/wifi.c:800-813 | the inner loop brings the strongest remaining row to its place |
| HotspotList.BringForward | inetd/src/inetd/wifi.c:818-839 | the connected row is exchanged with the head, wherever it is |
| HotspotList.ConnectedFirst | inetd/src/inetd/wifi.c:817-839 | after sorting and exchange the connected BSSID is first whenever present and the payloads are those of the report |
| HotspotList.SwapKeepsDistinct | inetd/src/inetd/wifi.c:804-810 | exchanging two rows keeps BSSIDs distinct |
| HotspotList.SwapKeepsMultiset | inetd/src/inetd/wifi.c:804-810 | exchanging two rows keeps the multiset of payloads |
| HotspotEvents.MissedIsDifference | inetd/src/inetd/wifi.c:953-963 | the missed BSSIDs are those stored and not in the new report |
| HotspotEvents.FoundIsDifference | inetd/src/inetd/wifi.c:970-988 | the found BSSIDs are those in the new report and not stored, with their attributes |
| HotspotEvents.ChangedIsExact | inetd/src/inetd/wifi.c:901-944 | a common BSSID is listed as changed exactly when an attribute differs, with exactly the differing attributes |
| HotspotEvents.ReplayIsExact | inetd/src/inetd/wifi.c:864-993 | applying found, missed and changed to the old table gives the new one |
| HotspotEvents.RearrangedTable | inetd/src/inetd/wifi.c:789-839 | reordering does not change the table a list stands for |
| HotspotEvents.ClientFollowsReport | inetd/src/inetd/wifi.c:855-1013 | one report takes a client that was in step to the new table |
| HotspotEvents.ClientFollowsServer | inetd/src/inetd/wifi.c:786-1013 | over every run of reports, empty reports and clears, a client that replays the events and empties its table on a clear holds exactly the server's table |
| HotspotEvents.ListenerHoldsMore | inetd/src/inetd/wifi.c:505-523 | a client that hears the events alone holds the server's table and exactly the access points listed at some clear and in no report since |
| HotspotEvents.ListenerFollowsExactly | inetd/src/inetd/wifi.c:505-523 | such a client holds the server's table if and only if nothing was forgotten that way |
| HotspotReport.WifiDevice.ReportScan | inetd/src/inetd/wifi.c:751-1016 | a report reorders, fires, flags the connected row and replaces the stored list; an empty one does nothing |
| HotspotReport.WifiDevice.FireAndStore | inetd/src/inetd/wifi.c:841-1013 | the events fired are those of the two lists and the new list is stored |
| HotspotReport.WifiDevice.Reorder | inetd/src/inetd/wifi.c:789-839 | sort and exchange on the incoming list, which stays unflagged with distinct BSSIDs |
| HotspotReport.WifiDevice.FireStrength | inetd/src/inetd/wifi.c:855-862 | the signal event and the device's signal follow the head row if it is connected |
| HotspotReport.WifiDevice.StoreReport | inetd/src/inetd/wifi.c:1000-1013 | exactly the row with the device's BSSID is flagged and the list is stored |
| HotspotReport.WifiDevice.Disconnect | inetd/src/inetd/wifi.c:505-523 | the connection is forgotten and the list emptied without an event |
| HotspotReport.WifiDevice.EmptyList | inetd/src/inetd/common.c:268-281 | closing empties the list without an event |
| HotspotReport.DiffLists | inetd/src/inetd/wifi.c:874-989 | the in-place comparison with its temporary flags computes found, missed and changed and leaves the list unflagged |
| HotspotReport.DiffHosts | inetd/src/inetd/wifi.c:895-965 | the loop over stored hosts collects missed and changed and flags what it met |
| HotspotReport.CompareHost | inetd/src/inetd/wifi.c:897-964 | one stored host is changed, unchanged or missed |
| HotspotReport.CompareNodes | inetd/src/inetd/wifi.c:903-944 | exactly the differing attributes are reported |
| HotspotReport.CollectFound | inetd/src/inetd/wifi.c:967-988 | the unflagged nodes are found and all flags are cleared |
| HotspotReport.AllFound | inetd/src/inetd/wifi.c:874-892 | with nothing stored every row is found |
| Supplicant.WpaSupplicant.Command | inetd/src/wifimanager/wifi.c:465-488 | the reply lies terminated at the front of the buffer with one newline stripped and nothing behind it touched; SAVE_CONFIG is swallowed |
| Supplicant.StoreReply | inetd/src/wifimanager/wifi.c:476-487 | storing a reply replaces its last newline by the terminator |
| Supplicant.AppliedIsWellFormed | inetd/src/wifimanager/wifimanager.c:640-868 | no accepted command makes two networks share an id |
| Supplicant.LinesAreClean | inetd/src/wifimanager/wpa_supplicant_conf.c:412-460 | the lines of a listing hold no separator, whatever the SSIDs |
| NetworkListing.ReadId | inetd/src/wifimanager/wpa_supplicant_conf.c:432-438 | the id read from a row is the row's id |
| NetworkListing.SendBehind | inetd/src/wifimanager/wpa_supplicant_conf.c:441-446 | a command whose reply overwrites the front of the listing leaves the rows ahead intact |
| NetworkListing.EnableAll | inetd/src/wifimanager/wpa_supplicant_conf.c:412-460 | one ENABLE_NETWORK per listed row, in order, up to the first refusal; the table has exactly those rows enabled |
| NetworkListing.EnabledFirstMeans | inetd/src/wifimanager/wpa_supplicant_conf.c:412-460 | the walk enables the rows it passed and changes nothing else, so a complete one enables all |
| NetworkListing.RemoveAll | inetd/src/wifimanager/wpa_supplicant_conf.c:462-510 | one REMOVE_NETWORK per listed row, in order; after a complete walk the table is empty |
| NetworkListing.MaxPriority | inetd/src/wifimanager/wpa_supplicant_conf.c:223-267 | the result is -1 after a refusal, otherwise the largest listed priority or 0 |
| NetworkLookup.IsApExist | inetd/src/wifimanager/wpa_supplicant_conf.c:32-124 | for every SSID, newlines included, the in-place search with strstr, strrchr and strtok computes the row-by-row lookup, asks for key types in that order and fails only on a refusal or an empty SSID; or it does not end or leaves the reply, exactly where CourseFrom says so |
| NetworkLookup.FindLine | inetd/src/wifimanager/wpa_supplicant_conf.c:61 | a search over the rest of the listing stops in the first line in which the SSID starts, or at the newline behind it |
| NetworkLookup.HitIsTab | inetd/src/wifimanager/wpa_supplicant_conf.c:64-74 | the byte behind the occurrence is a TAB exactly when the lines from there on are a hit |
| NetworkLookup.CutLine | inetd/src/wifimanager/wpa_supplicant_conf.c:78-83 | the line is cut at its end, and strrchr finds the newline in front of it, or none in the first line searched |
| NetworkLookup.CutRow | inetd/src/wifimanager/wpa_supplicant_conf.c:85-95 | from the cut row come its mark and its id, and only one byte of it is changed |
| NetworkLookup.HitRow | inetd/src/wifimanager/wpa_supplicant_conf.c:78-120 | the key type of the row hit decides, and the row's end is restored if the search goes on |
| NetworkLookup.Turn | inetd/src/wifimanager/wpa_supplicant_conf.c:63-121 | one turn of the search moves on by one occurrence, asks for the key type of a hit, leaves the rest of the listing as it was, and stops where the original goes astray |
| NetworkLookup.EndsWithoutNewline | inetd/src/wifimanager/wpa_supplicant_conf.c:61-121 | for an SSID without a newline the search ends regularly |
| LookupWalk.TurnMovesOn | inetd/src/wifimanager/wpa_supplicant_conf.c:61-74 | a turn that goes on moves on, unless the SSID starts with a newline |
| LookupWalk.TurnRepeats | inetd/src/wifimanager/wpa_supplicant_conf.c:61-74 | for an SSID that starts with a newline, the turn after one that goes on stays where it is, or finds no newline in front of a hit |
| LookupWalk.NeverEndsExactly | inetd/src/wifimanager/wpa_supplicant_conf.c:60-121 | the loop never ends if and only if the SSID starts with a newline, occurs in the text, and no TAB follows its first occurrence |
| LookupWalk.StallsExactly | inetd/src/wifimanager/wpa_supplicant_conf.c:60-121 | the lookup is said to stall if and only if the loop over the listing never ends |
| LookupWalk.NewlineStalls | inetd/src/wifimanager/wpa_supplicant_conf.c:60-121 | the loop for the SSID that is a newline never ends if and only if the listing has a row |
| LookupWalk.HeaderIsTaken | inetd/src/wifimanager/wpa_supplicant_conf.c:82-83 | an SSID that runs from the end of the header over the first id makes the search leave the reply |
| NetworkMatching.LookupIsFirstMatch | inetd/src/wifimanager/wpa_supplicant_conf.c:61-123 | 1 or 3 exactly when some row matches, 3 when the first such row is marked, otherwise 0 or the mark of the last hit |
| NetworkMatching.HitInColumns | inetd/src/wifimanager/wpa_supplicant_conf.c:61-74 | a row is a hit if and only if the first column holding the SSID - id, SSID or BSSID - ends with its first occurrence there |
| NetworkMatching.MarkInColumns | inetd/src/wifimanager/wpa_supplicant_conf.c:85-87 | a row counts as current if and only if it is, or its SSID spells CURRENT |
| NetworkMatching.LookupIsBySsid | inetd/src/wifimanager/wpa_supplicant_conf.c:32-124 | the search answers as a lookup by SSID and key type if and only if the first row of the key type that is a hit or has the SSID is both, or there is none |
| NetworkMatching.FoundIsMarked | inetd/src/wifimanager/wpa_supplicant_conf.c:85-117 | a saved network that was found is reported as connected if and only if it is the current one or its SSID spells CURRENT |
| NetworkMatching.WholeColumnsFindSaved | inetd/src/wifimanager/wpa_supplicant_conf.c:32-124 | where the printed SSID occurs in the listing as a whole SSID column only, the search is the lookup by SSID |
| NetworkMatching.FormIsPrinted | inetd/src/wifimanager/wifimanager.c:1111-1117 | the form looked up is the printed form if and only if the SSID is plain text |
| NetworkMatching.OwnNameIsHit | inetd/src/wifimanager/wifimanager.c:1106-1117 | a network's row is a hit for its own SSID, as the connect code spells it, if and only if the id, or else the printed SSID, ends with the first occurrence of that spelling |
| NetworkMatching.LeadingQuoteIsFound | inetd/src/wifimanager/wifimanager.c:1106-1117 | plain text behind one leading quote is found although it is printed otherwise |
| NetworkMatching.OneHighOctetIsFound | inetd/src/wifimanager/wifimanager.c:1106-1117 | a single octet above 127 is found |
| NetworkMatching.NonAsciiIsNotFound | inetd/src/wifimanager/wifimanager.c:1106-1117 | the spelling looked up for an SSID of two or more octets that is not all ASCII never occurs in its printed form |
| NetworkMatching.OwnColumnExactly | inetd/src/wifimanager/wifimanager.c:1106-1117 | the printed SSID ends with the first occurrence of the spelling looked up if and only if it is ASCII with backslashes and at most one quote in front of plain text and not backslashes only, or one octet above 127 |
| NetworkMatching.IdIsTakenForSsid | inetd/src/wifimanager/wpa_supplicant_conf.c:61-74 | the id of any network is a hit when looked up as an SSID |
| NetworkMatching.SuffixIsTakenForSsid | inetd/src/wifimanager/wpa_supplicant_conf.c:61-74 | the end of a longer SSID is a hit |
| NetworkMatching.LookupFindsAnother | inetd/src/wifimanager/wpa_supplicant_conf.c:32-124 | a table without the SSID for which the lookup answers 1 |
| NetworkTable.SetNew | inetd/src/wifimanager/wifimanager.c:651-807 | a setting of the new network touches no other network |
| NetworkTable.RemovedNew | inetd/src/wifimanager/wifimanager.c:662-664 | removing the new network restores the table, enabled flags aside |
| NetworkTable.RemovedOld | inetd/src/wifimanager/wifimanager.c:940-945 | removing the old network leaves the others and the new one |
| Connect.CheckWpaPasswd | inetd/src/wifimanager/wifimanager.c:97-118 | a password is accepted if and only if it is non-empty printable ASCII |
| Connect.SetOrUndo | inetd/src/wifimanager/wifimanager.c:651-669 | a refused setting removes the network again |
| Connect.SetKeys | inetd/src/wifimanager/wifimanager.c:671-789 | the key settings by kind of key, or everything undone |
| Connect.SetWepKey | inetd/src/wifimanager/wifimanager.c:745-762 | a WEP key is tried plain and then in quotes before giving up |
| Connect.SetPriority | inetd/src/wifimanager/wifimanager.c:791-807 | when no query is refused and the listings are complete the new priority is above every other |
| Connect.Prepare | inetd/src/wifimanager/wifimanager.c:651-837 | the network is configured as asked, selected and enabled, or removed, and the error code names a refused command or an unusable key |
| Connect.RolledBackExactly | inetd/src/wifimanager/wifimanager.c:651-669 | after a rollback the saved networks are those at entry if and only if no removal was refused; otherwise the new one is still there |
| Connect.RemoveOld | inetd/src/wifimanager/wifimanager.c:922-951 | a kept network replaces the one the lookup found, which stays exactly when its removal is refused |
| Connect.GiveUp | inetd/src/wifimanager/wifimanager.c:888-916 | after a failed link the new network is disabled and removed, and stays when the removal is refused |
| Connect.TransactionStands | inetd/src/wifimanager/wifimanager.c:956-966 | enabling all networks afterwards does not disturb the outcome |
| Connect.WifiManager.WaitForLink | inetd/src/wifimanager/wifimanager.c:857-879 | the wait ends within 225 polls and earlier only for a reason |
| Connect.WifiManager.Conclude | inetd/src/wifimanager/wifimanager.c:881-955 | the last poll decides between rollback, keeping, and leaving behind |
| Connect.WifiManager.Attempt | inetd/src/wifimanager/wifimanager.c:618-955 | every failure before the wait is undone and blamed on a refused command or an unusable key; the wait is reached only with the network selected, enabled and reconnected |
| Connect.WifiManager.ConnectApInner | inetd/src/wifimanager/wifimanager.c:618-967 | the attempt is a transaction for every pattern of failures: rolled back except for a new network whose removal was refused, kept on 0 in the place of the old network unless that removal was refused, left behind exactly in two outcomes of the wait |
| Connect.WifiManager.TryLink | inetd/src/wifimanager/wifimanager.c:842-955 | a refused RECONNECT undoes the attempt, otherwise the last poll decides |
| Connect.WifiManager.EnableAgain | inetd/src/wifimanager/wifimanager.c:956-958 | unless a listing or an ENABLE_NETWORK is refused, every network is enabled at the end, and nothing else changes |
| ConnectLaws.LookupPlace | inetd/src/wifimanager/wifimanager.c:636-638 | an answered lookup over the whole table finds the first match and hands out its id |
| ConnectLaws.KeepsAtMostOne | inetd/src/wifimanager/wifimanager.c:922-951 | after a successful attempt there is still at most one network per SSID and key type if and only if every network saved before under that SSID and key type was the first match of the lookup |
| ConnectLaws.SavedAgain | inetd/src/wifimanager/wifimanager.c:1106-1117 | a saved network stays single when it is connected to again if and only if its row is a hit and no earlier row matches; without a TAB or newline in its SSID its row is a hit if and only if it is found under its own name |
| ConnectApi.Convert | inetd/src/wifimanager/wifimanager.c:1099-1117 | the spelling looked up and sent for an SSID of up to 32 octets |
| ConnectApi.ScanKeys | inetd/src/wifimanager/wifimanager.c:1114-1125 | the key types read from the scan table are those its rows announce for the SSID's scan form |
| ConnectApi.SeenWithoutNewline | inetd/src/wifimanager/wifimanager.c:1120-1150 | an SSID that some row announces holds no newline |
| ConnectApi.OfferedMeans | inetd/src/wifimanager/network_manager.c:159-182 | for an agreeable SSID a kind of key is offered if and only if some row of exactly that SSID has it |
| ConnectApi.ConnectApKeyMgmt | inetd/src/wifimanager/wifimanager.c:970-1068 | one attempt for the SSID asked for if and only if the device is enabled and idle and some row of the scan table announces the SSID's scan form with that kind of key; otherwise nothing changes |
| ConnectApi.SuccessMeans | inetd/src/wifimanager/wifimanager.c:791-951 | a successful attempt without refusals leaves the network above every other, and single if and only if the one saved before was the first match |
| ConnectApi.SettledByAttempt | inetd/src/wifimanager/wifimanager.c:970-1068 | an attempt leaves one network more exactly when it failed by an exit that removes nothing or its removal was refused |
| ConnectApi.SettledTwice | inetd/src/wifimanager/wifimanager.c:1152-1165 | what two attempts in a row leave adds up, whatever the first one left behind |
| ConnectApi.TryBoth | inetd/src/wifimanager/wifimanager.c:1152-1165 | WPA-PSK first, WEP exactly after its failure and where offered; the table after both |
| ConnectApi.ConnectAp | inetd/src/wifimanager/wifimanager.c:1071-1177 | the attempts made are exactly those for the kinds of key some row announces; over one or two of them the saved networks are those at entry and one for each attempt that left its network there; on 0 also the SSID asked for, added or in the place of another network, added if the removal was refused |
| ScanPause.RunIsExclusive | inetd/src/wifimanager/network_manager.c:200-302 | in every interleaving the scan mutex has one holder, and who holds it is between lock and unlock |
| ScanPause.PauseKeepsScansOut | inetd/src/wifimanager/network_manager.c:284-302 | after a pause returned no SCAN or SCAN_RESULTS is sent before a resume clears the flag, spurious wakeups included |
| ScanPause.SerialIsOverlapFree | inetd/src/wifimanager/wifimanager.c:1134-1174 | while calls do not overlap no scan overlaps the work of any of them |
| ScanPause.OverlapWithTwo | inetd/src/wifimanager/wifimanager.c:1083-1097 | a call that leaves early resumes the scan thread during another call's work |
| ScanPause.OverlapFreedom | inetd/src/wifimanager/wifimanager.c:1071-1177 | every run is free of overlaps if and only if there is at most one caller |
| ScanPause.NoWakeupIsLost | inetd/src/wifimanager/network_manager.c:210-301 | a scan thread waiting with the flag clear is about to be signalled |
| WifiMachine.LinkUpsAreConserved | inetd/src/wifimanager/wifi_event.c:48-67 | link-ups equal DHCP threads starting or running plus AP_CONNECTED plus OBTAINING_IP_TIMEOUT, in every interleaving |
| WifiMachine.BadKeysAreCounted | inetd/src/wifimanager/wifi_event.c:90-104 | the failure counter is the number of bad-key messages of the run |
| WifiMachine.PasswordIncorrectMeans | inetd/src/wifimanager/wifi_event.c:90-104 | PASSWORD_INCORRECT is never set before two bad-key messages, and every bad-key message but the first leads to it |
| WifiMachine.OnlyDhcpConnects | inetd/src/wifimanager/udhcpc_thread.c:105-110 | no step but a DHCP thread's makes the machine CONNECTED |
| WifiMachine.RunIsGrounded | inetd/src/wifimanager/wifi_event.c:48-67 | every link-up has an admission of its own by an empty or matching stored id, and every DHCP thread belongs to one link-up |
| WifiMachine.EachConnectionHasItsLinkUp | inetd/src/wifimanager/udhcpc_thread.c:72-110 | each entry into CONNECTED has its own earlier link-up, and that link-up its own admission by an empty or matching stored id |
| WifiMachine.SettledStays | inetd/src/wifimanager/wifi_event.c:49-60 | once an id is stored and all that may declare CONNECTED belongs to it, this stays so until another id is stored |
| WifiMachine.StaleExactly | inetd/src/wifimanager/udhcpc_thread.c:72-110 | from any reachable state, storing an id can be followed by a CONNECTED of another link-up if and only if a DHCP thread still able to declare it, or a link-up on its way to one, was let through for something else |
| WifiMachine.StaleConnection | inetd/src/wifimanager/udhcpc_thread.c:91-110 | a run in which the link is lost, another attempt begins, and the earlier link-up's thread declares CONNECTED during it |
| WifiMachine.LinkIsOwn | inetd/src/wifimanager/wifi_event.c:48-67 | a link seen after an id was stored with no link up and nothing else under way was brought up or declared for that id since |
| WifiMachine.OnlyOwnLinksSeen | inetd/src/wifimanager/wifimanager.c:857-879 | from any reachable state, every link seen after storing an id is that network's own if and only if no link is up and nothing else that may bring one up is under way |
| WifiMachine.DhcpIsBounded | inetd/src/wifimanager/udhcpc_thread.c:72-128 | a DHCP thread takes at most 802 steps, polls at most 400 times, and reports AP_CONNECTED exactly when it saw an address |
| WifiMachine.DhcpGoesOn | inetd/src/wifimanager/udhcpc_thread.c:72-128 | a DHCP thread that has not reported can always take a step |
| LineWalk.EndOfColumn | inetd/src/wifi/wifi.c:237-260 | a column ends at the first TAB and the rest of the row follows |
| ScanTable.MarkRow | inetd/src/wifimanager/network_manager.c:150-182 | a row sets the key of its flags if its SSID is the one asked for |
| ScanTable.CutAndMark | inetd/src/wifimanager/network_manager.c:144-191 | the row end is NUL only while the row is read |
| ScanTable.GetKeyMgmt | inetd/src/wifimanager/network_manager.c:117-198 | key[k] is 1 if and only if some row has that encoded SSID and flags of class k, and the buffer is byte for byte what it was |
| ScanTable.LookUpIdentifies | inetd/src/wifimanager/network_manager.c:159-182 | the look-up by scan form is one by raw SSID if and only if all its bytes are agreeable |
| ScanTable.TruncationKeepsRows | inetd/src/wifimanager/network_manager.c:71-78 | cutting at the last newline leaves the table of as many leading rows as fit with their newline |
| ScanTable.GetScanResultsInner | inetd/src/wifimanager/network_manager.c:57-87 | the caller gets the whole table or the table of its first rows, terminated |
| ScanParser.ReadColumns | inetd/src/wifi/wifi.c:237-260 | the columns of a row are read back as printed |
| ScanParser.SsidKept | inetd/src/wifi/wifi.c:262-274 | the node's SSID is the row's if and only if no octet of it is zero or has a two-character escape |
| ScanParser.RoomExactly | inetd/src/wifi/wifi.c:262-274 | the unescaped SSID leaves room for its terminator in 64 bytes if and only if it is not 32 octets that all have two-character escapes |
| NodeLayout.KeepsExactly | inetd/include/inetd.h:156-167 | after the copies every field of the node holds its column if and only if every column, the SSID included, is shorter than 64 bytes |
| NodeLayout.LongFlagsLoseSignal | inetd/src/wifi/wifi.c:248-260 | flags of 68 bytes or more replace the signal, for every level from -100 to 155 |
| ScanParser.NodeKeepsRow | inetd/src/wifi/wifi.c:237-274 | whatever lies behind the reader's buffer, the node built from a scan row holds it if and only if BSSID, frequency and flags are shorter than 64 bytes and the SSID is not 32 octets that all have two-character escapes |
| ScanParser.QuotesAreLost | inetd/src/wifi/wifi.c:262-274 | the node of an SSID of 32 quotes has no terminator in its SSID field |
| ScanParser.AppendNode | inetd/src/wifi/wifi.c:278-280 | a blank node is linked behind the last one |
| ScanParser.GetWifimanagerInfo | inetd/src/wifi/wifi.c:213-294 | for rows that nodes keep the list holds the printed rows in order, with signal 100 + level, and number is both row count and list length |
| FreqRanges.FreqRangeListParse | inetd/src/wifimanager/common.c:767-805 | the pointer walk computes the recursive reading of the text, with every number capped at a long and cut to 32 bits |
| FreqRanges.FreqRangeListStr | inetd/src/wifimanager/common.c:825-860 | 30 bytes per range always suffice for the text and its terminator |
| FreqRanges.FreqRangeListIncludes | inetd/src/wifimanager/common.c:808-822 | 1 if and only if some range holds the frequency |
| FreqRanges.ParsedPrinted | inetd/src/wifimanager/common.c:767-860 | parsing a printed list of any length gives it back if and only if every bound is below the limit of a long, by which atoi reads: always with 64 bits, below 2^31 with 32 |
| ConfigSplice.UpdateCtrlInterface | inetd/src/wifimanager/wifi.c:121-146 | the edits inside the buffer and the write over the file's front give the spliced text, for every file, NUL bytes included, in which the line of a value to be replaced ends |
| ConfigSplice.ReplaceValue | inetd/src/wifimanager/wifi.c:132-142 | memmove, memset and memcpy put the new value and its padding in place of the old line end |
| ConfigSplice.TailIsMovable | inetd/src/wifimanager/wifi.c:129-133 | the length handed to memmove is not negative if and only if the value's line ends |
| ConfigSplice.SplicedMeans | inetd/src/wifimanager/wifi.c:121-146 | bytes before the value and after its line survive, padding is newlines, growth is between 0 and 17 bytes |
| ConfigSplice.SplicedEntry | inetd/src/wifimanager/wifi.c:121-146 | the first entry stays where it was and has the new path as its value |
| ConfigSplice.SpliceIsIdempotent | inetd/src/wifimanager/wifi.c:121-146 | a second run changes nothing |
| Decimal.AtoiPrinted | inetd/src/wifimanager/wpa_supplicant_conf.c:258 | a printed number is read back whatever follows it but a digit |

## Left out

- NetworkLookup.IsApExist: where the original does not end or leaves the reply the model stops; what it then reads is not followed.
- Connect.WifiManager.ConnectApInner: the SSID holds no newline, which its callers ensure (`ConnectApi.SeenWithoutNewline`); max_prio + 1 is unbounded; the overflow at the largest int is not modelled, nor is a command line longer than its buffer.
- ConnectApi.ConnectAp: what the scan table holds at each look is an environment choice; the pausing around the attempts is in ScanPause.
- ConnectApi.Convert: SSIDs are at most 32 octets (section 9.4.2.2 of IEEE Std 802.11-2016); the original's buffers are sized for these.
- Supplicant.WpaSupplicant.Command: a refused command changes nothing; a command that timed out after it took effect is not modelled. Commands are values, not text, and the BSSID column is always "any".
- ScanTable.GetKeyMgmt: rows are well formed, with flags shorter than the original's 128 bytes.
- ScanParser.GetWifimanagerInfo: rows are well formed and such that a node keeps them (`ScanParser.NodeKeepsRow`); what other rows do to the memory behind a node is not followed.
- FreqRanges.FreqRangeListParse: atoi is read as strtol and a conversion, as common C libraries define it; the language leaves numbers outside int undefined.
- ConfigSplice.UpdateCtrlInterface: a value to be replaced stands on a line that ends (`ConfigSplice.TailIsMovable`), and the buffer behind the file reads as NUL; opening, reading and closing the file are not modelled.
- ScanPause.OverlapFreedom: stop_wifi_scan_thread, which clears the flag without the mutex, and the early returns of aw_wifi_remove_network are not part of the protocol.
- WifiMachine.LinkUpsAreConserved: the parsing of event text and the callbacks are not modelled; API calls and timeout threads appear as writes they may make.
- aw_wifi_disconnect_ap, aw_wifi_add_network, aw_wifi_connect_ap_with_netid and aw_wifi_connect_ap_auto: shorter variants of the modelled transaction; their state writes are among the other steps of WifiMachine.
- JSON text and its buffers in report_wifi_scan_info: events are records.
- Memory allocation failure, and freeing: dropped nodes are simply no longer stored.
- Sockets, DHCP commands, the message bus, device files and timing.
