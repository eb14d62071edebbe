# esp-hal-app-framework, modelled in Dafny

This project models the core of `esp-hal-app-framework`, a framework for ESP32-S3 firmware. It covers eight parts:

- **Improv Wi-Fi serial codec** (`improv_wifi.rs`). The byte-exact frames of the Improv Wi-Fi serial protocol: magic `IMPROV`, version 1, type, length, payload, wrapping 8-bit checksum, line feed. A cursor parser and a growing writer.
- **Wi-Fi connection task** (`wifi.rs`). Improv provisioning over the serial port while no credentials are stored, then the station connect loop with its flags.
- **Framework configuration** (`framework.rs`). Loading the configuration from a fallible flash key-value store and then from a TOML-subset text. The setters and erase operations. Generation of the web-app key. The fan-out of notifications to observers.
- **Touch driver** (`touch.rs`). Controller samples become press, move and release events.
- **Over-the-air update** (`ota.rs`). The metadata file, the report sequence, chunk sizing, progress throttling and the observer gate.
- **Licence check** (`license.rs`). The repeating-key XOR obfuscation, the 10-byte flash header and the MAC comparison.
- **SD-card file store** (`sdcard_store.rs`). The cached volume, the path walk that makes or rejects directories by open mode, and whole-file reads and writes.
- **Simple SD-card reader** (`sdcard.rs`). The card handle is taken out for each read and put back only on success.

The files are:

- `wrappers.dfy`, `bytes.dfy`, `text.dfy` and `utf8.dfy`. Shared vocabulary:
  - `Option` and `Result`;
  - `u8` arithmetic and checksums;
  - Rust's `str::trim`, `split`, `split_once`, `lines` and number parsing;
  - `String::from_utf8` and `from_utf8_lossy`.
- `improv_wifi.dfy`. The codec as functions: an encoder and a position-passing decoder.
- `improv_wifi_codec.dfy`. The `Parser` and `Writer` classes. Their methods update `pos` and the output buffer in place and are proved equal to those functions.
- `improv_wifi_proofs.dfy`. The codec's properties:
  - the round trip;
  - truncation only ever gives `Incomplete`;
  - the checksum catches corruption;
  - the header, payload and terminator errors;
  - the exact example frames.
- `wifi.dfy`. The class `ConnectionTask`, whose fields are the connection task's local variables. The `Env` stream-of-answers type stands for the radio, the serial port, the IP stack and the flash. A trace records every action.
- `framework.dfy`. The classes `Framework` and `FlashMap`, the line reader of the configuration text, the key alphabet and the notification loop.
- `touch.dfy`, `ota.dfy` and `license.dfy`. One module each.
- `sd_filesystem.dfy`. The FAT volume as an abstract tree of directories and files, opened in the modes of `embedded_sdmmc`, plus the directory walk (`WalkDirs`) that both SD files share.
- `sdcard_store.dfy` and `sdcard.dfy`. The two SD-card front ends. Each operation is stated once as a function over a state value, and the class with the source's fields is proved to follow it.

Inputs the code does not compute are parameters. None of them is an assumption:

- the bytes the serial port delivers;
- scan results;
- connect and store outcomes;
- the card's answers to volume requests;
- the random bytes of `getrandom`;
- the semver verdict;
- the flasher's answers.

Throughout, "panics" is a value of the model (`Panicked`, `Panic`, `LoadPanics`), never a precondition.

Several behaviours of the code are modelled as written, because they are what it does:

- `take_volume` sets `card_installed` only when it reuses the cached volume, not when a fresh open succeeds (`SdStore.TakenVolume`).
- `ReadWriteAppend` is one of the `CREATE_MODES`. So the first open of `write_file_bytes` already makes the missing directories, even when that open then fails (`SdStore.FileOpenedChangeDir`).
- The fallback read of `read_create_bytes` opens in append mode, so its read starts at the end of the file. If the read-only attempt failed only because the card did not answer, an existing file comes back as zeros of its length (`SdStore.CreatedReadZeros`).
- `SDCard::read_file_bin` loses the card handle on every error path, so the next call panics (`SdReader.FileReadMeaning`, `SdReader.GoneCardPanics`).
- Some report texts of `run_ota` are kept exactly as written:
  - the empty DNS reply is reported as a status, not a failure;
  - its text keeps the unformatted `{ota_domain}`;
  - a failed firmware response is reported as "Failed to fetch response for metadata";
  - the header failure reads "Failed to read resopnse headers".
- The RPC result parser reads strings while fewer than the declared number of bytes have been consumed. A string that runs past the declared length is therefore read whole (`ImprovWifiProofs.ResultStringsOvershoot`).
- The `data_length` bytes of a frame and of an RPC command are read but never checked.

`wifi.rs` calls `report_wifi(Option<Ipv4Addr>, bool, &str)` and `notify_wifi_sta_disconnected`. `framework.rs` declares `report_wifi(bool, &str, &str)` and no disconnect notification, so the two files come from different revisions. The connection task's reports are therefore trace actions of their own (`WifiReported`, `StaConnectedNotified`, `StaDisconnectedNotified`). `Framework.Framework.ReportWifi` models the `framework.rs` signature.

## Model

| member | source | states |
|---|---|---|
| ImprovWifi.Encode | esp-hal-app-framework/src/improv_wifi.rs:238-265 | A frame is the 7 magic and version bytes, the type id and the length derived from the payload, the payload's encoding, then the wrapping sum of every byte before it and 0x0A. The stored type, length and checksum fields play no part. The length byte is the payload's length modulo 256 when no string length wraps. |
| ImprovWifi.SettingsLength | esp-hal-app-framework/src/improv_wifi.rs:499-501 | `2 + ssid.len() as u8 + password.len() as u8` in wrapping arithmetic is the settings' encoded length modulo 256 when both strings are shorter than 256 bytes. |
| ImprovWifi.CommandDataLength | esp-hal-app-framework/src/improv_wifi.rs:458-467 | An RPC command's length byte is the length of its data modulo 256. Only Send-Wi-Fi-settings has data. |
| ImprovWifi.StringsDataLength | esp-hal-app-framework/src/improv_wifi.rs:551-556 | The fold `acc + 1 + len as u8` is the strings' encoded length modulo 256 when every string is short. |
| ImprovWifi.EncodeStrings | esp-hal-app-framework/src/improv_wifi.rs:533-544 | Each result string is written with a one-byte prefix, so the encoding is at least one byte per string. |
| ImprovWifi.EncodeStringsSnoc | esp-hal-app-framework/src/improv_wifi.rs:538-543 | Writing one more string appends exactly its prefixed encoding. |
| ImprovWifi.LengthStep | esp-hal-app-framework/src/improv_wifi.rs:553-555 | One step of the length fold keeps the accumulator equal to the true length modulo 256. |
| ImprovWifi.DataLength | esp-hal-app-framework/src/improv_wifi.rs:296-303 | The payload's length byte is its encoding's real length modulo 256 whenever no inner length wraps. |
| ImprovWifi.U8At | esp-hal-app-framework/src/improv_wifi.rs:33-40 | `read_u8` succeeds exactly when a byte is left. It returns that byte and advances by one. |
| ImprovWifi.MagicAt | esp-hal-app-framework/src/improv_wifi.rs:42-51 | `read_magic` succeeds exactly when the bytes are present and equal. Too few bytes is `Incomplete`, unequal ones `InvalidMagic`. |
| ImprovWifi.VecAt | esp-hal-app-framework/src/improv_wifi.rs:53-60 | `read_vec` succeeds exactly when `count` bytes are left and returns exactly those bytes. |
| ImprovWifi.StringAt | esp-hal-app-framework/src/improv_wifi.rs:62-66 | `read_string` consumes the length byte and that many string bytes, within the input. |
| ImprovWifi.CurrentStateAt | esp-hal-app-framework/src/improv_wifi.rs:325-333 | A decoded state is the one its byte names, after reading exactly one byte. |
| ImprovWifi.ErrorStateAt | esp-hal-app-framework/src/improv_wifi.rs:361-371 | A decoded error state is the one its byte names, after reading exactly one byte. |
| ImprovWifi.SettingsAt | esp-hal-app-framework/src/improv_wifi.rs:488-492 | Parsing the settings consumes input and stays within it. |
| ImprovWifi.CommandAt | esp-hal-app-framework/src/improv_wifi.rs:439-447 | A decoded command has the id it was selected by. |
| ImprovWifi.RpcCommandAt | esp-hal-app-framework/src/improv_wifi.rs:399-409 | An RPC command consumes at least its command and length bytes, within the input. |
| ImprovWifi.StringsAt | esp-hal-app-framework/src/improv_wifi.rs:518-524 | The result loop stops only once at least `limit` bytes since its start are consumed, and reads within the input. |
| ImprovWifi.RpcResultAt | esp-hal-app-framework/src/improv_wifi.rs:514-531 | An RPC result consumes at least its two header bytes, within the input. |
| ImprovWifi.DataAt | esp-hal-app-framework/src/improv_wifi.rs:277-285 | A decoded payload is of the variant its type byte names and consumes input. |
| ImprovWifi.FrameAt | esp-hal-app-framework/src/improv_wifi.rs:152-168 | A read frame starts with the magic, takes the type and length bytes as they are, has a checksum byte and ends at a 0x0A. |
| ImprovWifi.Decode | esp-hal-app-framework/src/improv_wifi.rs:145-189 | A decoded packet's checksum is the wrapping sum of every byte before the checksum byte. The rest returned is a suffix of the input, at least 12 bytes shorter. |
| ImprovWifiCodec.Parser.ReadU8 | esp-hal-app-framework/src/improv_wifi.rs:33-40 | The method's value and new `pos` are those of `U8At` on the old position. |
| ImprovWifiCodec.Parser.ReadMagic | esp-hal-app-framework/src/improv_wifi.rs:42-51 | The value and new `pos` are those of `MagicAt`. |
| ImprovWifiCodec.Parser.ReadVec | esp-hal-app-framework/src/improv_wifi.rs:53-60 | The value and new `pos` are those of `VecAt`. |
| ImprovWifiCodec.Parser.ReadString | esp-hal-app-framework/src/improv_wifi.rs:62-66 | The value and new `pos` are those of `StringAt`. |
| ImprovWifiCodec.ParseCurrentState | esp-hal-app-framework/src/improv_wifi.rs:325-333 | Follows `CurrentStateAt`. |
| ImprovWifiCodec.ParseErrorState | esp-hal-app-framework/src/improv_wifi.rs:361-371 | Follows `ErrorStateAt`. |
| ImprovWifiCodec.ParseSettings | esp-hal-app-framework/src/improv_wifi.rs:488-492 | Follows `SettingsAt`. |
| ImprovWifiCodec.ParseCommand | esp-hal-app-framework/src/improv_wifi.rs:439-447 | Follows `CommandAt`. |
| ImprovWifiCodec.ParseRpcCommand | esp-hal-app-framework/src/improv_wifi.rs:399-409 | Follows `RpcCommandAt`. |
| ImprovWifiCodec.ParseRpcResult | esp-hal-app-framework/src/improv_wifi.rs:514-531 | The `while` loop that pushes strings gives the strings and the position of `RpcResultAt`. |
| ImprovWifiCodec.ParseData | esp-hal-app-framework/src/improv_wifi.rs:277-285 | Follows `DataAt`. |
| ImprovWifiCodec.FromBytes | esp-hal-app-framework/src/improv_wifi.rs:145-189 | `from_bytes` run on a `Parser` gives `Decode`'s result. |
| ImprovWifiCodec.Writer.WriteU8 | esp-hal-app-framework/src/improv_wifi.rs:93-95 | The output grows by the byte. |
| ImprovWifiCodec.Writer.WriteMagic | esp-hal-app-framework/src/improv_wifi.rs:97-99 | The output grows by the magic. |
| ImprovWifiCodec.Writer.WriteSlice | esp-hal-app-framework/src/improv_wifi.rs:101-103 | The output grows by the slice. |
| ImprovWifiCodec.Writer.WriteString | esp-hal-app-framework/src/improv_wifi.rs:105-108 | The output grows by `len as u8` and the string's bytes. |
| ImprovWifiCodec.WriteState | esp-hal-app-framework/src/improv_wifi.rs:335-342 | The output grows by the state's byte. |
| ImprovWifiCodec.WriteSettings | esp-hal-app-framework/src/improv_wifi.rs:494-497 | The output grows by the encoded SSID and password. |
| ImprovWifiCodec.WriteRpcCommand | esp-hal-app-framework/src/improv_wifi.rs:411-422 | The output grows by the derived command id, the derived length and the command data. |
| ImprovWifiCodec.WriteRpcResult | esp-hal-app-framework/src/improv_wifi.rs:533-544 | The output grows by the stored command id, the derived strings length and the strings. |
| ImprovWifiCodec.WriteStrings | esp-hal-app-framework/src/improv_wifi.rs:538-543 | The loop over the strings appends `EncodeStrings`. |
| ImprovWifiCodec.StringsPrefixStep | esp-hal-app-framework/src/improv_wifi.rs:538-543 | One more loop step extends the encoded prefix by one string. |
| ImprovWifiCodec.WriteData | esp-hal-app-framework/src/improv_wifi.rs:287-294 | The output grows by the payload's encoding. |
| ImprovWifiCodec.ToBytes | esp-hal-app-framework/src/improv_wifi.rs:238-265 | `to_bytes` run on a `Writer` gives `Encode(p)`. |
| ImprovWifiProofs.RoundTrip | esp-hal-app-framework/src/improv_wifi.rs:145-265 | For a payload whose strings fit their prefix bytes, decoding an encoded packet followed by any bytes gives the packet back and exactly those bytes. The cached id and length fields come back derived. |
| ImprovWifiProofs.ReencodeDecoded | esp-hal-app-framework/src/improv_wifi.rs:238-265 | Re-encoding the decoded packet gives the same frame. |
| ImprovWifiProofs.DecodeFrame | esp-hal-app-framework/src/improv_wifi.rs:158-188 | The declared length byte is kept as it was and never checked. The rest after the frame is returned exactly. |
| ImprovWifiProofs.DataAtEncoded | esp-hal-app-framework/src/improv_wifi.rs:277-285 | An encodable payload reads back in canonical form and consumes exactly its encoding. |
| ImprovWifiProofs.StringsAtEncoded | esp-hal-app-framework/src/improv_wifi.rs:518-524 | The result loop reads back exactly the encoded strings when the limit is their length. |
| ImprovWifiProofs.RpcCommandAtEncoded | esp-hal-app-framework/src/improv_wifi.rs:399-409 | An RPC command reads back with whatever length byte precedes it. |
| ImprovWifiProofs.RpcResultAtEncoded | esp-hal-app-framework/src/improv_wifi.rs:514-531 | An RPC result with a non-wrapping strings length reads back whole. |
| ImprovWifiProofs.StringAtEncoded | esp-hal-app-framework/src/improv_wifi.rs:62-66 | A prefixed string reads back. |
| ImprovWifiProofs.SettingsAtEncoded | esp-hal-app-framework/src/improv_wifi.rs:488-497 | Encoded settings read back. |
| ImprovWifiProofs.FrameAtEncoded | esp-hal-app-framework/src/improv_wifi.rs:152-168 | Around an encodable payload, the fields read back as they are. A last byte other than 0x0A gives `InvalidMagic`. |
| ImprovWifiProofs.WrongChecksumIsRejected | esp-hal-app-framework/src/improv_wifi.rs:171-178 | A checksum byte other than the sum of the bytes before it gives `InvalidChecksum`. |
| ImprovWifiProofs.ChecksumDetectsCorruption | esp-hal-app-framework/src/improv_wifi.rs:171-178 | Changing one byte before the checksum gives `InvalidChecksum`, as long as the frame still reads to the same length. |
| ImprovWifiProofs.DecodeTruncated | esp-hal-app-framework/src/improv_wifi.rs:145-169 | Decoding the first n bytes gives `Incomplete`, the same error or the same packet. Once the frame fits in them, it gives the same packet and the rest of those bytes. |
| ImprovWifiProofs.PrefixIsIncomplete | esp-hal-app-framework/src/improv_wifi.rs:33-60 | Every strict prefix of an encoded frame decodes to `Incomplete`. |
| ImprovWifiProofs.FrameAtTruncated | esp-hal-app-framework/src/improv_wifi.rs:152-168 | Frame reading on a prefix only fails with `Incomplete` where the whole succeeds. |
| ImprovWifiProofs.StringsAtTruncated | esp-hal-app-framework/src/improv_wifi.rs:518-524 | The result loop on a prefix agrees with the whole or is `Incomplete`. |
| ImprovWifiProofs.DataAtTruncated | esp-hal-app-framework/src/improv_wifi.rs:277-285 | Payload parsing on a prefix agrees with the whole or is `Incomplete`. |
| ImprovWifiProofs.U8AtTruncated | esp-hal-app-framework/src/improv_wifi.rs:33-40 | Reading a byte from a prefix gives the same result as from the whole, or `Incomplete` where the byte is cut off. |
| ImprovWifiProofs.VecAtTruncated | esp-hal-app-framework/src/improv_wifi.rs:53-60 | Reading bytes from a prefix agrees with the whole, or is `Incomplete`. |
| ImprovWifiProofs.MagicAtTruncated | esp-hal-app-framework/src/improv_wifi.rs:42-51 | Checking the magic on a prefix agrees with the whole, or is `Incomplete`. |
| ImprovWifiProofs.StringAtTruncated | esp-hal-app-framework/src/improv_wifi.rs:62-66 | Reading a string from a prefix agrees with the whole, or is `Incomplete`. |
| ImprovWifiProofs.RpcResultAtTruncated | esp-hal-app-framework/src/improv_wifi.rs:514-531 | Parsing an RPC result on a prefix agrees with the whole, or is `Incomplete`. |
| ImprovWifiProofs.SsidFails | esp-hal-app-framework/src/improv_wifi.rs:488-492 | A settings payload whose SSID bytes are not UTF-8 fails with `InvalidUtf8`. |
| ImprovWifiProofs.ReadyFrameBytes | esp-hal-app-framework/src/improv_wifi.rs:193-201 | `CurrentState(Ready)` encodes to `49 4D 50 52 4F 56 01 01 01 02 E2 0A` and decodes back. |
| ImprovWifiProofs.DeviceInformationRequestBytes | esp-hal-app-framework/src/improv_wifi.rs:238-265 | A device-information request frame carries checksum 0xE6. |
| ImprovWifiProofs.BadTerminatorIsInvalidMagic | esp-hal-app-framework/src/improv_wifi.rs:124-128 | A frame whose last byte is not 0x0A is rejected as `InvalidMagic`. |
| ImprovWifiProofs.HeaderErrors | esp-hal-app-framework/src/improv_wifi.rs:145-162 | The header checks, in order: a bit offset gives `Incomplete`; fewer than 7 bytes give `Incomplete`; a wrong magic or version gives `InvalidMagic`; an unknown type byte gives `InvalidDataType` of that byte. |
| ImprovWifiProofs.PayloadErrors | esp-hal-app-framework/src/improv_wifi.rs:325-447 | Bytes outside the enumerations give `InvalidState`, `InvalidError` or `InvalidCommand` of that byte. |
| ImprovWifiProofs.SettingsUtf8Error | esp-hal-app-framework/src/improv_wifi.rs:62-66 | A settings string that is not UTF-8 makes the decode `InvalidUtf8`. |
| ImprovWifiProofs.DataErrorIsDecodeError | esp-hal-app-framework/src/improv_wifi.rs:162 | A payload error is the whole decode's error. |
| ImprovWifiProofs.ResultStringsOvershoot | esp-hal-app-framework/src/improv_wifi.rs:518-524 | With a declared length of 1, a three-byte string is read whole. |
| ImprovWifiProofs.ResultFrameDecodes | esp-hal-app-framework/src/improv_wifi.rs:213-221 | A result frame decodes to the responded command, the strings in order and their total length. |
| ImprovWifiProofs.ResponsesAnswerTheirCommands | esp-hal-app-framework/src/improv_wifi.rs:559-611 | Device information answers 0x03 with the four device strings; a scan entry answers 0x04 with the SSID, the signal and "YES" or "NO"; the scan end answers 0x04 with no strings; the settings result answers 0x01 with the redirect URL. |
| Bytes.ChecksumIsSumMod256 | esp-hal-app-framework/src/improv_wifi.rs:171-174 | The wrapping fold of the checksum is the byte sum modulo 256. |
| Bytes.ChecksumChanges | esp-hal-app-framework/src/improv_wifi.rs:171-178 | Changing any one byte changes the checksum. |
| Wifi.UniqueAccessPoints | esp-hal-app-framework/src/wifi.rs:243-248 | The `seen.insert` filter loop gives `UniqueBySsid`. |
| Wifi.UniqueKeepsEachSsidOnce | esp-hal-app-framework/src/wifi.rs:243-248 | The filtered list has every SSID of the scan, and each once. |
| Wifi.UniqueKeepsFirstInOrder | esp-hal-app-framework/src/wifi.rs:243-248 | Each kept entry is the first with its SSID, in scan order. |
| Wifi.ScanRepliesEndOnce | esp-hal-app-framework/src/wifi.rs:242-266 | One frame is sent per kept entry, then exactly one empty end marker, also for a failed scan. |
| Wifi.ScanReplies | esp-hal-app-framework/src/wifi.rs:242-266 | The reply to a scan always ends with the empty end marker, flushed. |
| Wifi.FirstIndex | esp-hal-app-framework/src/wifi.rs:243-248 | The index of the first access point with a given SSID: no earlier entry has that SSID. |
| Wifi.EntryRepliesAt | esp-hal-app-framework/src/wifi.rs:249-257 | The i-th scan frame answers the i-th kept entry and is flushed. |
| Wifi.ReplyPacket | esp-hal-app-framework/src/wifi.rs:176-360 | Each reply is the state frame, error frame or RPC result the connection task builds for it. |
| Wifi.Position | esp-hal-app-framework/src/wifi.rs:362 | `position(\|&x\| x == 10)` is the first index holding the byte, or none. |
| Wifi.Resync | esp-hal-app-framework/src/wifi.rs:362-366 | After a decode error, the buffer keeps a suffix of itself, strictly shorter when it was not empty. |
| Wifi.Classify | esp-hal-app-framework/src/wifi.rs:198-367 | A decoded frame leaves a suffix of the buffer at least 12 bytes shorter. `Incomplete` is the only case that keeps the buffer. Any other error leaves a suffix, strictly shorter when the buffer was not empty. |
| Wifi.ClassifyBuffer | esp-hal-app-framework/src/wifi.rs:196-367 | One decode pass on the buffer, as the loop computes it, is `Classify`. |
| Wifi.AddressWaitFirst | esp-hal-app-framework/src/wifi.rs:443-490 | The address taken is the first one the IP polls report, and the polls after it are left. |
| Wifi.ConnectionTask.AwaitAddress | esp-hal-app-framework/src/wifi.rs:443-490 | The polling loop takes the stack's first reported address. |
| Wifi.FitOrEmpty | esp-hal-app-framework/src/wifi.rs:104-108 | `from_str(..).unwrap_or_default()` keeps a string that fits the capacity, and its result always fits the capacity. |
| Wifi.WatchedUp | esp-hal-app-framework/src/wifi.rs:481-503 | The link is up exactly after a "connected" that no "disconnected" follows. |
| Wifi.WatchedPaired | esp-hal-app-framework/src/wifi.rs:499-503 | The monitor accepts a trace exactly when each "disconnected" closes a connection opened before it. |
| Wifi.WatchedStops | esp-hal-app-framework/src/wifi.rs:283-289 | The stop counter is 0 iff the Access Point never stopped, and at most 1 iff it stopped at most once. |
| Wifi.WatchedFlags | esp-hal-app-framework/src/wifi.rs:112-157 | The monitor's flags mean: nothing of provisioning happened; not yet connected; the Access Point was never restarted. |
| Wifi.PersistedMeaning | esp-hal-app-framework/src/wifi.rs:451-481 | Progress stays `ok` exactly when every "connected" comes right after the persisting actions. |
| Wifi.JustBeforeStage | esp-hal-app-framework/src/wifi.rs:446-479 | Stage 5 means the last five actions are, in order: the IP report, the stored credentials, `Provisioned`, the station web app and the redirect URL. |
| Wifi.ConnectionTask.Run | esp-hal-app-framework/src/wifi.rs:96-509 | Over the whole trace:<br>• every disconnect closes a connection;<br>• the Access Point stops at most once and never restarts;<br>• stored credentials skip provisioning and are cut to 32/64 bytes;<br>• a stored SSID without a password panics;<br>• without stored credentials, every "connected" follows the persisting actions;<br>• an over-long package name panics;<br>• otherwise the trace starts with the Access Point services and Ready;<br>• the task halts on a failed store only after provisioning, with storing the credentials its last action and a `false` answer of the store the one it consumed last. |
| Wifi.ConnectionTask.RunStored | esp-hal-app-framework/src/wifi.rs:103-509 | With stored credentials: no provisioning action, the SSID and password are the stored ones cut to 32 and 64 bytes, the trace keeps the connection properties, and the task ends only when the environment runs out (nothing is stored outside bootstrap mode). |
| Wifi.ConnectionTask.RunProvisioned | esp-hal-app-framework/src/wifi.rs:112-509 | Without stored credentials: an over-long package name panics with no action; otherwise the trace starts with the Access Point services and Ready, keeps the connection properties, and ends on a failed store only with the store of the credentials last. |
| Wifi.ConnectionTask.ConnectProvisioned | esp-hal-app-framework/src/wifi.rs:376-509 | The connect loop after provisioning extends the trace, keeps the connection properties and persists before each "connected"; a failed store is the last action and consumed a `false` answer. |
| Wifi.TraceMeaning | esp-hal-app-framework/src/wifi.rs:112-509 | What the monitor's counters and flags mean for the trace: paired disconnects, at most one stop, no restart, no provisioning, persisting before every "connected". |
| Wifi.ConnectionTask.Provision | esp-hal-app-framework/src/wifi.rs:112-377 | An over-long package name panics before any action. Otherwise the trace starts with the Access Point services and Ready. Provisioning ends by accepting the credentials last tried, or halts with no connection made. |
| Wifi.ConnectionTask.ReadSerial | esp-hal-app-framework/src/wifi.rs:183-197 | A zero-length read ends the connection task with the trace unchanged. A read error is ignored and leaves the buffer. Every other read consumes serial input. An accepted step has the tried credentials last in the trace. |
| Wifi.ConnectionTask.ProcessData | esp-hal-app-framework/src/wifi.rs:196-371 | The `'process_data` loop stops with the buffer empty or holding the start of an incomplete frame. It has dropped only bytes from the buffer's front. |
| Wifi.ConnectionTask.DecodeOne | esp-hal-app-framework/src/wifi.rs:198-367 | A pass removes a frame or junk and shrinks the buffer to a suffix. `Incomplete` leaves the buffer alone and ends the pass. A decoded frame leaves exactly `Classify`'s rest and the pass goes on unless the frame halted or accepted the settings. Junk leaves `Classify`'s rest, after a device-information frame when the junk asked for it. |
| Wifi.ConnectionTask.DecodePass | esp-hal-app-framework/src/wifi.rs:198-367 | What the `'process_data` loop needs of a pass: the buffer shrinks whenever the loop goes on, and a pass that goes on without progress left an incomplete frame in place. |
| Wifi.ConnectionTask.DropJunk | esp-hal-app-framework/src/wifi.rs:350-366 | After the optional device-information frame, the buffer becomes the resynchronised rest. |
| Wifi.ConnectionTask.TakeFrame | esp-hal-app-framework/src/wifi.rs:198-204 | A decoded frame leaves exactly its rest in the buffer. An accepted frame is one whose credentials were just tried. |
| Wifi.ConnectionTask.Dispatch | esp-hal-app-framework/src/wifi.rs:204-333 | A non-RPC packet is ignored. `RequestCurrentState` is answered with Ready. `RequestDeviceInformation` is answered with name, version, "ESP32S3" and "WT32-SC01-Plus". `RequestScannedWifiNetworks` consumes one scan and sends its replies, or halts when the scans ran out. `SendWifiSettings` with too long an SSID or password panics. Otherwise it tries the packet's SSID and password: it accepts them when the trial succeeds, sends `UnableToConnect` when it fails, and halts when the trials ran out. |
| Wifi.ConnectionTask.ReplyToScan | esp-hal-app-framework/src/wifi.rs:227-266 | A scan is followed by `ScanReplies` of its result. |
| Wifi.ConnectionTask.SendScanReplies | esp-hal-app-framework/src/wifi.rs:249-266 | One flushed frame per entry, then the end marker. |
| Wifi.ConnectionTask.TrySettings | esp-hal-app-framework/src/wifi.rs:269-329 | `Provisioning` is sent first. The web app and the Access Point stop only while it is active. Over-long credentials panic. Success adopts them; failure sends `UnableToConnect` and keeps listening; with no answer left the environment is exhausted. |
| Wifi.ConnectionTask.EnterSettings | esp-hal-app-framework/src/wifi.rs:276-289 | `Provisioning` is sent, then the web app and Access Point stop when it was active; the Access Point is inactive afterwards. |
| Wifi.ConnectionTask.CheckCredentials | esp-hal-app-framework/src/wifi.rs:290-329 | The credentials are tried; a working answer adopts them, a failing one sends `UnableToConnect`, and no answer left is the end of the environment. |
| Wifi.ConnectionTask.StartAccessPoint | esp-hal-app-framework/src/wifi.rs:112-178 | The Access Point, DHCP, captive portal if configured, web app and report come up in order, then Ready. |
| Wifi.ConnectionTask.Announce | esp-hal-app-framework/src/wifi.rs:127-178 | The web app starts, the Access Point is reported and Ready is sent, unflushed. |
| Wifi.ConnectionTask.ConnectLoop | esp-hal-app-framework/src/wifi.rs:384-508 | Every attempt is recorded and the loop keeps the invariants, the credentials and the mode. It ends only on a failed store, in bootstrap mode, with the store of the credentials last and a `false` answer consumed, or when links, addresses or store answers run out. The store answers left are a suffix of those given. |
| Wifi.ConnectionTask.Attempt | esp-hal-app-framework/src/wifi.rs:384-506 | One turn of the connect loop: the attempt is recorded and one connect answer consumed. The turn ends the loop only on a failed store, in bootstrap mode after a `false` store answer with the store of the credentials last, or when links, addresses or store answers run out. |
| Wifi.ConnectionTask.ConnectOnce | esp-hal-app-framework/src/wifi.rs:427-506 | One `connect_async` answer is consumed. A failed one reports the disconnect only when connected before, touches neither addresses nor store, and leaves the station disconnected. A working one consumes the address polls `AddressWait` consumes. The attempt fails with `StoreFailed` exactly when the link came up, an address arrived, it is bootstrap mode and the store answered `false`. |
| Wifi.ConnectionTask.LinkUp | esp-hal-app-framework/src/wifi.rs:429-484 | After a working connect: the addresses `AddressWait` leaves; none arriving ends the environment with no action; outside bootstrap mode the report and "connected" follow; a failed store exactly when in bootstrap mode the store answered `false`. |
| Wifi.ConnectionTask.LinkDown | esp-hal-app-framework/src/wifi.rs:498-505 | After a failed connect: the address-less report and "disconnected" exactly when connected before; the station is disconnected. |
| Wifi.ConnectionTask.OnConnected | esp-hal-app-framework/src/wifi.rs:444-484 | Outside bootstrap mode, only the report and "connected" happen and nothing is stored. In bootstrap mode one store answer is consumed: `true` gives the persisting actions and "connected", `false` ends the task with `StoreFailed` after the report and the store of the credentials, and none left ends the environment. |
| Wifi.ConnectionTask.ConnectedAsStation | esp-hal-app-framework/src/wifi.rs:446-484 | Outside bootstrap mode: the address report, then "connected". |
| Wifi.ConnectionTask.ConnectedInBootstrap | esp-hal-app-framework/src/wifi.rs:446-484 | In bootstrap mode: as `OnConnected` in that mode, the store answer deciding between "connected" after the persisting actions and `StoreFailed`. |
| Wifi.ConnectionTask.ReportAndPersist | esp-hal-app-framework/src/wifi.rs:446-479 | The address report, then the store: the persisting actions on `true`, the store of the credentials and `StoreFailed` on `false`. |
| Wifi.ConnectionTask.PersistCredentials | esp-hal-app-framework/src/wifi.rs:451-479 | The credentials are stored, consuming one store answer: on `true`, `Provisioned`, the station web app and the redirect URL follow; on `false` the task ends with `StoreFailed` after the store alone; with no answer left the environment is exhausted. |
| Wifi.ConnectionTask.AnnounceStation | esp-hal-app-framework/src/wifi.rs:458-474 | `Provisioned`, the station web app start and the redirect URL, in order, all flushed. |
| Wifi.ConnectionTask.NotifyConnected | esp-hal-app-framework/src/wifi.rs:481-483 | "connected" is notified and the flags become `is_connected` and `!first_connect`. |
| Wifi.ConnectionTask.OnDisconnected | esp-hal-app-framework/src/wifi.rs:499-503 | An address-less report and "disconnected", once per connected period. |
| Wifi.ConnectionTask.NotifyDisconnected | esp-hal-app-framework/src/wifi.rs:501-503 | "disconnected" is notified and the station is no longer connected. |
| Wifi.ConnectionTask.StopAccessPoint | esp-hal-app-framework/src/wifi.rs:283-289 | The web app and the Access Point stop and `ap_active` is cleared. |
| Framework.FlashMap.Store | esp-hal-app-framework/src/framework.rs:461-467 | A store succeeds exactly when the driver does, and only then sets the key. |
| Framework.FlashMap.Fetch | esp-hal-app-framework/src/framework.rs:468-473 | A fetch gives the stored value, none, or the driver's error. |
| Framework.FlashMap.Remove | esp-hal-app-framework/src/framework.rs:331-335 | A removal succeeds exactly when the driver does, and only then drops the key. |
| Framework.FromStore | esp-hal-app-framework/src/framework.rs:164-201 | A stored Wi-Fi or fixed-key record replaces its fields. A display record sets only the values it has. |
| Framework.Fetched | esp-hal-app-framework/src/framework.rs:164-190 | A record is used only when the fetch succeeded, found one and it is of the expected kind. |
| Framework.AssignKey | esp-hal-app-framework/src/framework.rs:225-271 | Only the six recognised keys assign. The strings are taken as they are. `display_dimming_timeout` and `display_blackout_timeout` must parse as `u64`, `display_dimming_percent` as `u8`: a parsed number is assigned to its field, a failing one assigns nothing and is the only error. |
| Framework.ReadLine | esp-hal-app-framework/src/framework.rs:207-281 | A failed line changes nothing. Only a `[..]` line changes the section. Only a line with '=' changes the configuration. |
| Framework.ReadLineSkips | esp-hal-app-framework/src/framework.rs:209-212 | Empty lines and comments change nothing. |
| Framework.ReadLineOpensSection | esp-hal-app-framework/src/framework.rs:213-216 | `[x]` sets the section to `x` and changes nothing else. |
| Framework.ReadLineIgnores | esp-hal-app-framework/src/framework.rs:272-274 | Other lines without '=' change nothing. |
| Framework.ReadLineAssigns | esp-hal-app-framework/src/framework.rs:219-226 | `key = value` assigns the trimmed, quote-stripped value to `section_key`. |
| Framework.AssignmentLine | esp-hal-app-framework/src/framework.rs:219-226 | A line `key=value` whose key has no '=' assigns that value to the key. |
| Framework.NoAssignmentWithoutEquals | esp-hal-app-framework/src/framework.rs:207-274 | A line without '=' never changes the configuration and never fails. |
| Framework.ReadLinesAppend | esp-hal-app-framework/src/framework.rs:207-281 | Reading fails fast. Lines after a failing one are never looked at, and earlier assignments persist. |
| Framework.ReadLinesStep | esp-hal-app-framework/src/framework.rs:207-281 | One loop turn: a failed line ends the reading, otherwise the rest are read from the new section. |
| Framework.FailingLineStops | esp-hal-app-framework/src/framework.rs:277-280 | A failing line ends the reading with the configuration the earlier lines left. |
| Framework.StoredCredentialsLoad | esp-hal-app-framework/src/framework.rs:164-173 | Credentials the setter stored come back on the next load. |
| Framework.StoredDisplayLoads | esp-hal-app-framework/src/framework.rs:185-201 | Stored display settings come back whole. |
| Framework.RemovedFixedKeyLoads | esp-hal-app-framework/src/framework.rs:175-183 | With the fixed key removed, loading keeps the current key. |
| Framework.Framework.LoadStored | esp-hal-app-framework/src/framework.rs:164-201 | The stored records are applied in order, as `FlashConfig` says. |
| Framework.Framework.Assign | esp-hal-app-framework/src/framework.rs:226-271 | The `match` on the expanded key follows `AssignKey`. |
| Framework.Framework.ReadConfigLine | esp-hal-app-framework/src/framework.rs:208-280 | One iteration of the line loop follows `ReadLine`. |
| Framework.Framework.LoadConfigFlashThenToml | esp-hal-app-framework/src/framework.rs:162-284 | The result is the stored configuration overridden by the text lines up to the first failing one. The error is "Parse Error". `config_processed_ok` records the outcome. `initialization_ok` then holds iff the text parsed and both credentials are there. |
| Framework.Framework.InitializationOk | esp-hal-app-framework/src/framework.rs:308-312 | Holds iff the configuration was read without error and both credentials are present. |
| Framework.Framework.BootCompleted | esp-hal-app-framework/src/framework.rs:315-317 | Holds iff the Wi-Fi was reported up. |
| Framework.Framework.SetFixedKey | esp-hal-app-framework/src/framework.rs:325-344 | An empty key clears the fixed key and removes it from the store. Any other key is kept and stored. The result is the store's. |
| Framework.Framework.EraseStoredFixedKey | esp-hal-app-framework/src/framework.rs:345-352 | The stored key is removed if the store allows, and the default key is restored either way. |
| Framework.Framework.EraseStoredWifiCredentials | esp-hal-app-framework/src/framework.rs:355-363 | The credentials are removed if the store allows, and forgotten either way. |
| Framework.Framework.SetWifiCredentials | esp-hal-app-framework/src/framework.rs:365-381 | The fields are set whether or not storing them succeeds. |
| Framework.Framework.SetDisplaySettings | esp-hal-app-framework/src/framework.rs:476-495 | The fields are set whether or not storing them succeeds. |
| Framework.Framework.ReportWifi | esp-hal-app-framework/src/framework.rs:286-295 | Records the status and tells the observers the URL, or "N/A - WiFi not connected"; it panics exactly when an observer was dropped. |
| Framework.CharsetInAlphabet | esp-hal-app-framework/src/framework.rs:429 | The character set has 62 ASCII characters. All are letters and digits other than I, O, i, l, o and 0, or one of `-/$@?!`. |
| Framework.AlphabetInCharset | esp-hal-app-framework/src/framework.rs:429 | Every character of that alphabet is in the set. |
| Framework.NumberToAsciiPicks | esp-hal-app-framework/src/framework.rs:427-434 | A byte n picks `charset[n % 62]`. |
| Framework.NumberToAsciiFromList | esp-hal-app-framework/src/framework.rs:427-434 | The picked character is ASCII. |
| Framework.GeneratedKeyCharacters | esp-hal-app-framework/src/framework.rs:436-442 | A generated key is made of set characters only. It does not start with a small letter. Each later character is the one its random byte picks. |
| Framework.GeneratedKey | esp-hal-app-framework/src/framework.rs:436-442 | The key has one character per random byte. |
| Framework.KeyOfBuffer | esp-hal-app-framework/src/framework.rs:437-441 | The mapped and upper-cased buffer is valid UTF-8, so `from_utf8().unwrap()` cannot panic, and it decodes to the key. |
| Framework.MapToCharset | esp-hal-app-framework/src/framework.rs:437-439 | Every buffer byte is replaced in place by its pick. |
| Framework.GenerateKey | esp-hal-app-framework/src/framework.rs:420-442 | An empty buffer gives no key, standing for the panic at `buf[0]`. Otherwise the key is the generated one, a character per random byte. |
| Framework.Framework.StartWebApp | esp-hal-app-framework/src/framework.rs:416-451 | The fixed key is used when there is one; otherwise a key is generated. A length of 0 panics and changes nothing. Then `Start` is published and the observers hear of the key and mode. |
| Framework.Framework.StopWebApp | esp-hal-app-framework/src/framework.rs:452-458 | `Stop` is published and the observers are told; it panics exactly when an observer was dropped. |
| Framework.Deliveries | esp-hal-app-framework/src/framework.rs:504-570 | Observers receive the notification in subscription order, up to the first dropped one. |
| Framework.DeliveriesUpTo | esp-hal-app-framework/src/framework.rs:505-508 | Exactly the observers before the first dropped one are notified. |
| Framework.DeliveriesSnoc | esp-hal-app-framework/src/framework.rs:505-508 | A live observer adds its one delivery after the earlier ones. |
| Framework.Deliver | esp-hal-app-framework/src/framework.rs:505-508 | The `for` loop makes exactly those calls, and panics iff some observer was dropped. |
| Framework.Framework.Notify | esp-hal-app-framework/src/framework.rs:504-570 | Each `notify_*` appends those deliveries and panics iff an observer was dropped. |
| Framework.Framework.Subscribe | esp-hal-app-framework/src/framework.rs:501-503 | The observer comes after all earlier ones. |
| Touch.TouchPositionOf | esp-hal-app-framework/src/touch.rs:33-39 | The position is the one the event carries, whatever its kind. |
| Touch.LastHeld | esp-hal-app-framework/src/touch.rs:65-107 | `last_returned_event` is set exactly while a touch is in progress. It is then the last returned event, never a release. |
| Touch.OpenPressOfTouching | esp-hal-app-framework/src/touch.rs:84-101 | While touching, the last press has no release after it. |
| Touch.MovesInsideTouchesSnoc | esp-hal-app-framework/src/touch.rs:88-98 | Returning a move only inside a touch keeps every move preceded by an open press. |
| Touch.Touch.Event | esp-hal-app-framework/src/touch.rs:65-107 | The outcome and the new `last_returned_event` are `EventOf` the sample. No point releases a touch in progress at its last position, or gives nothing. `Press` presses. `Contact` moves, or presses when the press was missed. `Release` releases even without a press. `Invalid` is `IOError` and keeps the state. Every move follows an open press. |
| Touch.Touch.EventAsync | esp-hal-app-framework/src/touch.rs:113-141 | Only an event or an error is returned; empty samples are skipped. The outcome, the samples left and `last_returned_event` are those of `FirstEvent`. |
| Touch.SkipsOnlyEmptySamples | esp-hal-app-framework/src/touch.rs:127-138 | Every sample the wait skips has no touch point, and the wait skips only while no touch is in progress. |
| Ota.Reported | esp-hal-app-framework/src/ota.rs:131-159 | Status, failure and completion pass their text on. Success is a completion too. A version report drops its text. |
| Ota.Forwarded | esp-hal-app-framework/src/ota.rs:48-78 | Start, status, failure and completion reach the framework only for an update; the version always does. |
| Ota.FrameworkCalls | esp-hal-app-framework/src/ota.rs:48-78 | An update forwards everything; a check forwards a subset. |
| Ota.FrameworkCallsOfCheck | esp-hal-app-framework/src/ota.rs:48-78 | A check's framework hears of every version report and of nothing else. |
| Ota.Entry | esp-hal-app-framework/src/ota.rs:272 | A line is an entry iff it has '='. |
| Ota.Entries | esp-hal-app-framework/src/ota.rs:271-281 | Each line gives its entry. |
| Ota.LastValueIsLast | esp-hal-app-framework/src/ota.rs:271-281 | A key's value comes from the last entry that sets it. A key no entry sets has none. |
| Ota.EntriesSnoc | esp-hal-app-framework/src/ota.rs:271-281 | One more line overrides its key and leaves every other key alone. |
| Ota.ParsedValue | esp-hal-app-framework/src/ota.rs:275-276 | A number is kept when a value is present, and it fits a `u32`. |
| Ota.Described | esp-hal-app-framework/src/ota.rs:282-287 | Metadata exist iff the file name and version are present and both numbers parse. |
| Ota.MetadataOf | esp-hal-app-framework/src/ota.rs:266-287 | The CRC-32 and size fit a `u32`. |
| Ota.ParseMetadata | esp-hal-app-framework/src/ota.rs:266-287 | The loop over the lines, assigning `Option` locals, gives `MetadataOf`. |
| Ota.Countdown | esp-hal-app-framework/src/ota.rs:419-430 | Five success reports count down from 5 seconds. |
| Ota.Download | esp-hal-app-framework/src/ota.rs:377-456 | The loop gives exactly `DownloadOf` of the chunks: each chunk is `min(4096, filesize - bytes_read)` and never empty, so the bytes read never exceed the file size. Progress reports come on strictly increasing seconds. A restart follows the countdown. Flashing errors end with a failure. A zero-size read is "smaller than expected" with the whole file read. |
| Ota.TakeChunk | esp-hal-app-framework/src/ota.rs:384-453 | One loop turn is `TakeChunkOf` of its chunk: a failed read changes nothing, an empty chunk ends the read, a written one adds its size and a progress report on a new second, a completed image the countdown and a failed write its failure. |
| Ota.AfterWrite | esp-hal-app-framework/src/ota.rs:403-453 | The flasher's answer: `Ok(true)` appends the countdown and restarts, `Err` appends the failure, `Ok(false)` reports progress once per new second. |
| Ota.TakeChunkKeeps | esp-hal-app-framework/src/ota.rs:384-453 | A turn of `TakeChunkOf` keeps the bytes read equal to the chunk sizes' sum within the file, progress alone on increasing seconds while the loop goes on, and ends orderly: an empty chunk with the file all read, a restart with the countdown, a failed write with its failure. |
| Ota.ChunkKeepsSizes | esp-hal-app-framework/src/ota.rs:384-393 | The chunk-size half of `TakeChunkKeeps`. |
| Ota.ChunkKeepsReports | esp-hal-app-framework/src/ota.rs:403-453 | The report half of `TakeChunkKeeps`. |
| Ota.SteadyDownloadReadsAll | esp-hal-app-framework/src/ota.rs:377-456 | When every chunk is read and written and there are more chunks than bytes left, the download reads exactly the announced file size and stops at the empty read. |
| Ota.FailedOrderly | esp-hal-app-framework/src/ota.rs:434-437 | Progress reports followed by the flashing failure are orderly. |
| Ota.ChunkedSnoc | esp-hal-app-framework/src/ota.rs:384-393 | The next chunk keeps the total within the file. |
| Ota.ProgressReported | esp-hal-app-framework/src/ota.rs:440-453 | A report on a new second moves `reported_on` past it, so at most one report per second. |
| Ota.ProgressOnlyEnds | esp-hal-app-framework/src/ota.rs:440-453 | A run of progress reports on increasing seconds is orderly. |
| Ota.CountdownOrderly | esp-hal-app-framework/src/ota.rs:419-431 | The restart countdown after the progress reports keeps the run orderly. |
| Ota.ProgressOfCountdown | esp-hal-app-framework/src/ota.rs:419-431 | The countdown adds no progress report. |
| Ota.FrameworkCallsWithoutVersion | esp-hal-app-framework/src/ota.rs:48-78 | For a check, reports without a version reach the framework not at all. |
| Ota.Restart | esp-hal-app-framework/src/ota.rs:403-432 | `Ok(true)` of the flasher appends the countdown. |
| Ota.FailFlashing | esp-hal-app-framework/src/ota.rs:434-437 | `Err` of the flasher appends one failure. |
| Ota.RestartReports | esp-hal-app-framework/src/ota.rs:419-430 | The countdown loop gives `Countdown`. |
| Ota.FetchMetadata | esp-hal-app-framework/src/ota.rs:160-287 | The run starts by resolving DNS. Each failing stage reports a failure and ends the run, except the empty DNS reply, which is a status. `MetadataStages` gives each stage's reports exactly: a missing or IPv6-only address; a failed request, response, headers, status or read; a file that does not parse. The metadata seen is `Offered`. |
| Ota.FetchFile | esp-hal-app-framework/src/ota.rs:220-287 | After the fetching status, the first failing stage reports its own failure and nothing follows. A file that parses has no failure. The metadata is `Offered`. |
| Ota.Flash | esp-hal-app-framework/src/ota.rs:331-456 | Downloading starts with a status. With a 200 response and a working flasher, the calls are the opening reports followed by `DownloadOf` of the chunks, and the sizes and end are `DownloadOf`'s. Otherwise nothing is flashed, the run stops or panics (unparsable headers), and the reports are `FirmwareStages`. A failed `ota_begin` is reported and the download goes on. |
| Ota.OpenFirmware | esp-hal-app-framework/src/ota.rs:331-375 | The download may start iff the firmware response is 200 and the flasher is made, and then the reports are `Opening`: the downloading status, plus the failure of a failed `ota_begin`. `FirmwareStages` gives the reports of each stage that stops the run: a failed request, response, status or flasher, and the unparsable headers, which give only the status. |
| Ota.StagedOrderly | esp-hal-app-framework/src/ota.rs:331-375 | A stage's status and optional failure are orderly. |
| Ota.Decide | esp-hal-app-framework/src/ota.rs:289-327 | An invalid version is the one failure and stops the run with nothing flashed. Not newer gives `Complete`, then `Version(v, false)`, and stops. Newer gives `Version(v, true)`, which ends a check. An update goes on with the firmware's reports: `FirmwareStages`, or `Opening` followed by `DownloadOf`'s reports. |
| Ota.Upgrade | esp-hal-app-framework/src/ota.rs:321-456 | A newer version is reported first, with `Version(v, true)`, then the firmware's stages follow. With the image fetched and the flasher made, the reports are `Opening` and `DownloadOf`'s reports, and the sizes and end are `DownloadOf`'s. Otherwise nothing is flashed and the run stops or panics. |
| Ota.ReportUpToDate | esp-hal-app-framework/src/ota.rs:311-320 | The completion, then the version with `newer` false. |
| Ota.RunOta | esp-hal-app-framework/src/ota.rs:114-458 | Only an update starts with `on_ota_start`. Progress comes on strictly increasing seconds, and a failure is only ever the last report. A check's framework hears only the version, and only when the metadata were fetched and the version parsed. The reports up to the metadata are `MetadataStages`. Without metadata the run stops there. An invalid version is one failure and stops the run. Not newer gives the completion and the version, then stops. Newer is reported and ends a check. An update of a valid newer version with the firmware fetched and a working flasher flashes exactly `DownloadOf` of the chunks and ends as it does; otherwise nothing is flashed. After the version report an update's reports are the firmware's stages, and the download's reports once flashing starts. A restart ends with the countdown. |
| Ota.Proceed | esp-hal-app-framework/src/ota.rs:289-456 | The part of the run after the metadata keeps those properties and leaves the reports before it as they are. |
| Ota.FrameworkCallsAppend | esp-hal-app-framework/src/ota.rs:48-78 | The framework's view of two report runs is the two views joined. |
| License.XorBitsTwice | esp-hal-app-framework/src/license.rs:109 | Bitwise XOR with the same bits undoes itself. |
| License.XorByteTwice | esp-hal-app-framework/src/license.rs:109 | `(a ^ b) ^ b == a` on bytes. |
| License.Xor | esp-hal-app-framework/src/license.rs:106-111 | The length is kept and `out[i] = data[i] ^ key[i % key.len()]`. Defined wherever `xor` does not panic: empty data takes any key, including an empty one. |
| License.XorInvolution | esp-hal-app-framework/src/license.rs:106-111 | XOR with a fixed key is its own inverse, wherever the first XOR does not panic. |
| License.Unmasked | esp-hal-app-framework/src/license.rs:129-133 | XOR then `from_utf8_lossy`: it panics exactly on non-empty bytes with an empty key, otherwise it gives valid UTF-8. |
| License.EncodeWithXor | esp-hal-app-framework/src/license.rs:115-121 | It panics exactly on a non-empty input with an empty key. Otherwise the encoding decodes to as many bytes as the input had. |
| License.DecodeWithXor | esp-hal-app-framework/src/license.rs:124-134 | The corrected decode fails exactly when the base64 does not decode. It panics only where `xor` does, on non-empty decoded bytes and an empty key. Wherever the base64 decodes it agrees with the as-written decode, and its text is valid UTF-8. |
| License.DecodeWithXorAsWritten | esp-hal-app-framework/src/license.rs:124-134 | The decode as written never returns its error. It panics exactly on bad base64 or on non-empty decoded bytes with an empty key. |
| License.DecodePanicsOnBadBase64 | esp-hal-app-framework/src/license.rs:127 | Bad base64 panics as written and is an error once corrected. |
| License.XorRoundTrip | esp-hal-app-framework/src/license.rs:113-134 | Encoding valid UTF-8 does not panic, and decoding the result with the same key gives the text back, in both versions. |
| Utf8.LossyOfValid | esp-hal-app-framework/src/license.rs:133 | `from_utf8_lossy` leaves valid UTF-8 unchanged. |
| Utf8.LossyIsValid | esp-hal-app-framework/src/license.rs:133 | `from_utf8_lossy` always gives valid UTF-8. |
| License.LicOffset | esp-hal-app-framework/src/license.rs:39-48 | The offset is that of the last readable "lic" partition; there is none iff no such partition exists. |
| License.WrappingAddU32 | esp-hal-app-framework/src/license.rs:63 | A `u32` addition is exact below 2^32. |
| License.ReadFlash | esp-hal-app-framework/src/license.rs:54-64 | A read succeeds iff it lies within the flash, and gives those bytes. |
| Bytes.U16FromLe | esp-hal-app-framework/src/license.rs:60 | The little-endian `u16` of two bytes. |
| License.TokenAt | esp-hal-app-framework/src/license.rs:53-64 | The token follows the 10-byte header whose first bytes are the magic, and its length is the `u16` of header bytes 8..10. |
| License.LoadFrom | esp-hal-app-framework/src/license.rs:50-87 | A licence is granted iff loading succeeds. Its steps and messages are pinned down by the lemmas below, for the decode as written and for the corrected one. |
| License.MissingRegion | esp-hal-app-framework/src/license.rs:50 | Without a "lic" partition the result is "Flash region is missing". |
| License.WrongMagic | esp-hal-app-framework/src/license.rs:57-59 | A header not starting with the magic gives "No license available". |
| License.LoadedFromToken | esp-hal-app-framework/src/license.rs:53-87 | A granted licence was read from a header with the magic and a token of the stated length right after it, which decodes to the verified text. |
| License.LoadPanicsOnBadToken | esp-hal-app-framework/src/license.rs:66-71 | A UTF-8 token that is not base64 panics as written and gives "Decoding failure (2)" once corrected. |
| License.LoadsAgree | esp-hal-app-framework/src/license.rs:50-87 | Wherever the load as written does not panic, the corrected load gives the same result. |
| License.LoadsStoredToken | esp-hal-app-framework/src/license.rs:36-88 | A token obfuscated with the right key and verified is loaded, by either version. |
| License.LicenseManager.LoadLicense | esp-hal-app-framework/src/license.rs:36-88 | The partition walk, then the corrected `LoadFrom`. The licence is replaced only when granted. |
| License.LicenseManager.IsLicenseOk | esp-hal-app-framework/src/license.rs:90-103 | An undecodable MAC or one that is not 6 bytes is an error with its message. Otherwise the result is true iff the MAC equals the device's. |
| License.LicenseForDevice | esp-hal-app-framework/src/license.rs:90-103 | A licence for this device's MAC is accepted, and only such a licence. |
| License.LicenseForOtherDevice | esp-hal-app-framework/src/license.rs:98-101 | A licence for another 6-byte MAC is refused without an error. |
| SdFileSystem.Ancestors | esp-hal-app-framework/src/sdcard_store.rs:190-219 | In a well-formed tree every prefix of a directory is a directory. |
| SdFileSystem.MakeDirIn | esp-hal-app-framework/src/sdcard_store.rs:201-206 | A directory that was made exists afterwards, inside the current one. The files and the earlier directories are kept. |
| SdFileSystem.MakeDirWellFormed | esp-hal-app-framework/src/sdcard_store.rs:201-206 | Making a directory keeps the tree well formed. |
| SdFileSystem.OpenFileIn | esp-hal-app-framework/src/sdcard_store.rs:220-226 | An opened file is the named one in the current directory, exists, was not open, and has its position within it. |
| SdFileSystem.OpenFileInMeaning | esp-hal-app-framework/src/sdcard_store.rs:220-226 | Opening fails exactly when the name is invalid, a directory has it, the file is held open, the mode needs a missing file, or `ReadWriteCreate` finds one. New and truncated files are empty. Append starts at the end, the other modes at the start. No other file changes. |
| SdFileSystem.ReadFromStart | esp-hal-app-framework/src/sdcard.rs:59-62 | A buffer as long as the file, read from the start, holds the file. |
| SdFileSystem.ReadFromEnd | esp-hal-app-framework/src/sdcard_store.rs:254-260 | A buffer read from the end holds zeros. |
| SdFileSystem.WriteAtEnd | esp-hal-app-framework/src/sdcard_store.rs:294-296 | Writing at the end appends. |
| SdFileSystem.WriteAt | esp-hal-app-framework/src/sdcard_store.rs:294-296 | Writing at a position keeps the bytes before it, puts the new bytes there and keeps the bytes after them; the file grows only as far as the write reaches. |
| SdFileSystem.ReadInto | esp-hal-app-framework/src/sdcard_store.rs:254-260 | A read fills a buffer as long as the file with its bytes from the position, and zeros past the end. |
| SdFileSystem.WalkDirs | esp-hal-app-framework/src/sdcard_store.rs:189-219 | The loop over the parts stops before the last. It skips empty parts and enters, or makes and enters, each directory; its result is `Walk` of all but the last part. |
| SdFileSystem.WalkMeaning | esp-hal-app-framework/src/sdcard_store.rs:190-219 | The walk keeps the tree well formed and the files unchanged, and only adds directories, only when creating. Success ends in the non-empty parts' directory. A failure names a non-empty part. A missing directory is an error iff not creating. |
| SdFileSystem.WalkExisting | esp-hal-app-framework/src/sdcard.rs:45-54 | When the directories exist, the walk changes nothing and reaches them. |
| SdFileSystem.WalkFinds | esp-hal-app-framework/src/sdcard.rs:45-54 | Without creating, the walk succeeds iff the directory exists. |
| SdStore.PathParts | esp-hal-app-framework/src/sdcard_store.rs:189-194 | The parts hold no slash of either kind. Joined with `/` they give the path with each backslash turned into `/`, so a path without backslashes comes back as it is. The last part, the file name, is never entered. |
| SdStore.SplitSlashed | esp-hal-app-framework/src/sdcard_store.rs:189-189 | Splitting on both slashes gives the parts of splitting on `/` the path with its backslashes turned into `/`. |
| SdStore.SplitOnSlash | esp-hal-app-framework/src/sdcard_store.rs:189 | Without backslashes, splitting on both slashes is splitting on `/`. |
| SdStore.SinglePart | esp-hal-app-framework/src/sdcard_store.rs:189-194 | A name without slashes is a file in the root directory. |
| SdStore.MountedMeaning | esp-hal-app-framework/src/sdcard_store.rs:130-141 | A volume is mounted iff one of the first tries is answered. |
| SdStore.StartedInstalled | esp-hal-app-framework/src/sdcard_store.rs:113-148 | `card_installed` starts true iff one of five tries succeeds, which is iff a volume is cached. The store starts consistent. |
| SdStore.TakenVolumeMeaning | esp-hal-app-framework/src/sdcard_store.rs:156-168 | Taking empties the cache. It fails only when there is no cache and the card is silent. Reusing the cache sets `card_installed`; a fresh open leaves it. |
| SdStore.Returned | esp-hal-app-framework/src/sdcard_store.rs:170-172 | Returning caches the volume and changes nothing else. |
| SdStore.VolumeOpenedMeaning | esp-hal-app-framework/src/sdcard_store.rs:150-154 | After `open_volume` the volume is cached iff the call succeeded, which is iff it was cached or the card answered. |
| SdStore.FileOpened | esp-hal-app-framework/src/sdcard_store.rs:174-244 | An opened file exists and its position is within it. |
| SdStore.FileOpenedReturnsVolume | esp-hal-app-framework/src/sdcard_store.rs:179-243 | The volume is given back whatever happened, except when it could not be taken. |
| SdStore.FileOpenedMeaning | esp-hal-app-framework/src/sdcard_store.rs:174-244 | `open_file` keeps the store consistent. Directories are only added, only in `CREATE_MODES`. A success opens the path's file with its starting bytes and changes no other file. A failure leaves the files and handles. |
| SdStore.FileOpenedSucceeds | esp-hal-app-framework/src/sdcard_store.rs:174-244 | An existing, unopened file opens in every mode but `ReadWriteCreate`. |
| SdStore.FileOpenedHeld | esp-hal-app-framework/src/sdcard_store.rs:220-226 | A file held open fails to open with an error naming the file, and nothing changes but the volume's round trip. |
| SdStore.FileOpenedChangeDir | esp-hal-app-framework/src/sdcard_store.rs:198-217 | A `ChangeDir` error arises iff a directory is missing and the mode is not in `CREATE_MODES`. It names a non-empty directory part. |
| SdStore.ClosedConsistent | esp-hal-app-framework/src/sdcard_store.rs:265-268 | Closing restores the handles as they were and keeps the store consistent. |
| SdStore.StoredConsistent | esp-hal-app-framework/src/sdcard_store.rs:294-300 | Writing an existing file keeps the store consistent. |
| SdStore.BytesReadCloses | esp-hal-app-framework/src/sdcard_store.rs:246-271 | Every read closes what it opened, and its buffer is as long as the file. |
| SdStore.ReadOnlyMeaning | esp-hal-app-framework/src/sdcard_store.rs:273-276 | A read-only read succeeds iff the volume can be taken and the file exists and is not held open. It then gives the bytes and changes neither the card nor the handles. |
| SdStore.Decoded | esp-hal-app-framework/src/sdcard_store.rs:426-431 | A string results iff the read succeeded with valid UTF-8. Otherwise the error is `DecodeUtf8` or the read's own. |
| SdStore.CreatedReadMeaning | esp-hal-app-framework/src/sdcard_store.rs:433-448 | An existing file's bytes when the first read succeeds. Otherwise a buffer as long as the file. A missing file is made empty and gives no bytes. |
| SdStore.CreatedReadZeros | esp-hal-app-framework/src/sdcard_store.rs:441-446 | When only the first volume request went unanswered, an existing file reads back as zeros. |
| SdStore.BytesAppendedMeaning | esp-hal-app-framework/src/sdcard_store.rs:278-312 | The result is the old length, and the file holds the old bytes followed by the new. |
| SdStore.BytesCreatedWrittenMeaning | esp-hal-app-framework/src/sdcard_store.rs:322-354 | After success the file holds exactly the bytes written. |
| SdStore.FileCreatedMeaning | esp-hal-app-framework/src/sdcard_store.rs:456-468 | After success the file exists and is empty. |
| SdStore.WriteOnlyIfNewLeaks | esp-hal-app-framework/src/sdcard_store.rs:376-378 | As written, the early return leaves the file open, so the same call fails the second time. |
| SdStore.BytesWrittenMeaning | esp-hal-app-framework/src/sdcard_store.rs:363-414 | No file is held open afterwards and the store stays consistent. With `only_if_new` and a successful first open, the files are unchanged. Otherwise a success writes the bytes at `offset` of the file as opened. A `SeekFile` error means the offset was past its end. |
| SdStore.WrittenAfterFirst | esp-hal-app-framework/src/sdcard_store.rs:374-380 | The case where the `ReadWriteAppend` open succeeds. |
| SdStore.WrittenAfterRetry | esp-hal-app-framework/src/sdcard_store.rs:381-387 | The case where it fails and `ReadWriteCreateOrAppend` is tried. |
| SdStore.WriteOnlyIfNewRepeats | esp-hal-app-framework/src/sdcard_store.rs:376-378 | With the file closed, the repeated call succeeds. |
| SdStore.SdCardStore.New | esp-hal-app-framework/src/sdcard_store.rs:113-148 | The five-try loop gives `Started`. |
| SdStore.SdCardStore.TakeVolume | esp-hal-app-framework/src/sdcard_store.rs:156-168 | Follows `TakenVolume`. |
| SdStore.SdCardStore.ReturnVolume | esp-hal-app-framework/src/sdcard_store.rs:170-172 | Follows `Returned`. |
| SdStore.SdCardStore.OpenVolume | esp-hal-app-framework/src/sdcard_store.rs:150-154 | Follows `VolumeOpened`. |
| SdStore.SdCardStore.OpenFile | esp-hal-app-framework/src/sdcard_store.rs:174-244 | The field updates and the walk loop give `FileOpened`. |
| SdStore.SdCardStore.InnerReadFileBytes | esp-hal-app-framework/src/sdcard_store.rs:246-271 | Follows `BytesRead`. |
| SdStore.SdCardStore.ReadFileBytes | esp-hal-app-framework/src/sdcard_store.rs:273-276 | Follows the read-only `BytesRead`. |
| SdStore.SdCardStore.ReadFileStr | esp-hal-app-framework/src/sdcard_store.rs:426-431 | Follows `StrRead`. |
| SdStore.SdCardStore.ReadCreateBytes | esp-hal-app-framework/src/sdcard_store.rs:433-448 | Follows `CreatedRead`. |
| SdStore.SdCardStore.ReadCreateStr | esp-hal-app-framework/src/sdcard_store.rs:450-454 | Follows `CreatedStrRead`. |
| SdStore.SdCardStore.AppendBytes | esp-hal-app-framework/src/sdcard_store.rs:278-312 | Follows `BytesAppended`. |
| SdStore.SdCardStore.CreateWriteFileBytes | esp-hal-app-framework/src/sdcard_store.rs:322-354 | Follows `BytesCreatedWritten`. |
| SdStore.SdCardStore.WriteFileBytes | esp-hal-app-framework/src/sdcard_store.rs:363-414 | Follows the corrected `BytesWritten`. |
| SdStore.SdCardStore.CreateFile | esp-hal-app-framework/src/sdcard_store.rs:456-468 | Follows `FileCreated`. |
| SdStore.SdCardStore.Close | esp-hal-app-framework/src/sdcard_store.rs:265-268 | Closing a file releases its handle, as `Closed` says. |
| SdStore.SdCardStore.Write | esp-hal-app-framework/src/sdcard_store.rs:294-300 | Writing replaces the file with the bytes written at the position, as `WriteAt` says. |
| SdReader.FileReadMeaning | esp-hal-app-framework/src/sdcard.rs:35-71 | With the card present, a read never panics. It succeeds iff the card answers and the file exists. It then gives the file's bytes and keeps the card. A missing directory is a `Folder` error naming a non-empty part. After any error the card is gone and the next call panics. |
| SdReader.GoneCardPanics | esp-hal-app-framework/src/sdcard.rs:36 | Without the card every read panics and changes nothing. |
| SdReader.StrRead | esp-hal-app-framework/src/sdcard.rs:73-78 | The string read succeeds iff the bytes were read and are UTF-8. It panics iff the byte read does. |
| SdReader.SdCard.ReadFileBin | esp-hal-app-framework/src/sdcard.rs:35-71 | Taking the card, the walk loop and the put-back give `FileRead`. |
| SdReader.SdCard.ReadFileStr | esp-hal-app-framework/src/sdcard.rs:73-78 | Follows `StrRead`. |

## Left out

- Base64, PASETO verification and JSON are not modelled. The `URL_SAFE` engine is an abstract encoder/decoder pair, with a round-trip predicate where a lemma needs one. Token and claims verification is a function parameter. The flash-stored configurations are records, not JSON text.
- `derive_key` in `start_web_app` (PBKDF2) is not modelled. Getting the random bytes from `getrandom` is a parameter, and its failure is not modelled.
- The semver parse and comparison of `run_ota` are inputs (`versionValid`, `newer`).
- DNS, TLS, HTTP, the `esp_hal_ota` flasher and `software_reset` are not modelled. Their answers are inputs.
- The floating-point progress percentage is not modelled. Of the formatted reports, only the values they show are kept.
- The `read_exact` retries on a failing connection are a chunk whose read failed. A connection failing for ever is the `Exhausted` end.
- `ota_task`, `update_firmware_ota` and `check_firmware_ota` only spawn the run with its settings, so they are not modelled. Spawning on the executor, timers, `with_timeout`, timeouts on the serial port, logging and `term_*` output are left out too.
- The radio: configuration, start and stop, `connect_async`, link-up polling, the DHCP and captive-portal tasks, and the `StaConnected` sleeping branch, which is never reached. These become actions and environment answers.
- `wait_for_wifi`, `reset_device`, `undim_display` and `button_erase_wifi_key_and_restart_handler` involve only timers, signals, GPIO or the reset, so they are not modelled.
- `Framework::new` is modelled only for the fields it sets (`Framework.Framework.constructor`), not the spawned tasks or the statics.
- The observer calls of `framework.rs` are recorded deliveries. Their effects are not modelled.
- `Touch::new` keeps only the field it sets. The FT6x36 driver's `get_touch_event().unwrap()` panic on a bus error is not modelled, since samples are given. The interrupt-pin waits of `event_async` and `events_stream_async` are not modelled. A run out of samples stands for waiting for ever.
- On the SD card, FAT 8.3 names, case folding and the `MAX_DIRS` and `MAX_FILES` limits are not modelled. A name is valid when non-empty.
- Device I/O errors on the SD card are not modelled. These are the errors of `open_root_dir`, `close`, `read`, `write` and `flush`, the `Close`, `ReadFile` and `WriteFile` variants of the store's error type, and "Can't open SSD root directory".
- The `u32` widths of `write_file_bytes`' offset and `append_bytes`' result are not modelled. Offsets and lengths are unbounded.
- The string wrappers `append_text`, `create_write_file_str` and `write_file_str` only pass `as_bytes()` to the functions modelled, so they are not modelled themselves.
- The card's answers to volume requests are an input sequence.
- `get_timestamp` of both SD files is a fixed clock, so it is not modelled.
- The Improv `u8` length arithmetic is modelled as wrapping, as in a release build. The overflow panic of a debug build is not.
- `License.WrappingAddU32`: the token offset `lic_start + header.len() as u32` is modelled as wrapping, as in a release build; the overflow panic of a debug build is not. The end `partition.offset + partition.size as u32` (license.rs:45) is never used, so it is not modelled, and neither is its debug-build overflow panic.
- `ImprovWifi.StringAt`, `ImprovWifi.SettingsAt`, `ImprovWifi.RpcCommandAt`, `ImprovWifi.RpcResultAt` and `ImprovWifi.DataAt`: their own ensures state only the positions. What they read is stated by the lemmas of `ImprovWifiProofs`.
- `Wifi.ConnectionTask.ConnectLoop`: the loop runs until the environment runs out or a store fails. A loop that never ends does not become a postcondition.
- License.LicenseManager.LoadLicense: a UTF-8 token that is not base64 is the error "Decoding failure (2)" here, where the code as written panics (the licence finding below); `License.LoadFrom` with `asWritten` set is the behaviour as written.
- SdStore.SdCardStore.WriteFileBytes: with `only_if_new` set and the `ReadWriteAppend` open succeeding, it closes the file before returning, where the code as written returns with the file still open (the SD store finding below); `SdStore.BytesWrittenAsWritten` is the behaviour as written.
- The error `Debug` texts of the SD store and the licence are kept only as the error variants and fixed messages.

## Findings

| source | as written | input that shows it | evidently intended | confidence | as-written member | corrected member |
|---|---|---|---|---|---|---|
| esp-hal-app-framework/src/license.rs:124-134 | `decode_with_xor` unwraps the base64 decoding, so its declared `Err` is never returned and bad base64 panics | a token that is not URL-safe base64, e.g. `"!"` | return the decoding error, as the signature and the TODO at line 126 say | high, not executed | License.DecodeWithXorAsWritten | License.DecodeWithXor |
| esp-hal-app-framework/src/sdcard_store.rs:376-378 | `write_file_bytes` with `only_if_new` returns as soon as the `ReadWriteAppend` open succeeds, without closing the file, so `embedded_sdmmc` keeps it open | two calls `write_file_bytes("a", 0, [1], true)` on a card holding the empty file `a`: the second fails with an open error | close the file before the early return, so the call can be repeated | medium, not executed | SdStore.WriteOnlyIfNewLeaks | SdStore.BytesWrittenMeaning |

The as-written licence decode is `License.DecodeWithXorAsWritten`. `License.DecodePanicsOnBadBase64` shows that it panics. `License.XorRoundTrip` proves the round trip for both versions. `License.LoadFrom` takes either decode. `License.LoadPanicsOnBadToken` shows that the load as written panics on a UTF-8 token that is not base64 where the corrected load reports "Decoding failure (2)". `License.LoadsAgree` shows that the two loads agree everywhere else. `License.LicenseManager.LoadLicense` follows the corrected version.

The as-written store write is `SdStore.BytesWrittenAsWritten`, exhibited by `SdStore.WriteOnlyIfNewLeaks`. The corrected `SdStore.BytesWritten` closes the file on the early return. `SdStore.BytesWrittenMeaning` proves that it leaves no file open, and `SdStore.WriteOnlyIfNewRepeats` shows that the repeated call succeeds. `SdStore.SdCardStore.WriteFileBytes` follows the corrected version.
