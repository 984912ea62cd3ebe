# AMS NFC sensor firmware — a verified model of its core

The firmware runs on an ESP32 beside a filament system (AMS). Each filament slot has an MFRC522 reader. The firmware reads the NFC tag in each slot and publishes the tag's identity text over MQTT. When WiFi cannot be joined, it serves a configuration page instead. This project models the sequential logic of that firmware in Dafny and proves properties of it:

- **Tag memory** (`nfc_reader.dfy`, module `NfcReader`).
  - `parse_ndef_message` walks the TLV blocks of a Type 2 tag with a moving offset. It decodes the first NDEF Message block and turns every framing error into "no text".
  - `read_ultralight_ndef` reads pages 4, 8, …, 44 with up to three attempts each. It stops at the first page that cannot be read.
  - `read_tag_text` runs the three handshake steps, then the memory read, then strips the text.
- **Slot debouncing** (`nfc_polling.dfy`, module `NfcPolling`). `task_nfc_loop` keeps one identity and one miss counter per slot in two arrays, plus a first-pass flag.
  - A new or changed tag is published at once.
  - A removal is published only after `NFC_MAX_READ_FAILURES` consecutive misses.
  - The class `SlotPoller` holds those arrays. One pass is a method over them.
- **Configuration file** (`config.dfy`, module `Config`). The defaults, the removal threshold, and the migration `load_config` applies: it adds missing default keys, drops four legacy keys, and saves only when something changed.
- **Configuration server** (`config_server.dfy`, module `ConfigServer`).
  - `_unquote_plus` turns `+` into a space, then decodes `%XX` escapes, one character per escape.
  - Requests are classified by prefix.
  - The query string of `/save` is split into `&`-separated pairs.
  - The new configuration is built from the defaults, the form fields and the `mqtt_port` integer fallback.
- **Reset button** (`hardware.dfy`, module `Hardware`). `check_reset_button` remembers the tick at which a press began. It erases the configuration and restarts when the button has been held for more than 10000 ms by `time.ticks_diff`. The tick counter wraps modulo 2^30, as `time.ticks_ms` does on this port.
- **Shared helpers.**
  - `whitespace.dfy`: `str.strip()` over MicroPython's six ASCII whitespace characters.
  - `numerals.dfy`: decimal text for slot numbers, and MicroPython's `int` on text, used for the port (`int(s)`) and for the escapes of a form value (`int(h, 16)`).
  - `wrappers.dfy`: `Option`.

Each imperative piece of the source is an imperative Dafny method, and each is proved equal to a specification function:

| method | specification function |
|---|---|
| `ParseNdefMessage`, the `while` loop with `break`/`continue` | `ParseNdef` |
| `ReadUltralightNdef`, the page and retry loops | `Buffer`, `Requests` |
| `LoadConfig`, the two loops and the `migrated` flag | `Migrate`, `NeedsMigration` |
| `UnquotePlus`, the accumulation into `res` | `Unquote`, defined as a left-to-right scan |
| `ParseQuery`, filling the dictionary | `ParseParams` |
| `SlotPoller.PollPass`, updating the arrays in place | `PassSlots`, `PassLog` |
| `ResetButton.CheckResetButton`, updating the press start | `Step` |

The properties the firmware relies on are then proved about those functions.

Two behaviours of the code matter when reading the model:

- **NULL and Terminator TLVs take a length byte.** The code reads a length byte after every type byte, including the `0x00` (NULL) and `0xFE` (Terminator) types. It skips no value bytes for a NULL block (`esp32/nfc_reader.py:59-71`, `89-91`). Section 2.3 of the NFC Forum Type 2 Tag Operation specification defines the NULL TLV as a single byte with no length field. `NfcReader.NullBlockTakesLengthByte` states what the code does. `NfcReader.StandardNullBlockBeforeMessage` shows the consequence: memory with a one-byte NULL block in front of an empty NDEF Message is not decoded.
- **Partial reads are parsed.** When a page is lost, the pages read before it are still concatenated and parsed (`esp32/nfc_reader.py:126-139`). A lost first page means no text; a later lost page still leaves the earlier pages to be parsed (`NfcReader.TagContent`, `NfcReader.EmptyBufferIffFirstPageLost`).

## Model

| member | source | states |
|---|---|---|
| Whitespace.Strip | esp32/nfc_reader.py:160 | the result has no whitespace at either end |
| Whitespace.StripKeepsInnerStretch | esp32/nfc_reader.py:160 | what `strip()` keeps is one stretch of the input, and everything removed before and after it is whitespace |
| Whitespace.StripIdempotent | esp32/nfc_reader.py:160 | stripping twice is stripping once |
| Whitespace.StripEmptyIffAllSpace | esp32/nfc_reader.py:160 | a string strips to the empty string exactly when it is all whitespace |
| Numerals.NatToString | esp32/main.py:34 | the decimal text of a slot number is non-empty, all digits, and has no leading zero |
| Numerals.NatToStringRoundTrip | esp32/main.py:34 | reading the digits back gives the number |
| Numerals.NatToStringInjective | esp32/main.py:34 | different numbers print differently |
| Numerals.ParseSigned | esp32/config_server.py:128 | the signed decimal numerals: accepted exactly when an optional sign is followed by at least one decimal digit; the sign decides the sign of the value |
| Numerals.NumeralEnd | esp32/config_server.py:128 | the digit loop of MicroPython's `int` stops at the first character that is neither a digit below the radix nor `_` |
| Numerals.BasePrefix | esp32/config_server.py:128 | a prefix is skipped exactly when it is `0` and a radix letter: `x` or `X` for either base, and also `o`, `O`, `b`, `B` for base 0; the letter gives radix 16, 8 or 2; with base 16 the radix is always 16; without a prefix it is 10 for base 0 and 16 for base 16 |
| Numerals.ParseNumber | esp32/config_server.py:128 | `int` of blank text is an error; only a leading `-` gives a negative value |
| Numerals.ParseInt | esp32/config_server.py:128 | `int(s)` of a signed decimal numeral with whitespace around it is that numeral's value |
| Numerals.ParseIntPrefix | esp32/config_server.py:128 | with base 0, a port sent as `0x50` reads as 80 |
| Numerals.ParseIntUnderscore | esp32/config_server.py:128 | the digit loop skips `_`: a port sent as `1_883` reads as 1883 |
| Numerals.IntToStringRoundTrip | esp32/config_server.py:128 | `int(str(n)) == n` for every integer |
| Config.DefaultKeysAreDefaultConfig | esp32/config.py:37-48 | the default keys are exactly the keys of `DEFAULT_CONFIG`, and no legacy key is a default key |
| Config.DefaultKeysDistinct | esp32/config.py:37-48 | the ten default keys are distinct |
| Config.Migrate | esp32/config.py:60-72 | every default key is present; loaded values of non-legacy keys are kept, never overwritten; missing default keys get their default; legacy keys are absent; no other key is added |
| Config.LoadConfig | esp32/config.py:52-84 | a missing or unparsable file gives and saves `DEFAULT_CONFIG`; otherwise the result is `Migrate(loaded)`, saved exactly when a default key was missing or a legacy key present, and what is saved is what is returned |
| Config.AddMissingDefaults | esp32/config.py:60-65 | after the first loop the keys are the loaded keys plus the default keys; a loaded value is never overwritten and a missing key gets its default; the flag is set exactly when a key was added |
| Config.DropLegacyKeys | esp32/config.py:67-72 | after the second loop the keys are the earlier keys minus the legacy keys, with their values kept; the flag is set exactly when a key was removed |
| Config.MigrateCharacterized | esp32/config.py:60-72 | the map the two loops build is `Migrate(loaded)` |
| Config.MigrationDetected | esp32/config.py:60-76 | one of the loops changes the key set, so the file is saved, exactly when `NeedsMigration` holds |
| Config.MigrateIdempotent | esp32/config.py:62-76 | loading a migrated configuration changes nothing and saves nothing |
| Config.MigrateUpToDate | esp32/config.py:62-76 | a file with every default key and no legacy key is returned unchanged |
| NfcReader.ReadHeader | esp32/nfc_reader.py:59-71 | a header is read exactly when its bytes are present; the length is the byte after the type, or the big-endian value of the two bytes after a 0xFF |
| NfcReader.ParseNdefMessage | esp32/nfc_reader.py:49-104 | the offset loop returns exactly `ParseNdef(raw)`, never indexing outside the data |
| NfcReader.ScanResultIsDecodedSlice | esp32/nfc_reader.py:72-88 | any text found is the record decoder's result on some stretch of the memory |
| NfcReader.SkipProprietaryBlocks | esp32/nfc_reader.py:95-100 | well-formed blocks of other types are skipped by exactly their length |
| NfcReader.ScanNdefMessageBlock | esp32/nfc_reader.py:72-88 | an NDEF Message block at the start is decoded, whatever follows it |
| NfcReader.NdefMessageRoundTrip | esp32/nfc_reader.py:72-100 | memory holding other blocks, then an NDEF Message block, then anything, decodes to the decoder's result on that message; nothing after it is looked at |
| NfcReader.TruncatedNdefMessage | esp32/nfc_reader.py:74-78 | an NDEF Message block whose declared length runs past the data yields None |
| NfcReader.TerminatorEndsScan | esp32/nfc_reader.py:92-94 | a Terminator type byte ends the scan with None, whatever follows |
| NfcReader.TruncatedHeader | esp32/nfc_reader.py:61-69 | memory ending after a type byte, or inside a three-byte length, yields None |
| NfcReader.NullBlockTakesLengthByte | esp32/nfc_reader.py:59-91 | a NULL type byte and the byte after it (when not 0xFF) are skipped together, and scanning goes on right after them |
| NfcReader.StandardNullBlockBeforeMessage | esp32/nfc_reader.py:89-91 | a one-byte NULL block in front of an empty NDEF Message makes the scan return None |
| NfcReader.RetryFrom | esp32/nfc_reader.py:119-125 | at most three attempts per page; the data obtained is the answer to the last attempt made; every earlier attempt failed, so the first success ends the loop; a lost page used all three attempts |
| NfcReader.RetryFails | esp32/nfc_reader.py:119-130 | a page is lost exactly when all of its attempts fail |
| NfcReader.ReadPage | esp32/nfc_reader.py:118-125 | the retry loop returns the data and the attempt count of `RetryFrom` |
| NfcReader.ReadUltralightNdef | esp32/nfc_reader.py:107-141 | the pages requested are `Requests(read)`; the result is None for an empty buffer, else the scan of the concatenated pages |
| NfcReader.BufferExtends | esp32/nfc_reader.py:126-127 | the buffer only grows: earlier pages stay a prefix |
| NfcReader.EmptyBufferIffFirstPageLost | esp32/nfc_reader.py:126-134 | nothing is read exactly when all three attempts at page 4 fail |
| NfcReader.LostPageEndsRead | esp32/nfc_reader.py:126-130 | after a lost page, later pages influence neither the buffer nor the requests |
| NfcReader.RequestsShape | esp32/nfc_reader.py:114-125 | only pages 4, 8, …, 44 are requested, in ascending order, at most three times each, and between 1 and 33 requests in all |
| NfcReader.TagContent | esp32/nfc_reader.py:126-141 | the decoded text of the pages read; three failed attempts at page 4 mean no text |
| NfcReader.TagContentIsDecodedSlice | esp32/nfc_reader.py:126-141 | any text found is the record decoder's result on a stretch of the pages read |
| NfcReader.TruncatedProprietaryBlock | esp32/nfc_reader.py:95-100 | after well-formed blocks of other types, a block of another type whose declared length runs past the data yields None |
| NfcReader.TagText | esp32/nfc_reader.py:144-162 | text is returned exactly when all three handshake steps succeed and the memory decodes to non-empty text; the text returned is that decoded text, stripped |
| NfcReader.ReadTagText | esp32/nfc_reader.py:144-162 | returns `TagText(session)`; the memory is read only when the three steps succeed |
| NfcPolling.SlotTopic | esp32/main.py:34 | the topic of slot `i` is the base, then `/slot_`, then the decimal text of `i + 1` |
| NfcPolling.SlotTopics | esp32/main.py:34 | one topic per reader, topic `j` being `SlotTopic(base, j)` |
| NfcPolling.SlotTopicsDistinct | esp32/main.py:34 | different slots publish on different topics |
| NfcPolling.Observe | esp32/main.py:56-98 | a slot's step keeps "empty means no misses" and "misses below the threshold"; what it publishes is the new identity; after the first pass it publishes exactly when the identity changes; in the first pass an empty slot publishes; a non-empty read stores the text with 0 misses; a miss keeps the identity or empties the slot |
| NfcPolling.MissesAccumulate | esp32/main.py:83-89 | misses below the threshold only count up and publish nothing |
| NfcPolling.RemovalConfirmedAfterThreshold | esp32/main.py:83-98 | after 0 to 199 misses the identity is kept and nothing is published; the 200th empties the slot with exactly one `""` publish |
| NfcPolling.ReadAgainCancelsRemoval | esp32/main.py:56-69 | reading the same tag before the threshold resets the count and publishes nothing |
| NfcPolling.SwapPublishesNewTagOnly | esp32/main.py:56-66 | swapping tag A for tag B publishes B alone, with no `""` in between |
| NfcPolling.PassSlots | esp32/main.py:46-98 | each slot's new state is its own step on its own read |
| NfcPolling.PassLog | esp32/main.py:46-98 | a pass publishes at most once per slot handled |
| NfcPolling.PassLogTopics | esp32/main.py:46-98 | a pass publishes only on the topics of the slots it handled |
| NfcPolling.PassLogTopicsOnce | esp32/main.py:46-98 | with distinct topics, no topic is published twice in a pass |
| NfcPolling.PassLogPerSlot | esp32/main.py:46-98 | with distinct topics, slot `j`'s topic carries `p` in a pass exactly when its step published `p` |
| NfcPolling.FirstPassPublishesEverySlot | esp32/main.py:56-81 | in the first pass every slot publishes once: its text, or `""` |
| NfcPolling.Detections | esp32/main.py:53 | the text each reader returns in a pass is `TagText` of its session |
| NfcPolling.SlotPoller.constructor | esp32/main.py:27-34 | every slot starts empty with no misses, the first-pass flag is set, the topics are `SlotTopics(base, count)` |
| NfcPolling.SlotPoller.PollSlot | esp32/main.py:47-98 | slot `i` takes `Observe`'s new state and the log grows by its publish; no other slot changes |
| NfcPolling.SlotPoller.PollSlots | esp32/main.py:46-98 | the slots become `PassSlots` of the reads, and the log grows by `PassLog`, in slot order |
| NfcPolling.SlotPoller.PollPass | esp32/main.py:40-103 | one pass as `PollSlots`, after which the first-pass flag is clear; the slot invariants are kept |
| ConfigServer.ReplacePlus | esp32/config_server.py:13 | same length; every `+` becomes a space and every other character stays |
| ConfigServer.Split | esp32/config_server.py:14 | at least one piece, no piece holds the separator, and a single piece exactly when the separator does not occur |
| ConfigServer.JoinSplit | esp32/config_server.py:14 | joining the pieces with the separator gives the text back |
| ConfigServer.SplitJoin | esp32/config_server.py:14 | splitting joined separator-free pieces gives them back |
| ConfigServer.SplitOnce | esp32/config_server.py:100 | fails exactly when there is no separator; otherwise the text is the first part, the separator, and the rest, and the first part has no separator |
| ConfigServer.Find | esp32/config_server.py:91-92 | the lowest index where the text occurs, or -1 when it occurs nowhere |
| ConfigServer.FindZeroIsPrefix | esp32/config_server.py:91-92 | `find(p) == 0` exactly when the request starts with `p` |
| ConfigServer.HexInt | esp32/config_server.py:20 | `int(h, 16)` on at most two characters: one or two hex digits give their value; any value lies between -16 and 255 |
| ConfigServer.HexIntBound | esp32/config_server.py:20 | whatever two characters `int(h, 16)` accepts, the value lies between -16 and 255 |
| ConfigServer.HexDigitsRead | esp32/config_server.py:20 | one or two hex digits read as their hex value |
| ConfigServer.HexIntUnderscore | esp32/config_server.py:20 | an underscore before or after a hex digit is skipped, and a lone `_` reads as 0 |
| ConfigServer.HexIntSpaced | esp32/config_server.py:20 | whitespace before or after a hex digit is skipped |
| ConfigServer.SignedHexDigit | esp32/config_server.py:20 | a sign before a hex digit is applied to its value |
| ConfigServer.HexIntBarePrefix | esp32/config_server.py:20 | `0x` with no digit after it is a ValueError |
| ConfigServer.EscapedCode | esp32/config_server.py:19-22 | nothing exactly when `int` raises or gives a negative value, which `chr` refuses; otherwise a code below 256, the value of one or two hex digits |
| ConfigServer.DecodeOneSegment | esp32/config_server.py:17-22 | decoding a `%` piece up to the next `%` is that piece's `chr(...) + item[2:]`, or the piece kept with its `%` |
| ConfigServer.DecodeSplit | esp32/config_server.py:14-22 | decoding piece by piece after `split("%")` is the same as the left-to-right decoding of the whole text |
| ConfigServer.DecodePieces | esp32/config_server.py:17-22 | the loop over the pieces yields the first piece and then every later piece decoded |
| ConfigServer.UnquotePlus | esp32/config_server.py:11-23 | `_unquote_plus(s)` is `Unquote(s)`: plus to space, then the left-to-right decoding |
| ConfigServer.UnquoteWithoutPercent | esp32/config_server.py:13-16 | without `%`, the only change is `+` becoming a space |
| ConfigServer.DecodeEscape | esp32/config_server.py:17-20 | a two-digit escape becomes one character, and decoding goes on after it |
| ConfigServer.EscapeIsFinal | esp32/config_server.py:13-20 | a decoded character is never decoded again, even when it is `%` or `+` |
| ConfigServer.UnquoteEscapedPlus | esp32/config_server.py:13-20 | `%2B` gives `+`, not a space, whatever follows |
| ConfigServer.UnquoteEscapedPercent | esp32/config_server.py:13-20 | `%25` gives a `%` that is not decoded again with what follows, so `%252B` gives `%2B` |
| ConfigServer.UnquoteLiteralExamples | esp32/config_server.py:13-22 | `a+b` gives `a b`; a `%` at the end stays |
| ConfigServer.UnquoteBadEscape | esp32/config_server.py:19-22 | a `%` without hex digits after it stays |
| ConfigServer.UnquoteShortEscape | esp32/config_server.py:13-22 | a `%` and one or two more characters decode to the escaped character, or stay as sent when `int` or `chr` raises |
| ConfigServer.UnquoteSignQuirks | esp32/config_server.py:19-22 | `int` skips the space a `+` became, so `%+` and a hex digit give that digit's character; `%-` and a non-zero hex digit stay as sent, because `chr` refuses a negative value |
| ConfigServer.UnquoteUnderscoreQuirks | esp32/config_server.py:19-22 | an underscore before or after the one hex digit of an escape is skipped by `int` |
| ConfigServer.UnquoteFormEncode | esp32/config_server.py:11-23 | every ASCII value a browser form-encodes is decoded back to itself |
| ConfigServer.SplitHead | esp32/config_server.py:97 | the first piece of a split runs up to the first separator, or is the whole text |
| ConfigServer.QueryString | esp32/config_server.py:97 | the query is the text after the first `?` up to the next space, the next `?`, or the end |
| ConfigServer.Classify | esp32/config_server.py:91-92 | a save request exactly when the text starts with `GET /save?`; a page request exactly when it starts with `GET / HTTP` |
| ConfigServer.SaveRequestHasQuery | esp32/config_server.py:91-97 | a save request has its first `?` at index 9, so the query string exists |
| ConfigServer.SplitOnceKeyValue | esp32/config_server.py:100 | `pair.split("=", 1)` gives the name before the first `=` and the rest |
| ConfigServer.ParseParams | esp32/config_server.py:98-101 | the dictionary is built exactly when every pair holds an `=` |
| ConfigServer.ParamsKeysPresent | esp32/config_server.py:98-101 | every pair's name is a key of the dictionary |
| ConfigServer.ParamsKeysNamed | esp32/config_server.py:98-101 | every key of the dictionary is the name of some pair |
| ConfigServer.ParamsLastWins | esp32/config_server.py:99-101 | a name holds the decoded value of the last pair naming it |
| ConfigServer.ParseQuery | esp32/config_server.py:97-101 | the loop returns `ParseParams` of the `&`-pieces with `_unquote_plus` as the decoder; the first pair without `=` aborts it |
| ConfigServer.EmptyPairFails | esp32/config_server.py:99-100 | an empty query, or one ending in `&`, has a pair without `=` and is refused |
| ConfigServer.Port | esp32/config_server.py:127-130 | the port is always an integer |
| ConfigServer.NewConfig | esp32/config_server.py:106-130 | the new configuration has exactly the default keys |
| ConfigServer.NewConfigFields | esp32/config_server.py:106-126 | each text field is what the form sent, or that key's default when the form left it out |
| ConfigServer.FormFieldsAreDefaults | esp32/config_server.py:106-126 | the fallbacks written in the handler are the defaults: `""` for the WiFi and broker credentials, the configured defaults for the rest |
| ConfigServer.FormKeysDistinct | esp32/config_server.py:107-126 | no two form entries write the same key, and none writes the port |
| ConfigServer.FormFieldsCoverConfig | esp32/config_server.py:106-126 | the form entries and the port together write every configuration key |
| ConfigServer.NewConfigPort | esp32/config_server.py:127-130 | the port is `int` of the field sent, and 1883 when it is absent or not an integer |
| ConfigServer.SavedConfigLoadsUnchanged | esp32/config_server.py:106-132 | what is saved loads back unchanged on the next start and is not rewritten |
| ConfigServer.Respond | esp32/config_server.py:91-221 | saved or 500 exactly for a `GET /save?` request; 500 exactly when a pair lacks `=`; the page exactly for `GET / HTTP`; 404 otherwise; a saved configuration is `NewConfig` of the decoded query parameters, has the default keys and needs no migration |
| ConfigServer.HandleRequest | esp32/config_server.py:91-221 | the dispatch of the server loop gives `Respond(request)` |
| ConfigServer.FieldIsLastSent | esp32/config_server.py:99-126 | each text key saved is the decoded value of the last pair naming its form field, and the field's default when no pair names it |
| ConfigServer.SavedFieldIsLastSent | esp32/config_server.py:91-126 | the same for each text key of a request the server saves |
| ConfigServer.PortIsLastSent | esp32/config_server.py:99-130 | the port saved is `int` of the last `mqtt_port` pair's decoded value, and 1883 when no pair names it or its value is not an integer |
| ConfigServer.SavedPortIsLastSent | esp32/config_server.py:91-130 | the same for the port of a request the server saves |
| Hardware.TicksDiff | esp32/hardware.py:72 | `ticks_diff` is congruent to the plain difference modulo 2^30 and lies in [-2^29, 2^29) |
| Hardware.TicksDiffElapsed | esp32/hardware.py:72 | across a wrap of the counter, `ticks_diff` still gives the elapsed time when it is below half a period |
| Hardware.Run | esp32/hardware.py:58-91 | over repeated calls: one effect per call; without a working pin no call does anything and no press is recorded; a prompt or a reset only comes from a call that reads the button pressed; a released reading leaves no press recorded |
| Hardware.Step | esp32/hardware.py:58-91 | without a working pin nothing happens; a release clears the start; the first pressed call records the tick and prompts; the reset fires exactly when a recorded press is more than 10000 ms old, removing the file when there is one; a held press keeps its start |
| Hardware.PressAtTickZero | esp32/hardware.py:66-68 | a press first seen at tick 0 records 0, so the next pressed call prompts again |
| Hardware.RunStartIsHeld | esp32/hardware.py:63-91 | over any run of calls, a recorded start is the tick of a call from which the button has read pressed ever since |
| Hardware.ResetNeedsLongHold | esp32/hardware.py:63-84 | a call that resets follows an earlier call at a non-zero tick, with the button pressed at every call since and more than 10000 ms elapsed |
| Hardware.ResetButton.constructor | esp32/hardware.py:9-11 | no pin and no press at import time |
| Hardware.ResetButton.InitResetButton | esp32/hardware.py:39-50 | the pin is set up, or marked failed, and the press start is kept |
| Hardware.ResetButton.CheckResetButton | esp32/hardware.py:52-91 | the new press start and the effect are `Step` of the old state and the call's inputs; the pin is unchanged and the start stays a tick value |

## Left out

- The `ndef` library's record decoding (`esp32/nfc_reader.py:81-88`) is the parameter `RecordDecoder`: bytes to the first text record's text, or None. When the library is missing (`ndef is None`), when it raises, or when it finds only URI records, that parameter returns None.
- The MFRC522 calls (`request`, `anticoll`, `select_tag`, `read`) are the given outcomes of a `TagSession`. A failed or empty page read is the empty sequence. `init_readers` and `time.sleep_ms` are not modelled.
- Publishing goes through `network_manager.try_publish_mqtt` and is recorded as a log of (topic, payload) pairs. Its connection handling, retries and failures are not modelled.
- `SlotTopics`: the topic base is taken as a string. A non-string JSON value stored under `nfc_mqtt_topic_base` would be formatted by Python's `str()`, which is not modelled.
- The `uasyncio` tasks are not modelled: their sleeps, `task_dht_loop`, `task_button_check` and `main()`. The endless `while True` of `task_nfc_loop` is one pass per call of `SlotPoller.PollPass`.
- LED colours (`set_led` and its floating-point brightness), the OLED messages and debug printing are not modelled. Where the reset button shows a message, that is part of the returned `Effect`.
- File I/O is not modelled: `open`, `ujson`, `save_config` and `os.remove`.
  - `load_config` receives the parsed file, or None when it is missing or invalid.
  - A file write is the returned configuration to save.
  - A failure inside `save_config`, which it catches and prints, is not modelled.
  - The removal of the configuration file is a flag in `Effect.FactoryReset`.
- The configuration server's access point, sockets, HTML bodies, `http_response` and the button check inside its loop are not modelled. So are `time.sleep` and `machine.reset`.
- The request is taken as already received and UTF-8 decoded. The 1024-byte `recv` limit, and a request that fails to decode, are not modelled.
- `ParseNumber` models MicroPython's integer parser on text, for the two bases the firmware passes: 0 and 16. Bytes arguments and other bases are not modelled.
- `LoadConfig`: the parsed file is taken to be a JSON object whose values are strings, integers, booleans or null (`Value`). Floating-point, array and object values are not modelled. A file holding JSON other than an object is not modelled either. For such a file `load_config` raises a TypeError that its `except (OSError, ValueError)` does not catch. The one exception is a string or an array that already contains every default key and no legacy key: that value is returned unchanged.
- `Unquote`: each `%XX` escape becomes the character with that code, as in the source. So a non-ASCII value a browser sent as UTF-8 comes back as one character per byte. `UnquoteFormEncode` is therefore stated for ASCII values only.
- `Run`: after a `FactoryReset` the device restarts (`machine.reset`), so no later call happens. `Run` keeps stepping; `ResetNeedsLongHold` speaks of the last call of a run, and so of the first reset.
- `TicksDiff`: `time.ticks_ms` is taken to count modulo 2^30, the period on this 32-bit port.
