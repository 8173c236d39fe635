# WiFiPicker in Dafny

WiFiPicker is an ESP8266 library. At boot it tries to join one of the WiFi
networks saved on flash. If none joins, it starts its own access point with
a captive web portal, where a user can add or remove networks. This project
models the library's core and proves properties of it:

- the access-point configuration that `init` normalises (passphrase and
  default SSID);
- the credential map `_ssids`, a `std::map<String, String>` from SSID to
  passphrase, and its add, remove and reset operations;
- the credential file `/WiFiPicker` on flash, written by `writeConfig` and
  read back by `readConfig`;
- the status polling of `tryConnectToSsid`, the attempt loop of
  `tryConnect`, and the decision `start` makes between "joined" and
  "portal".

Files and modules:

| file | module | what it holds |
|---|---|---|
| `lex.dfy` | `Lex` | the key order of the map (`String::operator<`, a `strcmp`) |
| `store.dfy` | `Store` | credentials as a sequence strictly sorted by SSID, its map view, insert and exact-match erase |
| `record.dfy` | `Record` | the flash file as characters: writing, line splitting, reading back |
| `ap.dfy` | `Ap` | passphrase and SSID defaulting, the `softAP` arguments, the redirect decision |
| `join.dfy` | `Join` | radio statuses, their classification, polling a status trace, trying credentials in order |
| `picker.dfy` | `Picker` | the `WiFiPicker` class: its fields and one method per source method |

The class keeps the source's state as fields: `apSsid`, `apPass` and
`apHidden` for `_ssid`, `_pass` and `_hidden`; `ssids` for `_ssids`, a
sequence kept in key order (the order a `std::map` iterates in); and
`flash` for the credential file, which is either missing or holds a string.
Each method states its new state with `old(...)`. The lemmas about the
specification functions carry the properties: round trip, idempotence,
ordering and first success.

Foreign calls become inputs:

- `ESP.getChipId()` is a `chipId` parameter, a 32-bit unsigned value.
- The flash filesystem is the `flash` field.
- The radio is a `Radio` function. It gives, for each credential, the
  finite sequence of statuses `WiFi.status()` reports after `WiFi.begin`.
- The Host header and `WiFi.softAPIP()` are string parameters of
  `RootReply`.

The model follows the code in four places where it behaves differently from
what one might expect:

- Credentials are tried in ascending SSID order, because `std::map` sorts
  its keys. They are not tried in insertion order.
- `addSsid` and the portal's add handler store the passphrase verbatim. Only
  the AP passphrase in `init` is replaced by `"8characters"` when it is
  non-empty and shorter than 8 bytes. `String::length()` counts UTF-8
  bytes, so four non-ASCII characters are long enough.
- A file that ends with an SSID line and no passphrase line is not
  truncated to its complete entries. The read loop reads a second line
  anyway, finds it empty, and stores the SSID with an empty passphrase
  (`Record.TrailingSsid`).
- `start` never returns false. `createAP` ends in an endless serve loop, so
  the device stays in the portal. The model returns `Portal(ap)` for that
  state.

## Model

| member | source | states |
|---|---|---|
| `Picker.WiFiPicker.constructor` | src/WiFiPicker.cpp:18-32 | `init` stores the normalised SSID and passphrase and the hidden flag; the map starts empty; the flash is untouched |
| `Ap.Utf8Length` | src/WiFiPicker.cpp:19 | `String::length()` counts the bytes of the UTF-8 encoding, between one and four per character |
| `Ap.Utf8LengthAscii` | src/WiFiPicker.cpp:19 | the byte length equals the number of characters exactly when every character is ASCII |
| `Ap.Utf8LengthWide` | src/WiFiPicker.cpp:19 | a string of non-ASCII characters is at least two bytes per character long |
| `Ap.ApPass` | src/WiFiPicker.cpp:19-22 | the stored AP passphrase is empty or at least 8 bytes long in UTF-8; an empty passphrase, or one of 8 or more bytes, is kept verbatim; any other is replaced by `"8characters"` |
| `Ap.ApPassCountsBytes` | src/WiFiPicker.cpp:19-22 | four non-ASCII characters make an acceptable passphrase and are kept, although they are fewer than 8 characters |
| `Ap.ApSsid` | src/WiFiPicker.cpp:27 | the AP SSID is never empty: it is the given SSID, or, when that is empty, exactly "ESP" followed by `Decimal(chipId)`, the chip id's decimal digits with no leading zero |
| `Ap.Decimal` | src/WiFiPicker.cpp:27 | `String(chipId)` gives the decimal digits of the number, with no leading zero, and they read back as the number |
| `Ap.ApSetup` | src/WiFiPicker.cpp:231-236 | the portal AP uses the configured SSID and passphrase on channel 1; it is hidden only when the hidden flag is set and there is a passphrase, so an open AP is never hidden |
| `Ap.RootReply` | src/WiFiPicker.cpp:157-166 | a request is answered with a 302 redirect to `http://` plus the AP address exactly when its Host header differs from that address |
| `Lex.Below` | src/WiFiPicker.h:37 | the order `std::map<String, String>` keeps its keys in, `String::operator<`: lexicographic by character code, a proper prefix first; its properties are the four lemmas below |
| `Lex.BelowIrreflexive` | src/WiFiPicker.h:37 | no SSID sorts before itself |
| `Lex.BelowAsymmetric` | src/WiFiPicker.h:37 | two SSIDs never sort before each other |
| `Lex.BelowTransitive` | src/WiFiPicker.h:37 | the key order of the map is transitive |
| `Lex.BelowTotal` | src/WiFiPicker.h:37 | any two different SSIDs are ordered one way or the other |
| `Store.Sorted` | src/WiFiPicker.h:37 | the store iterates in strictly ascending key order, so no SSID occurs twice; `Store.Insert`, `Store.EraseView` and `Record.Load` keep it |
| `Store.View` | src/WiFiPicker.h:37 | the map the store stands for, a later entry of the sequence never hiding an earlier one in a sorted store; described by `Store.ViewAt`, `Store.ViewKeys`, `Store.ViewTail` and `Store.SortedViewUnique` |
| `Store.ViewAt` | src/WiFiPicker.h:37 | every entry of the sorted sequence is in the map it stands for, with its own passphrase |
| `Store.ViewKeys` | src/WiFiPicker.h:37 | the map's keys are exactly the SSIDs of the sequence |
| `Store.ViewTail` | src/WiFiPicker.h:37 | dropping the first entry of the store drops exactly its SSID from the map |
| `Store.SortedViewUnique` | src/WiFiPicker.h:37 | two key-ordered sequences with the same map are equal, so the order of the store carries nothing beyond its keys |
| `Store.Insert` | src/WiFiPicker.cpp:173 | `_ssids[ssid] = pass` keeps the store in key order and updates the map at that one key, every other key keeping its value |
| `Store.InsertOnce` | src/WiFiPicker.cpp:173 | after an add, the SSID appears exactly once, with the new passphrase |
| `Store.InsertIdempotent` | src/WiFiPicker.cpp:172-175 | adding the same credential twice gives the same store as adding it once |
| `Store.InsertLast` | src/WiFiPicker.cpp:83 | a credential whose SSID sorts after every stored one is appended at the end |
| `Store.Erase` | src/WiFiPicker.cpp:177-185 | removal leaves the store unchanged when no entry matches both SSID and passphrase, and otherwise removes exactly one entry |
| `Store.EraseView` | src/WiFiPicker.cpp:177-185 | removal keeps the store in key order and deletes the SSID from the map exactly when the stored passphrase matches too |
| `Store.EraseAt` | src/WiFiPicker.cpp:178-180 | erasing through the iterator at the first exact match is the specified removal |
| `Store.HoldsIn` | src/WiFiPicker.cpp:178-179 | the map holds the SSID with that passphrase exactly when the iteration meets an entry matching both |
| `Record.Records` | src/WiFiPicker.cpp:76-84 | the entries the read loop meets, two `readStringUntil('\n')` pieces per turn, each losing its last character; every turn consumes at least one character, so there are at most as many entries as characters; described by `Record.RecordsLines`, `Record.RecordsPrefix` and `Record.TrailingSsid` |
| `Record.Build` | src/WiFiPicker.cpp:76-84 | `_ssids[ssid] = pass` applied to each entry in file order; the result stays in key order, and `Record.BuildView` and `Record.BuildSorted` describe it |
| `Record.Parse` | src/WiFiPicker.cpp:67-87 | the store `readConfig` builds from the file's characters, starting from an empty map; `Record.ParseSerialize` is its round trip with `Record.Serialize` |
| `Record.Load` | src/WiFiPicker.cpp:67-87 | the store `readConfig` leaves is in key order, and is empty when the file is missing |
| `Record.Line` | src/WiFiPicker.cpp:92-93 | `println(x)` writes `x` and then "\r\n"; `Record.DropLineEnd` and `Record.SplitLine` show that reading takes it back |
| `Record.Entry` | src/WiFiPicker.cpp:92-93 | the SSID line and then the passphrase line of one entry; `Record.RecordsEntry` reads it back as that entry |
| `Record.Serialize` | src/WiFiPicker.cpp:89-96 | the file `writeConfig` leaves, the entries' line pairs in store order; described by `Record.SerializeAppend` and the round trip `Record.ParseSerialize` |
| `Record.Split` | src/WiFiPicker.cpp:77-78 | `readStringUntil('\n')` returns a piece without a newline and consumes at least one character of a non-empty input, so the read loop always advances |
| `Record.SplitShape` | src/WiFiPicker.cpp:77-78 | the input is the piece read, a newline and what is left; or, when the input has no newline, the piece is the whole input and nothing is left |
| `Record.DropLast` | src/WiFiPicker.cpp:80-81 | `remove(length() - 1)` drops the last character and leaves an empty string empty |
| `Record.SplitLine` | src/WiFiPicker.cpp:77-78 | a newline-free line followed by a newline is read back whole, and reading resumes right after the newline |
| `Record.SerializeAppend` | src/WiFiPicker.cpp:91-94 | the file for two runs of entries is the two files one after the other |
| `Record.RecordsPrefix` | src/WiFiPicker.cpp:76-84 | the entries read from a file that starts with written entries are those entries, followed by whatever the rest of the file holds |
| `Record.RecordsSerialize` | src/WiFiPicker.cpp:76-94 | reading a written file meets exactly the written entries, in order, when no SSID or passphrase contains a newline |
| `Record.BuildSorted` | src/WiFiPicker.cpp:83 | inserting entries that already come in key order rebuilds the same sequence |
| `Record.ParseSerialize` | src/WiFiPicker.cpp:67-96 | the write/read round trip: reading back what `writeConfig` wrote gives the same store, entry for entry |
| `Record.BuildView` | src/WiFiPicker.cpp:76-84 | the map read from a file is the result of `_ssids[ssid] = pass` over the file's entries in file order, a later entry for a key overwriting an earlier one |
| `Record.TrailingSsid` | src/WiFiPicker.cpp:76-84 | a file that ends with a lone SSID line yields that SSID with an empty passphrase, after the complete entries |
| `Record.RecordsLines` | src/WiFiPicker.cpp:76-83 | two newline-terminated lines are read as one entry, each losing its last character, and reading goes on after the second newline |
| `Record.RecordsEntry` | src/WiFiPicker.cpp:76-94 | the two lines `writeConfig` prints for one newline-free entry are read back as that entry |
| `Record.NewlineBreaksRoundTrip` | src/WiFiPicker.cpp:76-94 | an SSID `x + "\n" + y` does not survive the round trip: the file written for it is read back as `x` without its last character with passphrase `y`, then the written passphrase as an SSID with an empty passphrase |
| `Join.Classify` | src/WiFiPicker.cpp:104-131 | the switch on `WiFi.status()`: connected joins; no shield, no SSID, connect failed and connection lost fail; disconnected and every status the switch does not name keep polling; `Join.FirstVerdictAt` and `Join.FirstVerdictWaiting` state it over a trace |
| `Join.FirstVerdict` | src/WiFiPicker.cpp:101-133 | the polling loop over the statuses the radio reports; `Join.FirstVerdictAt`, `Join.FirstVerdictWaiting` and `Join.FirstVerdictSettled` state what it returns |
| `Join.FirstVerdictAt` | src/WiFiPicker.cpp:101-133 | the first status that settles the attempt decides it: connected joins; no shield, no SSID, connect failed and connection lost fail |
| `Join.FirstVerdictWaiting` | src/WiFiPicker.cpp:101-133 | polling keeps waiting exactly when every status seen is disconnected or one the switch does not name |
| `Join.FirstVerdictSettled` | src/WiFiPicker.cpp:101-133 | once a status settles the attempt, later statuses do not change the verdict |
| `Join.Attempt` | src/WiFiPicker.cpp:139-149 | the loop of `tryConnect` over the store in iteration order; its properties are `Join.AttemptStopsAt`, `Join.AttemptFails`, `Join.AttemptPrefix` and `Join.AttemptAscending` |
| `Join.AttemptStopsAt` | src/WiFiPicker.cpp:139-147 | when credential k is the first whose attempt does not fail, exactly the SSIDs up to and including k are tried, and k's verdict is the result: a success stops the search |
| `Join.AttemptFails` | src/WiFiPicker.cpp:136-150 | `tryConnect` fails exactly when every stored credential fails, including when there is none, and then every SSID has been tried |
| `Join.AttemptPrefix` | src/WiFiPicker.cpp:139-147 | the tried SSIDs are the store's keys from its first entry on, and every attempt but the last failed |
| `Join.AttemptAscending` | src/WiFiPicker.cpp:139 | the attempts are made in strictly ascending SSID order |
| `Picker.WiFiPicker.ReadConfig` | src/WiFiPicker.cpp:67-87 | the map becomes the store read from the file, or empty when there is no file |
| `Picker.WiFiPicker.WriteConfig` | src/WiFiPicker.cpp:89-96 | the file is overwritten with two lines per entry in key order; a newline-free store reads back unchanged |
| `Picker.WiFiPicker.TryConnectToSsid` | src/WiFiPicker.cpp:98-134 | the polling loop returns the verdict of the first settling status, or is still waiting when the trace ends |
| `Picker.WiFiPicker.TryConnect` | src/WiFiPicker.cpp:136-150 | reads the file, then the SSIDs it tries and its verdict are those of the attempt specification over the map read |
| `Picker.WiFiPicker.Start` | src/WiFiPicker.cpp:52-65 | the device is online exactly when `tryConnect` joins, and enters the portal, with the AP set up from the configuration, exactly when every attempt fails |
| `Picker.WiFiPicker.Reset` | src/WiFiPicker.cpp:152-155 | the file is deleted and the map is empty |
| `Picker.WiFiPicker.AddSsid` | src/WiFiPicker.cpp:172-175 | the map gets the passphrase verbatim at that SSID, every other key unchanged, and the file is rewritten |
| `Picker.WiFiPicker.AddOpenSsid` | src/WiFiPicker.cpp:168-170 | adding an SSID alone is adding it with an empty passphrase |
| `Picker.WiFiPicker.RemoveSsid` | src/WiFiPicker.cpp:177-185 | the SSID is removed, and the file rewritten, only when both SSID and stored passphrase match; otherwise neither the map nor the file changes |

## Left out

- The HTML page building in `handleRoot` and the `beginHtml`/`endHtml` constants: presentation only.
- `createAP`'s web server, DNS server and endless serve loop, and the portal handlers `handleAdd`, `handleRemove` and `handleRoot`: glue over libraries that are not part of this model. Their decisions are modelled: `handleAdd` is `AddSsid` with the request's arguments, `handleRemove` is `RemoveSsid`, and `handleRoot` starts with `RootReply`.
- `ESP.restart()`, `delay()`, the 500 ms poll interval and serial logging: device side effects and diagnostics.
- `WiFi.softAPdisconnect`, `WiFi.setAutoConnect`, `WiFi.mode` and `SPIFFS.begin`: radio and filesystem set-up calls with no effect on the modelled state.
- A failure of `SPIFFS.open` when writing is not modelled: the file is always rewritten.
- Picker.WiFiPicker.TryConnectToSsid: the radio's statuses are a finite trace. When the trace ends before a status settles the attempt, the result is `Waiting`, meaning the device would still be polling. The source loop has no bound and then never returns.
- Picker.WiFiPicker.Start: the radio is a fixed function of the credential, so an attempt cannot depend on earlier attempts in the same boot.
- Lex.Below: characters are compared by code. `strcmp` stops at a NUL byte, so SSIDs with embedded NUL characters are not modelled.
- Record.DropLast: drops the last character, where `remove(length() - 1)` drops the last UTF-8 byte. They differ only on a piece that ends in a non-ASCII character: the part before the newline of an SSID such as "\U{e9}\ny" (see `Record.NewlineBreaksRoundTrip`), or the last line of a file that `writeConfig` did not write. Every line `writeConfig` writes ends in '\r', so the round trip is not affected. Strings are modelled as characters, not bytes, so a string holding part of a character cannot be represented.
- Record.ParseSerialize: the round trip is stated for SSIDs and passphrases without newline characters. `Record.NewlineBreaksRoundTrip` shows how it fails otherwise.
