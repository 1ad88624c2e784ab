# OlonConfig in Dafny

A model of `Olon::Config<T>`, the Arduino/ESP32 helper that keeps one fixed-size configuration record in a `Preferences` namespace under the key `"config"`. The stored blob is the record's bytes followed by a 16-bit checksum, low byte first. Loading checks the length and the checksum before it trusts the bytes, and it falls back to the record's default value on every failure.

Files:

- `crc16.dfy` (module `Crc16`): the checksum. It is a recursive specification (`Round`, `Rounds`, `Step`, `Fold`, `Checksum`) plus `Compute`, the firmware loop proved equal to it. The parameters are init 0xFFFF, reflected polynomial 0xA001, LSB first and no final XOR. That is CRC-16/MODBUS (section 6.2.2 of the MODBUS over Serial Line Specification V1.02).
- `blob.dfy` (module `Blob`): the stored form. `Encode` is what `write` stores; `Decode` is what `read` accepts. It also holds the little-endian split and join of the checksum.
- `preferences.dfy` (module `Preferences`): the key-value backend as a map from namespace to key to bytes. The class `Nvs` holds that map and offers `getBytesLength`, `getBytes`, `putBytes` and `clear`.
- `config.dfy` (module `OlonConfig`): the class `Config`, with its fields `data` and `validFlag` (the source's `_valid`). Its methods are `Read`, `Write`, `WriteDefaults`, `Valid` and `DeleteConfig`. Beside them are the store-level functions `Loaded` (what `read` accepts) and `Saved` (what `write` leaves), the lemmas about them, and three client methods that chain the operations.

How the model is set up:

- The template parameter `T` is modelled by its bytes. `defaults` holds the bytes of a default-constructed `T` and is given to the constructor. `size` stands for `sizeof(T)`: the constructor sets it to `|defaults|`, which must be at least 1.
- Some results are decided by the backend and the model does not compute them. They are passed in as booleans: `roOpens` is whether `begin(name, true)` succeeds, `rwOpens` is whether `begin(name, false)` succeeds, and `putAccepted` is whether `putBytes` stores the blob.
- Points about the code worth knowing:
  - The checksum is CRC-16/MODBUS (init 0xFFFF), not CRC-16/ARC. Two zero bytes give 0xB001 (`Crc16.TwoZeroBytes`). The empty input gives 0xFFFF (`Crc16.ChecksumEmpty`).
  - `write` returns true whenever the read-write open succeeds, whatever `putBytes` returned (src/OlonConfig.h:172-177).
  - On its length-mismatch path `read` runs the fall-back `writeDefaults()` while its read-only handle is still open, without calling `prefs.end()` first (src/OlonConfig.h:122-126). The model has no handles, so this does not show in it.

## Model

| member | source | states |
|---|---|---|
| Crc16.Compute | src/OlonConfig.h:213-227 | the pointer-and-countdown loop with its inner eight rounds returns exactly `Checksum` of the first `len` bytes |
| Crc16.ChecksumEmpty | src/OlonConfig.h:214-226 | the checksum of no bytes is 0xFFFF |
| Crc16.FoldAppend | src/OlonConfig.h:215-225 | the checksum is a left fold of a per-byte step: folding over `a + b` equals folding over `b` from the result for `a` |
| Crc16.ChecksumAppend | src/OlonConfig.h:215-225 | `Checksum(a + b)` continues the fold from `Checksum(a)` over `b` |
| Crc16.EightRounds | src/OlonConfig.h:217-224 | `Rounds(c, 8)` is eight applications of the conditional shift/xor-0xA001 `Round` (used to evaluate concrete inputs) |
| Crc16.CheckValue | src/OlonConfig.h:213-227 | the ASCII digits "123456789" give 0x4B37, the published CRC-16/MODBUS check value |
| Crc16.TwoZeroBytes | src/OlonConfig.h:213-227 | two zero bytes give 0xB001 |
| Blob.JoinSplit | src/OlonConfig.h:170-171 | splitting a checksum into `crc & 0xFF` and `crc >> 8`, then joining as `lo \| hi << 8`, gives the checksum back |
| Blob.SplitJoin | src/OlonConfig.h:134-135 | joining two bytes and splitting the result gives both bytes back |
| Blob.EncodeLayout | src/OlonConfig.h:166-171 | the saved blob has `size + 2` bytes: the record, then the checksum's low byte, then its high byte; its stored checksum is the record's checksum |
| Blob.DecodeEncode | src/OlonConfig.h:134-147 | decoding the blob that saving builds returns the saved record |
| Blob.DecodeAccepted | src/OlonConfig.h:134-147 | a blob that passes the length and checksum checks is exactly the encoding of the record it yields, and that record has `size` bytes |
| Blob.DecodeOnlyEncodings | src/OlonConfig.h:122-147 | the length and checksum checks accept a blob as record `d` if and only if `d` has `size` bytes and the blob is the encoding of `d` |
| Preferences.Put | src/OlonConfig.h:172 | after `putBytes` the key holds the new value; every other key of every namespace is unchanged |
| Preferences.Cleared | src/OlonConfig.h:194 | after `clear` every key of the namespace reads as absent; other namespaces are unchanged |
| Preferences.Nvs.GetBytesLength | src/OlonConfig.h:120 | the stored length of the key, 0 when the key or the namespace is absent |
| Preferences.Nvs.GetBytes | src/OlonConfig.h:129 | copies the stored value into the buffer when it fits, leaving the rest of the buffer alone |
| Preferences.Nvs.PutBytes | src/OlonConfig.h:172 | stores the buffer's first `len` bytes under the key when the backend accepts; otherwise changes nothing |
| Preferences.Nvs.Clear | src/OlonConfig.h:194 | the store after clearing the namespace |
| OlonConfig.LoadedIff | src/OlonConfig.h:107-153 | `read` accepts record `d` if and only if the read-only open succeeds and the key holds exactly the encoding of `d` |
| OlonConfig.WriteThenRead | src/OlonConfig.h:120-152 | after a successful `write` of `d`, a `read` of the same namespace accepts `d` |
| OlonConfig.WriteElsewhere | src/OlonConfig.h:161-172 | a `write` to another namespace does not change what `read` finds |
| OlonConfig.ClearedReadsNothing | src/OlonConfig.h:186-196 | after the namespace is cleared the key reads as no bytes and `read` accepts nothing, as for an absent key |
| OlonConfig.SavedTwice | src/OlonConfig.h:202-208 | writing the same defaults twice leaves the store as writing them once |
| OlonConfig.FailedReadRepairs | src/OlonConfig.h:202-208 | once the fall-back write of the defaults goes through, the next `read` that opens the namespace accepts the defaults |
| OlonConfig.Config.constructor | src/OlonConfig.h:96-100 | binds the namespace; `data` is the default record and the record is not valid |
| OlonConfig.Config.Write | src/OlonConfig.h:157-178 | returns false and changes nothing when the read-write open fails; otherwise returns true and, if `putBytes` accepts, stores `Encode(data)` under `"config"`; every other key and namespace, `data` and `validFlag` are unchanged |
| OlonConfig.Config.WriteDefaults | src/OlonConfig.h:202-208 | `data` becomes the defaults and the record becomes valid whether or not the inner write succeeds; the store is as after writing the defaults |
| OlonConfig.Config.Read | src/OlonConfig.h:107-153 | returns true exactly when the open succeeds and the stored blob decodes; then `data` is the stored record and the store is unchanged; on a failed open, a wrong length (absent key included) or a checksum mismatch it returns false, `data` is the defaults and the store is as after writing the defaults; on every path the record ends valid |
| OlonConfig.Config.Valid | src/OlonConfig.h:181-184 | returns the validity flag |
| OlonConfig.Config.DeleteConfig | src/OlonConfig.h:186-196 | when the read-write open succeeds the namespace is emptied, otherwise the store is unchanged; `data` and `validFlag` are untouched |
| OlonConfig.SaveThenLoad | src/OlonConfig.h:120-152 | saving through one `Config` and reading through any `Config` bound to the same namespace returns true, gives the saved record and leaves it valid |
| OlonConfig.DeleteThenLoad | src/OlonConfig.h:122-126 | after `deleteConfig` a `read` returns false, leaves the defaults, ends valid, and leaves the store as the fall-back write of the defaults makes it from the emptied namespace |
| OlonConfig.WriteDefaultsTwice | src/OlonConfig.h:202-208 | calling `writeDefaults` twice leaves `data` unchanged the second time, valid, and the store as after one call |

## Left out

- The logging helpers `logDebug`, `logInfo`, `logWarning`, `logError` and `logBulk` (src/OlonConfig.h:29-82). They format text to the serial port and do not affect control flow.
- The internals of the `Preferences` non-volatile storage. The model treats it as a map. Whether `begin` opens the namespace and whether `putBytes` stores are caller-supplied booleans, not computed.
- Opening and closing the `Preferences` handle (`begin`/`end`), including the `end` calls that `read` skips on its early failure paths. The model has no handles.
- The C++ object representation of `T` (`memcpy`, padding, the stack buffer whose length is only known at run time). The record is modelled directly as `sizeof(T)` bytes.
- Preferences.Nvs.GetBytes: copies only when the value fits and otherwise returns 0. Other failure modes of the real backend call are not modelled.
- A theorem that every single-bit error is detected. The code only compares checksums for inequality and does not claim it.
- `examples/example1/main.cpp`, a demonstration sketch that waits for serial input and edits two fields.
