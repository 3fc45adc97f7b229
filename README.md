# HIDRA gateway: LoRa secure link and web-server decisions

This project models two parts of the HIDRA gateway firmware (ESP32) and proves properties of them in Dafny.

**The LoRa secure link (`LoraManager`).** This is a class with two mutable fields: the device registry `devices` (an ordered sequence of `DeviceInfo` entries, each a 32-bit address and a free-text name) and the stored `encryptionKey`. Its methods follow the C++ member functions one by one:
- registry add, remove and lookup;
- key loading from the two hex fields of the encryption file;
- set and get of the key;
- encrypt and decrypt;
- sending and the three receive variants.

The pieces underneath are modelled as follows:
- **Cipher.** AES-128 in counter mode, with the AES block function left uninterpreted as a parameter. Counter mode follows NIST SP 800-38A, section 6.5. The counter block is incremented as one 128-bit big-endian integer, as in NIST SP 800-38A, Appendix B.1. Data are zero-padded to a multiple of 16 bytes first.
- **Framing.** A packet is a 4-byte little-endian address header followed by the ciphertext.
- **Receive policies.** The receiver role also requires the sender to be registered. The emitter role accepts any packet that decrypts.
- **Hex parsing.** The key and IV texts are C strings, so they are modelled as NUL-free byte sequences: their length is what `strlen` counts and `keyHex[i]` is byte i. Each byte pair goes through `strtol(…, 16)` and is then stored in a `uint8_t`. This is modelled for any two non-NUL bytes, not only for hex digits.

**The web-server decisions (`server_manager.cpp`).** These are modelled as pure functions:
- the five POST validators and the body check that guards them;
- the reply chosen after each upload step;
- the order in which the not-found handler tries file paths;
- the `.gz` stripping used to choose a content type.

The upload handler keeps its file name in a `static String` across calls. It is therefore the class `UploadHandler`, with a `filename` field and a method proved against the step function `Step`.

## Modules

- `Bytes` (bytes.dfy): the byte type and its numeric value.
- `Wrappers` (wrappers.dfy): `Option` and `Result`.
- `Ctr` (ctr.dfy): padding, the counter block and its big-endian value, the keystream, and counter-mode XOR.
- `KeyHex` (key_hex.dfy): `strtol` on a two-byte string, truncation to `uint8_t`, the parse loop's result, and its inverse `ToHex`.
- `Lora` (lora.dfy): the header codec, the registry lemmas, the encrypt/decrypt specification, framing, key loading, and the class `LoraManager`.
- `Server` (server.dfy): responses, the POST handlers, the upload state machine, and the static-file fallback.

## Consequences of the code as written

- **The IV is never used.**
  - `encrypt` returns false for every key that is not exactly 16 bytes long (lora_manager.cpp:112).
  - So the branch at lora_manager.cpp:119-121, which copies an IV from a 32-byte key, can never run, and the counter always starts at zero (`Lora.IvFor`).
  - Loading a key together with an IV text of `strlen` 32 appends 16 more bytes, so the stored key is 32 bytes long (lora_manager.cpp:93-98). After that, every encryption and decryption fails (`Lora.LoadedIvDisablesCipher`).
- **A rejected receive still fills the outputs.** `receiveAsReceiver` calls `receiveMessage` first, which overwrites `sender` and `data`. Only then does it reject an unregistered sender (lora_manager.cpp:45-50), so the caller sees the decoded values (`Lora.RejectionFillsOutputs`).
- **The key text is never checked for hex digits.**
  - Only `strlen(keyHex) != 32` is checked (lora_manager.cpp:85). Each pair is then read by `strtol`, so non-hex pairs load as 0 and `"-f"` loads as 241 (`KeyHex.NonHexPairIsZero`, `KeyHex.NegativePairWraps`).
  - An IV text whose `strlen` is 32 is appended the same way, whatever it contains (lora_manager.cpp:93).
  - The length is counted in bytes, so a text with multi-byte UTF-8 characters is accepted when its byte length is 32.
- **Sending cannot report a radio failure.** The result of `endPacket` is ignored (lora_manager.cpp:18-20), so `sendMessage` fails only when encryption fails.

## Model

| member | source | states |
|---|---|---|
| Ctr.PaddedLength | Gateway/hidra-gateway-firmware/src/includes/lora_manager.cpp:126 | the padded size is a multiple of 16 in [n, n + 16) |
| Ctr.PaddedLengthUnique | Gateway/hidra-gateway-firmware/src/includes/lora_manager.cpp:126 | that size is the only multiple of 16 in [n, n + 16) |
| Ctr.PaddedLengthMask | Gateway/hidra-gateway-firmware/src/includes/lora_manager.cpp:126 | while n + 15 does not wrap, the source's 32-bit `(n + 15) & ~15` is a multiple of 16 in [n, n + 16), the characterisation that PaddedLengthUnique shows singles out PaddedLength |
| Ctr.Pad | Gateway/hidra-gateway-firmware/src/includes/lora_manager.cpp:126 | the resized buffer has the padded length |
| Ctr.PadKeepsData | Gateway/hidra-gateway-firmware/src/includes/lora_manager.cpp:126 | resizing keeps the data as a prefix, fills the rest with zero bytes, and keeps an empty buffer empty |
| Ctr.PadAligned | Gateway/hidra-gateway-firmware/src/includes/lora_manager.cpp:126 | a buffer already a multiple of 16 long is not changed |
| Ctr.Increment | Gateway/hidra-gateway-firmware/src/includes/lora_manager.cpp:129 | incrementing the counter block keeps its length |
| Ctr.IncrementValue | Gateway/hidra-gateway-firmware/src/includes/lora_manager.cpp:129 | below the maximum, incrementing adds one to the big-endian value of the counter |
| Ctr.IncrementMax | Gateway/hidra-gateway-firmware/src/includes/lora_manager.cpp:129 | the all-0xFF counter wraps around to all zeros |
| Ctr.ValueBound | Gateway/hidra-gateway-firmware/src/includes/lora_manager.cpp:129 | a counter's value is below 256^length, and it is 256^length - 1 exactly when every byte is 0xFF |
| Ctr.ValueZeros | Gateway/hidra-gateway-firmware/src/includes/lora_manager.cpp:118 | the all-zero counter block has value 0 |
| Ctr.ValueInjective | Gateway/hidra-gateway-firmware/src/includes/lora_manager.cpp:129 | two counter blocks of equal length with the same value are equal |
| Ctr.IncrementTimesValue | Gateway/hidra-gateway-firmware/src/includes/lora_manager.cpp:129 | after k increments of the zero counter (k < 256^length), the counter's value is k |
| Ctr.ZeroCounterIsIndex | Gateway/hidra-gateway-firmware/src/includes/lora_manager.cpp:118-129 | starting at the zero IV, counter block k denotes the 128-bit number k |
| Ctr.ZeroIvKeystream | Gateway/hidra-gateway-firmware/src/includes/lora_manager.cpp:118-129 | keystream byte j is byte j % 16 of AES applied to the block that denotes j / 16 |
| Ctr.CounterBlock | Gateway/hidra-gateway-firmware/src/includes/lora_manager.cpp:129 | counter block k of a message is the starting block incremented k times, as mbedtls_aes_crypt_ctr advances it once per 16 bytes |
| Ctr.KeystreamByte | Gateway/hidra-gateway-firmware/src/includes/lora_manager.cpp:129 | keystream byte j is byte j % 16 of AES applied to counter block j / 16 |
| Ctr.Crypt | Gateway/hidra-gateway-firmware/src/includes/lora_manager.cpp:127-132 | the output buffer has the size of the padded input |
| Ctr.CryptInvolutive | Gateway/hidra-gateway-firmware/src/includes/lora_manager.cpp:136-137 | applying counter mode twice with the same key and starting counter gives the input back |
| Ctr.KeystreamReuse | Gateway/hidra-gateway-firmware/src/includes/lora_manager.cpp:118-129 | with the same key and starting counter, the XOR of two ciphertexts is the XOR of their plaintexts |
| KeyHex.StrtolPair | Gateway/hidra-gateway-firmware/src/includes/lora_manager.cpp:89-90 | strtol base 16 of a two-byte string: it skips leading white space, takes one sign, and stops at the first non-hex byte; the value lies in [-15, 255] |
| KeyHex.PairByte | Gateway/hidra-gateway-firmware/src/includes/lora_manager.cpp:89-90 | the byte pushed for one pair: strtol's value truncated to uint8_t |
| KeyHex.Truncate | Gateway/hidra-gateway-firmware/src/includes/lora_manager.cpp:90 | storing the long in a uint8_t keeps its value modulo 256 |
| KeyHex.ParseHex | Gateway/hidra-gateway-firmware/src/includes/lora_manager.cpp:88-91 | the loop yields one byte per byte pair of the text |
| KeyHex.ParseHexSnoc | Gateway/hidra-gateway-firmware/src/includes/lora_manager.cpp:88-91 | each iteration appends the byte of pair i to the bytes of the pairs before it |
| KeyHex.WellFormedPair | Gateway/hidra-gateway-firmware/src/includes/lora_manager.cpp:89-90 | two hex digits read as 16 * high + low |
| KeyHex.NonHexPairIsZero | Gateway/hidra-gateway-firmware/src/includes/lora_manager.cpp:89-90 | a pair with no hex digit reads as 0 |
| KeyHex.NegativePairWraps | Gateway/hidra-gateway-firmware/src/includes/lora_manager.cpp:89-90 | a pair "-d" reads as 256 - d |
| KeyHex.PairOfByte | Gateway/hidra-gateway-firmware/src/includes/lora_manager.cpp:89-90 | the two lower-case hex digits of a byte read back as that byte |
| KeyHex.ParseToHex | Gateway/hidra-gateway-firmware/src/includes/lora_manager.cpp:87-91 | hex text written from a byte string parses back to that byte string |
| Lora.AddressBytes | Gateway/hidra-gateway-firmware/src/includes/lora_manager.cpp:16 | the four header bytes of the destination, least significant first; HeaderRoundTrip and HeaderIsEncoding prove it inverse to LeValue |
| Lora.LeValue | Gateway/hidra-gateway-firmware/src/includes/lora_manager.cpp:27-30 | the address the receive loop accumulates from the header bytes |
| Lora.ShiftedIsShift | Gateway/hidra-gateway-firmware/src/includes/lora_manager.cpp:29 | the per-iteration shift is `byte << (8 * i)` on 32 bits |
| Lora.LeValueStep | Gateway/hidra-gateway-firmware/src/includes/lora_manager.cpp:27-30 | each iteration of the header loop ORs in the next byte |
| Lora.HeaderRoundTrip | Gateway/hidra-gateway-firmware/src/includes/lora_manager.cpp:16 | the header the receive loop reads back from the written header is the destination address |
| Lora.HeaderIsEncoding | Gateway/hidra-gateway-firmware/src/includes/lora_manager.cpp:27-30 | every 4-byte header is the little-endian encoding of the address it reads as |
| Lora.RemoveFirst | Gateway/hidra-gateway-firmware/src/includes/lora_manager.cpp:61-69 | erasing the first entry with the address removes one entry when the address is present, and none otherwise |
| Lora.RemoveFirstAt | Gateway/hidra-gateway-firmware/src/includes/lora_manager.cpp:62-66 | erasing the first match keeps the entries before and after it, in order |
| Lora.RemoveFirstAbsent | Gateway/hidra-gateway-firmware/src/includes/lora_manager.cpp:62-68 | removing an absent address leaves the registry unchanged |
| Lora.AddKeepsUnique | Gateway/hidra-gateway-firmware/src/includes/lora_manager.cpp:56-58 | appending a new address keeps addresses unique and adds exactly that address |
| Lora.RemoveKeepsOthers | Gateway/hidra-gateway-firmware/src/includes/lora_manager.cpp:61-69 | with unique addresses, removal keeps them unique and removes exactly the given address |
| Lora.EraseUnique | Gateway/hidra-gateway-firmware/src/includes/lora_manager.cpp:64 | erasing one entry keeps addresses unique |
| Lora.EraseHas | Gateway/hidra-gateway-firmware/src/includes/lora_manager.cpp:64 | after erasing entry i, an address is present exactly when it was present and is not entry i's address |
| Lora.IvFor | Gateway/hidra-gateway-firmware/src/includes/lora_manager.cpp:118-121 | the IV encrypt prepares; for every key encrypt accepts (16 bytes) it is the all-zero block, so the copying branch never takes effect |
| Lora.Transform | Gateway/hidra-gateway-firmware/src/includes/lora_manager.cpp:111-134 | encrypt succeeds exactly for a 16-byte key; the result is counter mode from the zero counter over the padded data, of the padded length |
| Lora.DecryptEncrypt | Gateway/hidra-gateway-firmware/src/includes/lora_manager.cpp:136-138 | decrypting a ciphertext gives the plaintext followed by its zero padding |
| Lora.SameKeystream | Gateway/hidra-gateway-firmware/src/includes/lora_manager.cpp:118-129 | any two messages under one key share the keystream: at every position both cover, their ciphertexts XOR to the plaintexts' XOR |
| Lora.CiphertextByte | Gateway/hidra-gateway-firmware/src/includes/lora_manager.cpp:118-129 | ciphertext byte j is the padded byte XOR AES of the counter block holding j / 16 |
| Lora.Frame | Gateway/hidra-gateway-firmware/src/includes/lora_manager.cpp:11-20 | a packet is produced exactly for a 16-byte key; it is the 4-byte destination header followed by the ciphertext, 4 + the padded length in all |
| Lora.Unframe | Gateway/hidra-gateway-firmware/src/includes/lora_manager.cpp:23-37 | a packet under 4 bytes leaves the out-parameters untouched; success exactly for a packet of at least 4 bytes under a 16-byte key; the sender is the little-endian header |
| Lora.UnframeAsReceiver | Gateway/hidra-gateway-firmware/src/includes/lora_manager.cpp:44-52 | a success is always from a registered sender and is a success of receiveMessage |
| Lora.UnframeCases | Gateway/hidra-gateway-firmware/src/includes/lora_manager.cpp:23-38 | a packet under 4 bytes fails with the out-parameters untouched; otherwise the sender is the little-endian header and the data is the decrypted payload, or the raw payload when decryption fails |
| Lora.SendReceiveRoundTrip | Gateway/hidra-gateway-firmware/src/includes/lora_manager.cpp:11-37 | a packet written by sendMessage is received from its destination, with the zero-padded payload |
| Lora.ReceiverNeedsRegistration | Gateway/hidra-gateway-firmware/src/includes/lora_manager.cpp:40-52 | on a sent packet the emitter always succeeds; the receiver succeeds exactly when the destination is registered; both give the same sender and payload |
| Lora.RejectionFillsOutputs | Gateway/hidra-gateway-firmware/src/includes/lora_manager.cpp:44-50 | a receiver rejection still sets the sender and data out-parameters to the decoded values |
| Lora.LoadedKey | Gateway/hidra-gateway-firmware/src/includes/lora_manager.cpp:78-101 | loading succeeds exactly when the file is read and the key text's strlen is 32; the key is its 16 parsed bytes, followed by the 16 parsed bytes of the IV when the IV text's strlen is 32 |
| Lora.LoadedIvDisablesCipher | Gateway/hidra-gateway-firmware/src/includes/lora_manager.cpp:93-98 | after a key is loaded with a valid IV, encrypt, sendMessage and receiveMessage all fail |
| Lora.LoadHexKey | Gateway/hidra-gateway-firmware/src/includes/lora_manager.cpp:85-91 | the 32-digit hex text of a 16-byte key, with no IV, loads as exactly that key |
| Lora.LoadHexKeyAndIv | Gateway/hidra-gateway-firmware/src/includes/lora_manager.cpp:85-98 | hex texts of a 16-byte key and a 16-byte IV load as the key followed by the IV |
| Lora.LoraManager.constructor | Gateway/hidra-gateway-firmware/include/lora_manager.h:41-42 | the manager starts with an empty registry and an empty key |
| Lora.LoraManager.SendMessage | Gateway/hidra-gateway-firmware/src/includes/lora_manager.cpp:11-21 | fails and writes nothing unless the key is 16 bytes; otherwise writes the little-endian destination and then the ciphertext |
| Lora.LoraManager.ReceiveMessage | Gateway/hidra-gateway-firmware/src/includes/lora_manager.cpp:23-38 | the result and the out-parameters are those of Unframe on the pending packet |
| Lora.LoraManager.ReceiveAsEmitter | Gateway/hidra-gateway-firmware/src/includes/lora_manager.cpp:40-42 | identical to receiveMessage; the registry is not consulted |
| Lora.LoraManager.ReceiveAsReceiver | Gateway/hidra-gateway-firmware/src/includes/lora_manager.cpp:44-53 | succeeds exactly when receiveMessage succeeds and the sender is registered; the out-parameters are filled either way |
| Lora.LoraManager.AddDevice | Gateway/hidra-gateway-firmware/src/includes/lora_manager.cpp:55-59 | refuses a known address and changes nothing; otherwise appends the device; addresses stay unique |
| Lora.LoraManager.RemoveDevice | Gateway/hidra-gateway-firmware/src/includes/lora_manager.cpp:61-69 | returns whether the address was present, erases its entry keeping the rest in order, and leaves the other addresses present |
| Lora.LoraManager.DeviceExists | Gateway/hidra-gateway-firmware/src/includes/lora_manager.cpp:71-76 | true exactly when some entry has the address; nothing is modified |
| Lora.LoraManager.LoadEncryptionKey | Gateway/hidra-gateway-firmware/src/includes/lora_manager.cpp:78-101 | returns whether LoadedKey succeeds; the key becomes LoadedKey's bytes, and is unchanged on failure |
| Lora.LoraManager.SetEncryptionKey | Gateway/hidra-gateway-firmware/src/includes/lora_manager.cpp:103-105 | stores the bytes as given |
| Lora.LoraManager.GetEncryptionKey | Gateway/hidra-gateway-firmware/src/includes/lora_manager.cpp:107-109 | returns exactly the stored bytes; nothing is modified |
| Lora.LoraManager.Encrypt | Gateway/hidra-gateway-firmware/src/includes/lora_manager.cpp:111-134 | fails with the data unchanged unless the key is 16 bytes; otherwise the data becomes counter mode from the zero IV over the padded data; the key is not modified |
| Lora.LoraManager.Decrypt | Gateway/hidra-gateway-firmware/src/includes/lora_manager.cpp:136-138 | the same transformation as encrypt |
| Server.Utf8Length | Gateway/hidra-gateway-firmware/src/includes/server_manager.cpp:411 | String::length counts the UTF-8 bytes, between one and four per character |
| Server.AsciiLength | Gateway/hidra-gateway-firmware/src/includes/server_manager.cpp:411 | an ASCII string has one byte per character |
| Server.AccessPointLengths | Gateway/hidra-gateway-firmware/src/includes/server_manager.cpp:411-415 | for ASCII text the access-point checks are 3 to 16 and 8 to 16 characters; an ssid or password over 16 characters is always refused |
| Server.HandlePostPayload | Gateway/hidra-gateway-firmware/src/includes/server_manager.cpp:129-142 | a handler goes on exactly when the body is present and parses; otherwise it replies 400 "Conteúdo ausente." or "Falha ao analisar JSON: " plus the parser's error |
| Server.Toggle | Gateway/hidra-gateway-firmware/src/includes/server_manager.cpp:326-341 | status 1 performs the on action, 0 the off action, both echoing the status; any other status sends "Status inválido." and does nothing |
| Server.PostWifiToggle | Gateway/hidra-gateway-firmware/src/includes/server_manager.cpp:326-341 | auto-connects exactly on status 1, disconnects exactly on status 0, otherwise does nothing; replies 200 exactly when it acts |
| Server.PostWebserverToggle | Gateway/hidra-gateway-firmware/src/includes/server_manager.cpp:345-360 | starts the access point exactly on status 1, stops it exactly on status 0, otherwise does nothing; replies 200 exactly when it acts |
| Server.PostWifiAdd | Gateway/hidra-gateway-firmware/src/includes/server_manager.cpp:364-379 | saves the network exactly when the ssid is non-empty, echoing it; an empty ssid sends "SSID ausente." |
| Server.PostConfigTime | Gateway/hidra-gateway-firmware/src/includes/server_manager.cpp:383-397 | sets the clock exactly when date and time are both non-empty, echoing them; otherwise sends "Data ou hora ausente." |
| Server.PostWebserverConfig | Gateway/hidra-gateway-firmware/src/includes/server_manager.cpp:401-422 | configures and restarts the access point exactly when the ssid is 3 to 16 bytes and the password 8 to 16 bytes, echoing both |
| Server.FirstFailure | Gateway/hidra-gateway-firmware/src/includes/server_manager.cpp:407-418 | reports no failure exactly when every check passes |
| Server.WebserverConfigFirstFailure | Gateway/hidra-gateway-firmware/src/includes/server_manager.cpp:405-421 | the handler sends the error of the first failing check, in the order ssid present, ssid length, password length, and acts only when none fails |
| Server.ShortSsidReportedBeforePassword | Gateway/hidra-gateway-firmware/src/includes/server_manager.cpp:411-415 | a non-empty ssid under 3 bytes is reported for its length, whatever the password |
| Server.RouteOf | Gateway/hidra-gateway-firmware/src/includes/server_manager.cpp:69-73 | exactly the five paths registered with a JSON POST handler have one; "/upload" (line 75) is the upload handler's |
| Server.HandlePost | Gateway/hidra-gateway-firmware/src/includes/server_manager.cpp:69-73 | each JSON POST route runs its handler |
| Server.NoActionWithoutPayload | Gateway/hidra-gateway-firmware/src/includes/server_manager.cpp:129-142 | no POST handler acts on a missing or unparsable body; each sends the payload error with code 400 |
| Server.ActsIffSucceeds | Gateway/hidra-gateway-firmware/src/includes/server_manager.cpp:326-422 | every POST handler either acts and replies 200, or does nothing and replies 400 |
| Server.Step | Gateway/hidra-gateway-firmware/src/includes/server_manager.cpp:144-171 | START remembers "/" + name, creates it, and returns "START" or ""; WRITE writes to the remembered file and returns "IN_PROGRESS" or ""; END returns the remembered name; other statuses return "IN_PROGRESS"; only START changes the name |
| Server.UploadHandler.constructor | Gateway/hidra-gateway-firmware/src/includes/server_manager.cpp:145 | the static file name starts out empty |
| Server.UploadHandler.HandleFileUpload | Gateway/hidra-gateway-firmware/src/includes/server_manager.cpp:144-171 | the result, the file-system call and the new remembered name are those of Step on the old name |
| Server.UploadReply | Gateway/hidra-gateway-firmware/src/includes/server_manager.cpp:76-81 | "" sends 500 "Erro ao salvar arquivo."; "START" and "IN_PROGRESS" send nothing; any other result sends 200 "Arquivo recebido: " plus the result |
| Server.FileNamePersists | Gateway/hidra-gateway-firmware/src/includes/server_manager.cpp:145-168 | without a new START, the remembered file name survives any sequence of steps |
| Server.EndAfterStartAnswers | Gateway/hidra-gateway-firmware/src/includes/server_manager.cpp:76-81 | END after START and any steps without START replies 200 with "/" + name, since a name beginning with "/" is never a reserved result |
| Server.EndWithoutStartFails | Gateway/hidra-gateway-firmware/src/includes/server_manager.cpp:165-167 | an END before any START returns the empty name and replies 500 |
| Server.FailedStartKeepsName | Gateway/hidra-gateway-firmware/src/includes/server_manager.cpp:148-159 | a failed file creation replies 500 but still replaces the remembered name, so later chunks are written to it |
| Server.TypeSource | Gateway/hidra-gateway-firmware/src/includes/server_manager.cpp:115-116 | the content type comes from the path with one trailing ".gz" removed, or from the path itself |
| Server.TypeSourceOfGzip | Gateway/hidra-gateway-firmware/src/includes/server_manager.cpp:115-116 | for p + ".gz", the content type comes from p |
| Server.HandleFileRead | Gateway/hidra-gateway-firmware/src/includes/server_manager.cpp:111-127 | serves the file exactly when it opens, with the stripped path as type source; otherwise it returns false and sends nothing |
| Server.NotFoundHandler | Gateway/hidra-gateway-firmware/src/includes/server_manager.cpp:95-109 | the fallback for unrouted requests: the gzip variant unless .ico or .png, then the path itself, then 404 |
| Server.NotFoundServesFirstCandidate | Gateway/hidra-gateway-firmware/src/includes/server_manager.cpp:95-109 | streams the first openable candidate in the order path + ".gz", then path, and replies 404 "Arquivo não encontrado." exactly when none opens |
| Server.GzipServedAsOriginalType | Gateway/hidra-gateway-firmware/src/includes/server_manager.cpp:99-116 | when the compressed variant exists, it is streamed with the type of the uncompressed name |
| Server.ImagesSkipGzip | Gateway/hidra-gateway-firmware/src/includes/server_manager.cpp:99-104 | a path ending in .ico or .png is served exactly when the path itself opens |

## Left out

- The LoRa radio (`begin`, `setPins`, `beginPacket`/`write`/`endPacket`, `parsePacket`/`read`/`available`): a sent packet is the byte sequence the methods return, and a received packet is a byte-sequence parameter. Because the result of `endPacket` is ignored, transport failure is not observable and is not modelled.
- The internals of mbedtls AES: the block function is an uninterpreted parameter `aes` fixed when the manager is built. `mbedtls_aes_crypt_ctr` is stated as its functional specification, counter-mode XOR; its internal loop is not written out.
- Reading the encryption file and extracting its JSON fields (`fm.getEncryptionFile(...)` and the two `doc[...]` lookups): a `KeyFile` carries the two fields as optional NUL-free byte strings (the bytes of each `const char*`), and `None` stands for a file that could not be read.
- `saveEncryptionKey`: declared in lora_manager.h with no definition in the firmware sources, so it has nothing to model.
- `serial.log` calls everywhere: logging only.
- Ctr.ZeroCounterIsIndex: proved only for block numbers below 2^128. Beyond that the counter wraps (Ctr.IncrementMax), and a message would then be longer than any buffer the device can hold.
- Ctr.PaddedLengthMask: the padded size of `(n + 15) & ~15` on a 32-bit size_t is characterised only while n + 15 does not wrap. Elsewhere the model uses unbounded lengths.
- Lora.AddressBytes: the header is written from the host representation of the address. That is taken to be little-endian, as on the ESP32.
- Lora.LoraManager.Encrypt: the in-place resize of `data` is modelled as returning the new contents. There is no aliasing between the buffer and the manager.
- ArduinoJson conversions: `as<int>()`, the implicit int conversion and `as<String>()` are foreign. `Doc` holds the converted values, so a missing `status` appears as the 0 that ArduinoJson yields. The toggles then treat it as "off".
- Route registration, `webserver.send` and file streaming, and the completion reply of `/upload` (a fixed success message): a handler returns its `Response` and the file it streams, and does not send them.
- The effects on the WiFi manager, the clock and the network store: each appears only as an `Action` value that a handler records.
- The GET handlers (`getConfig`, `getWifiStatus`, `getWifiNetworks`, `getWebserverConfig`, `getModules`), `getUploadPage` and the `/` and `/sendfiles` routes: they assemble JSON or HTML from foreign getters and literals, with no decision logic.
- The file system: `openable` is the set of paths that open, and `fsOk` is the outcome of the file-system call an upload step makes. `utils.getContentType` is foreign, so a served file records the path its type is computed from.
