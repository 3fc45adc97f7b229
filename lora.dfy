/**
 * The LoRa secure link of the gateway firmware: a registry of authorised
 * devices, the AES key, the AES-128-CTR cipher with zero padding, and the
 * packet framing (4-byte little-endian address header followed by the
 * ciphertext) with its two receive policies.
 *
 * The radio is not modelled: sending returns the bytes handed to the radio,
 * receiving takes the bytes of the pending packet (empty when none).
 */
module Lora {
  import opened Wrappers
  import opened Bytes
  import opened Ctr
  import opened KeyHex

  /** A 32-bit unsigned device address (uint32_t). */
  type Address = bv32

  /** A registered device: its address and a free-text name (not required to be unique). */
  datatype DeviceInfo = DeviceInfo(address: Address, name: string)

  // ---------------------------------------------------------------------
  // Packet header

  /** The four bytes of an address as the ESP32 (little-endian) stores it in memory. */
  function AddressBytes(a: Address): (h: seq<Byte>)
    ensures |h| == 4
  {
    [(a & 0xFF) as Byte, ((a >> 8) & 0xFF) as Byte, ((a >> 16) & 0xFF) as Byte, (a >> 24) as Byte]
  }

  /** One step of the receive loop: `sender |= byte << (8 * i)`. */
  function Accumulate(sender: Address, b: Byte, i: nat): Address
    requires i < 4
  {
    sender | Shifted(b, i)
  }

  /** `byte << (8 * i)` as a 32-bit value, written per shift amount. */
  function Shifted(b: Byte, i: nat): Address
    requires i < 4
  {
    if i == 0 then b as Address
    else if i == 1 then (b as Address) << 8
    else if i == 2 then (b as Address) << 16
    else (b as Address) << 24
  }

  lemma ShiftedIsShift(b: Byte, i: nat)
    requires i < 4
    ensures Shifted(b, i) == (b as Address) << (8 * i)
  {
    if i == 0 {
    } else if i == 1 {
    } else if i == 2 {
    } else {
    }
  }

  /** The value accumulated from 0 over the given header bytes. */
  function LeValue(b: seq<Byte>): Address
    requires |b| <= 4
  {
    if b == [] then 0 else Accumulate(LeValue(b[..|b| - 1]), b[|b| - 1], |b| - 1)
  }

  lemma LeValueStep(b: seq<Byte>, i: nat)
    requires i < |b| && i < 4
    ensures LeValue(b[..i + 1]) == Accumulate(LeValue(b[..i]), b[i], i)
  {
    assert b[..i + 1][..i] == b[..i];
  }

  lemma LeValueOfFour(h: seq<Byte>)
    requires |h| == 4
    ensures LeValue(h) == Word(h[0], h[1], h[2], h[3])
  {
    assert h[..0] == [];
    LeValueStep(h, 0);
    LeValueStep(h, 1);
    LeValueStep(h, 2);
    LeValueStep(h, 3);
    assert h[..4] == h;
  }

  /** The word whose little-endian bytes are b0 .. b3. */
  function Word(b0: Byte, b1: Byte, b2: Byte, b3: Byte): Address
  {
    Accumulate(Accumulate(Accumulate(Accumulate(0, b0, 0), b1, 1), b2, 2), b3, 3)
  }

  lemma WordOfBytes(a: Address)
    ensures Word((a & 0xFF) as Byte, ((a >> 8) & 0xFF) as Byte, ((a >> 16) & 0xFF) as Byte, (a >> 24) as Byte) == a
  {
    assert Shifted((a & 0xFF) as Byte, 0) == a & 0xFF;
    assert Shifted(((a >> 8) & 0xFF) as Byte, 1) == a & 0xFF00;
    assert Shifted(((a >> 16) & 0xFF) as Byte, 2) == a & 0xFF0000;
    assert Shifted((a >> 24) as Byte, 3) == a & 0xFF00_0000;
  }

  lemma BytesOfWord(b0: Byte, b1: Byte, b2: Byte, b3: Byte)
    ensures AddressBytes(Word(b0, b1, b2, b3)) == [b0, b1, b2, b3]
  {
    WordIsOr(b0, b1, b2, b3);
    ExtractBytes(b0, b1, b2, b3);
  }

  lemma WordIsOr(b0: Byte, b1: Byte, b2: Byte, b3: Byte)
    ensures Word(b0, b1, b2, b3) == Shifted(b0, 0) | Shifted(b1, 1) | Shifted(b2, 2) | Shifted(b3, 3)
  {
  }

  lemma ExtractBytes(b0: Byte, b1: Byte, b2: Byte, b3: Byte)
    ensures var a := Shifted(b0, 0) | Shifted(b1, 1) | Shifted(b2, 2) | Shifted(b3, 3);
      && (a & 0xFF) as Byte == b0 && ((a >> 8) & 0xFF) as Byte == b1
      && ((a >> 16) & 0xFF) as Byte == b2 && (a >> 24) as Byte == b3
  {
  }

  /** Reading back the header written for an address gives that address. */
  lemma HeaderRoundTrip(a: Address)
    ensures LeValue(AddressBytes(a)) == a
  {
    LeValueOfFour(AddressBytes(a));
    WordOfBytes(a);
  }

  /** Every 4-byte header is the encoding of the address it reads as. */
  lemma HeaderIsEncoding(h: seq<Byte>)
    requires |h| == 4
    ensures AddressBytes(LeValue(h)) == h
  {
    LeValueOfFour(h);
    BytesOfWord(h[0], h[1], h[2], h[3]);
    assert h == [h[0], h[1], h[2], h[3]];
  }

  // ---------------------------------------------------------------------
  // Device registry

  predicate HasAddress(devices: seq<DeviceInfo>, address: Address)
  {
    exists i :: 0 <= i < |devices| && devices[i].address == address
  }

  /** No address occurs twice; the only guard for this is AddDevice's check. */
  predicate UniqueAddresses(devices: seq<DeviceInfo>)
  {
    forall i, j :: 0 <= i < j < |devices| ==> devices[i].address != devices[j].address
  }

  /** The registry after erasing the first entry with the address, if any. */
  function RemoveFirst(devices: seq<DeviceInfo>, address: Address): (r: seq<DeviceInfo>)
    ensures |r| == if HasAddress(devices, address) then |devices| - 1 else |devices|
  {
    if devices == [] then []
    else if devices[0].address == address then devices[1..]
    else [devices[0]] + RemoveFirst(devices[1..], address)
  }

  /** Erasing the first match at index i keeps the entries before and after it, in order. */
  lemma {:induction false} RemoveFirstAt(devices: seq<DeviceInfo>, address: Address, i: nat)
    requires i < |devices| && devices[i].address == address
    requires forall k :: 0 <= k < i ==> devices[k].address != address
    ensures RemoveFirst(devices, address) == devices[..i] + devices[i + 1..]
  {
    if i > 0 {
      RemoveFirstAt(devices[1..], address, i - 1);
      assert devices[1..][..i - 1] == devices[1..i];
      assert devices[1..][i..] == devices[i + 1..];
      assert devices[..i] == [devices[0]] + devices[1..i];
    }
  }

  /** Erasing an address that is absent changes nothing. */
  lemma {:induction false} RemoveFirstAbsent(devices: seq<DeviceInfo>, address: Address)
    requires !HasAddress(devices, address)
    ensures RemoveFirst(devices, address) == devices
  {
    if devices != [] {
      assert devices[0].address != address;
      assert !HasAddress(devices[1..], address) by {
        forall k | 0 <= k < |devices| - 1 ensures devices[1..][k].address != address {
          assert devices[1..][k] == devices[k + 1];
        }
      }
      RemoveFirstAbsent(devices[1..], address);
      assert [devices[0]] + devices[1..] == devices;
    }
  }

  /** Appending a new address keeps addresses unique and adds exactly that address. */
  lemma AddKeepsUnique(devices: seq<DeviceInfo>, d: DeviceInfo)
    requires UniqueAddresses(devices) && !HasAddress(devices, d.address)
    ensures UniqueAddresses(devices + [d])
    ensures forall b :: HasAddress(devices + [d], b) <==> HasAddress(devices, b) || b == d.address
  {
    var s := devices + [d];
    forall b ensures HasAddress(s, b) <==> HasAddress(devices, b) || b == d.address {
      if HasAddress(devices, b) {
        var i :| 0 <= i < |devices| && devices[i].address == b;
        assert s[i] == devices[i];
      }
      if HasAddress(s, b) && b != d.address {
        var i :| 0 <= i < |s| && s[i].address == b;
        assert i < |devices| && s[i] == devices[i];
      }
      assert s[|devices|] == d;
    }
  }

  /**
   * With unique addresses, erasing an address keeps addresses unique and
   * removes that address and no other.
   */
  lemma RemoveKeepsOthers(devices: seq<DeviceInfo>, address: Address)
    requires UniqueAddresses(devices)
    ensures UniqueAddresses(RemoveFirst(devices, address))
    ensures forall b :: HasAddress(RemoveFirst(devices, address), b) <==> HasAddress(devices, b) && b != address
  {
    if !HasAddress(devices, address) {
      RemoveFirstAbsent(devices, address);
    } else {
      var i :| 0 <= i < |devices| && devices[i].address == address;
      assert forall k :: 0 <= k < i ==> devices[k].address != address;
      RemoveFirstAt(devices, address, i);
      EraseUnique(devices, i);
      forall b ensures HasAddress(devices[..i] + devices[i + 1..], b) <==> HasAddress(devices, b) && b != address {
        EraseHas(devices, i, b);
      }
    }
  }

  /** The entries left after erasing index i, with their positions in the original. */
  lemma EraseAt(s: seq<DeviceInfo>, i: nat)
    requires i < |s|
    ensures |s[..i] + s[i + 1..]| == |s| - 1
    ensures forall k :: 0 <= k < i ==> (s[..i] + s[i + 1..])[k] == s[k]
    ensures forall k :: i < k < |s| ==> (s[..i] + s[i + 1..])[k - 1] == s[k]
  {
  }

  lemma EraseUnique(s: seq<DeviceInfo>, i: nat)
    requires i < |s| && UniqueAddresses(s)
    ensures UniqueAddresses(s[..i] + s[i + 1..])
  {
    EraseAt(s, i);
  }

  lemma EraseHas(s: seq<DeviceInfo>, i: nat, b: Address)
    requires i < |s| && UniqueAddresses(s)
    ensures HasAddress(s[..i] + s[i + 1..], b) <==> HasAddress(s, b) && b != s[i].address
  {
    EraseAt(s, i);
    var r := s[..i] + s[i + 1..];
    if HasAddress(r, b) {
      var k :| 0 <= k < |r| && r[k].address == b;
      var k' := if k < i then k else k + 1;
      assert s[k'].address == b && k' != i;
    }
    if HasAddress(s, b) && b != s[i].address {
      var k :| 0 <= k < |s| && s[k].address == b;
      var k' := if k < i then k else k - 1;
      assert r[k'] == s[k];
    }
  }

  // ---------------------------------------------------------------------
  // Cipher

  /**
   * The IV that encrypt prepares: the bytes after the first 16 when the key
   * is 32 bytes long, zero otherwise. For the only keys encrypt accepts,
   * 16 bytes long, it is always zero.
   */
  function IvFor(key: seq<Byte>): (iv: Block)
    ensures |key| == 16 ==> iv == ZERO_BLOCK
  {
    if |key| == 32 then key[16..] else ZERO_BLOCK
  }

  /**
   * encrypt (and decrypt, which is the same call): fails unless the key is
   * exactly 16 bytes; otherwise pads with zeros to a multiple of 16 and
   * applies AES-128-CTR from counter block IvFor(key), which for a 16-byte
   * key is always the all-zero block.
   */
  function Transform(aes: BlockCipher, key: seq<Byte>, data: seq<Byte>): (r: Option<seq<Byte>>)
    ensures r.Some? <==> |key| == 16
    ensures r.Some? ==> r.value == Crypt(aes, key, ZERO_BLOCK, Pad(data))
    ensures r.Some? ==> |r.value| == PaddedLength(|data|)
  {
    if |key| != 16 then None else Some(Crypt(aes, key, IvFor(key), Pad(data)))
  }

  /** Decrypting a ciphertext gives back the plaintext followed by its zero padding. */
  lemma DecryptEncrypt(aes: BlockCipher, key: seq<Byte>, data: seq<Byte>)
    requires |key| == 16
    ensures Transform(aes, key, Transform(aes, key, data).value) == Some(Pad(data))
  {
    var c := Transform(aes, key, data).value;
    PadAligned(c);
    CryptInvolutive(aes, key, ZERO_BLOCK, Pad(data));
  }

  /**
   * Every message under one key is encrypted with the same keystream: at
   * each position both messages cover, the XOR of the ciphertexts is the XOR
   * of the plaintexts.
   */
  lemma SameKeystream(aes: BlockCipher, key: seq<Byte>, p: seq<Byte>, q: seq<Byte>, j: nat)
    requires |key| == 16 && j < |p| && j < |q|
    ensures Transform(aes, key, p).value[j] ^ Transform(aes, key, q).value[j] == p[j] ^ q[j]
  {
    PadKeepsData(p);
    PadKeepsData(q);
    assert Pad(p)[j] == p[j] && Pad(q)[j] == q[j];
    KeystreamReuse(aes, key, ZERO_BLOCK, Pad(p), Pad(q), j);
  }

  /**
   * Byte j of a ciphertext is the padded plaintext byte XOR byte j % 16 of
   * AES applied to the counter block that holds the number j / 16.
   */
  lemma CiphertextByte(aes: BlockCipher, key: seq<Byte>, data: seq<Byte>, j: nat, q: nat, block: Block)
    requires |key| == 16 && j < PaddedLength(|data|)
    requires q == j / 16 && q < Pow256(16) && Value(block) == q
    ensures Transform(aes, key, data).value[j] == Pad(data)[j] ^ aes(key, block)[j % 16]
  {
    ZeroIvKeystream(aes, key, j, q, block);
  }

  // ---------------------------------------------------------------------
  // Framing

  /** The bytes sendMessage hands to the radio: None when encryption fails. */
  function Frame(aes: BlockCipher, key: seq<Byte>, destination: Address, data: seq<Byte>): (r: Option<seq<Byte>>)
    ensures r.Some? <==> |key| == 16
    ensures r.Some? ==> |r.value| == 4 + PaddedLength(|data|)
    ensures r.Some? ==> r.value[..4] == AddressBytes(destination) && r.value[4..] == Transform(aes, key, data).value
  {
    match Transform(aes, key, data)
    case None => None
    case Some(c) => Some(AddressBytes(destination) + c)
  }

  /** The result and the (sender, data) out-parameters of a receive call. */
  datatype Reception = Reception(ok: bool, sender: Address, data: seq<Byte>)

  /**
   * receiveMessage on a pending packet, given the values the out-parameters
   * held before the call.
   */
  function Unframe(aes: BlockCipher, key: seq<Byte>, packet: seq<Byte>, sender: Address, data: seq<Byte>): (r: Reception)
    ensures |packet| < 4 ==> r == Reception(false, sender, data)
    ensures r.ok <==> |packet| >= 4 && |key| == 16
    ensures |packet| >= 4 ==> r.sender == LeValue(packet[..4])
  {
    if |packet| < 4 then Reception(false, sender, data)
    else
      var t := Transform(aes, key, packet[4..]);
      Reception(t.Some?, LeValue(packet[..4]), if t.Some? then t.value else packet[4..])
  }

  /**
   * A packet shorter than 4 bytes fails and leaves the out-parameters
   * untouched; otherwise the sender is the little-endian header, and the
   * data is the decrypted payload, or the raw payload when the key is not
   * 16 bytes and the call fails.
   */
  lemma UnframeCases(aes: BlockCipher, key: seq<Byte>, packet: seq<Byte>, sender: Address, data: seq<Byte>)
    ensures var r := Unframe(aes, key, packet, sender, data);
      && (|packet| < 4 ==> r == Reception(false, sender, data))
      && (|packet| >= 4 ==> r.ok == (|key| == 16) && r.sender == LeValue(packet[..4]))
      && (|packet| >= 4 && r.ok ==> r.data == Crypt(aes, key, ZERO_BLOCK, Pad(packet[4..])))
      && (|packet| >= 4 && !r.ok ==> r.data == packet[4..])
  {
  }

  /** receiveAsReceiver: receiveMessage, then the sender must be registered. */
  function UnframeAsReceiver(aes: BlockCipher, key: seq<Byte>, devices: seq<DeviceInfo>,
                             packet: seq<Byte>, sender: Address, data: seq<Byte>): (r: Reception)
    ensures r.ok ==> HasAddress(devices, r.sender)
    ensures r.ok ==> Unframe(aes, key, packet, sender, data).ok
  {
    var u := Unframe(aes, key, packet, sender, data);
    Reception(u.ok && HasAddress(devices, u.sender), u.sender, u.data)
  }

  /** A packet written by sendMessage is received from the destination, with the padded payload. */
  lemma SendReceiveRoundTrip(aes: BlockCipher, key: seq<Byte>, destination: Address, data: seq<Byte>,
                             sender: Address, out: seq<Byte>)
    requires Frame(aes, key, destination, data).Some?
    ensures Unframe(aes, key, Frame(aes, key, destination, data).value, sender, out)
         == Reception(true, destination, Pad(data))
  {
    var c := Transform(aes, key, data).value;
    var p := AddressBytes(destination) + c;
    assert p[..4] == AddressBytes(destination) && p[4..] == c;
    HeaderRoundTrip(destination);
    DecryptEncrypt(aes, key, data);
  }

  /**
   * Role asymmetry on a sent packet: the emitter accepts it from any
   * address, the receiver exactly when the destination is registered, and
   * both fill the out-parameters with the same sender and payload.
   */
  lemma ReceiverNeedsRegistration(aes: BlockCipher, key: seq<Byte>, devices: seq<DeviceInfo>,
                                  destination: Address, data: seq<Byte>, sender: Address, out: seq<Byte>)
    requires Frame(aes, key, destination, data).Some?
    ensures var p := Frame(aes, key, destination, data).value;
      && Unframe(aes, key, p, sender, out).ok
      && UnframeAsReceiver(aes, key, devices, p, sender, out)
         == Reception(HasAddress(devices, destination), destination, Pad(data))
  {
    SendReceiveRoundTrip(aes, key, destination, data, sender, out);
  }

  /** A receiver rejection still overwrites the out-parameters with the decoded values. */
  lemma RejectionFillsOutputs(aes: BlockCipher, key: seq<Byte>, devices: seq<DeviceInfo>,
                              packet: seq<Byte>, sender: Address, data: seq<Byte>)
    requires |packet| >= 4 && |key| == 16
    requires !HasAddress(devices, LeValue(packet[..4]))
    ensures var r := UnframeAsReceiver(aes, key, devices, packet, sender, data);
      && !r.ok && r.sender == LeValue(packet[..4]) && r.data == Transform(aes, key, packet[4..]).value
  {
  }

  // ---------------------------------------------------------------------
  // Key loading

  /** The fields of the encryption file: "aes_key" and "iv", absent when missing or not strings. */
  datatype KeyFile = KeyFile(aesKey: Option<CString>, iv: Option<CString>)

  predicate ValidHexField(f: Option<CString>)
  {
    f.Some? && |f.value| == 32
  }

  /**
   * The key loadEncryptionKey stores, or None when it returns false: the
   * file could not be read, or the key text is missing or its strlen is not
   * 32. An IV text of strlen 32 appends 16 more bytes; any other IV is
   * ignored.
   */
  function LoadedKey(file: Option<KeyFile>): (r: Option<seq<Byte>>)
    ensures r.Some? <==> file.Some? && ValidHexField(file.value.aesKey)
    ensures r.Some? ==> |r.value| == if ValidHexField(file.value.iv) then 32 else 16
    ensures r.Some? ==> r.value[..16] == ParseHex(file.value.aesKey.value)
    ensures r.Some? && ValidHexField(file.value.iv) ==> r.value[16..] == ParseHex(file.value.iv.value)
  {
    if file.None? || !ValidHexField(file.value.aesKey) then None
    else
      var key := ParseHex(file.value.aesKey.value);
      Some(if ValidHexField(file.value.iv) then key + ParseHex(file.value.iv.value) else key)
  }

  /**
   * Loading a valid IV makes the stored key 32 bytes long, so the cipher
   * refuses every later encryption and decryption: the IV is never used.
   */
  lemma LoadedIvDisablesCipher(aes: BlockCipher, file: Option<KeyFile>, destination: Address,
                               data: seq<Byte>, packet: seq<Byte>, sender: Address)
    requires LoadedKey(file).Some? && ValidHexField(file.value.iv)
    ensures Transform(aes, LoadedKey(file).value, data).None?
    ensures Frame(aes, LoadedKey(file).value, destination, data).None?
    ensures !Unframe(aes, LoadedKey(file).value, packet, sender, data).ok
  {
  }

  /** A key written as 32 lower-case hex digits with no IV loads as exactly that key. */
  lemma LoadHexKey(key: seq<Byte>)
    requires |key| == 16
    ensures 0 !in ToHex(key)
    ensures LoadedKey(Some(KeyFile(Some(ToHex(key)), None))) == Some(key)
  {
    var s := ToHex(key);
    ParseToHex(key);
    ParseHexWhole(s, 16);
  }

  /** A key and an IV written as hex digits load as the key followed by the IV. */
  lemma LoadHexKeyAndIv(key: seq<Byte>, iv: seq<Byte>)
    requires |key| == 16 && |iv| == 16
    ensures 0 !in ToHex(key) && 0 !in ToHex(iv)
    ensures LoadedKey(Some(KeyFile(Some(ToHex(key)), Some(ToHex(iv))))) == Some(key + iv)
  {
    ParseToHex(key);
    ParseToHex(iv);
    ParseHexWhole(ToHex(key), 16);
  }

  // ---------------------------------------------------------------------
  // The manager

  class LoraManager {
    /** The AES-128 block function of the crypto library. */
    const aes: BlockCipher
    var devices: seq<DeviceInfo>
    var encryptionKey: seq<Byte>

    ghost predicate Valid()
      reads this
    {
      UniqueAddresses(devices)
    }

    constructor (aes: BlockCipher)
      ensures Valid()
      ensures this.aes == aes && devices == [] && encryptionKey == []
    {
      this.aes := aes;
      devices := [];
      encryptionKey := [];
    }

    /** sendMessage: encrypts a copy of data and writes header and ciphertext. */
    method SendMessage(destination: Address, data: seq<Byte>) returns (ok: bool, written: seq<Byte>)
      ensures ok <==> |encryptionKey| == 16
      ensures Frame(aes, encryptionKey, destination, data) == if ok then Some(written) else None
      ensures !ok ==> written == []
      ensures ok ==> written[..4] == AddressBytes(destination) && |written| == 4 + PaddedLength(|data|)
    {
      var buffer := data;
      var encrypted;
      encrypted, buffer := Encrypt(buffer);
      if !encrypted {
        return false, [];
      }
      written := AddressBytes(destination) + buffer;
      assert written[..4] == AddressBytes(destination);
      ok := true;
    }

    /** receiveMessage on the pending packet. */
    method ReceiveMessage(packet: seq<Byte>, sender: Address, data: seq<Byte>)
      returns (ok: bool, sender': Address, data': seq<Byte>)
      ensures Reception(ok, sender', data') == Unframe(aes, encryptionKey, packet, sender, data)
    {
      if |packet| < 4 {
        return false, sender, data;
      }
      sender' := 0;
      for i := 0 to 4
        invariant sender' == LeValue(packet[..i])
      {
        LeValueStep(packet, i);
        sender' := Accumulate(sender', packet[i], i);
      }
      var payload := [];
      var pos := 4;
      while pos < |packet|
        invariant 4 <= pos <= |packet|
        invariant payload == packet[4..pos]
      {
        payload := payload + [packet[pos]];
        pos := pos + 1;
      }
      assert payload == packet[4..];
      ok, data' := Decrypt(payload);
    }

    /** receiveAsEmitter: any packet that decrypts is accepted; the registry is not consulted. */
    method ReceiveAsEmitter(packet: seq<Byte>, sender: Address, data: seq<Byte>)
      returns (ok: bool, sender': Address, data': seq<Byte>)
      ensures Reception(ok, sender', data') == Unframe(aes, encryptionKey, packet, sender, data)
    {
      ok, sender', data' := ReceiveMessage(packet, sender, data);
    }

    /**
     * receiveAsReceiver: succeeds only when receiveMessage succeeds and the
     * sender is registered; the out-parameters are filled either way.
     */
    method ReceiveAsReceiver(packet: seq<Byte>, sender: Address, data: seq<Byte>)
      returns (ok: bool, sender': Address, data': seq<Byte>)
      ensures ok <==> Unframe(aes, encryptionKey, packet, sender, data).ok && HasAddress(devices, sender')
      ensures sender' == Unframe(aes, encryptionKey, packet, sender, data).sender
      ensures data' == Unframe(aes, encryptionKey, packet, sender, data).data
      ensures Reception(ok, sender', data') == UnframeAsReceiver(aes, encryptionKey, devices, packet, sender, data)
    {
      ok, sender', data' := ReceiveMessage(packet, sender, data);
      if !ok {
        return;
      }
      var known := DeviceExists(sender');
      if !known {
        return false, sender', data';
      }
    }

    /** addDevice: refuses a known address, otherwise appends the device. */
    method AddDevice(address: Address, name: string) returns (ok: bool)
      requires Valid()
      modifies this`devices
      ensures Valid()
      ensures ok <==> !HasAddress(old(devices), address)
      ensures devices == if ok then old(devices) + [DeviceInfo(address, name)] else old(devices)
      ensures HasAddress(devices, address)
    {
      var known := DeviceExists(address);
      if known {
        return false;
      }
      AddKeepsUnique(devices, DeviceInfo(address, name));
      devices := devices + [DeviceInfo(address, name)];
      ok := true;
    }

    /** removeDevice: erases the first entry with the address. */
    method RemoveDevice(address: Address) returns (ok: bool)
      requires Valid()
      modifies this`devices
      ensures Valid()
      ensures ok <==> HasAddress(old(devices), address)
      ensures devices == RemoveFirst(old(devices), address)
      ensures !HasAddress(devices, address)
      ensures forall b :: b != address ==> (HasAddress(devices, b) <==> HasAddress(old(devices), b))
    {
      RemoveKeepsOthers(devices, address);
      var i := 0;
      while i < |devices|
        invariant 0 <= i <= |devices|
        invariant forall k :: 0 <= k < i ==> devices[k].address != address
      {
        if devices[i].address == address {
          RemoveFirstAt(devices, address, i);
          devices := devices[..i] + devices[i + 1..];
          return true;
        }
        i := i + 1;
      }
      RemoveFirstAbsent(devices, address);
      ok := false;
    }

    /** deviceExists: membership by address. */
    method DeviceExists(address: Address) returns (found: bool)
      ensures found <==> HasAddress(devices, address)
    {
      for i := 0 to |devices|
        invariant forall k :: 0 <= k < i ==> devices[k].address != address
      {
        if devices[i].address == address {
          return true;
        }
      }
      return false;
    }

    /**
     * loadEncryptionKey, from the fields of the encryption file (None when
     * the file could not be read).
     */
    method LoadEncryptionKey(file: Option<KeyFile>) returns (ok: bool)
      modifies this`encryptionKey
      ensures ok <==> LoadedKey(file).Some?
      ensures encryptionKey == if ok then LoadedKey(file).value else old(encryptionKey)
    {
      if file.None? {
        return false;
      }
      var keyHex, ivHex := file.value.aesKey, file.value.iv;
      if keyHex.None? || |keyHex.value| != 32 {
        return false;
      }
      var key := keyHex.value;
      encryptionKey := [];
      for i := 0 to 16
        invariant encryptionKey == ParseHex(key)[..i]
      {
        ParseHexSnoc(key, i);
        encryptionKey := encryptionKey + [PairByte(key[2 * i], key[2 * i + 1])];
      }
      ParseHexWhole(key, 16);
      if ivHex.Some? && |ivHex.value| == 32 {
        var iv := ivHex.value;
        for i := 0 to 16
          invariant encryptionKey == ParseHex(key) + ParseHex(iv)[..i]
        {
          ParseHexSnoc(iv, i);
          encryptionKey := encryptionKey + [PairByte(iv[2 * i], iv[2 * i + 1])];
        }
        ParseHexWhole(iv, 16);
      }
      ok := true;
    }

    /** setEncryptionKey: stores the bytes as given, without validation. */
    method SetEncryptionKey(key: seq<Byte>)
      modifies this`encryptionKey
      ensures encryptionKey == key
    {
      encryptionKey := key;
    }

    /** getEncryptionKey: exactly the stored bytes. */
    method GetEncryptionKey() returns (key: seq<Byte>)
      ensures key == encryptionKey
    {
      key := encryptionKey;
    }

    /** encrypt: the data is replaced by its ciphertext, or left as it was when the key is not 16 bytes. */
    method Encrypt(data: seq<Byte>) returns (ok: bool, data': seq<Byte>)
      ensures ok <==> |encryptionKey| == 16
      ensures ok ==> data' == Crypt(aes, encryptionKey, ZERO_BLOCK, Pad(data))
      ensures !ok ==> data' == data
      ensures Transform(aes, encryptionKey, data) == if ok then Some(data') else None
    {
      if |encryptionKey| != 16 {
        return false, data;
      }
      var iv := IvFor(encryptionKey);
      var padded := data + Zeros(PaddedLength(|data|) - |data|);
      data' := Crypt(aes, encryptionKey, iv, padded);
      ok := true;
    }

    /** decrypt: the same transformation as encrypt. */
    method Decrypt(data: seq<Byte>) returns (ok: bool, data': seq<Byte>)
      ensures ok <==> |encryptionKey| == 16
      ensures Transform(aes, encryptionKey, data) == if ok then Some(data') else None
      ensures !ok ==> data' == data
    {
      ok, data' := Encrypt(data);
    }
  }
}
