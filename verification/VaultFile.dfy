/** The vault file: padding, the versioned envelope, and what loading makes of it.
    The ciphers are parameters of which only the laws in `Lawful` are used. */
module VaultFile {
  import opened Text
  import VaultJson
  import VaultParse
  import VaultRoundTrip

  type Bytes = string

  const SALT_LEN := 16
  const IV_LEN := 16
  const HMAC_LEN := 32
  const BLOCK := 16
  const LEGACY_HEADER_LEN := SALT_LEN + IV_LEN
  const V2_HEADER_LEN := 52
  const VAULT_MAGIC: Bytes := "THV2"
  const ARGON2_MEMORY_KIB: u32 := 64
  const ARGON2_TIME_COST: u32 := 6
  const ARGON2_LANES: u32 := 1

  // ----- Padding, section 6.3 of RFC 5652 -----

  /** `pkcs7_pad`. */
  function Pad(data: Bytes): (padded: Bytes)
    ensures |padded| % BLOCK == 0 && |data| < |padded| <= |data| + BLOCK
  {
    var n := (|data| / BLOCK + 1) * BLOCK - |data|;
    data + seq(n, _ => n as char)
  }

  /** `pkcs7_unpad`: the length without the padding, or 0 when the padding is wrong. */
  method Unpad(buf: Bytes) returns (length: nat)
    ensures length == UnpaddedLength(buf)
  {
    if |buf| == 0 || |buf| % BLOCK != 0 {
      return 0;
    }
    var pad := buf[|buf| - 1] as int;
    if pad == 0 || pad > BLOCK {
      return 0;
    }
    for i := |buf| - pad to |buf|
      invariant forall k :: |buf| - pad <= k < i ==> buf[k] as int == pad
    {
      if buf[i] as int != pad {
        return 0;
      }
    }
    return |buf| - pad;
  }

  ghost predicate WellPadded(buf: Bytes) {
    && |buf| > 0 && |buf| % BLOCK == 0
    && var pad := buf[|buf| - 1] as int;
       0 < pad <= BLOCK && forall k :: |buf| - pad <= k < |buf| ==> buf[k] as int == pad
  }

  ghost function UnpaddedLength(buf: Bytes): nat {
    if WellPadded(buf) then |buf| - buf[|buf| - 1] as int else 0
  }

  /** Unpadding undoes padding. */
  lemma UnpadPad(data: Bytes)
    ensures UnpaddedLength(Pad(data)) == |data| && Pad(data)[..|data|] == data
  {
  }

  /** Padding adds 1 to 16 bytes, to a multiple of 16, each of which is their number. */
  lemma PadMeaning(data: Bytes)
    ensures var padded := Pad(data);
            && |padded| % 16 == 0 && data <= padded && 1 <= |padded| - |data| <= 16
            && forall k :: |data| <= k < |padded| ==> padded[k] as int == |padded| - |data|
  {
  }

  /** Nothing else is accepted: a positive length is only ever returned for padded data. */
  lemma UnpadMeaning(buf: Bytes)
    ensures UnpaddedLength(buf) > 0 <==> exists data: Bytes :: data != "" && buf == Pad(data)
  {
    var n := UnpaddedLength(buf);
    if n > 0 {
      var pad := buf[|buf| - 1] as int;
      assert (n / BLOCK + 1) * BLOCK - n == pad;
      assert Pad(buf[..n]) == buf;
    }
    forall data: Bytes | data != "" && buf == Pad(data)
      ensures n > 0
    {
      UnpadPad(data);
    }
  }

  // ----- Little-endian numbers -----

  function WriteU32(value: u32): (bytes: Bytes)
    ensures |bytes| == 4
  {
    var shifted8 := value / 0x100;
    var shifted16 := shifted8 / 0x100;
    var shifted24 := shifted16 / 0x100;
    [(value % 0x100) as char, (shifted8 % 0x100) as char, (shifted16 % 0x100) as char, (shifted24 % 0x100) as char]
  }

  function ReadU32(bytes: Bytes): nat
    requires |bytes| >= 4
  {
    bytes[0] as int + bytes[1] as int * 0x100 + bytes[2] as int * 0x1_0000 + bytes[3] as int * 0x100_0000
  }

  lemma ReadWriteU32(value: u32, rest: Bytes)
    ensures ReadU32(WriteU32(value) + rest) == value
  {
    var shifted8 := value / 0x100;
    var shifted16 := shifted8 / 0x100;
    var shifted24 := shifted16 / 0x100;
    assert value == shifted8 * 0x100 + value % 0x100;
    assert shifted8 == shifted16 * 0x100 + shifted8 % 0x100;
    assert shifted16 == shifted24 * 0x100 + shifted16 % 0x100;
    assert shifted24 < 0x100;
    var bytes := WriteU32(value) + rest;
    assert bytes[0] as int == value % 0x100 && bytes[1] as int == shifted8 % 0x100;
    assert bytes[2] as int == shifted16 % 0x100 && bytes[3] as int == shifted24;
  }

  /** The lowest byte comes first. */
  lemma LittleEndian(value: u32)
    ensures var bytes := WriteU32(value);
            && |bytes| == 4
            && bytes[0] as int == value % 0x100 && bytes[1] as int == value / 0x100 % 0x100
            && bytes[2] as int == value / 0x1_0000 % 0x100 && bytes[3] as int == value / 0x100_0000
  {
    assert value / 0x100_0000 < 0x100;
  }

  // ----- The envelope -----

  datatype Crypto = Crypto(
    argon2id: (string, Bytes) -> Option<Bytes>,
    pbkdf2: (string, Bytes) -> Option<Bytes>,
    encrypt: (Bytes, Bytes, Bytes) -> Option<Bytes>,
    decrypt: (Bytes, Bytes, Bytes) -> Option<Bytes>,
    hmac: (Bytes, Bytes) -> Option<Bytes>)

  /** The cipher keeps lengths and is undone by decryption; a code has its fixed length. */
  ghost predicate Lawful(crypto: Crypto) {
    && (forall key, iv, data :: crypto.encrypt(key, iv, data).Some? ==>
          && |crypto.encrypt(key, iv, data).value| == |data|
          && crypto.decrypt(key, iv, crypto.encrypt(key, iv, data).value) == Some(data))
    && (forall key, data :: crypto.hmac(key, data).Some? ==> |crypto.hmac(key, data).value| == HMAC_LEN)
  }

  function Header(salt: Bytes, iv: Bytes): Bytes {
    VAULT_MAGIC + [2 as char, 1 as char, 0 as char, 0 as char]
    + WriteU32(ARGON2_MEMORY_KIB) + WriteU32(ARGON2_TIME_COST) + WriteU32(ARGON2_LANES) + salt + iv
  }

  predicate ValidHeader(file: Bytes) {
    && |file| >= V2_HEADER_LEN
    && VAULT_MAGIC <= file
    && file[4] as int == 2 && file[5] as int == 1 && file[6] as int == 0 && file[7] as int == 0
    && ReadU32(file[8..]) == ARGON2_MEMORY_KIB
    && ReadU32(file[12..]) == ARGON2_TIME_COST
    && ReadU32(file[16..]) == ARGON2_LANES
  }

  datatype VaultError = InvalidSize | NotSupported | InvalidArgument | CryptoFailed | MigrationFailed

  datatype Outcome<+T> = Success(value: T) | Failure(error: VaultError)

  /** What is in memory of an opened vault. */
  datatype Opened = Opened(entries: seq<VaultJson.Entry>, salt: Bytes, key: Bytes, legacy: bool)

  /** The contents that `vault_save` writes to the temporary file. */
  function Seal(crypto: Crypto, entries: seq<VaultJson.Entry>, key: Bytes, salt: Bytes, iv: Bytes): Outcome<Bytes> {
    match crypto.encrypt(key, iv, Pad(VaultJson.ToJson(entries)))
    case None => Failure(CryptoFailed)
    case Some(ciphertext) =>
      var body := Header(salt, iv) + ciphertext;
      match crypto.hmac(key, body)
      case None => Failure(CryptoFailed)
      case Some(code) => Success(body + code)
  }

  /** What C code makes of the bytes as a string: nothing behind the first NUL. */
  function CString(bytes: Bytes): (text: string)
    ensures text <= bytes && '\0' !in text
    ensures '\0' !in bytes ==> text == bytes
  {
    if bytes == "" || bytes[0] == '\0' then "" else [bytes[0]] + CString(bytes[1..])
  }

  /** `vault_load` of an existing file, up to the migration of a legacy one. */
  method Open(crypto: Crypto, password: string, file: Bytes) returns (r: Outcome<Opened>)
    ensures r == OpenedFrom(crypto, password, file)
  {
    if |file| < LEGACY_HEADER_LEN + BLOCK + HMAC_LEN {
      return Failure(InvalidSize);
    }
    var isV2 := VAULT_MAGIC <= file;
    var headerLen := if isV2 then V2_HEADER_LEN else LEGACY_HEADER_LEN;
    if isV2 && !ValidHeader(file) {
      return Failure(NotSupported);
    }
    if |file| < headerLen + BLOCK + HMAC_LEN {
      return Failure(InvalidSize);
    }
    var salt := if isV2 then file[20..36] else file[..16];
    var iv := if isV2 then file[36..52] else file[16..32];
    var ciphertext := file[headerLen..|file| - HMAC_LEN];
    var code := file[|file| - HMAC_LEN..];
    if |ciphertext| == 0 || |ciphertext| % BLOCK != 0 {
      return Failure(InvalidSize);
    }
    var key := if isV2 then crypto.argon2id(password, salt) else crypto.pbkdf2(password, salt);
    if key.None? {
      return Failure(CryptoFailed);
    }
    if crypto.hmac(key.value, file[..|file| - HMAC_LEN]) != Some(code) {
      return Failure(InvalidArgument);
    }
    var plaintext := crypto.decrypt(key.value, iv, ciphertext);
    if plaintext.None? {
      return Failure(CryptoFailed);
    }
    var length := Unpad(plaintext.value);
    if length == 0 {
      return Failure(InvalidArgument);
    }
    var entries := VaultParse.JsonToEntries(CString(plaintext.value[..length]));
    return Success(Opened(entries, salt, key.value, !isV2));
  }

  ghost function OpenedFrom(crypto: Crypto, password: string, file: Bytes): Outcome<Opened> {
    var isV2 := VAULT_MAGIC <= file;
    var headerLen := if isV2 then V2_HEADER_LEN else LEGACY_HEADER_LEN;
    if |file| < LEGACY_HEADER_LEN + BLOCK + HMAC_LEN then Failure(InvalidSize)
    else if isV2 && !ValidHeader(file) then Failure(NotSupported)
    else if |file| < headerLen + BLOCK + HMAC_LEN then Failure(InvalidSize)
    else if (|file| - headerLen - HMAC_LEN) % BLOCK != 0 then Failure(InvalidSize)
    else
      var salt := if isV2 then file[20..36] else file[..16];
      var iv := if isV2 then file[36..52] else file[16..32];
      match (if isV2 then crypto.argon2id(password, salt) else crypto.pbkdf2(password, salt))
      case None => Failure(CryptoFailed)
      case Some(key) =>
        if crypto.hmac(key, file[..|file| - HMAC_LEN]) != Some(file[|file| - HMAC_LEN..]) then Failure(InvalidArgument)
        else
          match crypto.decrypt(key, iv, file[headerLen..|file| - HMAC_LEN])
          case None => Failure(CryptoFailed)
          case Some(plaintext) =>
            if UnpaddedLength(plaintext) == 0 then Failure(InvalidArgument)
            else Success(Opened(VaultParse.FromJson(CString(plaintext[..UnpaddedLength(plaintext)])), salt, key, !isV2))
  }

  lemma HeaderIsValid(salt: Bytes, iv: Bytes, rest: Bytes)
    requires |salt| == SALT_LEN && |iv| == IV_LEN
    ensures var file := Header(salt, iv) + rest;
            && |Header(salt, iv)| == V2_HEADER_LEN
            && ValidHeader(file) && "THV2" <= file
            && file[4..8] == [2 as char, 1 as char, 0 as char, 0 as char]
            && ReadU32(file[8..]) == 64 && ReadU32(file[12..]) == 6 && ReadU32(file[16..]) == 1
            && file[20..36] == salt && file[36..52] == iv && file[52..] == rest
  {
    var file := Header(salt, iv) + rest;
    var tail := salt + iv + rest;
    assert file[16..] == WriteU32(ARGON2_LANES) + tail;
    assert file[12..] == WriteU32(ARGON2_TIME_COST) + (WriteU32(ARGON2_LANES) + tail);
    assert file[8..] == WriteU32(ARGON2_MEMORY_KIB) + (WriteU32(ARGON2_TIME_COST) + (WriteU32(ARGON2_LANES) + tail));
    ReadWriteU32(ARGON2_LANES, tail);
    ReadWriteU32(ARGON2_TIME_COST, WriteU32(ARGON2_LANES) + tail);
    ReadWriteU32(ARGON2_MEMORY_KIB, WriteU32(ARGON2_TIME_COST) + (WriteU32(ARGON2_LANES) + tail));
  }

  /** Whatever JSON is sealed, opening the envelope with the same password hands that
      JSON to the parser, with the salt and the key it was sealed with. */
  lemma OpenSealed(crypto: Crypto, password: string, entries: seq<VaultJson.Entry>, key: Bytes, salt: Bytes, iv: Bytes)
    requires Lawful(crypto) && |salt| == SALT_LEN && |iv| == IV_LEN
    requires crypto.argon2id(password, salt) == Some(key)
    requires Seal(crypto, entries, key, salt, iv).Success?
    ensures OpenedFrom(crypto, password, Seal(crypto, entries, key, salt, iv).value)
            == Success(Opened(VaultParse.FromJson(CString(VaultJson.ToJson(entries))), salt, key, false))
  {
    hide VaultJson.ToJson, VaultParse.FromJson, ValidHeader, Header, Pad, UnpaddedLength, CString, WellPadded, ReadU32;
    var json := VaultJson.ToJson(entries);
    JsonIsNotEmpty(entries);
    UnpadPad(json);
    var ciphertext := crypto.encrypt(key, iv, Pad(json)).value;
    var body := Header(salt, iv) + ciphertext;
    var code := crypto.hmac(key, body).value;
    var file := body + code;
    HeaderIsValid(salt, iv, ciphertext + code);
    assert file == Header(salt, iv) + (ciphertext + code);
    assert file[..|file| - HMAC_LEN] == body && file[|file| - HMAC_LEN..] == code;
    assert body[V2_HEADER_LEN..] == ciphertext;
    assert file[V2_HEADER_LEN..|file| - HMAC_LEN] == ciphertext;
  }

  lemma JsonIsNotEmpty(entries: seq<VaultJson.Entry>)
    ensures VaultJson.ToJson(entries) != ""
  {
  }

  /** A saved vault loads again as it was, with the same password, exactly when the
      parser's search for braces does not go astray in one of its entries. */
  lemma SaveThenLoad(crypto: Crypto, password: string, entries: seq<VaultJson.Entry>, key: Bytes, salt: Bytes,
                     iv: Bytes)
    requires Lawful(crypto) && |salt| == SALT_LEN && |iv| == IV_LEN
    requires crypto.argon2id(password, salt) == Some(key)
    requires Seal(crypto, entries, key, salt, iv).Success?
    requires |entries| <= VaultJson.MAX_ENTRIES && forall e :: e in entries ==> VaultJson.ValidEntry(e)
    ensures OpenedFrom(crypto, password, Seal(crypto, entries, key, salt, iv).value)
            == Success(Opened(entries, salt, key, false))
            <==> VaultRoundTrip.Separable(entries) || VaultRoundTrip.SavedByTheLimit(entries)
  {
    hide VaultJson.ToJson, VaultParse.FromJson, VaultRoundTrip.Separable, VaultRoundTrip.SavedByTheLimit, OpenedFrom,
      Seal, Lawful;
    OpenSealed(crypto, password, entries, key, salt, iv);
    NoNulPrinted(entries);
    VaultRoundTrip.RoundTripIffSeparable(entries);
  }

  lemma NoNulPrinted(entries: seq<VaultJson.Entry>)
    requires forall e :: e in entries ==> VaultJson.ValidEntry(e)
    ensures '\0' !in VaultJson.ToJson(entries)
  {
    hide VaultJson.PrintAll;
    NoNulInAll(entries);
  }

  lemma {:induction false} NoNulInAll(entries: seq<VaultJson.Entry>)
    requires forall e :: e in entries ==> VaultJson.ValidEntry(e)
    ensures '\0' !in VaultJson.PrintAll(entries)
  {
    hide VaultJson.Printed, VaultJson.ValidEntry;
    if entries != [] {
      NoNulInAll(entries[..|entries| - 1]);
      NoNulInEntry(entries[|entries| - 1]);
    }
  }

  lemma NoNulInEntry(e: VaultJson.Entry)
    requires VaultJson.ValidEntry(e)
    ensures '\0' !in VaultJson.Printed(e)
  {
    hide VaultJson.Field;
    VaultRoundTrip.FieldWithout("name", e.name, '\0');
    VaultRoundTrip.FieldWithout("user", e.username, '\0');
    VaultRoundTrip.FieldWithout("pass", e.password, '\0');
    VaultRoundTrip.FieldWithout("notes", e.notes, '\0');
  }

  // ----- What opening relies on -----

  /** A file that opens is authentic: its last 32 bytes are the code of all before
      them, under the key that the password and the salt in the file give. The new
      format keeps the salt behind a valid header, the legacy one at the beginning. */
  lemma OpenedIsAuthentic(crypto: Crypto, password: string, file: Bytes)
    requires OpenedFrom(crypto, password, file).Success?
    ensures var o := OpenedFrom(crypto, password, file).value;
            && |file| > HMAC_LEN
            && crypto.hmac(o.key, file[..|file| - HMAC_LEN]) == Some(file[|file| - HMAC_LEN..])
            && (o.legacy <==> !("THV2" <= file))
            && (!o.legacy ==>
                  && |file| > V2_HEADER_LEN + HMAC_LEN && file[4..8] == [2 as char, 1 as char, 0 as char, 0 as char]
                  && o.salt == file[20..36] && crypto.argon2id(password, file[20..36]) == Some(o.key))
            && (o.legacy ==>
                  && o.salt == file[..16] && crypto.pbkdf2(password, file[..16]) == Some(o.key))
            && var plaintext := if o.legacy then crypto.decrypt(o.key, file[16..32], file[32..|file| - HMAC_LEN])
                                else crypto.decrypt(o.key, file[36..52], file[52..|file| - HMAC_LEN]);
               exists json: Bytes ::
                 json != "" && plaintext == Some(Pad(json)) && o.entries == VaultParse.FromJson(CString(json))
  {
    hide UnpaddedLength, Pad, VaultParse.FromJson, CString, ReadU32;
    var headerLen, iv := if "THV2" <= file then 52 else 32, if "THV2" <= file then file[36..52] else file[16..32];
    var o := OpenedFrom(crypto, password, file).value;
    var plaintext := crypto.decrypt(o.key, iv, file[headerLen..|file| - HMAC_LEN]).value;
    UnpadMeaning(plaintext);
    var json: Bytes :| json != "" && plaintext == Pad(json);
    UnpadPad(json);
  }

  /** The envelope that is written: the header with salt and vector, the JSON padded
      and encrypted with that vector, and the code of all that. */
  lemma SealMeaning(crypto: Crypto, entries: seq<VaultJson.Entry>, key: Bytes, salt: Bytes, iv: Bytes)
    requires Lawful(crypto) && |salt| == SALT_LEN && |iv| == IV_LEN
    requires Seal(crypto, entries, key, salt, iv).Success?
    ensures var file := Seal(crypto, entries, key, salt, iv).value;
            && |file| > 84 && ValidHeader(file) && file[20..36] == salt && file[36..52] == iv
            && crypto.encrypt(key, iv, Pad(VaultJson.ToJson(entries))) == Some(file[52..|file| - 32])
            && crypto.hmac(key, file[..|file| - 32]) == Some(file[|file| - 32..])
  {
    hide VaultJson.ToJson, ValidHeader, Header, Pad;
    PadMeaning(VaultJson.ToJson(entries));
    var ciphertext := crypto.encrypt(key, iv, Pad(VaultJson.ToJson(entries))).value;
    var body := Header(salt, iv) + ciphertext;
    var code := crypto.hmac(key, body).value;
    HeaderIsValid(salt, iv, ciphertext + code);
    assert body + code == Header(salt, iv) + (ciphertext + code);
    assert (body + code)[..|body|] == body && (body + code)[|body|..] == code && body[52..] == ciphertext;
  }

  /** The headers of the new format: the magic, the bytes 2, 1, 0 and 0, and the numbers
      64, 6 and 1 in four bytes each. */
  lemma HeaderMeaning(file: Bytes)
    requires forall k :: 8 <= k < 20 && k < |file| ==> file[k] as int < 0x100
    ensures ValidHeader(file) <==>
              && |file| >= 52 && "THV2" <= file
              && file[4..8] == [2 as char, 1 as char, 0 as char, 0 as char]
              && file[8..12] == [64 as char, 0 as char, 0 as char, 0 as char]
              && file[12..16] == [6 as char, 0 as char, 0 as char, 0 as char]
              && file[16..20] == [1 as char, 0 as char, 0 as char, 0 as char]
  {
    if |file| >= 52 {
      SmallNumber(file, 8, 64);
      SmallNumber(file, 12, 6);
      SmallNumber(file, 16, 1);
    }
  }

  lemma SmallNumber(file: Bytes, at: nat, value: nat)
    requires at + 4 <= |file| && value < 0x100
    requires forall k :: at <= k < at + 4 ==> file[k] as int < 0x100
    ensures ReadU32(file[at..]) == value
            <==> file[at..at + 4] == [value as char, 0 as char, 0 as char, 0 as char]
  {
    var bytes := file[at..];
    assert bytes[0] == file[at] && bytes[1] == file[at + 1] && bytes[2] == file[at + 2] && bytes[3] == file[at + 3];
    assert file[at..at + 4] == [file[at], file[at + 1], file[at + 2], file[at + 3]];
  }

  /** The files that are refused before any key is derived. */
  lemma RefusedFiles(crypto: Crypto, password: string, file: Bytes)
    ensures |file| < 80 ==> OpenedFrom(crypto, password, file) == Failure(InvalidSize)
    ensures |file| >= 80 && "THV2" <= file && !ValidHeader(file) ==>
              OpenedFrom(crypto, password, file) == Failure(NotSupported)
    ensures |file| >= 80 && "THV2" <= file && ValidHeader(file) && (|file| < 100 || |file| % 16 != 4) ==>
              OpenedFrom(crypto, password, file) == Failure(InvalidSize)
    ensures |file| >= 80 && !("THV2" <= file) && |file| % 16 != 0 ==>
              OpenedFrom(crypto, password, file) == Failure(InvalidSize)
  {
    hide ValidHeader, UnpaddedLength, VaultParse.FromJson;
  }

  /** With another code under the key that its password and salt give, a file is
      refused as one with a wrong password. */
  lemma OtherCodeIsRefused(crypto: Crypto, password: string, file: Bytes, key: Bytes)
    requires |file| >= 100 && (|file| - (if "THV2" <= file then 52 else 32) - 32) % 16 == 0
    requires "THV2" <= file ==> ValidHeader(file)
    requires if "THV2" <= file then crypto.argon2id(password, file[20..36]) == Some(key)
             else crypto.pbkdf2(password, file[..16]) == Some(key)
    requires crypto.hmac(key, file[..|file| - 32]) != Some(file[|file| - 32..])
    ensures OpenedFrom(crypto, password, file) == Failure(InvalidArgument)
  {
    hide ValidHeader;
  }

  /** A legacy file: salt, vector, the encrypted and padded JSON, and the code of all
      that. It opens with its password, and with the entries that were in it under
      the same condition as in the new format. */
  lemma OpenLegacy(crypto: Crypto, password: string, entries: seq<VaultJson.Entry>, key: Bytes, salt: Bytes, iv: Bytes,
                   ciphertext: Bytes, code: Bytes)
    requires Lawful(crypto) && |salt| == 16 && |iv| == 16
    requires |entries| <= VaultJson.MAX_ENTRIES && forall e :: e in entries ==> VaultJson.ValidEntry(e)
    requires crypto.encrypt(key, iv, Pad(VaultJson.ToJson(entries))) == Some(ciphertext)
    requires crypto.hmac(key, salt + iv + ciphertext) == Some(code)
    requires crypto.pbkdf2(password, salt) == Some(key)
    requires !("THV2" <= salt + iv + ciphertext + code)
    ensures OpenedFrom(crypto, password, salt + iv + ciphertext + code)
            == Success(Opened(VaultParse.FromJson(VaultJson.ToJson(entries)), salt, key, true))
    ensures OpenedFrom(crypto, password, salt + iv + ciphertext + code) == Success(Opened(entries, salt, key, true))
            <==> VaultRoundTrip.Separable(entries) || VaultRoundTrip.SavedByTheLimit(entries)
  {
    hide VaultJson.ToJson, VaultParse.FromJson, VaultRoundTrip.Separable, VaultRoundTrip.SavedByTheLimit, Pad,
      UnpaddedLength, ValidHeader, VaultJson.ValidEntry;
    var json, body := VaultJson.ToJson(entries), salt + iv + ciphertext;
    var file := body + code;
    JsonIsNotEmpty(entries);
    NoNulPrinted(entries);
    UnpadPad(json);
    LegacyParts(salt, iv, ciphertext, code);
    VaultRoundTrip.RoundTripIffSeparable(entries);
  }

  lemma LegacyParts(salt: Bytes, iv: Bytes, ciphertext: Bytes, code: Bytes)
    requires |salt| == 16 && |iv| == 16 && |code| == HMAC_LEN
    ensures var file := salt + iv + ciphertext + code;
            && file[..16] == salt && file[16..32] == iv
            && file[32..|file| - HMAC_LEN] == ciphertext
            && file[..|file| - HMAC_LEN] == salt + iv + ciphertext && file[|file| - HMAC_LEN..] == code
  {
  }

  // ----- Legacy files -----

  /** What a migration draws and does: a salt and a vector, if there are any, and
      whether the new envelope could be put in the place of the old one. */
  datatype Migration = Migration(salt: Option<Bytes>, iv: Option<Bytes>, replaced: bool)

  /** `vault_load` of an existing file: a legacy file is written again as a new envelope. */
  method Load(crypto: Crypto, password: string, file: Bytes, migration: Migration)
    returns (r: Outcome<Opened>, written: Option<Bytes>)
    ensures var found := OpenedFrom(crypto, password, file);
            if found.Failure? || !found.value.legacy then r == found && written.None?
            else
              && (r.Failure? ==> r.error == MigrationFailed)
              && (r.Success? ==>
                    && written.Some?
                    && IsMigrated(crypto, password, found.value, r.value, migration, written.value))
              && (r.Success? <==>
                  && migration.replaced && migration.salt.Some? && migration.iv.Some?
                  && crypto.argon2id(password, migration.salt.value).Some?
                  && Seal(crypto, found.value.entries, crypto.argon2id(password, migration.salt.value).value,
                          migration.salt.value, migration.iv.value).Success?)
  {
    hide OpenedFrom, Seal;
    written := None;
    r := Open(crypto, password, file);
    if r.Failure? || !r.value.legacy {
      return;
    }
    if migration.salt.None? {
      return Failure(MigrationFailed), None;
    }
    var salt := migration.salt.value;
    var key := crypto.argon2id(password, salt);
    if key.None? || migration.iv.None? {
      return Failure(MigrationFailed), None;
    }
    var envelope := Seal(crypto, r.value.entries, key.value, salt, migration.iv.value);
    if envelope.Failure? || !migration.replaced {
      return Failure(MigrationFailed), None;
    }
    return Success(Opened(r.value.entries, salt, key.value, false)), Some(envelope.value);
  }

  ghost predicate IsMigrated(crypto: Crypto, password: string, before: Opened, after: Opened, migration: Migration,
                             written: Bytes) {
    && after.entries == before.entries && !after.legacy
    && migration.salt == Some(after.salt) && crypto.argon2id(password, after.salt) == Some(after.key)
    && migration.iv.Some?
    && Seal(crypto, before.entries, after.key, after.salt, migration.iv.value) == Success(written)
  }

  /** Whatever a file holds, the entries read from it can be saved: there are not too
      many, and their fields fit. */
  lemma OpenedAreValid(crypto: Crypto, password: string, file: Bytes)
    requires OpenedFrom(crypto, password, file).Success?
    ensures var entries := OpenedFrom(crypto, password, file).value.entries;
            |entries| <= VaultJson.MAX_ENTRIES && forall e :: e in entries ==> VaultJson.ValidEntry(e)
  {
    hide VaultParse.FromJson, ValidHeader, UnpaddedLength;
    forall json | '\0' !in json
      ensures |VaultParse.FromJson(json)| <= VaultJson.MAX_ENTRIES
      ensures forall e :: e in VaultParse.FromJson(json) ==> VaultJson.ValidEntry(e)
    {
      VaultParse.ParsedAreValid(json);
    }
  }

  /** A migrated vault opens with the same password and, under the same condition as
      any other saved vault, with the same entries. */
  lemma MigrationKeepsEntries(crypto: Crypto, password: string, file: Bytes, after: Opened, migration: Migration,
                              written: Bytes)
    requires Lawful(crypto) && OpenedFrom(crypto, password, file).Success?
    requires IsMigrated(crypto, password, OpenedFrom(crypto, password, file).value, after, migration, written)
    requires |after.salt| == SALT_LEN && |migration.iv.value| == IV_LEN
    ensures OpenedFrom(crypto, password, written) == Success(after)
            <==> VaultRoundTrip.Separable(after.entries) || VaultRoundTrip.SavedByTheLimit(after.entries)
  {
    hide OpenedFrom, Seal, Lawful, VaultRoundTrip.Separable, VaultRoundTrip.SavedByTheLimit, VaultJson.ValidEntry;
    OpenedAreValid(crypto, password, file);
    SaveThenLoad(crypto, password, after.entries, after.key, after.salt, migration.iv.value);
  }
}
