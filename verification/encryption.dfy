/** End-to-end encryption of sync data and validation of the key/token
    string the user copies between devices. The cipher, base64 decoding and
    the checksum function are abstract parameters. */
module Encryption {
  import opened Common
  import opened Strings

  type Byte = x: int | 0 <= x < 256

  /** A record the client creates on the server, in clear text. */
  datatype Create = Create(id: Id, createdAt: int, updatedAt: int, txt: string)

  /** A new version of an existing record, in clear text. */
  datatype Update = Update(id: Id, txt: string, updatedAt: int, version: int)

  /** A deletion; it carries no content and is never encrypted. */
  datatype Delete = Delete(id: Id, deletedAt: int)

  datatype SyncData = SyncData(creates: seq<Create>, updates: seq<Update>, deletes: seq<Delete>)

  /** Output of the cipher: cipher text and initialisation vector. */
  datatype EncData = EncData(cipherText: string, iv: string)

  datatype EncCreate = EncCreate(id: Id, createdAt: int, cipherText: string, iv: string, updatedAt: int)

  datatype EncUpdate = EncUpdate(id: Id, updatedAt: int, cipherText: string, iv: string, version: int)

  datatype EncSyncData = EncSyncData(creates: seq<EncCreate>, updates: seq<EncUpdate>, deletes: seq<Delete>)

  /** `encryptData`/`decryptData` under one imported key. Decryption fails
      (`None`) on data the key did not produce. */
  datatype Cipher = Cipher(encrypt: string -> EncData, decrypt: EncData -> Option<string>)

  ghost predicate CipherRoundTrips(c: Cipher) {
    forall t :: c.decrypt(c.encrypt(t)) == Some(t)
  }

  function EncryptCreate(c: Cipher, x: Create): (e: EncCreate)
    ensures e.id == x.id && e.createdAt == x.createdAt && e.updatedAt == x.updatedAt
    ensures EncData(e.cipherText, e.iv) == c.encrypt(x.txt)
  {
    var d := c.encrypt(x.txt);
    EncCreate(x.id, x.createdAt, d.cipherText, d.iv, x.updatedAt)
  }

  function EncryptUpdate(c: Cipher, x: Update): (e: EncUpdate)
    ensures e.id == x.id && e.updatedAt == x.updatedAt && e.version == x.version
    ensures EncData(e.cipherText, e.iv) == c.encrypt(x.txt)
  {
    var d := c.encrypt(x.txt);
    EncUpdate(x.id, x.updatedAt, d.cipherText, d.iv, x.version)
  }

  /** `encryptSyncData`: encrypts each create and update in place; deletes
      pass through. */
  function EncryptSyncData(c: Cipher, d: SyncData): (e: EncSyncData)
    ensures |e.creates| == |d.creates| && |e.updates| == |d.updates| && e.deletes == d.deletes
    ensures forall i :: 0 <= i < |d.creates| ==>
      e.creates[i].id == d.creates[i].id && e.creates[i].createdAt == d.creates[i].createdAt &&
      e.creates[i].updatedAt == d.creates[i].updatedAt
    ensures forall i :: 0 <= i < |d.updates| ==>
      e.updates[i].id == d.updates[i].id && e.updates[i].updatedAt == d.updates[i].updatedAt &&
      e.updates[i].version == d.updates[i].version
  {
    EncSyncData(Map(d.creates, x => EncryptCreate(c, x)), Map(d.updates, x => EncryptUpdate(c, x)), d.deletes)
  }

  function DecryptCreates(c: Cipher, xs: seq<EncCreate>): (r: Result<seq<Create>>)
    ensures r.Ok? <==> forall i :: 0 <= i < |xs| ==> c.decrypt(EncData(xs[i].cipherText, xs[i].iv)).Some?
    ensures r.Ok? ==> |r.value| == |xs| && forall i :: 0 <= i < |xs| ==>
      r.value[i].id == xs[i].id && r.value[i].createdAt == xs[i].createdAt && r.value[i].updatedAt == xs[i].updatedAt &&
      Some(r.value[i].txt) == c.decrypt(EncData(xs[i].cipherText, xs[i].iv))
  {
    if |xs| == 0 then Ok([])
    else
      var x := xs[0];
      var rest := DecryptCreates(c, xs[1..]);
      assert forall i :: 1 <= i < |xs| ==> xs[i] == xs[1..][i - 1];
      match c.decrypt(EncData(x.cipherText, x.iv))
      case None => Err("decryption failed")
      case Some(txt) => if rest.Err? then rest else Ok([Create(x.id, x.createdAt, x.updatedAt, txt)] + rest.value)
  }

  function DecryptUpdates(c: Cipher, xs: seq<EncUpdate>): (r: Result<seq<Update>>)
    ensures r.Ok? <==> forall i :: 0 <= i < |xs| ==> c.decrypt(EncData(xs[i].cipherText, xs[i].iv)).Some?
    ensures r.Ok? ==> |r.value| == |xs| && forall i :: 0 <= i < |xs| ==>
      r.value[i].id == xs[i].id && r.value[i].updatedAt == xs[i].updatedAt && r.value[i].version == xs[i].version &&
      Some(r.value[i].txt) == c.decrypt(EncData(xs[i].cipherText, xs[i].iv))
  {
    if |xs| == 0 then Ok([])
    else
      var x := xs[0];
      var rest := DecryptUpdates(c, xs[1..]);
      assert forall i :: 1 <= i < |xs| ==> xs[i] == xs[1..][i - 1];
      match c.decrypt(EncData(x.cipherText, x.iv))
      case None => Err("decryption failed")
      case Some(txt) => if rest.Err? then rest else Ok([Update(x.id, txt, x.updatedAt, x.version)] + rest.value)
  }

  /** `decryptSyncData`: decrypts each create and update in place, failing
      as a whole if any item fails; deletes pass through. */
  function DecryptSyncData(c: Cipher, e: EncSyncData): (r: Result<SyncData>)
    ensures r.Ok? <==> DecryptCreates(c, e.creates).Ok? && DecryptUpdates(c, e.updates).Ok?
    ensures r.Ok? ==> r.value.deletes == e.deletes && |r.value.creates| == |e.creates| && |r.value.updates| == |e.updates|
    ensures r.Ok? <==>
      (forall i :: 0 <= i < |e.creates| ==> c.decrypt(EncData(e.creates[i].cipherText, e.creates[i].iv)).Some?) &&
      (forall i :: 0 <= i < |e.updates| ==> c.decrypt(EncData(e.updates[i].cipherText, e.updates[i].iv)).Some?)
    ensures r.Ok? ==> forall i :: 0 <= i < |e.creates| ==>
      r.value.creates[i].id == e.creates[i].id && r.value.creates[i].createdAt == e.creates[i].createdAt &&
      r.value.creates[i].updatedAt == e.creates[i].updatedAt &&
      Some(r.value.creates[i].txt) == c.decrypt(EncData(e.creates[i].cipherText, e.creates[i].iv))
    ensures r.Ok? ==> forall i :: 0 <= i < |e.updates| ==>
      r.value.updates[i].id == e.updates[i].id && r.value.updates[i].updatedAt == e.updates[i].updatedAt &&
      r.value.updates[i].version == e.updates[i].version &&
      Some(r.value.updates[i].txt) == c.decrypt(EncData(e.updates[i].cipherText, e.updates[i].iv))
  {
    match (DecryptCreates(c, e.creates), DecryptUpdates(c, e.updates))
    case (Ok(creates), Ok(updates)) => Ok(SyncData(creates, updates, e.deletes))
    case (Err(m), _) => Err(m)
    case (_, Err(m)) => Err(m)
  }

  /** Decrypting what was encrypted with the same key gives the sync data
      back unchanged. */
  lemma DecryptEncrypt(c: Cipher, d: SyncData)
    requires CipherRoundTrips(c)
    ensures DecryptSyncData(c, EncryptSyncData(c, d)) == Ok(d)
  {
    var e := EncryptSyncData(c, d);
    var cs := DecryptCreates(c, e.creates);
    var us := DecryptUpdates(c, e.updates);
    assert forall i :: 0 <= i < |e.creates| ==> c.decrypt(EncData(e.creates[i].cipherText, e.creates[i].iv)) == Some(d.creates[i].txt);
    assert forall i :: 0 <= i < |e.updates| ==> c.decrypt(EncData(e.updates[i].cipherText, e.updates[i].iv)) == Some(d.updates[i].txt);
    assert cs.value == d.creates;
    assert us.value == d.updates;
  }

  /** `base64ToBin` and `calculateChecksum`. */
  datatype KeyCodec = KeyCodec(decode: string -> seq<Byte>, checksum: seq<Byte> -> nat)

  /** `calcChecksum(key, token)`: the checksum of the decoded key bytes
      followed by the decoded token bytes. */
  function CalcChecksum(kc: KeyCodec, key: string, token: string): nat {
    kc.checksum(kc.decode(key) + kc.decode(token))
  }

  predicate IsBase64Char(c: char) {
    'A' <= c <= 'Z' || 'a' <= c <= 'z' || '0' <= c <= '9' || c == '+' || c == '/'
  }

  /** The base64 format check: whole groups of four alphabet characters,
      the last group possibly ending in `=` or `==`. */
  predicate IsBase64(s: string) {
    |s| % 4 == 0 &&
    (forall i :: 0 <= i < |s| - 2 ==> IsBase64Char(s[i])) &&
    (|s| >= 2 ==>
      (IsBase64Char(s[|s| - 2]) && (IsBase64Char(s[|s| - 1]) || s[|s| - 1] == '=')) ||
      (s[|s| - 2] == '=' && s[|s| - 1] == '='))
  }

  /** Field `i` of `split(':')`, with `""` for a missing field (both are
      falsy). */
  function Field(parts: seq<string>, i: nat): string {
    if i < |parts| then parts[i] else ""
  }

  /** `isValidKeyTokenPair`. */
  predicate IsValidKeyTokenPair(kc: KeyCodec, s: string) {
    var parts := Split(s, ':');
    var key, token, checksum := Field(parts, 0), Field(parts, 1), Field(parts, 2);
    key != "" && token != "" && checksum != "" &&
    IsBase64(key) && |key| == 44 && IsBase64(token) && |token| == 24 &&
    ParseDecimal(checksum).Some? && ParseDecimal(checksum).value == CalcChecksum(kc, key, token)
  }

  /** The string the key dialog shows: `key:token:checksum`. */
  function KeyPairString(key: string, token: string, checksum: nat): string {
    key + [':'] + token + [':'] + NatToString(checksum)
  }

  lemma Base64NoColon(s: string)
    requires IsBase64(s)
    ensures ':' !in s
  {
    assert forall i :: 0 <= i < |s| ==> s[i] != ':';
  }

  lemma DigitsNoColon(s: string)
    requires AllDigits(s)
    ensures ':' !in s
  {
    assert forall i :: 0 <= i < |s| ==> s[i] != ':';
  }

  /** Splitting the dialog string on `:` recovers key, token and checksum. */
  lemma KeyPairStringSplit(key: string, token: string, checksum: nat)
    requires IsBase64(key) && IsBase64(token)
    ensures Split(KeyPairString(key, token, checksum), ':') == [key, token, NatToString(checksum)]
  {
    var parts := [key, token, NatToString(checksum)];
    Base64NoColon(key);
    Base64NoColon(token);
    DigitsNoColon(NatToString(checksum));
    assert Join(parts, ':') == KeyPairString(key, token, checksum) by {
      JoinCons(key, [token, NatToString(checksum)], ':');
      JoinCons(token, [NatToString(checksum)], ':');
      assert [key, token, NatToString(checksum)] == [key] + [token, NatToString(checksum)];
      assert [token, NatToString(checksum)] == [token] + [NatToString(checksum)];
    }
    SplitJoin(parts, ':');
  }

  /** The dialog string of a well-formed key and token validates exactly
      when it carries their checksum. */
  lemma KeyPairStringValid(kc: KeyCodec, key: string, token: string, checksum: nat)
    requires IsBase64(key) && |key| == 44 && IsBase64(token) && |token| == 24
    ensures IsValidKeyTokenPair(kc, KeyPairString(key, token, checksum)) <==> checksum == CalcChecksum(kc, key, token)
  {
    KeyPairStringSplit(key, token, checksum);
  }

  /** A string that validates names a 44-character base64 key and a
      24-character base64 token in its first two fields. */
  lemma ValidPairShape(kc: KeyCodec, s: string)
    requires IsValidKeyTokenPair(kc, s)
    ensures |Split(s, ':')| >= 3
    ensures |Split(s, ':')[0]| == 44 && IsBase64(Split(s, ':')[0])
    ensures |Split(s, ':')[1]| == 24 && IsBase64(Split(s, ':')[1])
  {
  }
}
