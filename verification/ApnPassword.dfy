/** APN passwords are encrypted when written and decrypted when an edited row is read.  The block
    cipher is abstract; its padding and the layout of the result are not. */
module ApnPassword {
  import opened Common

  type byte = b: int | 0 <= b < 256

  type Bytes = seq<byte>

  const BLOCK := 16
  const IV_SIZE := 16
  const AES_COMMON_SIZE := 1024

  /** The longest password whose ciphertext and initialisation vector fit the buffer. */
  const LONGEST := 1007

  datatype Cipher = Cipher(encrypt: (Bytes, Bytes) -> Bytes, decrypt: (Bytes, Bytes) -> Bytes)

  /** Encryption keeps the length of whole blocks and decryption undoes it. */
  ghost predicate Invertible(cipher: Cipher) {
    forall iv: Bytes, blocks: Bytes ::
      |blocks| % BLOCK == 0 ==>
      |cipher.encrypt(iv, blocks)| == |blocks| && cipher.decrypt(iv, cipher.encrypt(iv, blocks)) == blocks
  }

  // ---------------------------------------------------------------- padding, section 6.3 of RFC 5652

  function Pad(m: Bytes): (p: Bytes)
    ensures |p| % BLOCK == 0 && |p| == (|m| / BLOCK + 1) * BLOCK && m <= p
    ensures forall i :: |m| <= i < |p| ==> p[i] as int == |p| - |m|
  {
    m + seq(BLOCK - |m| % BLOCK, _ => (BLOCK - |m| % BLOCK) as byte)
  }

  function Unpad(p: Bytes): Option<Bytes> {
    if |p| == 0 || |p| % BLOCK != 0 then None
    else
      var count := p[|p| - 1] as int;
      if count < 1 || count > BLOCK || exists i :: |p| - count <= i < |p| && p[i] as int != count then None
      else Some(p[..|p| - count])
  }

  lemma UnpadPad(m: Bytes)
    ensures Unpad(Pad(m)) == Some(m)
  {
    var count := BLOCK - |m| % BLOCK;
    assert Pad(m)[|Pad(m)| - 1] as int == count;
    assert Pad(m)[..|m|] == m;
  }

  // ---------------------------------------------------------------- the specification of both directions

  /** Ciphertext, then the initialisation vector; nothing for an empty password or one that is too long. */
  function Encrypted(cipher: Cipher, iv: Bytes, pwd: Bytes): Bytes {
    if pwd == [] || |Pad(pwd)| + IV_SIZE > AES_COMMON_SIZE then [] else cipher.encrypt(iv, Pad(pwd)) + iv
  }

  function Decrypted(cipher: Cipher, blob: Bytes): Bytes {
    if |blob| < IV_SIZE then []
    else
      var iv := blob[|blob| - IV_SIZE..];
      match Unpad(cipher.decrypt(iv, blob[..|blob| - IV_SIZE]))
      case None => []
      case Some(m) => if |m| > AES_COMMON_SIZE then [] else m
  }

  lemma EncryptedIsEmptyIff(cipher: Cipher, iv: Bytes, pwd: Bytes)
    requires Invertible(cipher) && |iv| == IV_SIZE
    ensures Encrypted(cipher, iv, pwd) == [] <==> pwd == [] || |pwd| > LONGEST
  {
    assert (|pwd| / BLOCK + 1) * BLOCK + IV_SIZE > AES_COMMON_SIZE <==> |pwd| > LONGEST;
  }

  lemma DecryptEncrypt(cipher: Cipher, iv: Bytes, pwd: Bytes)
    requires Invertible(cipher) && |iv| == IV_SIZE && |pwd| <= LONGEST
    ensures Decrypted(cipher, Encrypted(cipher, iv, pwd)) == pwd
  {
    if pwd != [] {
      EncryptedIsEmptyIff(cipher, iv, pwd);
      var blob := Encrypted(cipher, iv, pwd);
      assert blob[|blob| - IV_SIZE..] == iv;
      assert blob[..|blob| - IV_SIZE] == cipher.encrypt(iv, Pad(pwd));
      UnpadPad(pwd);
    }
  }

  /** What is decrypted is everything but the last sixteen bytes, with those as initialisation vector. */
  lemma DecryptsUpToVector(cipher: Cipher, text: Bytes, iv: Bytes, m: Bytes)
    requires |iv| == IV_SIZE && cipher.decrypt(iv, text) == Pad(m)
    ensures Decrypted(cipher, text + iv) == if |m| <= 1024 then m else []
  {
    var blob := text + iv;
    assert blob[|blob| - IV_SIZE..] == iv && blob[..|blob| - IV_SIZE] == text;
    UnpadPad(m);
  }

  // ---------------------------------------------------------------- the encryption utility

  /** The key store; unless it is reliable any of its calls may fail. */
  class Hks {
    const cipher: Cipher
    const reliable: bool

    constructor (cipher: Cipher, reliable: bool)
      ensures this.cipher == cipher && this.reliable == reliable
    {
      this.cipher, this.reliable := cipher, reliable;
    }

    method GenerateRandom() returns (ok: bool, iv: Bytes)
      ensures |iv| == IV_SIZE && (reliable ==> ok)
    {
      var random: array<byte> := new byte[IV_SIZE];
      var fails: bool := *;
      ok, iv := reliable || !fails, random[..];
    }

    /** Encrypts into the buffer, if the padded text fits. */
    method FinishEncrypt(iv: Bytes, inData: Bytes, outData: array<byte>) returns (ok: bool, size: nat)
      requires Invertible(cipher)
      modifies outData
      ensures ok ==> size == |Pad(inData)| <= outData.Length && outData[..size] == cipher.encrypt(iv, Pad(inData))
      ensures reliable ==> (ok <==> |Pad(inData)| <= outData.Length)
    {
      var fails: bool := *;
      var text := cipher.encrypt(iv, Pad(inData));
      if |text| > outData.Length || (fails && !reliable) {
        return false, 0;
      }
      forall i | 0 <= i < |text| { outData[i] := text[i]; }
      ok, size := true, |text|;
    }

    method FinishDecrypt(iv: Bytes, inData: Bytes, outData: array<byte>) returns (ok: bool, size: nat)
      modifies outData
      ensures ok ==> size <= outData.Length && Unpad(cipher.decrypt(iv, inData)) == Some(outData[..size])
      ensures reliable && !ok ==> var m := Unpad(cipher.decrypt(iv, inData)); m.None? || |m.value| > outData.Length
    {
      var fails: bool := *;
      var unpadded := Unpad(cipher.decrypt(iv, inData));
      if unpadded.None? || |unpadded.value| > outData.Length || (fails && !reliable) {
        return false, 0;
      }
      var text := unpadded.value;
      forall i | 0 <= i < |text| { outData[i] := text[i]; }
      ok, size := true, |text|;
      assert outData[..size] == text;
    }
  }

  method AesCbcPkcs7Encrypt(hks: Hks, inData: Bytes, outData: array<byte>)
    returns (ok: bool, size: nat, ghost iv: Bytes)
    requires Invertible(hks.cipher) && outData.Length == AES_COMMON_SIZE
    modifies outData
    ensures ok ==> size == |Pad(inData)| + IV_SIZE <= AES_COMMON_SIZE && |iv| == IV_SIZE
    ensures ok ==> outData[..size] == hks.cipher.encrypt(iv, Pad(inData)) + iv
    ensures hks.reliable ==> |iv| == IV_SIZE && (ok <==> |Pad(inData)| + IV_SIZE <= AES_COMMON_SIZE)
  {
    var random;
    ok, random := hks.GenerateRandom();
    iv := random;
    if !ok {
      return false, 0, iv;
    }
    ok, size := hks.FinishEncrypt(random, inData, outData);
    if !ok {
      return false, 0, iv;
    }
    if size + IV_SIZE > AES_COMMON_SIZE {
      return false, size, iv;
    }
    ghost var text := outData[..size];
    forall i | 0 <= i < IV_SIZE { outData[size + i] := random[i]; }
    assert outData[..size + IV_SIZE] == text + iv;
    size := size + IV_SIZE;
  }

  /** What is stored for a password: what decryption undoes, or nothing. */
  method EncryptData(hks: Hks, pwd: Bytes) returns (result: Bytes, ghost iv: Bytes)
    requires Invertible(hks.cipher)
    ensures result != [] ==> |iv| == IV_SIZE && result == Encrypted(hks.cipher, iv, pwd)
    ensures result != [] ==> Decrypted(hks.cipher, result) == pwd
    ensures hks.reliable ==> (result == [] <==> pwd == [] || |pwd| > LONGEST)
  {
    result, iv := [], [];
    if pwd == [] {
      return;
    }
    var outData: array<byte> := new byte[AES_COMMON_SIZE];
    var ok, size;
    ok, size, iv := AesCbcPkcs7Encrypt(hks, pwd, outData);
    if |iv| == IV_SIZE {
      EncryptedIsEmptyIff(hks.cipher, iv, pwd);
    }
    if !ok {
      return;
    }
    for i := 0 to size
      invariant result == outData[..i]
    {
      result := result + [outData[i]];
    }
    DecryptEncrypt(hks.cipher, iv, pwd);
  }

  method DecryptData(hks: Hks, blob: Bytes) returns (result: Bytes)
    ensures result == Decrypted(hks.cipher, blob) || (result == [] && !hks.reliable)
  {
    if |blob| < IV_SIZE {
      return [];
    }
    var outData: array<byte> := new byte[AES_COMMON_SIZE];
    var ok, size := hks.FinishDecrypt(blob[|blob| - IV_SIZE..], blob[..|blob| - IV_SIZE], outData);
    result := if ok then outData[..size] else [];
  }

  // ---------------------------------------------------------------- rows as they are written and read

  const AUTH_PWD := "auth_pwd"
  const EDITED_STATUS := "edited"

  datatype NativeData = Null | Int(value: int) | Double(double: real) | Text(text: Bytes) | Blob(blob: Bytes)

  type ValuesBucket = map<string, NativeData>

  /** The ciphertext replaces a password that is not empty; a value of another type reads as empty. */
  method NeedUpdateValuesBucket(hks: Hks, valuesBucket: ValuesBucket)
    returns (need: bool, newValuesBucket: ValuesBucket, ghost iv: Bytes)
    requires Invertible(hks.cipher)
    ensures need <==> AUTH_PWD in valuesBucket && valuesBucket[AUTH_PWD].Text? && valuesBucket[AUTH_PWD].text != []
    ensures need ==> newValuesBucket.Keys == valuesBucket.Keys && newValuesBucket[AUTH_PWD].Blob?
    ensures need ==> forall k <- valuesBucket.Keys | k != AUTH_PWD :: newValuesBucket[k] == valuesBucket[k]
    ensures need && newValuesBucket[AUTH_PWD].blob != [] ==>
      (|iv| == IV_SIZE && newValuesBucket[AUTH_PWD].blob == Encrypted(hks.cipher, iv, valuesBucket[AUTH_PWD].text))
    ensures need && hks.reliable ==>
      (newValuesBucket[AUTH_PWD].blob == [] <==> |valuesBucket[AUTH_PWD].text| > LONGEST)
  {
    newValuesBucket, iv := map[], [];
    if AUTH_PWD !in valuesBucket || !valuesBucket[AUTH_PWD].Text? || valuesBucket[AUTH_PWD].text == [] {
      return false, map[], iv;
    }
    need := true;
    var encryptData;
    encryptData, iv := EncryptData(hks, valuesBucket[AUTH_PWD].text);
    newValuesBucket := Rebuilt(valuesBucket, AUTH_PWD, Blob(encryptData));
  }

  /** A copy of a map, entry by entry, with another value for one key. */
  method Rebuilt<K(==), V>(from: map<K, V>, key: K, value: V) returns (copy: map<K, V>)
    requires key in from
    ensures copy == from[key := value]
  {
    copy := map[];
    var keys := from.Keys;
    while keys != {}
      invariant keys <= from.Keys && copy.Keys == from.Keys - keys
      invariant forall k <- copy.Keys :: copy[k] == if k == key then value else from[k]
      decreases |keys|
    {
      var k :| k in keys;
      copy := copy[k := if k == key then value else from[k]];
      keys := keys - {k};
    }
  }

  /** The position of the first column of that name. */
  function IndexOf(columnNames: seq<string>, name: string): (i: nat)
    requires name in columnNames
    ensures i < |columnNames| && columnNames[i] == name && name !in columnNames[..i]
  {
    if columnNames[0] == name then 0 else 1 + IndexOf(columnNames[1..], name)
  }

  predicate Distinct(columnNames: seq<string>) {
    forall i, j :: 0 <= i < j < |columnNames| ==> columnNames[i] != columnNames[j]
  }

  /** A second column of the same name is left empty. */
  function Copied(columnNames: seq<string>, row: seq<NativeData>): seq<NativeData>
    requires |row| == |columnNames|
  {
    seq(|row|, j requires 0 <= j < |row| => if IndexOf(columnNames, columnNames[j]) == j then row[j] else Null)
  }

  method ToNativeRecord(columnNames: seq<string>, row: seq<NativeData>) returns (record: seq<NativeData>)
    requires |row| == |columnNames|
    ensures record == Copied(columnNames, row)
    ensures Distinct(columnNames) ==> record == row
  {
    record := seq(|columnNames|, _ => Null);
    for j := 0 to |columnNames|
      invariant |record| == |columnNames|
      invariant forall i :: 0 <= i < |record| ==>
        record[i] == if i < j && IndexOf(columnNames, columnNames[i]) == i then row[i] else Null
    {
      var columnIndex := IndexOf(columnNames, columnNames[j]);
      assert columnIndex <= j;
      record := record[columnIndex := row[columnIndex]];
    }
  }

  predicate NeedsDecryption(columnNames: seq<string>, record: seq<NativeData>)
    requires |record| == |columnNames| && AUTH_PWD in columnNames && EDITED_STATUS in columnNames
  {
    var edited := record[IndexOf(columnNames, EDITED_STATUS)];
    var pwd := record[IndexOf(columnNames, AUTH_PWD)];
    edited.Int? && edited.value != 0 && ((pwd.Text? && pwd.text != []) || (pwd.Blob? && pwd.blob != []))
  }

  /** How a reader who selected both columns sees a row. */
  function Shown(cipher: Cipher, columnNames: seq<string>, record: seq<NativeData>): seq<NativeData>
    requires |record| == |columnNames| && AUTH_PWD in columnNames && EDITED_STATUS in columnNames
  {
    if !NeedsDecryption(columnNames, record) then record
    else
      var replaceIndex := IndexOf(columnNames, AUTH_PWD);
      var pwd := record[replaceIndex];
      record[replaceIndex := Text(Decrypted(cipher, if pwd.Text? then pwd.text else pwd.blob))]
  }

  method ShowRecord(hks: Hks, columnNames: seq<string>, row: seq<NativeData>)
    returns (record: seq<NativeData>, decrypted: bool)
    requires |row| == |columnNames| && AUTH_PWD in columnNames && EDITED_STATUS in columnNames
    ensures Distinct(columnNames) ==> (decrypted <==> NeedsDecryption(columnNames, row))
    ensures Distinct(columnNames) && hks.reliable ==> record == Shown(hks.cipher, columnNames, row)
    ensures Distinct(columnNames) && !decrypted ==> record == row
  {
    record := ToNativeRecord(columnNames, row);
    decrypted := NeedsDecryption(columnNames, record);
    if decrypted {
      var replaceIndex := IndexOf(columnNames, AUTH_PWD);
      var pwd := record[replaceIndex];
      var clear := DecryptData(hks, if pwd.Text? then pwd.text else pwd.blob);
      record := record[replaceIndex := Text(clear)];
    }
  }

  /** What a query returns for the rows it selects: the rows themselves if none needs decryption. */
  method NeedUpdatePdpSharedPtrResult(hks: Hks, columnNames: seq<string>, rows: seq<seq<NativeData>>)
    returns (records: seq<seq<NativeData>>, isNeedUpdate: bool)
    requires forall row <- rows :: |row| == |columnNames|
    ensures |records| == |rows|
    ensures !(AUTH_PWD in columnNames && EDITED_STATUS in columnNames) ==> records == rows && !isNeedUpdate
    ensures hks.reliable && Distinct(columnNames) && AUTH_PWD in columnNames && EDITED_STATUS in columnNames ==>
      forall i :: 0 <= i < |rows| ==> records[i] == Shown(hks.cipher, columnNames, rows[i])
    ensures !isNeedUpdate ==> records == rows
  {
    hide Shown, NeedsDecryption;
    isNeedUpdate := false;
    if AUTH_PWD !in columnNames || EDITED_STATUS !in columnNames {
      return rows, false;
    }
    records := [];
    for i := 0 to |rows|
      invariant |records| == i
      invariant hks.reliable && Distinct(columnNames) ==>
        forall k :: 0 <= k < i ==> records[k] == Shown(hks.cipher, columnNames, rows[k])
      invariant !isNeedUpdate && Distinct(columnNames) ==> records == rows[..i]
    {
      var record, decrypted := ShowRecord(hks, columnNames, rows[i]);
      isNeedUpdate := isNeedUpdate || decrypted;
      records := records + [record];
    }
    if !isNeedUpdate {
      records := rows;
    }
  }

  /** A row written with a password and then selected shows every other cell as written; the password
      comes back exactly when the row is edited and the password is at most 1007 bytes long. */
  lemma PasswordComesBackIff(cipher: Cipher, iv: Bytes, bucket: ValuesBucket, columnNames: seq<string>)
    requires Invertible(cipher) && |iv| == IV_SIZE
    requires Distinct(columnNames) && AUTH_PWD in columnNames && EDITED_STATUS in columnNames
    requires forall name <- columnNames :: name in bucket
    requires bucket[AUTH_PWD].Text? && bucket[AUTH_PWD].text != [] && bucket[EDITED_STATUS].Int?
    ensures var pwd := bucket[AUTH_PWD].text;
      var stored := bucket[AUTH_PWD := Blob(Encrypted(cipher, iv, pwd))];
      var row := seq(|columnNames|, j requires 0 <= j < |columnNames| => stored[columnNames[j]]);
      var shown := Shown(cipher, columnNames, row);
      (forall j :: 0 <= j < |columnNames| && columnNames[j] != AUTH_PWD ==> shown[j] == bucket[columnNames[j]]) &&
      (shown[IndexOf(columnNames, AUTH_PWD)] == Text(pwd) <==> bucket[EDITED_STATUS].value != 0 && |pwd| <= LONGEST)
  {
    var pwd := bucket[AUTH_PWD].text;
    EncryptedIsEmptyIff(cipher, iv, pwd);
    if |pwd| <= LONGEST {
      DecryptEncrypt(cipher, iv, pwd);
    }
  }
}
