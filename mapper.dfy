/**
 * The mapper (DynamoDBMapper): projection lookups, the item key and item
 * attributes built from partition keys, and the pagination cursor, which is
 * the last evaluated key encrypted with AES and framed as IV ‖ ciphertext
 * in base64.
 */
module Mapper {
  import opened Common
  import opened Values
  import opened PartitionKeys
  import opened QueryVars
  import opened Projections

  newtype byte = b: int | 0 <= b < 256

  /**
   * The library calls the cursor goes through: Convert.FromBase64String
   * (which rejects malformed text), Convert.ToBase64String, and AES in its
   * default mode over the UTF-8 JSON text of the key (LitJson), given a
   * key and an IV; both AES directions fail on an unusable input.
   * `setKey` is the Aes.Key setter, which throws a CryptographicException
   * for a key of a size AES does not take, before any other AES step.
   */
  datatype Cipher = Cipher(
    fromBase64: string -> Result<seq<byte>>,
    toBase64: seq<byte> -> string,
    setKey: seq<byte> -> Result<()>,
    encrypt: (seq<byte>, seq<byte>, AttrMap) -> Result<seq<byte>>,
    decrypt: (seq<byte>, seq<byte>, seq<byte>) -> Result<AttrMap>)

  /** aesAlg.BlockSize / 8: AES works on 128-bit blocks, so its IV is 16 bytes. */
  const IvLength: nat := 128 / 8

  /** MapFromEvaluatedKey(evaluatedKey, encryptionKey), with `iv` the IV GenerateIV produced. */
  function EncodeCursor(evaluatedKey: Option<AttrMap>, encryptionKey: string, c: Cipher, iv: seq<byte>): Result<Option<string>>
  {
    if encryptionKey == "" || evaluatedKey.None? || |evaluatedKey.value| == 0 then Success(None)
    else
      var key :- c.fromBase64(encryptionKey);
      var _ :- c.setKey(key);
      var encrypted :- c.encrypt(key, iv, evaluatedKey.value);
      Success(Some(c.toBase64(iv + encrypted)))
  }

  /**
   * MapToEvaluatedKeyAttributes(evaluatedKey, decryptionKey): the first
   * IvLength bytes are the IV and the rest the ciphertext; once the key is
   * set, a shorter input makes the ciphertext buffer's length negative, an
   * OverflowException.
   */
  function DecodeCursor(evaluatedKey: Option<string>, decryptionKey: string, c: Cipher): Result<Option<AttrMap>>
  {
    if NullOrEmpty(evaluatedKey) || decryptionKey == "" then Success(None)
    else
      var combined :- c.fromBase64(evaluatedKey.value);
      var key :- c.fromBase64(decryptionKey);
      var _ :- c.setKey(key);
      if |combined| < IvLength then Failure(Overflow)
      else
        var item :- c.decrypt(key, combined[..IvLength], combined[IvLength..]);
        Success(Some(item))
  }

  /**
   * The decryption key is set before the frame is measured: a key AES does
   * not take is reported whatever the cursor's length, and only a usable key
   * gets as far as the Overflow of a cursor shorter than the IV.
   */
  lemma KeyBeforeFrame(cursor: string, decryptionKey: string, c: Cipher)
    requires cursor != "" && decryptionKey != ""
    requires c.fromBase64(cursor).Success? && c.fromBase64(decryptionKey).Success?
    ensures var keySet := c.setKey(c.fromBase64(decryptionKey).value);
      && (keySet.Failure? ==> DecodeCursor(Some(cursor), decryptionKey, c) == Failure(keySet.error))
      && (keySet.Success? && |c.fromBase64(cursor).value| < IvLength ==>
            DecodeCursor(Some(cursor), decryptionKey, c) == Failure(Overflow))
  {
  }

  /** Splitting a framed cursor at IvLength gives back its IV and its ciphertext. */
  lemma FrameSplits(iv: seq<byte>, encrypted: seq<byte>)
    requires |iv| == IvLength
    ensures |iv + encrypted| >= IvLength
    ensures (iv + encrypted)[..IvLength] == iv && (iv + encrypted)[IvLength..] == encrypted
  {
  }

  /**
   * A cursor handed out for a non-empty key decodes, under the same key, to
   * that key, whenever base64 decoding inverts encoding and decryption
   * inverts encryption.
   */
  lemma CursorRoundTrip(evaluatedKey: AttrMap, key: string, c: Cipher, iv: seq<byte>)
    requires |iv| == IvLength && key != "" && |evaluatedKey| > 0
    requires forall b :: c.fromBase64(c.toBase64(b)) == Success(b)
    requires forall b :: |b| > 0 ==> c.toBase64(b) != ""
    requires forall k, v, item :: c.encrypt(k, v, item).Success? ==> c.decrypt(k, v, c.encrypt(k, v, item).value) == Success(item)
    requires c.fromBase64(key).Success? && c.setKey(c.fromBase64(key).value).Success?
    requires c.encrypt(c.fromBase64(key).value, iv, evaluatedKey).Success?
    ensures var cursor := EncodeCursor(Some(evaluatedKey), key, c, iv);
      cursor.Success? && cursor.value.Some? && DecodeCursor(cursor.value, key, c) == Success(Some(evaluatedKey))
  {
    var k := c.fromBase64(key).value;
    var encrypted := c.encrypt(k, iv, evaluatedKey).value;
    var text := c.toBase64(iv + encrypted);
    assert EncodeCursor(Some(evaluatedKey), key, c, iv) == Success(Some(text));
    FrameSplits(iv, encrypted);
    assert c.fromBase64(text) == Success(iv + encrypted) && text != "";
    assert c.decrypt(k, iv, encrypted) == Success(evaluatedKey);
    assert DecodeCursor(Some(text), key, c) == Success(Some(evaluatedKey));
  }

  /** The cursor is absent exactly when the key is empty or there is no last evaluated key. */
  lemma NoCursorWhenNothingLeft(evaluatedKey: Option<AttrMap>, key: string, c: Cipher, iv: seq<byte>)
    ensures (key == "" || evaluatedKey.None? || |evaluatedKey.value| == 0) <==>
            EncodeCursor(evaluatedKey, key, c, iv) == Success(None)
  {
  }

  /** The item key MapToKeyAttributes builds, added to `acc`, and the allocator after it. */
  function KeyAttributes(keys: seq<PartitionKey>, st: Vars, acc: AttrMap): (AttrMap, Vars)
    decreases |keys|
  {
    if |keys| == 0 then (acc, st)
    else
      var (alias, st1) := AliasName(st, keys[0].attributeName);
      KeyAttributes(keys[1..], st1, acc[alias := S(keys[0].attributeValue)])
  }

  /** The attributes MapToAttributes sets over the mapped record, one string attribute per key name. */
  function WithKeys(item: AttrMap, keys: seq<PartitionKey>): AttrMap
    decreases |keys|
  {
    if |keys| == 0 then item
    else WithKeys(item[keys[0].attributeName := S(keys[0].attributeValue)], keys[1..])
  }

  /** The value of the last key named `name`. */
  function LastValue(keys: seq<PartitionKey>, name: string): Option<string>
    decreases |keys|
  {
    if |keys| == 0 then None
    else
      var later := LastValue(keys[1..], name);
      if later.Some? then later
      else if keys[0].attributeName == name then Some(keys[0].attributeValue)
      else None
  }

  /**
   * MapToAttributes: every key name ends up holding its last key's value as
   * a string attribute, and every other attribute is the mapped record's.
   */
  lemma {:induction false} WithKeysSpec(item: AttrMap, keys: seq<PartitionKey>)
    ensures var r := WithKeys(item, keys);
      forall n :: (n in r <==> n in item || LastValue(keys, n).Some?)
        && (LastValue(keys, n).Some? ==> r[n] == S(LastValue(keys, n).value))
        && (LastValue(keys, n).None? && n in item ==> r[n] == item[n])
    decreases |keys|
  {
    if |keys| > 0 {
      WithKeysSpec(item[keys[0].attributeName := S(keys[0].attributeValue)], keys[1..]);
    }
  }

  /**
   * `m` is the item key for `keys` over `acc` as seen through the name
   * table `names`: an alias of a key name holds the last value given for
   * that name, and any other alias keeps what `acc` had.
   */
  ghost predicate Carries(keys: seq<PartitionKey>, names: map<string, string>, m: AttrMap, acc: AttrMap)
  {
    forall a :: a in names ==>
      && (LastValue(keys, names[a]).Some? ==> a in m && m[a] == S(LastValue(keys, names[a]).value))
      && (LastValue(keys, names[a]).None? ==> (a in m <==> a in acc) && (a in acc ==> m[a] == acc[a]))
  }

  /** Adding the first key to the accumulator, under its own alias, keeps Carries for the whole sequence. */
  lemma CarriesStep(keys: seq<PartitionKey>, names: map<string, string>, m: AttrMap, acc: AttrMap, alias: string)
    requires |keys| > 0
    requires alias in names && names[alias] == keys[0].attributeName
    requires forall a :: a in names && names[a] == keys[0].attributeName ==> a == alias
    requires Carries(keys[1..], names, m, acc[alias := S(keys[0].attributeValue)])
    ensures Carries(keys, names, m, acc)
  {
    forall a | a in names
      ensures && (LastValue(keys, names[a]).Some? ==> a in m && m[a] == S(LastValue(keys, names[a]).value))
              && (LastValue(keys, names[a]).None? ==> (a in m <==> a in acc) && (a in acc ==> m[a] == acc[a]))
    {
      if names[a] != keys[0].attributeName {
        assert a != alias;
      }
    }
  }

  /** Every key name has an alias in `aliases`. */
  ghost predicate AllAliased(keys: seq<PartitionKey>, aliases: map<string, string>)
  {
    forall i :: 0 <= i < |keys| ==> keys[i].attributeName in aliases
  }

  lemma AllAliasedStep(keys: seq<PartitionKey>, aliases: map<string, string>)
    requires |keys| > 0 && keys[0].attributeName in aliases && AllAliased(keys[1..], aliases)
    ensures AllAliased(keys, aliases)
  {
    forall i | 0 < i < |keys| ensures keys[i].attributeName in aliases {
      assert keys[1..][i - 1] == keys[i];
    }
  }

  /**
   * MapToKeyAttributes: the key of the item, keyed by the name aliases. An
   * alias of a key name maps to the last value given for that name; any
   * other alias keeps what `acc` had; every key name is aliased and only
   * the name tables of the allocator change.
   */
  lemma {:induction false} KeyAttributesSpec(keys: seq<PartitionKey>, st: Vars, acc: AttrMap)
    requires NamesInv(st)
    requires forall a :: a in acc ==> a in st.attributeNames
    ensures var (m, st') := KeyAttributes(keys, st, acc);
      && NamesInv(st') && NamesExtend(st, st') && NamesOnly(st, st')
      && AllAliased(keys, st'.attributeNameAliases)
      && (forall a :: a in m ==> a in st'.attributeNames)
      && Carries(keys, st'.attributeNames, m, acc)
    decreases |keys|
  {
    if |keys| > 0 {
      var k := keys[0];
      var (alias, st1) := AliasName(st, k.attributeName);
      AliasNameExtends(st, k.attributeName);
      var acc1 := acc[alias := S(k.attributeValue)];
      KeyAttributesSpec(keys[1..], st1, acc1);
      var (m, st') := KeyAttributes(keys[1..], st1, acc1);
      assert KeyAttributes(keys, st, acc) == (m, st');
      NamesExtendTransitive(st, st1, st');
      AllAliasedStep(keys, st'.attributeNameAliases);
      CarriesStep(keys, st'.attributeNames, m, acc, alias);
    }
  }

  /** A name some key carries has a last value. */
  lemma {:induction false} LastValueFound(keys: seq<PartitionKey>, i: nat)
    requires i < |keys|
    ensures LastValue(keys, keys[i].attributeName).Some?
    decreases |keys|
  {
    if i > 0 && LastValue(keys[1..], keys[i].attributeName).None? {
      assert keys[1..][i - 1] == keys[i];
      LastValueFound(keys[1..], i - 1);
    }
  }

  /** Carries over an empty accumulator: every alias in `m` is one of a key name. */
  lemma CarriesFromEmpty(keys: seq<PartitionKey>, names: map<string, string>, m: AttrMap)
    requires Carries(keys, names, m, map[]) && forall a :: a in m ==> a in names
    ensures forall a :: a in m ==> a in names && LastValue(keys, names[a]).Some?
  {
  }

  /** Carries read at the alias of a name that has a last value. */
  lemma CarriesAt(keys: seq<PartitionKey>, names: map<string, string>, m: AttrMap, alias: string)
    requires Carries(keys, names, m, map[]) && alias in names && LastValue(keys, names[alias]).Some?
    ensures alias in m && m[alias] == S(LastValue(keys, names[alias]).value)
  {
  }

  /**
   * The item key MapToKeyAttributes returns holds one attribute per
   * distinct key name, under that name's alias, with the last value given
   * for the name, and nothing else.
   */
  lemma ItemKeyShape(keys: seq<PartitionKey>, st: Vars)
    requires NamesInv(st)
    ensures var (m, st') := KeyAttributes(keys, st, map[]);
      && (forall i :: 0 <= i < |keys| ==>
            && keys[i].attributeName in st'.attributeNameAliases
            && LastValue(keys, keys[i].attributeName).Some?
            && st'.attributeNameAliases[keys[i].attributeName] in m
            && m[st'.attributeNameAliases[keys[i].attributeName]] == S(LastValue(keys, keys[i].attributeName).value))
      && (forall a :: a in m ==> a in st'.attributeNames && LastValue(keys, st'.attributeNames[a]).Some?)
  {
    KeyAttributesSpec(keys, st, map[]);
    var (m, st') := KeyAttributes(keys, st, map[]);
    CarriesFromEmpty(keys, st'.attributeNames, m);
    forall i | 0 <= i < |keys|
      ensures && keys[i].attributeName in st'.attributeNameAliases
              && LastValue(keys, keys[i].attributeName).Some?
              && st'.attributeNameAliases[keys[i].attributeName] in m
              && m[st'.attributeNameAliases[keys[i].attributeName]] == S(LastValue(keys, keys[i].attributeName).value)
    {
      LastValueFound(keys, i);
      var n := keys[i].attributeName;
      assert n in st'.attributeNameAliases;
      var a := st'.attributeNameAliases[n];
      assert a in st'.attributeNames && st'.attributeNames[a] == n;
      CarriesAt(keys, st'.attributeNames, m, a);
    }
  }

  /** The mapper: the read and write projection registries it was built with. */
  class DynamoDBMapper {
    const readProjections: ProjectionStore
    const writeProjections: ProjectionStore

    constructor (readProjections: ProjectionStore, writeProjections: ProjectionStore)
      ensures this.readProjections == readProjections && this.writeProjections == writeProjections
    {
      this.readProjections := readProjections;
      this.writeProjections := writeProjections;
    }

    /** GetReadProjection(type): the read registry only. */
    function GetReadProjection(recordType: TypeName): (r: Option<Projection>)
      reads readProjections
      ensures r.Some? <==> recordType in readProjections.reg.projections
      ensures r.Some? ==> r.value == readProjections.reg.projections[recordType]
    {
      FindProjection(readProjections.reg, recordType)
    }

    /** GetWriteProjection(type): the write registry only. */
    function GetWriteProjection(recordType: TypeName): (r: Option<Projection>)
      reads writeProjections
      ensures r.Some? <==> recordType in writeProjections.reg.projections
      ensures r.Some? ==> r.value == writeProjections.reg.projections[recordType]
    {
      FindProjection(writeProjections.reg, recordType)
    }

    /**
     * MapToAttributes(record, recordId, queryVars): `mapped` is the mapper's
     * conversion of the record; the allocator it is passed is not used.
     */
    method MapToAttributes(mapped: AttrMap, partitionKeys: seq<PartitionKey>) returns (attributeValues: AttrMap)
      ensures attributeValues == WithKeys(mapped, partitionKeys)
    {
      attributeValues := mapped;
      for i := 0 to |partitionKeys|
        invariant WithKeys(mapped, partitionKeys) == WithKeys(attributeValues, partitionKeys[i..])
      {
        var partitionKey := partitionKeys[i];
        SuffixCons(partitionKeys, i);
        attributeValues := attributeValues[partitionKey.attributeName := S(partitionKey.attributeValue)];
      }
    }

    /** MapToKeyAttributes(partitionKeys, queryVars) */
    method MapToKeyAttributes(partitionKeys: seq<PartitionKey>, queryVars: QueryVariables) returns (attributeValues: AttrMap)
      requires queryVars.Valid()
      modifies queryVars
      ensures queryVars.Valid()
      ensures (attributeValues, queryVars.State()) == KeyAttributes(partitionKeys, old(queryVars.State()), map[])
    {
      attributeValues := map[];
      ghost var st0 := queryVars.State();
      for i := 0 to |partitionKeys|
        invariant queryVars.Valid()
        invariant KeyAttributes(partitionKeys, st0, map[]) == KeyAttributes(partitionKeys[i..], queryVars.State(), attributeValues)
      {
        var partitionKey := partitionKeys[i];
        SuffixCons(partitionKeys, i);
        var nameAlias := queryVars.SetAttributeNameAlias(partitionKey.attributeName);
        attributeValues := attributeValues[nameAlias := S(partitionKey.attributeValue)];
      }
    }

    /** MapFromEvaluatedKey(evaluatedKey, encryptionKey), `iv` being the IV GenerateIV produced. */
    method MapFromEvaluatedKey(evaluatedKey: Option<AttrMap>, encryptionKey: string, c: Cipher, iv: seq<byte>)
      returns (r: Result<Option<string>>)
      requires |iv| == IvLength
      ensures r == EncodeCursor(evaluatedKey, encryptionKey, c, iv)
    {
      if encryptionKey == "" || evaluatedKey.None? || |evaluatedKey.value| == 0 {
        return Success(None);
      }
      var key :- c.fromBase64(encryptionKey);
      var _ :- c.setKey(key);
      var encryptedBytes :- c.encrypt(key, iv, evaluatedKey.value);
      var combinedBytes := new byte[|iv| + |encryptedBytes|];
      for k := 0 to |iv|
        invariant forall j :: 0 <= j < k ==> combinedBytes[j] == iv[j]
      {
        combinedBytes[k] := iv[k];
      }
      for k := 0 to |encryptedBytes|
        invariant forall j :: 0 <= j < |iv| ==> combinedBytes[j] == iv[j]
        invariant forall j :: 0 <= j < k ==> combinedBytes[|iv| + j] == encryptedBytes[j]
      {
        combinedBytes[|iv| + k] := encryptedBytes[k];
      }
      assert combinedBytes[..] == iv + encryptedBytes;
      r := Success(Some(c.toBase64(combinedBytes[..])));
    }

    /** MapToEvaluatedKeyAttributes(evaluatedKey, decryptionKey) */
    method MapToEvaluatedKeyAttributes(evaluatedKey: Option<string>, decryptionKey: string, c: Cipher)
      returns (r: Result<Option<AttrMap>>)
      ensures r == DecodeCursor(evaluatedKey, decryptionKey, c)
    {
      if NullOrEmpty(evaluatedKey) || decryptionKey == "" {
        return Success(None);
      }
      var combined :- c.fromBase64(evaluatedKey.value);
      var key :- c.fromBase64(decryptionKey);
      var _ :- c.setKey(key);
      var iv := new byte[IvLength];
      if |combined| < IvLength {
        return Failure(Overflow);
      }
      var encryptedBytes := new byte[|combined| - IvLength];
      for k := 0 to IvLength
        invariant forall j :: 0 <= j < k ==> iv[j] == combined[j]
      {
        iv[k] := combined[k];
      }
      for k := 0 to encryptedBytes.Length
        invariant forall j :: 0 <= j < IvLength ==> iv[j] == combined[j]
        invariant forall j :: 0 <= j < k ==> encryptedBytes[j] == combined[IvLength + j]
      {
        encryptedBytes[k] := combined[IvLength + k];
      }
      assert iv[..] == combined[..IvLength];
      assert encryptedBytes[..] == combined[IvLength..];
      var item :- c.decrypt(key, iv[..], encryptedBytes[..]);
      r := Success(Some(item));
    }
  }
}
