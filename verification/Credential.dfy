/** The stored config of a credential: encrypting its sensitive fields and reading it back. */
module Credential {
  import opened Options
  import opened ColonFormat

  /** Config values: text, or anything else, which encryption leaves alone. */
  datatype Value = Str(text: string) | Other(json: string)

  type Config = map<string, Value>

  /**
   * The ciphers under the platform key, and the unwrapping of customer-managed
   * values for an organization. `None` is an exception.
   */
  datatype Ciphers = Ciphers(
    gcmSeal: (Bytes, string) -> (Bytes, Bytes),
    gcmOpen: (Bytes, Bytes, Bytes) -> Option<string>,
    cbcOpen: (Bytes, Bytes) -> Option<string>,
    unwrap: (string, string) -> Option<string>)

  /** What GCM sealed, it opens. */
  ghost predicate Sound(c: Ciphers) {
    forall iv, text :: c.gcmOpen(iv, c.gcmSeal(iv, text).0, c.gcmSeal(iv, text).1) == Some(text)
  }

  const SENSITIVE_FIELDS: seq<string> := [
    "password", "secret", "token", "key", "client_secret", "apiKey", "accessToken", "refreshToken", "headerValue",
    "clientSecret", "bearer", "serviceAccountJson", "certificate", "privateKey", "certificatePassword",
    "secretAccessKey", "accessKeyId", "sessionToken", "tokenSecret", "tokenId"
  ]

  const PREFIX := "encrypted:"
  const GCM_PREFIX := "encrypted:gcm:"
  const KMS_PREFIX := "encrypted:kms:"

  predicate IsEncrypted(s: string) { PREFIX <= s }
  predicate IsGcm(s: string) { GCM_PREFIX <= s }
  predicate IsKms(s: string) { KMS_PREFIX <= s }

  /** `encrypted:gcm:<iv>:<tag>:<ciphertext>`, for a fresh random `iv`. */
  function EncryptValue(c: Ciphers, iv: Bytes, text: string): string {
    var (tag, ciphertext) := c.gcmSeal(iv, text);
    "encrypted:gcm:" + ToHex(iv) + ":" + ToHex(tag) + ":" + ToHex(ciphertext)
  }

  function DecryptValue(c: Ciphers, org: string, value: string): Option<string> {
    if !IsEncrypted(value) then Some(value)
    else if IsKms(value) then c.unwrap(org, value)
    else
      var parts := Split(value);
      if |parts| < 3 then None
      else if parts[1] == "gcm" then
        if |parts| != 5 then None
        else c.gcmOpen(FromHex(parts[2]), FromHex(parts[3]), FromHex(parts[4]))
      else c.cbcOpen(FromHex(parts[1]), FromHex(Join(parts[2..])))
  }

  /** What one sensitive value is stored as after encryption. */
  function EncryptedField(c: Ciphers, org: string, iv: Bytes, v: Value): Value {
    if !v.Str? || v.text == "" || IsGcm(v.text) then v
    else if !IsEncrypted(v.text) then Str(EncryptValue(c, iv, v.text))
    else
      match DecryptValue(c, org, v.text)
      case Some(plain) => Str(EncryptValue(c, iv, plain))
      case None => v
  }

  /** Encryption of the sensitive fields among `fields`; each draws its own `iv`. */
  function EncryptedConfig(c: Ciphers, org: string, ivs: string -> Bytes, fields: seq<string>, config: Config): Config {
    map k | k in config :: if k in fields then EncryptedField(c, org, ivs(k), config[k]) else config[k]
  }

  function DecryptedField(c: Ciphers, org: string, v: Value): Option<Value> {
    if v.Str? && IsEncrypted(v.text) then
      match DecryptValue(c, org, v.text)
      case Some(plain) => Some(Str(plain))
      case None => None
    else Some(v)
  }

  /** The config as its readers see it; one value that does not decrypt spoils it. */
  function DecryptedConfig(c: Ciphers, org: string, config: Config): Option<Config> {
    if exists k :: k in config && DecryptedField(c, org, config[k]).None? then None
    else Some(map k | k in config :: DecryptedField(c, org, config[k]).value)
  }

  class Credential {
    var organizationId: string
    var config: Option<Config>

    method EncryptSensitiveData(c: Ciphers, ivs: string -> Bytes)
      modifies this`config
      ensures config == match old(config)
                        case None => None
                        case Some(m) => Some(EncryptedConfig(c, organizationId, ivs, SENSITIVE_FIELDS, m))
    {
      if config.None? {
        return;
      }
      var encrypted := config.value;
      ghost var original := encrypted;
      assert EncryptedConfig(c, organizationId, ivs, SENSITIVE_FIELDS[..0], original) == original;
      for i := 0 to |SENSITIVE_FIELDS|
        invariant encrypted == EncryptedConfig(c, organizationId, ivs, SENSITIVE_FIELDS[..i], original)
      {
        var field := SENSITIVE_FIELDS[i];
        OneMoreField(c, organizationId, ivs, i, original);
        if field !in encrypted {
          continue;
        }
        var value := encrypted[field];
        if !value.Str? || value.text == "" {
          continue;
        }
        if !IsEncrypted(value.text) {
          encrypted := encrypted[field := Str(EncryptValue(c, ivs(field), value.text))];
          continue;
        }
        if IsGcm(value.text) {
          continue;
        }
        var plain := DecryptValue(c, organizationId, value.text);
        if plain.Some? {
          encrypted := encrypted[field := Str(EncryptValue(c, ivs(field), plain.value))];
        }
      }
      assert SENSITIVE_FIELDS[..|SENSITIVE_FIELDS|] == SENSITIVE_FIELDS;
      config := Some(encrypted);
    }

    method GetDecryptedConfig(c: Ciphers) returns (r: Option<Config>)
      ensures r == DecryptedConfig(c, organizationId, if config.Some? then config.value else map[])
    {
      var decrypted: Config := if config.Some? then config.value else map[];
      ghost var original := decrypted;
      var rest := decrypted.Keys;
      while rest != {}
        invariant rest <= original.Keys == decrypted.Keys
        invariant forall k :: k in original && k !in rest ==>
                  DecryptedField(c, organizationId, original[k]) == Some(decrypted[k])
        invariant forall k :: k in rest ==> decrypted[k] == original[k]
        decreases rest
      {
        var k :| k in rest;
        rest := rest - {k};
        var v := decrypted[k];
        if v.Str? && IsEncrypted(v.text) {
          var plain := DecryptValue(c, organizationId, v.text);
          if plain.None? {
            assert DecryptedField(c, organizationId, original[k]).None?;
            return None;
          }
          decrypted := decrypted[k := Str(plain.value)];
        }
      }
      assert forall k :: k in original ==> DecryptedField(c, organizationId, original[k]) == Some(decrypted[k]);
      assert DecryptedConfig(c, organizationId, original).value == decrypted;
      r := Some(decrypted);
    }

    /** Encryption through the organization's envelope; what is encrypted already stays as it is. */
    method EncryptSensitiveDataForOrg(encryptForOrg: (string, string) -> string)
      modifies this`config
      ensures config == match old(config)
                        case None => None
                        case Some(m) => Some(EnvelopedConfig(encryptForOrg, organizationId, SENSITIVE_FIELDS, m))
    {
      if config.None? {
        return;
      }
      var encrypted := config.value;
      ghost var original := encrypted;
      assert EnvelopedConfig(encryptForOrg, organizationId, SENSITIVE_FIELDS[..0], original) == original;
      for i := 0 to |SENSITIVE_FIELDS|
        invariant encrypted == EnvelopedConfig(encryptForOrg, organizationId, SENSITIVE_FIELDS[..i], original)
      {
        var field := SENSITIVE_FIELDS[i];
        OneMoreEnvelope(encryptForOrg, organizationId, i, original);
        if field !in encrypted {
          continue;
        }
        var value := encrypted[field];
        if !value.Str? || value.text == "" || IsEncrypted(value.text) {
          continue;
        }
        encrypted := encrypted[field := Str(encryptForOrg(organizationId, value.text))];
      }
      assert SENSITIVE_FIELDS[..|SENSITIVE_FIELDS|] == SENSITIVE_FIELDS;
      config := Some(encrypted);
    }
  }

  function EnvelopedField(encryptForOrg: (string, string) -> string, org: string, v: Value): Value {
    if v.Str? && v.text != "" && !IsEncrypted(v.text) then Str(encryptForOrg(org, v.text)) else v
  }

  function EnvelopedConfig(encryptForOrg: (string, string) -> string, org: string, fields: seq<string>,
                           config: Config): Config
  {
    map k | k in config :: if k in fields then EnvelopedField(encryptForOrg, org, config[k]) else config[k]
  }

  lemma SensitiveFieldsDistinct(i: nat)
    requires i < |SENSITIVE_FIELDS|
    ensures SENSITIVE_FIELDS[i] !in SENSITIVE_FIELDS[..i]
    ensures SENSITIVE_FIELDS[..i + 1] == SENSITIVE_FIELDS[..i] + [SENSITIVE_FIELDS[i]]
  {}

  lemma OneMoreField(c: Ciphers, org: string, ivs: string -> Bytes, i: nat, config: Config)
    requires i < |SENSITIVE_FIELDS|
    ensures var part, f := EncryptedConfig(c, org, ivs, SENSITIVE_FIELDS[..i], config), SENSITIVE_FIELDS[i];
            && (f in config ==> part[f] == config[f])
            && EncryptedConfig(c, org, ivs, SENSITIVE_FIELDS[..i + 1], config) ==
               if f in config then part[f := EncryptedField(c, org, ivs(f), config[f])] else part
  {
    SensitiveFieldsDistinct(i);
  }

  lemma OneMoreEnvelope(encryptForOrg: (string, string) -> string, org: string, i: nat, config: Config)
    requires i < |SENSITIVE_FIELDS|
    ensures var part, f := EnvelopedConfig(encryptForOrg, org, SENSITIVE_FIELDS[..i], config), SENSITIVE_FIELDS[i];
            && (f in config ==> part[f] == config[f])
            && EnvelopedConfig(encryptForOrg, org, SENSITIVE_FIELDS[..i + 1], config) ==
               if f in config then part[f := EnvelopedField(encryptForOrg, org, config[f])] else part
  {
    SensitiveFieldsDistinct(i);
  }

  // ---- what encryption promises ----

  /** An encrypted value has five colon-separated parts, and reads back as what was encrypted. */
  lemma DecryptsWhatItEncrypts(c: Ciphers, org: string, iv: Bytes, text: string)
    requires Sound(c)
    ensures IsGcm(EncryptValue(c, iv, text))
    ensures DecryptValue(c, org, EncryptValue(c, iv, text)) == Some(text)
  {
    var (tag, ciphertext) := c.gcmSeal(iv, text);
    var parts := ["encrypted", "gcm", ToHex(iv), ToHex(tag), ToHex(ciphertext)];
    FromToHex(iv);
    FromToHex(tag);
    FromToHex(ciphertext);
    FivePartsJoined(parts[2], parts[3], parts[4]);
    SplitJoin(parts);
    var value := EncryptValue(c, iv, text);
    assert value == Join(parts);
    assert value[10] == 'g' != KMS_PREFIX[10];
  }

  lemma FivePartsJoined(a: string, b: string, d: string)
    ensures Join(["encrypted", "gcm", a, b, d]) == "encrypted:gcm:" + a + ":" + b + ":" + d
  {
    assert Join([a, b, d]) == a + ":" + Join([b, d]);
    assert Join(["gcm", a, b, d]) == "gcm" + ":" + Join([a, b, d]) by {
      assert ["gcm", a, b, d][1..] == [a, b, d];
    }
    assert ["encrypted", "gcm", a, b, d][1..] == ["gcm", a, b, d];
    assert [a, b, d][1..] == [b, d] && [b, d][1..] == [d];
    assert "encrypted:gcm:" == "encrypted" + ":" + "gcm" + ":";
    var tail := a + ":" + b + ":" + d;
    assert Join([b, d]) == b + ":" + d;
    assert a + ":" + (b + ":" + d) == tail;
    assert "encrypted" + ":" + ("gcm" + ":" + tail) == "encrypted:gcm:" + tail;
  }

  /** One field reads the same before and after encryption, decryptable or not. */
  lemma FieldMeaningKept(c: Ciphers, org: string, iv: Bytes, v: Value)
    requires Sound(c)
    ensures DecryptedField(c, org, EncryptedField(c, org, iv, v)) == DecryptedField(c, org, v)
  {
    if v.Str? && v.text != "" && !IsGcm(v.text) {
      if !IsEncrypted(v.text) {
        DecryptsWhatItEncrypts(c, org, iv, v.text);
      } else if DecryptValue(c, org, v.text).Some? {
        DecryptsWhatItEncrypts(c, org, iv, DecryptValue(c, org, v.text).value);
      }
    }
  }

  /**
   * Encrypting the sensitive fields preserves what the config means: it
   * decrypts to the same config as before, or fails to just as before.
   */
  lemma EncryptionKeepsMeaning(c: Ciphers, org: string, ivs: string -> Bytes, config: Config)
    requires Sound(c)
    ensures DecryptedConfig(c, org, EncryptedConfig(c, org, ivs, SENSITIVE_FIELDS, config)) ==
            DecryptedConfig(c, org, config)
  {
    var after := EncryptedConfig(c, org, ivs, SENSITIVE_FIELDS, config);
    forall k | k in config
      ensures DecryptedField(c, org, after[k]) == DecryptedField(c, org, config[k])
    {
      FieldMeaningKept(c, org, ivs(k), config[k]);
    }
    SameFieldsSameMeaning(c, org, config, after);
  }

  lemma SameFieldsSameMeaning(c: Ciphers, org: string, a: Config, b: Config)
    requires a.Keys == b.Keys
    requires forall k :: k in a ==> DecryptedField(c, org, b[k]) == DecryptedField(c, org, a[k])
    ensures DecryptedConfig(c, org, a) == DecryptedConfig(c, org, b)
  {
    if k :| k in a && DecryptedField(c, org, a[k]).None? {
      assert DecryptedField(c, org, b[k]).None?;
    } else {
      assert DecryptedConfig(c, org, a).value == DecryptedConfig(c, org, b).value;
    }
  }

  /** Encrypting twice is encrypting once, whatever the second call's random bytes. */
  lemma EncryptionSettles(c: Ciphers, org: string, ivs: string -> Bytes, ivs': string -> Bytes, config: Config)
    requires Sound(c)
    ensures var once := EncryptedConfig(c, org, ivs, SENSITIVE_FIELDS, config);
            EncryptedConfig(c, org, ivs', SENSITIVE_FIELDS, once) == once
  {
    var once := EncryptedConfig(c, org, ivs, SENSITIVE_FIELDS, config);
    forall k | k in config
      ensures EncryptedField(c, org, ivs'(k), EncryptedField(c, org, ivs(k), config[k])) ==
              EncryptedField(c, org, ivs(k), config[k])
    {
      EncryptedFieldForm(c, org, ivs(k), config[k]);
    }
  }

  /** A field is in the GCM format afterwards exactly when it was, or was decryptable text; other fields stay. */
  lemma EncryptedFieldForm(c: Ciphers, org: string, iv: Bytes, v: Value)
    requires Sound(c)
    ensures var after := EncryptedField(c, org, iv, v);
            if v.Str? && v.text != "" && (IsGcm(v.text) || DecryptValue(c, org, v.text).Some?)
            then after.Str? && IsGcm(after.text)
            else after == v
  {
    if v.Str? && v.text != "" && !IsGcm(v.text) {
      if !IsEncrypted(v.text) {
        DecryptsWhatItEncrypts(c, org, iv, v.text);
      } else if DecryptValue(c, org, v.text).Some? {
        DecryptsWhatItEncrypts(c, org, iv, DecryptValue(c, org, v.text).value);
      }
    }
  }

  /**
   * In a config that decrypts, every non-empty sensitive text ends up in the
   * GCM format - customer-managed values among them - and nothing else moves.
   */
  lemma EverySensitiveTextIsGcm(c: Ciphers, org: string, ivs: string -> Bytes, config: Config, k: string)
    requires Sound(c) && DecryptedConfig(c, org, config).Some? && k in config
    ensures var after := EncryptedConfig(c, org, ivs, SENSITIVE_FIELDS, config);
            && k in after
            && (k in SENSITIVE_FIELDS && config[k].Str? && config[k].text != "" ==>
               after[k].Str? && IsGcm(after[k].text))
            && (!(k in SENSITIVE_FIELDS && config[k].Str? && config[k].text != "") ==> after[k] == config[k])
  {
    assert DecryptedField(c, org, config[k]).Some?;
    EncryptedFieldForm(c, org, ivs(k), config[k]);
  }

  /** A customer-managed value that unwraps does not stay customer-managed. */
  lemma CustomerManagedBecomesPlatform(c: Ciphers, org: string, iv: Bytes, text: string)
    requires Sound(c) && IsKms(text)
    ensures var after := EncryptedField(c, org, iv, Str(text));
            after.Str? && (IsKms(after.text) <==> c.unwrap(org, text).None?)
  {
    assert text[10] == KMS_PREFIX[10] != GCM_PREFIX[10];
    EncryptedFieldForm(c, org, iv, Str(text));
    var after := EncryptedField(c, org, iv, Str(text));
    if c.unwrap(org, text).Some? {
      assert after.text[10] == GCM_PREFIX[10];
    }
  }

  /** An envelope that can be opened again. */
  ghost predicate EnvelopeOpens(c: Ciphers, encryptForOrg: (string, string) -> string, org: string) {
    forall text :: IsEncrypted(encryptForOrg(org, text)) && DecryptValue(c, org, encryptForOrg(org, text)) == Some(text)
  }

  /** The organization's envelope preserves the meaning too. */
  lemma EnvelopeKeepsMeaning(c: Ciphers, encryptForOrg: (string, string) -> string, org: string, config: Config)
    requires EnvelopeOpens(c, encryptForOrg, org)
    ensures DecryptedConfig(c, org, EnvelopedConfig(encryptForOrg, org, SENSITIVE_FIELDS, config)) ==
            DecryptedConfig(c, org, config)
  {
    var after := EnvelopedConfig(encryptForOrg, org, SENSITIVE_FIELDS, config);
    forall k | k in config
      ensures DecryptedField(c, org, after[k]) == DecryptedField(c, org, config[k])
    {
      EnvelopedFieldForm(c, encryptForOrg, org, config[k]);
    }
    SameFieldsSameMeaning(c, org, config, after);
  }

  /** And it settles at once. */
  lemma EnvelopeSettles(c: Ciphers, encryptForOrg: (string, string) -> string, org: string, config: Config)
    requires EnvelopeOpens(c, encryptForOrg, org)
    ensures var after := EnvelopedConfig(encryptForOrg, org, SENSITIVE_FIELDS, config);
            EnvelopedConfig(encryptForOrg, org, SENSITIVE_FIELDS, after) == after
  {
    forall k | k in config
      ensures EnvelopedField(encryptForOrg, org, EnvelopedField(encryptForOrg, org, config[k])) ==
              EnvelopedField(encryptForOrg, org, config[k])
    {
      EnvelopedFieldForm(c, encryptForOrg, org, config[k]);
    }
  }

  /** Plain non-empty text goes into the envelope; what is encrypted already is never touched. */
  lemma EnvelopedFieldForm(c: Ciphers, encryptForOrg: (string, string) -> string, org: string, v: Value)
    requires EnvelopeOpens(c, encryptForOrg, org)
    ensures var after := EnvelopedField(encryptForOrg, org, v);
            && DecryptedField(c, org, after) == DecryptedField(c, org, v)
            && EnvelopedField(encryptForOrg, org, after) == after
            && (v.Str? && v.text != "" ==> after.Str? && IsEncrypted(after.text))
            && (!v.Str? || v.text == "" || IsEncrypted(v.text) ==> after == v)
  {
    if v.Str? && v.text != "" && !IsEncrypted(v.text) {
      assert IsEncrypted(encryptForOrg(org, v.text));
    }
  }

  // ---- the stored formats ----

  /** Text without the prefix reads as itself, and is what gets encrypted. */
  lemma ReadsPlain(c: Ciphers, org: string, iv: Bytes, text: string)
    requires !("encrypted:" <= text)
    ensures DecryptValue(c, org, text) == Some(text)
    ensures text != "" ==> EncryptedField(c, org, iv, Str(text)) == Str(EncryptValue(c, iv, text))
  {
    GcmIsEncrypted(text);
  }

  lemma GcmIsEncrypted(text: string)
    ensures IsGcm(text) ==> IsEncrypted(text)
  {
    assert GCM_PREFIX[..|PREFIX|] == PREFIX;
  }

  /** A value in the GCM format stays; any other that decrypts is encrypted anew. */
  lemma OtherFormsMove(c: Ciphers, org: string, iv: Bytes, text: string)
    requires "encrypted:" <= text
    ensures "encrypted:gcm:" <= text ==> EncryptedField(c, org, iv, Str(text)) == Str(text)
    ensures !("encrypted:gcm:" <= text) && DecryptValue(c, org, text).Some? ==>
            EncryptedField(c, org, iv, Str(text)) == Str(EncryptValue(c, iv, DecryptValue(c, org, text).value))
  {
    assert text != "";
  }

  /** `encrypted:kms:` goes to the organization's unwrapping as it stands. */
  lemma ReadsCustomerManaged(c: Ciphers, org: string, rest: string)
    ensures DecryptValue(c, org, "encrypted:kms:" + rest) == c.unwrap(org, "encrypted:kms:" + rest)
  {
    assert KMS_PREFIX <= KMS_PREFIX + rest;
  }

  /** `encrypted:gcm:` holds the initialization vector, the tag and the ciphertext, in this order. */
  lemma ReadsGcm(c: Ciphers, org: string, iv: Bytes, tag: Bytes, ciphertext: Bytes)
    ensures DecryptValue(c, org, "encrypted:gcm:" + ToHex(iv) + ":" + ToHex(tag) + ":" + ToHex(ciphertext)) ==
            c.gcmOpen(iv, tag, ciphertext)
  {
    var parts := ["encrypted", "gcm", ToHex(iv), ToHex(tag), ToHex(ciphertext)];
    FromToHex(iv);
    FromToHex(tag);
    FromToHex(ciphertext);
    FivePartsJoined(parts[2], parts[3], parts[4]);
    SplitJoin(parts);
    assert Join(parts)[10] == 'g' != KMS_PREFIX[10];
  }

  /** Any other `encrypted:` holds the initialization vector, then the ciphertext, of the older cipher. */
  lemma ReadsLegacy(c: Ciphers, org: string, iv: Bytes, ciphertext: Bytes)
    ensures DecryptValue(c, org, LegacyText(iv, ciphertext)) == c.cbcOpen(iv, ciphertext)
  {
    var value := LegacyText(iv, ciphertext);
    FromToHex(iv);
    FromToHex(ciphertext);
    LegacySplits(ToHex(iv), ToHex(ciphertext));
    NotGcmNorKms(iv);
    LegacyIsNeither(iv, ToHex(ciphertext));
    assert Split(value)[2..] == [ToHex(ciphertext)];
  }

  function LegacyText(iv: Bytes, ciphertext: Bytes): string {
    "encrypted:" + ToHex(iv) + ":" + ToHex(ciphertext)
  }

  lemma LegacySplits(a: string, b: string)
    requires ColonFree(a) && ColonFree(b)
    ensures Split("encrypted:" + a + ":" + b) == ["encrypted", a, b]
  {
    SplitColonFree(b);
    SplitAtColon(a, b);
    SplitAtColon("encrypted", a + ":" + b);
    assert "encrypted" + ":" + (a + ":" + b) == "encrypted:" + a + ":" + b;
  }

  lemma NotGcmNorKms(iv: Bytes)
    ensures iv != [] ==> ToHex(iv)[0] in "0123456789abcdef"
    ensures ToHex(iv) != "gcm"
  {
    if iv != [] {
      HexText(iv, 0);
    }
  }

  lemma LegacyIsNeither(iv: Bytes, rest: string)
    ensures var value := "encrypted:" + ToHex(iv) + ":" + rest;
            IsEncrypted(value) && !IsGcm(value) && !IsKms(value)
  {
    var value := "encrypted:" + ToHex(iv) + ":" + rest;
    NotGcmNorKms(iv);
    assert value[10] == if iv == [] then ':' else ToHex(iv)[0];
    assert GCM_PREFIX[10] == 'g' && KMS_PREFIX[10] == 'k';
    assert PREFIX <= value;
  }

  lemma AfterPrefix(rest: string)
    ensures Split("encrypted:" + rest) == ["encrypted"] + Split(rest)
  {
    SplitAtColon("encrypted", rest);
    assert "encrypted" + ":" + rest == "encrypted:" + rest;
  }

  /** Without a colon of its own, or with the wrong number of fields after `gcm`, it does not decrypt. */
  lemma MalformedFails(c: Ciphers, org: string, rest: string)
    requires |Split(rest)| == 1 || (Split(rest)[0] == "gcm" && |Split(rest)| != 4)
    ensures DecryptValue(c, org, "encrypted:" + rest).None?
  {
    var value := "encrypted:" + rest;
    AfterPrefix(rest);
    assert PREFIX <= value && Split(value)[1] == Split(rest)[0];
    if IsKms(value) {
      KmsSplits(value);
    }
  }

  lemma KmsSplits(value: string)
    requires IsKms(value)
    ensures |Split(value)| >= 3 && Split(value)[1] == "kms"
  {
    var rest := value[|KMS_PREFIX|..];
    assert value == KMS_PREFIX + rest;
    assert value == "encrypted" + ":" + ("kms" + ":" + rest);
    SplitAtColon("encrypted", "kms" + ":" + rest);
    SplitAtColon("kms", rest);
  }

  /** The older cipher, which wrote the values this one still reads. */
  ghost predicate LegacyOpens(c: Ciphers, cbcSeal: (Bytes, string) -> Bytes) {
    forall iv, text :: c.cbcOpen(iv, cbcSeal(iv, text)) == Some(text)
  }

  /** A plain config with the fields `legacy` stored the old way. */
  function LegacyConfig(cbcSeal: (Bytes, string) -> Bytes, ivs: string -> Bytes, legacy: set<string>, config: Config)
    : Config
  {
    map k | k in config ::
      if k in legacy && config[k].Str? then Str(LegacyText(ivs(k), cbcSeal(ivs(k), config[k].text))) else config[k]
  }

  /**
   * Rows written the old way read as the plain config they were written from,
   * before and after the encryption that moves them to the new format.
   */
  lemma LegacyRowsKeepWorking(c: Ciphers, org: string, cbcSeal: (Bytes, string) -> Bytes, ivs: string -> Bytes,
                              ivs': string -> Bytes, legacy: set<string>, config: Config)
    requires Sound(c) && LegacyOpens(c, cbcSeal)
    requires forall k :: k in config && config[k].Str? ==> !IsEncrypted(config[k].text)
    ensures var stored := LegacyConfig(cbcSeal, ivs, legacy, config);
            && DecryptedConfig(c, org, stored) == Some(config)
            && DecryptedConfig(c, org, EncryptedConfig(c, org, ivs', SENSITIVE_FIELDS, stored)) == Some(config)
  {
    var stored := LegacyConfig(cbcSeal, ivs, legacy, config);
    forall k | k in config
      ensures DecryptedField(c, org, stored[k]) == Some(config[k])
    {
      if k in legacy && config[k].Str? {
        ReadsLegacy(c, org, ivs(k), cbcSeal(ivs(k), config[k].text));
        LegacyIsNeither(ivs(k), ToHex(cbcSeal(ivs(k), config[k].text)));
      }
    }
    assert DecryptedConfig(c, org, stored).value == config;
    EncryptionKeepsMeaning(c, org, ivs', stored);
  }

  /** And every one of them that is sensitive is in the new format then. */
  lemma LegacyRowsMove(c: Ciphers, org: string, cbcSeal: (Bytes, string) -> Bytes, iv: Bytes, iv': Bytes, text: string)
    requires Sound(c) && LegacyOpens(c, cbcSeal)
    ensures EncryptedField(c, org, iv', Str(LegacyText(iv, cbcSeal(iv, text)))) == Str(EncryptValue(c, iv', text))
  {
    ReadsLegacy(c, org, iv, cbcSeal(iv, text));
    LegacyIsNeither(iv, ToHex(cbcSeal(iv, text)));
  }

  /** For one: the vector is the byte 10, the ciphertext the byte 255. */
  lemma LegacyExample(c: Ciphers, org: string)
    ensures DecryptValue(c, org, "encrypted:0a:ff") == c.cbcOpen([10], [255])
  {
    ReadsLegacy(c, org, [10], [255]);
    assert ToHex([10]) == "0a" + ToHex([]) && ToHex([255]) == "ff" + ToHex([]);
    assert LegacyText([10], [255]) == "encrypted:0a:ff";
  }
}
