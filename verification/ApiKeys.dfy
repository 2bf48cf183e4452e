/** prism/internal/domain/api_key.go and aegis/internal/service/service_api_key.go: API keys and
    their two readers. SHA-256 with its hex spelling is a parameter. */
module ApiKeys {
  import opened Text
  import opened Base64

  const PREFIX := "ak_"
  const SECRET_LENGTH := 32
  const DISPLAY_LENGTH := 8

  type Secret = bs: seq<Byte> | |bs| == SECRET_LENGTH witness seq(SECRET_LENGTH, _ => 0)

  type Hasher = string -> string

  /** Of an APIKey, what validation looks at. Instants are positive; 0 is Go's zero time, "never". */
  datatype ApiKey = ApiKey(keyPrefix: string, keyHash: string, active: bool, expiresAt: int)

  // ----- Making a key -----

  function Body(secret: Secret): (body: string)
  {
    EncodePadded(Url, secret)
  }

  function RawKey(secret: Secret): string
  {
    PREFIX + Body(secret)
  }

  /** generateAPIKey's lookup prefix, which is stored. */
  function StoredPrefix(secret: Secret): string
  {
    BodyShape(secret);
    PREFIX + Body(secret)[..DISPLAY_LENGTH]
  }

  function NewKey(hash: Hasher, secret: Secret, expiresAt: int): ApiKey
  {
    ApiKey(StoredPrefix(secret), hash(RawKey(secret)), true, expiresAt)
  }

  /** Every secret spells 44 characters: 43 base64url characters and one '='. */
  lemma BodyShape(secret: Secret)
    ensures |Body(secret)| == 44 && Body(secret) == EncodeRaw(Url, secret) + "="
    ensures forall c | c in Body(secret) :: Value(Url, c).Some? || c == '='
  {
    EncodedShape(Url, secret);
  }

  // ----- Reading a key -----

  /** strings.SplitN(s, sep, 2). */
  function SplitTwo(s: string, sep: char): (parts: seq<string>)
    ensures 1 <= |parts| <= 2
  {
    if s == [] then [""]
    else if s[0] == sep then ["", s[1..]]
    else
      var rest := SplitTwo(s[1..], sep);
      [[s[0]] + rest[0]] + rest[1..]
  }

  /** The lookup prefix from the parts a splitter made of a raw key. */
  function PrefixFrom(parts: seq<string>): Option<string>
  {
    if |parts| != 2 || |parts[1]| <= DISPLAY_LENGTH then None else Some(PREFIX + parts[1][..DISPLAY_LENGTH])
  }

  /** Prism's ExtractKeyPrefixForLookup splits on the first underscore. */
  function PrismPrefix(rawKey: string): Option<string>
  {
    if PREFIX <= rawKey then PrefixFrom(SplitTwo(rawKey, '_')) else None
  }

  /** Aegis's ValidateAPIKey splits on every underscore. */
  function AegisPrefix(rawKey: string): Option<string>
  {
    if PREFIX <= rawKey then PrefixFrom(Split(rawKey, '_')) else None
  }

  /** APIKey.Validate, and the same three checks in Aegis's ValidateAPIKey. */
  predicate Valid(hash: Hasher, key: ApiKey, rawKey: string, now: int)
  {
    && key.active
    && !(key.expiresAt != 0 && key.expiresAt < now)
    && hash(rawKey) == key.keyHash
  }

  /** Aegis's ValidateAPIKey over a table of keys by prefix. */
  function AegisValidate(hash: Hasher, table: map<string, ApiKey>, rawKey: string, now: int): Option<ApiKey>
  {
    var prefix := AegisPrefix(rawKey);
    if prefix.None? || prefix.value !in table then None
    else if Valid(hash, table[prefix.value], rawKey, now) then Some(table[prefix.value]) else None
  }

  /** Prism's lookup followed by Validate. */
  function PrismValidate(hash: Hasher, table: map<string, ApiKey>, rawKey: string, now: int): Option<ApiKey>
  {
    var prefix := PrismPrefix(rawKey);
    if prefix.None? || prefix.value !in table then None
    else if Valid(hash, table[prefix.value], rawKey, now) then Some(table[prefix.value]) else None
  }

  // ----- The two readers on generated keys -----

  lemma {:induction false} SplitTwoAtFirst(a: string, b: string, sep: char)
    requires sep !in a
    ensures SplitTwo(a + [sep] + b, sep) == [a, b]
  {
    var s := a + [sep] + b;
    if a == [] {
      assert s[1..] == b;
    } else {
      assert s[1..] == a[1..] + [sep] + b;
      SplitTwoAtFirst(a[1..], b, sep);
      assert [s[0]] + a[1..] == a;
    }
  }

  lemma {:induction false} SplitCount(s: string, sep: char)
    ensures |Split(s, sep)| == 1 <==> sep !in s
  {
    if s != [] { SplitCount(s[1..], sep); }
  }

  lemma RawKeyCut(secret: Secret)
    ensures RawKey(secret) == "ak" + ['_'] + Body(secret) && PREFIX <= RawKey(secret)
  {
  }

  /** Prism's extractor recovers exactly the stored prefix of every generated key. */
  lemma PrismFindsPrefix(secret: Secret)
    ensures PrismPrefix(RawKey(secret)) == Some(StoredPrefix(secret))
  {
    RawKeyCut(secret);
    BodyShape(secret);
    SplitTwoAtFirst("ak", Body(secret), '_');
  }

  /** Aegis's splitter reaches that prefix exactly when the body holds no underscore, and
      otherwise refuses the key. */
  lemma AegisFindsPrefixExactly(secret: Secret)
    ensures AegisPrefix(RawKey(secret)) == if '_' in Body(secret) then None else Some(StoredPrefix(secret))
  {
    RawKeyCut(secret);
    BodyShape(secret);
    SplitAtFirst("ak", Body(secret), '_');
    SplitCount(Body(secret), '_');
    if '_' !in Body(secret) { SplitFree(Body(secret), '_'); }
  }

  // ----- What the two readers accept, of any raw key -----

  /** Prism looks up the first eleven characters of a raw key that starts with "ak_" and is longer than that. */
  lemma PrismPrefixExactly(rawKey: string)
    ensures PrismPrefix(rawKey) == if "ak_" <= rawKey && |rawKey| > 11 then Some(rawKey[..11]) else None
  {
    if "ak_" <= rawKey {
      var body := rawKey[3..];
      assert rawKey == "ak" + ['_'] + body;
      SplitTwoAtFirst("ak", body, '_');
      if |body| > 8 { assert "ak_" + body[..8] == rawKey[..11]; }
    }
  }

  /** So does Aegis, but only if no other underscore follows. */
  lemma AegisPrefixExactly(rawKey: string)
    ensures AegisPrefix(rawKey) ==
      if "ak_" <= rawKey && |rawKey| > 11 && '_' !in rawKey[3..] then Some(rawKey[..11]) else None
  {
    if "ak_" <= rawKey {
      var body := rawKey[3..];
      assert rawKey == "ak" + ['_'] + body;
      SplitAtFirst("ak", body, '_');
      SplitCount(body, '_');
      if '_' !in body { SplitFree(body, '_'); }
      if |body| > 8 { assert "ak_" + body[..8] == rawKey[..11]; }
    }
  }

  /** The record under the raw key's first eleven characters, active, unexpired, and of the same hash. */
  ghost predicate Admits(hash: Hasher, table: map<string, ApiKey>, rawKey: string, now: int, k: ApiKey)
  {
    && "ak_" <= rawKey && |rawKey| > 11 && rawKey[..11] in table && table[rawKey[..11]] == k
    && k.active && (k.expiresAt == 0 || now <= k.expiresAt) && hash(rawKey) == k.keyHash
  }

  /** Prism accepts a raw key, whatever it is, exactly for a record that admits it. */
  lemma PrismAcceptsExactly(hash: Hasher, table: map<string, ApiKey>, rawKey: string, now: int, k: ApiKey)
    ensures PrismValidate(hash, table, rawKey, now) == Some(k) <==> Admits(hash, table, rawKey, now, k)
  {
    PrismPrefixExactly(rawKey);
  }

  /** Aegis does so exactly if moreover no further underscore follows. */
  lemma AegisAcceptsExactly(hash: Hasher, table: map<string, ApiKey>, rawKey: string, now: int, k: ApiKey)
    ensures AegisValidate(hash, table, rawKey, now) == Some(k) <==>
      Admits(hash, table, rawKey, now, k) && '_' !in rawKey[3..]
  {
    AegisPrefixExactly(rawKey);
  }

  /** Against a record made from a secret, any other raw key is accepted only through a hash collision. */
  lemma OtherKeysCollide(hash: Hasher, table: map<string, ApiKey>, secret: Secret, expiresAt: int, rawKey: string,
      now: int)
    requires rawKey != RawKey(secret)
    requires var k := NewKey(hash, secret, expiresAt);
             PrismValidate(hash, table, rawKey, now) == Some(k) || AegisValidate(hash, table, rawKey, now) == Some(k)
    ensures hash(rawKey) == hash(RawKey(secret))
  {
    PrismAcceptsExactly(hash, table, rawKey, now, NewKey(hash, secret, expiresAt));
    AegisAcceptsExactly(hash, table, rawKey, now, NewKey(hash, secret, expiresAt));
  }

  /** What is handed out and stored for a secret: "ak_" and its base64url text, the first eleven characters of that, its
      hash, and an active record. */
  lemma NewKeyMeans(hash: Hasher, secret: Secret, expiresAt: int)
    ensures RawKey(secret) == "ak_" + EncodeRaw(Url, secret) + "=" && |RawKey(secret)| == 47
    ensures NewKey(hash, secret, expiresAt) == ApiKey(RawKey(secret)[..11], hash(RawKey(secret)), true, expiresAt)
  {
    BodyShape(secret);
    assert RawKey(secret)[..11] == "ak_" + Body(secret)[..8];
  }

  /** A generated key validates at Prism exactly while its record is active and unexpired. */
  lemma PrismRoundTrip(hash: Hasher, table: map<string, ApiKey>, secret: Secret, key: ApiKey, now: int)
    requires StoredPrefix(secret) in table && table[StoredPrefix(secret)] == key
    requires key.keyHash == NewKey(hash, secret, 0).keyHash
    ensures PrismValidate(hash, table, RawKey(secret), now) ==
      if key.active && (key.expiresAt == 0 || now <= key.expiresAt) then Some(key) else None
  {
    PrismFindsPrefix(secret);
  }

  /** At Aegis it does so only if moreover its body holds no underscore. */
  lemma AegisRoundTrip(hash: Hasher, table: map<string, ApiKey>, secret: Secret, key: ApiKey, now: int)
    requires StoredPrefix(secret) in table && table[StoredPrefix(secret)] == key
    requires key.keyHash == NewKey(hash, secret, 0).keyHash
    ensures AegisValidate(hash, table, RawKey(secret), now) ==
      if '_' !in Body(secret) && key.active && (key.expiresAt == 0 || now <= key.expiresAt) then Some(key) else None
  {
    AegisFindsPrefixExactly(secret);
  }

  /** Whatever Aegis accepts Prism accepts, for any raw key and table. */
  lemma AegisImpliesPrism(hash: Hasher, table: map<string, ApiKey>, rawKey: string, now: int)
    requires AegisValidate(hash, table, rawKey, now).Some?
    ensures PrismValidate(hash, table, rawKey, now) == AegisValidate(hash, table, rawKey, now)
  {
    var body := rawKey[3..];
    assert rawKey == "ak" + ['_'] + body;
    SplitAtFirst("ak", body, '_');
    SplitTwoAtFirst("ak", body, '_');
    assert |Split(body, '_')| == 1;
    SplitCount(body, '_');
    SplitFree(body, '_');
  }

  /** Both cases occur: a secret of all ones cannot be used at Aegis. */
  lemma UnderscoreBody()
    ensures '_' in Body(seq(32, _ => 255))
  {
    var secret: Secret := seq(32, _ => 255);
    assert Pack(secret)[0] == 63;
    assert Body(secret)[0] == Char(Url, 63);
  }

  // ----- Scopes -----

  /** HasScope: a scope covers itself, and "x:*" covers everything below "x:". */
  method HasScope(scopes: seq<string>, required: string) returns (found: bool)
    ensures found <==> exists i | 0 <= i < |scopes| ::
      || scopes[i] == required
      || (|scopes[i]| >= 2 && scopes[i][|scopes[i]| - 2..] == ":*" && scopes[i][..|scopes[i]| - 1] <= required)
  {
    for i := 0 to |scopes|
      invariant forall j | 0 <= j < i ::
        && scopes[j] != required
        && !(|scopes[j]| >= 2 && scopes[j][|scopes[j]| - 2..] == ":*" && scopes[j][..|scopes[j]| - 1] <= required)
    {
      var scope := scopes[i];
      if scope == required { return true; }
      if |scope| >= 2 && scope[|scope| - 2..] == ":*" {
        var prefix := scope[..|scope| - 2];
        assert scope[..|scope| - 1] == prefix + ":" by { assert scope[|scope| - 2] == scope[|scope| - 2..][0]; }
        if prefix + ":" <= required { return true; }
      }
    }
    return false;
  }
}
