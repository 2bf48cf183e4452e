/** Signing-key rotation at Aegis (aegis/internal/domain/jwks.go), its distribution as a JWK Set
    (section 5 of RFC 7517, with the OKP keys of section 2 of RFC 8037), and Prism's cache of it
    (prism/internal/domain/jwks.go). Ed25519 is ideal: a signature verifies under a public key
    exactly when its signer owns that key, so a key pair is represented by its public half. */
module Jwks {
  import opened Text
  import opened Base64

  type PublicKey = bs: seq<Byte> | |bs| == 32 witness seq(32, _ => 0)

  /** SHA-256. */
  type Sha = seq<Byte> -> PublicKey

  datatype SigningKey = SigningKey(kid: string, publicKey: PublicKey)

  datatype Jwk = Jwk(kty: string, crv: string, kid: string, x: string, use: string, alg: string)

  // ----- Keys and their published form -----

  /** The key id: base64url of the first 16 bytes of the public key's hash. */
  function Kid(sha: Sha, pub: PublicKey): string
  {
    EncodeRaw(Url, sha(pub)[..16])
  }

  function NewSigningKey(sha: Sha, pub: PublicKey): SigningKey
  {
    SigningKey(Kid(sha, pub), pub)
  }

  lemma KidShape(sha: Sha, pub: PublicKey)
    ensures |Kid(sha, pub)| == 22
  {
    EncodedShape(Url, sha(pub)[..16]);
  }

  /** A key id reads back as the first half of the public key's hash. */
  lemma KidReads(sha: Sha, pub: PublicKey)
    ensures DecodeRaw(Url, Kid(sha, pub)) == Some(sha(pub)[..16])
  {
    DecodeEncode(Url, sha(pub)[..16]);
  }

  /** What the JWKS endpoint says of a key. */
  function Entry(k: SigningKey): Jwk
  {
    Jwk("OKP", "Ed25519", k.kid, EncodeRaw(Url, k.publicKey), "sig", "EdDSA")
  }

  /** The key a fetcher reads out of an entry, or None where it skips the entry. */
  function KeyIn(j: Jwk): Option<PublicKey>
  {
    if j.kty != "OKP" || j.crv != "Ed25519" || j.kid == "" || j.x == "" then None
    else
      var bytes := DecodeRaw(Url, j.x);
      if bytes.None? || |bytes.value| != 32 then None else Some(bytes.value)
  }

  /** The keys of a response: of entries with one kid the last readable one counts. */
  function Collect(list: seq<Jwk>): map<string, PublicKey>
  {
    if list == [] then map[]
    else
      var j := list[|list| - 1];
      var before := Collect(list[..|list| - 1]);
      if KeyIn(j).Some? then before[j.kid := KeyIn(j).value] else before
  }

  /** An Ed25519 entry with an id and 32 bytes of key. */
  ghost predicate Readable(j: Jwk, pub: PublicKey)
  {
    && j.kty == "OKP" && j.crv == "Ed25519" && j.kid != "" && j.x != ""
    && DecodeRaw(Url, j.x) == Some(pub)
  }

  /** What a fetch keeps: for each id, the key of its last readable entry. */
  lemma {:induction false} CollectExactly(list: seq<Jwk>, kid: string, pub: PublicKey)
    ensures (kid in Collect(list) && Collect(list)[kid] == pub) <==> exists i :: LastReadable(list, i, kid, pub)
  {
    if list != [] {
      var n := |list| - 1;
      var before := list[..n];
      CollectExactly(before, kid, pub);
      if KeyIn(list[n]).Some? && list[n].kid == kid {
        assert LastReadable(list, n, kid, KeyIn(list[n]).value);
        forall i | LastReadable(list, i, kid, pub) ensures i == n { assert Readable(list[n], KeyIn(list[n]).value); }
      } else {
        forall i | LastReadable(before, i, kid, pub) ensures LastReadable(list, i, kid, pub) {}
        forall i | LastReadable(list, i, kid, pub) ensures i < n && LastReadable(before, i, kid, pub) {}
      }
    }
  }

  ghost predicate LastReadable(list: seq<Jwk>, i: int, kid: string, pub: PublicKey)
  {
    && 0 <= i < |list| && list[i].kid == kid && Readable(list[i], pub)
    && forall j, other | i < j < |list| && list[j].kid == kid :: !Readable(list[j], other)
  }

  /** Keys are stored under their own non-empty ids. */
  ghost predicate Filed(keys: map<string, SigningKey>)
  {
    forall kid | kid in keys :: keys[kid].kid == kid && kid != ""
  }

  ghost predicate Listed(keys: map<string, SigningKey>, j: Jwk)
  {
    exists kid :: kid in keys && j == Entry(keys[kid])
  }

  /** A response listing exactly the given keys, in any order. */
  ghost predicate Publishes(keys: map<string, SigningKey>, list: seq<Jwk>)
  {
    && (forall i | 0 <= i < |list| :: Listed(keys, list[i]))
    && (forall kid | kid in keys :: Entry(keys[kid]) in list)
  }

  function Public(keys: map<string, SigningKey>): map<string, PublicKey>
  {
    map kid | kid in keys :: keys[kid].publicKey
  }

  lemma EntryReads(k: SigningKey)
    requires k.kid != ""
    ensures KeyIn(Entry(k)) == Some(k.publicKey)
  {
    DecodeEncode(Url, k.publicKey);
    EncodedShape(Url, k.publicKey);
  }

  lemma {:induction false} CollectFrom(keys: map<string, SigningKey>, list: seq<Jwk>)
    requires Filed(keys)
    requires forall i | 0 <= i < |list| :: Listed(keys, list[i])
    ensures forall kid | kid in Collect(list) :: kid in keys && Collect(list)[kid] == keys[kid].publicKey
    ensures forall kid | kid in keys && Entry(keys[kid]) in list :: kid in Collect(list)
  {
    if list != [] {
      var n := |list| - 1;
      CollectFrom(keys, list[..n]);
      assert Listed(keys, list[n]);
      var kid :| kid in keys && list[n] == Entry(keys[kid]);
      EntryReads(keys[kid]);
      assert list == list[..n] + [list[n]];
      forall k | k in keys && Entry(keys[k]) in list ensures k in Collect(list) {
        if Entry(keys[k]) == list[n] { assert Entry(keys[k]).kid == k; }
      }
    }
  }

  /** Distribution round trip: whatever order Aegis lists its keys in, a fetcher reads back
      exactly its public keys. */
  lemma FetchOfPublished(keys: map<string, SigningKey>, list: seq<Jwk>)
    requires Filed(keys) && Publishes(keys, list)
    ensures Collect(list) == Public(keys)
  {
    CollectFrom(keys, list);
  }

  // ----- The two services -----

  class KeyManager {
    const sha: Sha
    var activeKey: SigningKey
    var keys: map<string, SigningKey>

    ghost predicate Valid()
      reads this
    {
      Filed(keys) && activeKey.kid in keys && keys[activeKey.kid] == activeKey
    }

    /** NewKeyManager, with the key pair it drew. */
    constructor (sha: Sha, pub: PublicKey)
      ensures Valid() && this.sha == sha
      ensures activeKey == NewSigningKey(sha, pub) && keys == map[activeKey.kid := activeKey]
    {
      this.sha := sha;
      var key := NewSigningKey(sha, pub);
      KidShape(sha, pub);
      activeKey, keys := key, map[key.kid := key];
    }

    method FindPublicKey(kid: string) returns (key: Option<PublicKey>)
      ensures key == if kid in keys then Some(keys[kid].publicKey) else None
    {
      if kid !in keys { return None; }
      return Some(keys[kid].publicKey);
    }

    /** RotateKey; None is a failed key generation. */
    method RotateKey(pub: Option<PublicKey>) returns (ok: bool)
      requires Valid()
      modifies this
      ensures Valid() && ok == pub.Some?
      ensures ok ==> activeKey == NewSigningKey(sha, pub.value) && keys == old(keys)[activeKey.kid := activeKey]
      ensures ok ==> activeKey.publicKey == pub.value && DecodeRaw(Url, activeKey.kid) == Some(sha(pub.value)[..16])
      ensures !ok ==> activeKey == old(activeKey) && keys == old(keys)
    {
      if pub.None? { return false; }
      var key := NewSigningKey(sha, pub.value);
      KidShape(sha, pub.value);
      KidReads(sha, pub.value);
      keys := keys[key.kid := key];
      activeKey := key;
      return true;
    }

    /** JWKSHandler's response to a GET. */
    method JwksHandler() returns (list: seq<Jwk>)
      requires Valid()
      ensures Publishes(keys, list) && |list| == |keys|
      ensures forall i | 0 <= i < |list| ::
        && list[i].kty == "OKP" && list[i].crv == "Ed25519" && list[i].use == "sig" && list[i].alg == "EdDSA"
        && list[i].kid in keys && DecodeRaw(Url, list[i].x) == Some(keys[list[i].kid].publicKey)
    {
      list := [];
      var todo := keys.Keys;
      assert |keys| == |keys.Keys|;
      while todo != {}
        invariant todo <= keys.Keys && |list| + |todo| == |keys|
        invariant forall i | 0 <= i < |list| :: Listed(keys, list[i])
        invariant forall kid | kid in keys && kid !in todo :: Entry(keys[kid]) in list
        invariant forall i | 0 <= i < |list| ::
          && list[i].kty == "OKP" && list[i].crv == "Ed25519" && list[i].use == "sig" && list[i].alg == "EdDSA"
          && list[i].kid in keys && DecodeRaw(Url, list[i].x) == Some(keys[list[i].kid].publicKey)
        decreases todo
      {
        var kid :| kid in todo;
        var sk := keys[kid];
        assert Listed(keys, Entry(sk));
        DecodeEncode(Url, sk.publicKey);
        list := list + [Jwk("OKP", "Ed25519", sk.kid, EncodeRaw(Url, sk.publicKey), "sig", "EdDSA")];
        todo := todo - {kid};
      }
    }
  }

  class JwksFetcher {
    var keys: map<string, PublicKey>
    var ready: bool

    constructor ()
      ensures keys == map[] && !ready
    {
      keys, ready := map[], false;
    }

    /** fetch; None is a request, status, read or parse error. */
    method Fetch(response: Option<seq<Jwk>>) returns (ok: bool)
      modifies this`keys
      ensures ok == (response.Some? && Collect(response.value) != map[])
      ensures keys == if ok then Collect(response.value) else old(keys)
    {
      if response.None? { return false; }
      var list := response.value;
      var fetched: map<string, PublicKey> := map[];
      for i := 0 to |list|
        invariant fetched == Collect(list[..i])
      {
        assert list[..i + 1][..i] == list[..i];
        var k := list[i];
        if k.kty != "OKP" || k.crv != "Ed25519" { continue; }
        if k.kid == "" || k.x == "" { continue; }
        var pubBytes := DecodeRaw(Url, k.x);
        if pubBytes.None? { continue; }
        if |pubBytes.value| != 32 { continue; }
        fetched := fetched[k.kid := pubBytes.value];
      }
      assert list[..|list|] == list;
      if |fetched| == 0 { return false; }
      keys := fetched;
      return true;
    }

    /** Start: the first fetch decides. */
    method Start(response: Option<seq<Jwk>>) returns (ok: bool)
      modifies this
      ensures ok == (response.Some? && Collect(response.value) != map[])
      ensures keys == if ok then Collect(response.value) else old(keys)
      ensures ready == (ok || old(ready))
    {
      ok := Fetch(response);
      if !ok { return false; }
      ready := true;
    }

    method FindPublicKey(kid: string) returns (key: Option<PublicKey>)
      ensures key == if kid in keys then Some(keys[kid]) else None
    {
      if kid !in keys { return None; }
      return Some(keys[kid]);
    }
  }

  // ----- Tokens -----

  /** A signed token: its header, the owner of the signing key, and when it is valid. */
  datatype Token = Token(alg: string, kid: Option<string>, signer: PublicKey, notBefore: int, expiresAt: int)

  /** What golang-jwt asks of the claims before the services look at them; their own check, that the expiry is
      not before now, then holds as well. */
  predicate Timely(t: Token, now: int)
  {
    t.notBefore <= now < t.expiresAt
  }

  /** Aegis's ValidateToken. */
  predicate AegisAccepts(keys: map<string, SigningKey>, t: Token, now: int)
  {
    && t.alg == "EdDSA"
    && t.kid.Some? && t.kid.value != "" && t.kid.value in keys
    && keys[t.kid.value].publicKey == t.signer
    && Timely(t, now) && !(t.expiresAt < now)
  }

  /** Prism's ValidateToken, which looks a missing kid up as the empty one. */
  predicate PrismAccepts(keys: map<string, PublicKey>, t: Token, now: int)
  {
    var kid := if t.kid.Some? then t.kid.value else "";
    && t.alg == "EdDSA"
    && kid in keys && keys[kid] == t.signer
    && Timely(t, now) && !(t.expiresAt < now)
  }

  /** The two validators agree on every token as soon as Prism holds Aegis's keys. */
  lemma ValidatorsAgree(keys: map<string, SigningKey>, t: Token, now: int)
    requires Filed(keys)
    ensures PrismAccepts(Public(keys), t, now) <==> AegisAccepts(keys, t, now)
  {
  }

  // ----- Whole runs of both services -----

  /** Aegis's keys, Prism's cache, and the response on its way between them. */
  datatype World = World(keys: map<string, SigningKey>, active: SigningKey, prism: map<string, PublicKey>,
                         flight: Option<seq<Jwk>>)

  datatype Event =
    | Rotate(pub: PublicKey)
    | Issue(notBefore: int, expiresAt: int)
    | Serve(list: seq<Jwk>)
    | Deliver
    | Lose

  ghost predicate Next(sha: Sha, w: World, e: Event, w': World)
  {
    match e
    case Rotate(pub) =>
      var key := NewSigningKey(sha, pub);
      w' == w.(keys := w.keys[key.kid := key], active := key)
    case Issue(_, _) => w' == w
    case Serve(list) => Publishes(w.keys, list) && w' == w.(flight := Some(list))
    case Deliver => w' == Delivered(w)
    case Lose => w' == w.(flight := None)
  }

  function Delivered(w: World): World
  {
    if w.flight.None? then w
    else if Collect(w.flight.value) == map[] then w.(flight := None)
    else w.(prism := Collect(w.flight.value), flight := None)
  }

  datatype KeyRun = KeyRun(sha: Sha, first: PublicKey, events: seq<Event>, states: seq<World>)

  ghost predicate IsRun(r: KeyRun)
  {
    && |r.states| == |r.events| + 1
    && r.states[0] == Boot(r.sha, r.first)
    && forall i | 0 <= i < |r.events| :: NextAt(r, i)
  }

  function Boot(sha: Sha, pub: PublicKey): World
  {
    var key := NewSigningKey(sha, pub);
    World(map[key.kid := key], key, map[], None)
  }

  ghost predicate NextAt(r: KeyRun, i: nat)
    requires i < |r.events| && |r.states| == |r.events| + 1
  {
    Next(r.sha, r.states[i], r.events[i], r.states[i + 1])
  }

  /** A rotation draws a key whose id another key already has. */
  ghost predicate CollidesAt(r: KeyRun, i: nat)
    requires i < |r.events| && |r.states| == |r.events| + 1
  {
    && r.events[i].Rotate?
    && Kid(r.sha, r.events[i].pub) in r.states[i].keys
    && r.states[i].keys[Kid(r.sha, r.events[i].pub)].publicKey != r.events[i].pub
  }

  ghost predicate Distinct(r: KeyRun)
    requires IsRun(r)
  {
    forall i | 0 <= i < |r.events| :: !CollidesAt(r, i)
  }

  /** The access or refresh token that event i issues. */
  function TokenAt(r: KeyRun, i: nat): Token
    requires i < |r.events| && |r.states| == |r.events| + 1 && r.events[i].Issue?
  {
    var key, e := r.states[i].active, r.events[i];
    Token("EdDSA", Some(key.kid), key.publicKey, e.notBefore, e.expiresAt)
  }

  ghost predicate Inv(w: World)
  {
    Filed(w.keys) && w.active.kid in w.keys && w.keys[w.active.kid] == w.active
  }

  lemma {:induction false} RunInv(r: KeyRun, n: nat)
    requires IsRun(r) && n <= |r.events|
    ensures Inv(r.states[n])
  {
    if n == 0 {
      KidShape(r.sha, r.first);
    } else {
      RunInv(r, n - 1);
      assert NextAt(r, n - 1);
      if r.events[n - 1].Rotate? { KidShape(r.sha, r.events[n - 1].pub); }
    }
  }

  /** Everything in a is in b. */
  ghost predicate Within<V(!new)>(a: map<string, V>, b: map<string, V>)
  {
    forall k | k in a :: k in b && b[k] == a[k]
  }

  lemma {:induction false} KeysGrow(r: KeyRun, i: nat, n: nat)
    requires IsRun(r) && Distinct(r) && i <= n <= |r.events|
    ensures Within(r.states[i].keys, r.states[n].keys)
  {
    if i < n {
      KeysGrow(r, i, n - 1);
      RunInv(r, n - 1);
      assert NextAt(r, n - 1) && !CollidesAt(r, n - 1);
    }
  }

  /** Aegis never forgets or changes a key throughout a run exactly when no rotation draws a key id twice. */
  lemma KeysPermanentExactly(r: KeyRun)
    requires IsRun(r)
    ensures (forall i, n | 0 <= i <= n <= |r.events| :: Within(r.states[i].keys, r.states[n].keys)) <==> Distinct(r)
  {
    if Distinct(r) {
      forall i, n | 0 <= i <= n <= |r.events| ensures Within(r.states[i].keys, r.states[n].keys) { KeysGrow(r, i, n); }
    } else {
      var i :| 0 <= i < |r.events| && CollidesAt(r, i);
      assert NextAt(r, i);
      var kid := Kid(r.sha, r.events[i].pub);
      assert r.states[i + 1].keys[kid] != r.states[i].keys[kid];
      assert !Within(r.states[i].keys, r.states[i + 1].keys);
    }
  }

  /** Every token ever issued validates at Aegis exactly from its NotBefore until its expiry, through
      any number of rotations. */
  lemma TokensStayValid(r: KeyRun, i: nat, n: nat, now: int)
    requires IsRun(r) && Distinct(r) && i < n <= |r.events| && r.events[i].Issue?
    ensures AegisAccepts(r.states[n].keys, TokenAt(r, i), now) <==> Timely(TokenAt(r, i), now)
  {
    RunInv(r, i);
    KeysGrow(r, i, n);
  }

  /** Whatever token Aegis accepts at some point of a run, it names a key by its id, and a key pair that Aegis drew
      before then signed it. */
  lemma AcceptedIsOwn(r: KeyRun, n: nat, t: Token, now: int)
    requires IsRun(r) && n <= |r.events| && AegisAccepts(r.states[n].keys, t, now)
    ensures t.kid == Some(Kid(r.sha, t.signer)) && t.notBefore <= now < t.expiresAt
    ensures t.signer == r.first || exists i | 0 <= i < n :: r.events[i] == Rotate(t.signer)
  {
    KeysDrawn(r, n, t.kid.value);
  }

  lemma {:induction false} KeysDrawn(r: KeyRun, n: nat, kid: string)
    requires IsRun(r) && n <= |r.events| && kid in r.states[n].keys
    ensures var pub := r.states[n].keys[kid].publicKey;
      kid == Kid(r.sha, pub) && (pub == r.first || exists i | 0 <= i < n :: r.events[i] == Rotate(pub))
  {
    if n > 0 {
      assert NextAt(r, n - 1);
      var pub, e := r.states[n].keys[kid].publicKey, r.events[n - 1];
      if e.Rotate? && Kid(r.sha, e.pub) == kid {
        assert r.events[n - 1] == Rotate(pub);
      } else {
        KeysDrawn(r, n - 1, kid);
      }
    }
  }

  /** The event that served the response now on its way. */
  function ServedAt(events: seq<Event>, n: nat): (at: Option<nat>)
    requires n <= |events|
    ensures at.Some? ==> at.value < n
  {
    if n == 0 then None
    else if events[n - 1].Serve? then Some(n - 1)
    else if events[n - 1].Deliver? || events[n - 1].Lose? then None
    else ServedAt(events, n - 1)
  }

  /** The event that served Prism's last successful fetch. */
  function FetchedAt(events: seq<Event>, n: nat): (at: Option<nat>)
    requires n <= |events|
    ensures at.Some? ==> at.value < n
  {
    if n == 0 then None
    else if events[n - 1].Deliver? && ServedAt(events, n - 1).Some? then ServedAt(events, n - 1)
    else FetchedAt(events, n - 1)
  }

  lemma {:induction false} FlightIsServed(r: KeyRun, n: nat)
    requires IsRun(r) && n <= |r.events|
    ensures r.states[n].flight.Some? <==> ServedAt(r.events, n).Some?
    ensures var at := ServedAt(r.events, n);
            at.Some? ==> at.value < n && Publishes(r.states[at.value].keys, r.states[n].flight.value)
  {
    if n > 0 {
      FlightIsServed(r, n - 1);
      assert NextAt(r, n - 1);
    }
  }

  /** Prism's key map is empty, or Aegis's public keys as its last successful fetch found them;
      lost and failed fetches change nothing. */
  lemma {:induction false} PrismIsSnapshot(r: KeyRun, n: nat)
    requires IsRun(r) && n <= |r.events|
    ensures match FetchedAt(r.events, n)
            case None => r.states[n].prism == map[]
            case Some(j) => j < n && r.states[n].prism == Public(r.states[j].keys) != map[]
  {
    if n > 0 {
      PrismIsSnapshot(r, n - 1);
      FlightIsServed(r, n - 1);
      assert NextAt(r, n - 1);
      if r.events[n - 1].Deliver? && ServedAt(r.events, n - 1).Some? {
        var j := ServedAt(r.events, n - 1).value;
        RunInv(r, j);
        FetchOfPublished(r.states[j].keys, r.states[n - 1].flight.value);
        assert r.states[j].active.kid in Public(r.states[j].keys);
      }
    }
  }

  lemma {:induction false} FetchesInOrder(events: seq<Event>, m: nat, n: nat)
    requires m <= n <= |events| && FetchedAt(events, m).Some?
    ensures FetchedAt(events, n).Some? && FetchedAt(events, m).value <= FetchedAt(events, n).value
    ensures ServedAt(events, n).Some? ==> FetchedAt(events, n).value <= ServedAt(events, n).value
  {
    FetchedBeforeServed(events, n);
    if m < n {
      FetchesInOrder(events, m, n - 1);
    }
  }

  lemma {:induction false} FetchedBeforeServed(events: seq<Event>, n: nat)
    requires n <= |events|
    ensures var fetched, served := FetchedAt(events, n), ServedAt(events, n);
            fetched.Some? && served.Some? ==> fetched.value < served.value
  {
    if n > 0 { FetchedBeforeServed(events, n - 1); }
  }

  /** A key Prism once knew it keeps, unchanged. */
  lemma PrismNeverForgets(r: KeyRun, m: nat, n: nat)
    requires IsRun(r) && Distinct(r) && m <= n <= |r.events|
    ensures Within(r.states[m].prism, r.states[n].prism)
  {
    PrismIsSnapshot(r, m);
    PrismIsSnapshot(r, n);
    if FetchedAt(r.events, m).Some? {
      FetchesInOrder(r.events, m, n);
      KeysGrow(r, FetchedAt(r.events, m).value, FetchedAt(r.events, n).value);
    }
  }

  /** Prism accepts an issued token exactly while it is timely and the last successful fetch
      found its key: always for a token issued before that fetch was served, and after a rotation
      not until the next one. */
  lemma PrismAcceptsExactly(r: KeyRun, i: nat, n: nat, now: int)
    requires IsRun(r) && Distinct(r) && i < n <= |r.events| && r.events[i].Issue?
    ensures PrismAccepts(r.states[n].prism, TokenAt(r, i), now) <==>
      && Timely(TokenAt(r, i), now)
      && FetchedAt(r.events, n).Some?
      && r.states[i].active.kid in r.states[FetchedAt(r.events, n).value].keys
    ensures FetchedAt(r.events, n).Some? && i <= FetchedAt(r.events, n).value ==>
      r.states[i].active.kid in r.states[FetchedAt(r.events, n).value].keys
  {
    PrismIsSnapshot(r, n);
    RunInv(r, i);
    if FetchedAt(r.events, n).Some? {
      var j := FetchedAt(r.events, n).value;
      if i <= j { KeysGrow(r, i, j); } else { KeysGrow(r, j, i); }
    }
  }

  /** Any token at all that Prism accepts at some point of a run, Aegis accepts as well. */
  lemma PrismImpliesAegis(r: KeyRun, n: nat, t: Token, now: int)
    requires IsRun(r) && Distinct(r) && n <= |r.events| && PrismAccepts(r.states[n].prism, t, now)
    ensures AegisAccepts(r.states[n].keys, t, now)
  {
    PrismIsSnapshot(r, n);
    var j := FetchedAt(r.events, n).value;
    RunInv(r, j);
    KeysGrow(r, j, n);
    ValidatorsAgree(r.states[j].keys, t, now);
  }
}
