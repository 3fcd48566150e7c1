/**
 Session tokens (src/jwt.rs `validate_token`): full verification, and a
 least-recently-used cache of successful verifications keyed by the token's hash.
 Base64, JSON, SHA-256 and ECDSA are parameters.
 */
module Jwt {
  import opened Common
  import opened Recency
  import opened Text

  type Bytes = seq<nat>

  datatype Header = Header(alg: Option<string>, kid: Option<string>)

  /** The claims read from a payload; a missing or ill-typed claim is None. */
  datatype Payload = Payload(exp: Option<nat>, sub: Option<string>, groups: seq<string>)

  datatype Lib = Lib(
    base64: string -> Option<Bytes>,
    header: Bytes -> Option<Header>,
    payload: Bytes -> Option<Payload>,
    signature: Bytes -> Option<Bytes>,
    verify: (string, Bytes) -> bool,
    hash: string -> Bytes,
    kid: string)

  datatype Identity = Identity(username: string, groups: seq<string>)

  datatype JwtResult = Valid(identity: Identity) | Invalid | Expired | NotMine

  // -- Full verification -----------------------------------------------------------------

  /** Header, payload and signature texts: exactly three pieces, cut at the first two dots. */
  function Pieces(token: string): Option<(string, string, string)> {
    var parts := SplitOn(token, '.', 3);
    if |parts| == 3 then Some((parts[0], parts[1], parts[2])) else None
  }

  /** What a token says, time aside. */
  datatype Checked =
    | Rejected
    | Foreign
    | Signed(exp: nat, sub: Option<string>, groups: seq<string>)

  /** Why a header is not acceptable, if it is not: wrong algorithm, or another issuer's key. */
  function HeaderProblem(lib: Lib, text: string): Option<Checked> {
    match lib.base64(text)
    case None => Some(Rejected)
    case Some(bytes) =>
      match lib.header(bytes)
      case None => Some(Rejected)
      case Some(h) =>
        if h.alg != Some("ES256") then Some(Rejected)
        else if h.kid != Some(lib.kid) then Some(Foreign)
        else None
  }

  predicate SignatureOk(lib: Lib, signed: string, text: string) {
    match lib.base64(text)
    case None => false
    case Some(bytes) =>
      match lib.signature(bytes)
      case None => false
      case Some(sig) => lib.verify(signed, sig)
  }

  function CheckPayload(lib: Lib, text: string): Checked {
    match lib.base64(text)
    case None => Rejected
    case Some(bytes) =>
      match lib.payload(bytes)
      case None => Rejected
      case Some(p) => if p.exp.None? then Rejected else Signed(p.exp.value, p.sub, p.groups)
  }

  function Check(lib: Lib, token: string): Checked {
    match Pieces(token)
    case None => Rejected
    case Some((header, payload, sig)) =>
      var problem := HeaderProblem(lib, header);
      if problem.Some? then problem.value
      else if !SignatureOk(lib, header + "." + payload, sig) then Rejected
      else CheckPayload(lib, payload)
  }

  /** The slow path at a given time. */
  function SlowPath(lib: Lib, token: string, now: nat): JwtResult {
    match Check(lib, token)
    case Rejected => Invalid
    case Foreign => NotMine
    case Signed(exp, sub, groups) =>
      if exp <= now then Expired
      else if sub.None? then Invalid
      else Valid(Identity(sub.value, groups))
  }

  /** Without a cache; an unreadable clock rejects. */
  function Uncached(lib: Lib, token: string, clock: Option<nat>): JwtResult {
    if clock.None? then Invalid else SlowPath(lib, token, clock.value)
  }

  /**
   Expiry is final (section 4.1.4 of RFC 7519): a token accepted now was never answered otherwise
   before, one that has expired stays expired, and the answer changes at most once, from
   acceptance or rejection to expiry.
   */
  lemma ExpiryIsFinal(lib: Lib, token: string, now: nat, other: nat)
    ensures SlowPath(lib, token, now).Valid? && other <= now ==> SlowPath(lib, token, other) == SlowPath(lib, token, now)
    ensures SlowPath(lib, token, now).Expired? && now <= other ==> SlowPath(lib, token, other).Expired?
    ensures SlowPath(lib, token, now) == SlowPath(lib, token, other)
      || (SlowPath(lib, token, if now < other then other else now).Expired? && Check(lib, token).Signed?)
  {
    hide Check;
  }

  // -- The cache ------------------------------------------------------------------------------

  const CAPACITY: nat := 1024

  datatype CachedToken = CachedToken(identity: Identity, exp: nat)

  /** Least recently used first. */
  type Cache = seq<Slot<Bytes, CachedToken>>

  function Put(c: Cache, x: Slot<Bytes, CachedToken>): Cache {
    var full := Without(c, x.key) + [x];
    if |full| > CAPACITY then full[1..] else full
  }

  /** What the slow path leaves in the cache: an accepted token, as most recently used. */
  function Stored(lib: Lib, c: Cache, token: string, r: JwtResult): Cache {
    if r.Valid? && Check(lib, token).Signed?
    then Put(c, Slot(lib.hash(token), CachedToken(r.identity, Check(lib, token).exp)))
    else c
  }

  /** The cache after validating a token: a live hit moves up, a dead one goes, a miss may be stored. */
  function Next(lib: Lib, c: Cache, token: string, clock: Option<nat>): Cache {
    var i := IndexOf(c, lib.hash(token));
    if clock.None? then c
    else if i == |c| then Stored(lib, c, token, SlowPath(lib, token, clock.value))
    else if c[i].value.exp > clock.value then Without(c, c[i].key) + [c[i]]
    else Without(c, c[i].key)
  }

  /**
   Storing loses nothing while fewer than 1024 tokens are held, and exactly the least recently used
   one after that.
   */
  lemma PutKeeps(c: Cache, x: Slot<Bytes, CachedToken>)
    requires IndexOf(c, x.key) == |c| <= 1024
    ensures Put(c, x) == (if |c| < 1024 then c else c[1..]) + [x]
  {
    assert |c| == 1024 ==> (c + [x])[1..] == c[1..] + [x];
  }

  /** A slot records the verification of one of the tokens seen. */
  ghost predicate Records(lib: Lib, seen: set<string>, x: Slot<Bytes, CachedToken>) {
    exists t :: t in seen && lib.hash(t) == x.key
      && Check(lib, t) == Signed(x.value.exp, Some(x.value.identity.username), x.value.identity.groups)
  }

  ghost predicate Sound(lib: Lib, seen: set<string>, c: Cache) {
    forall i :: 0 <= i < |c| ==> Records(lib, seen, c[i])
  }

  /** No two of these tokens share a hash. */
  ghost predicate CollisionFree(lib: Lib, tokens: set<string>) {
    forall a, b :: a in tokens && b in tokens && lib.hash(a) == lib.hash(b) ==> a == b
  }

  /** A hit holds the expiry time of the token itself. */
  lemma HitRecorded(lib: Lib, seen: set<string>, c: Cache, i: nat, token: string)
    requires Sound(lib, seen, c) && i < |c| && c[i].key == lib.hash(token)
    requires CollisionFree(lib, seen + {token})
    ensures Check(lib, token) ==
      Signed(c[i].value.exp, Some(c[i].value.identity.username), c[i].value.identity.groups)
  {
    hide Check;
    assert Records(lib, seen, c[i]);
    var t :| t in seen && lib.hash(t) == c[i].key
      && Check(lib, t) == Signed(c[i].value.exp, Some(c[i].value.identity.username), c[i].value.identity.groups);
    assert t in seen + {token} && token in seen + {token};
  }

  /** A hit answers as full verification would. */
  lemma HitAgrees(lib: Lib, seen: set<string>, c: Cache, i: nat, token: string, now: nat)
    requires Sound(lib, seen, c) && i < |c| && c[i].key == lib.hash(token)
    requires CollisionFree(lib, seen + {token})
    ensures SlowPath(lib, token, now) == if c[i].value.exp > now then Valid(c[i].value.identity) else Expired
  {
    hide Check;
    HitRecorded(lib, seen, c, i, token);
  }

  /** An accepted token is remembered: its own slot is then the most recently used. */
  lemma AcceptedIsCached(lib: Lib, seen: set<string>, c: Cache, token: string, now: nat)
    requires Sound(lib, seen, c) && CollisionFree(lib, seen + {token})
    requires SlowPath(lib, token, now).Valid?
    ensures var next := Next(lib, c, token, Some(now));
      next != [] && next[|next| - 1] ==
        Slot(lib.hash(token), CachedToken(SlowPath(lib, token, now).identity, Check(lib, token).exp))
  {
    var i := IndexOf(c, lib.hash(token));
    if i < |c| {
      HitAgrees(lib, seen, c, i, token, now);
      HitRecorded(lib, seen, c, i, token);
    } else {
      var x := Slot(lib.hash(token), CachedToken(SlowPath(lib, token, now).identity, Check(lib, token).exp));
      assert IndexOf(c, x.key) == |c|;
    }
  }

  lemma SoundMore(lib: Lib, seen: set<string>, token: string, c: Cache)
    requires Sound(lib, seen, c)
    ensures Sound(lib, seen + {token}, c)
  {
    hide Check;
    forall i | 0 <= i < |c| ensures Records(lib, seen + {token}, c[i]) {
      assert Records(lib, seen, c[i]);
    }
  }

  lemma SoundWithout(lib: Lib, seen: set<string>, c: Cache, key: Bytes)
    requires Sound(lib, seen, c)
    ensures Sound(lib, seen, Without(c, key)) && |Without(c, key)| <= |c|
  {
    hide Records, Without;
    WithoutIn(c, key);
  }

  /** Moving a slot to the recent end keeps the size. */
  lemma WithoutHit(c: Cache, i: nat)
    requires i < |c| && i == IndexOf(c, c[i].key)
    ensures |Without(c, c[i].key)| == |c| - 1
  {
  }

  lemma SoundPut(lib: Lib, seen: set<string>, c: Cache, x: Slot<Bytes, CachedToken>)
    requires Sound(lib, seen, c) && Records(lib, seen, x)
    ensures Sound(lib, seen, Put(c, x)) && (|c| <= CAPACITY ==> |Put(c, x)| <= CAPACITY)
  {
    hide Records, Without;
    SoundWithout(lib, seen, c, x.key);
  }

  class JwtManager {
    const lib: Lib
    var cache: Cache
    /** Tokens this manager has been asked about. */
    ghost var seen: set<string>

    ghost predicate Consistent()
      reads this
    {
      Sound(lib, seen, cache) && |cache| <= CAPACITY
    }

    constructor (lib: Lib)
      ensures Consistent() && this.lib == lib && cache == [] && seen == {}
    {
      this.lib := lib;
      cache := [];
      seen := {};
    }

    /**
     `validate_token`: exactly what full verification would say at this moment, whatever was
     validated or evicted before, as long as no two tokens seen share a hash.
     */
    method ValidateToken(token: string, clock: Option<nat>) returns (r: JwtResult)
      requires Consistent() && CollisionFree(lib, seen + {token})
      modifies this`cache, this`seen
      ensures Consistent() && seen == old(seen) + {token}
      ensures r == Uncached(lib, token, clock)
      ensures cache == Next(lib, old(cache), token, clock)
      ensures clock.None? ==> r == Invalid && cache == old(cache)
      ensures |cache| <= 1024
    {
      hide Check, Records, Put, Without, CollisionFree, HeaderProblem, SignatureOk, CheckPayload;
      var key := lib.hash(token);
      ghost var before := seen;
      SoundMore(lib, seen, token, cache);
      seen := seen + {token};
      if clock.None? {
        return Invalid;
      }
      var now := clock.value;
      var i := IndexOf(cache, key);
      if i < |cache| {
        HitAgrees(lib, before, cache, i, token, now);
        SoundWithout(lib, seen, cache, key);
        WithoutHit(cache, i);
        var hit := cache[i];
        assert Records(lib, seen, hit);
        if hit.value.exp > now {
          cache := Without(cache, key) + [hit];
          return Valid(hit.value.identity);
        }
        cache := Without(cache, key);
        return Expired;
      }
      r := VerifyFully(token, key, now);
    }

    /** The slow path, which caches what it accepts. */
    method VerifyFully(token: string, key: Bytes, now: nat) returns (r: JwtResult)
      requires Consistent() && token in seen && key == lib.hash(token)
      modifies this`cache
      ensures Consistent() && r == SlowPath(lib, token, now)
      ensures cache == Stored(lib, old(cache), token, r)
    {
      hide Records, Put, Pieces;
      var pieces := Pieces(token);
      if pieces.None? {
        return Invalid;
      }
      var header, payload, sig := pieces.value.0, pieces.value.1, pieces.value.2;
      var problem := HeaderProblem(lib, header);
      if problem == Some(Rejected) {
        return Invalid;
      }
      if problem == Some(Foreign) {
        return NotMine;
      }
      if !SignatureOk(lib, header + "." + payload, sig) {
        return Invalid;
      }
      var p := CheckPayload(lib, payload);
      if p.Rejected? {
        return Invalid;
      }
      if p.exp <= now {
        return Expired;
      }
      if p.sub.None? {
        return Invalid;
      }
      var identity := Identity(p.sub.value, p.groups);
      RecordsVerified(lib, seen, token, identity, p.exp);
      SoundPut(lib, seen, cache, Slot(key, CachedToken(identity, p.exp)));
      cache := Put(cache, Slot(key, CachedToken(identity, p.exp)));
      return Valid(identity);
    }
  }

  lemma RecordsVerified(lib: Lib, seen: set<string>, token: string, id: Identity, exp: nat)
    requires token in seen && Check(lib, token) == Signed(exp, Some(id.username), id.groups)
    ensures Records(lib, seen, Slot(lib.hash(token), CachedToken(id, exp)))
  {
    hide Check;
  }

  // -- Why hashes must not collide ---------------------------------------------------------------

  /** What the fast path answers for a cached token. */
  function FastPath(c: CachedToken, now: nat): JwtResult {
    if c.exp > now then Valid(c.identity) else Expired
  }

  /**
   For two tokens with the same hash, the cached verification of one answers for the other
   correctly at all times exactly when both are signed alike.
   */
  lemma CollisionHarmlessIff(lib: Lib, a: string, b: string, cached: CachedToken)
    requires Check(lib, a) == Signed(cached.exp, Some(cached.identity.username), cached.identity.groups)
    requires cached.exp > 0
    ensures (forall now: nat :: FastPath(cached, now) == SlowPath(lib, b, now)) <==> Check(lib, b) == Check(lib, a)
  {
    hide Check;
    var same := forall now: nat :: FastPath(cached, now) == SlowPath(lib, b, now);
    if same {
      assert FastPath(cached, 0) == SlowPath(lib, b, 0);
      assert FastPath(cached, cached.exp) == SlowPath(lib, b, cached.exp);
      assert FastPath(cached, cached.exp - 1) == SlowPath(lib, b, cached.exp - 1);
    }
    if Check(lib, b) == Check(lib, a) {
      forall now: nat ensures FastPath(cached, now) == SlowPath(lib, b, now) {
      }
    }
  }
}
