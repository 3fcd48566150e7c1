/**
 Which tokens are accepted, expired, foreign or invalid, stated on the token's three pieces and
 on what the libraries say of them (src/jwt.rs `validate_token`).
 */
module JwtLaws {
  import opened Common
  import opened Text
  import opened Jwt

  /** Three pieces joined by dots; only the last may hold further dots. */
  ghost predicate IsCutInto(token: string, h: string, p: string, s: string) {
    token == h + "." + p + "." + s && Free(h, '.') && Free(p, '.')
  }

  lemma PiecesFound(token: string, h: string, p: string, s: string)
    requires IsCutInto(token, h, p, s)
    ensures Pieces(token) == Some((h, p, s))
  {
    assert token == h + ['.'] + (p + ['.'] + s);
    SplitFirst(h, p + ['.'] + s, '.', 3);
    SplitFirst(p, s, '.', 2);
    assert SplitOn(s, '.', 1) == [s];
  }

  lemma LastPiece(s: string)
    ensures SplitOn(s, '.', 1) == [s]
  {
  }

  lemma JoinedByDots(a: string, b: string, c: string)
    ensures a + ['.'] + (b + ['.'] + c) == a + "." + b + "." + c
  {
  }

  lemma PiecesJoin(token: string)
    requires Pieces(token).Some?
    ensures var (h, p, s) := Pieces(token).value; IsCutInto(token, h, p, s)
  {
    hide SplitOn, Free;
    var a, rest := SplitCut(token, '.', 3);
    var b, last := SplitCut(rest, '.', 2);
    LastPiece(last);
    assert Pieces(token) == Some((a, b, last));
    JoinedByDots(a, b, last);
  }

  /** The header of one of our own tokens. */
  ghost predicate OurHeader(lib: Lib, h: string) {
    match lib.base64(h)
    case None => false
    case Some(bytes) => lib.header(bytes) == Some(Header(Some("ES256"), Some(lib.kid)))
  }

  /** An ES256 header naming another key, or none. */
  ghost predicate ForeignHeader(lib: Lib, h: string) {
    match lib.base64(h)
    case None => false
    case Some(bytes) => exists kid :: kid != Some(lib.kid) && lib.header(bytes) == Some(Header(Some("ES256"), kid))
  }

  /** The signature verifies, over header and payload as they were sent. */
  ghost predicate ProperlySigned(lib: Lib, h: string, p: string, s: string) {
    exists bytes, sig :: lib.base64(s) == Some(bytes) && lib.signature(bytes) == Some(sig) && lib.verify(h + "." + p, sig)
  }

  /** The payload decodes to these claims. */
  ghost predicate Claims(lib: Lib, p: string, exp: nat, sub: Option<string>, groups: seq<string>) {
    match lib.base64(p)
    case None => false
    case Some(bytes) => lib.payload(bytes) == Some(Payload(Some(exp), sub, groups))
  }

  /** Exactly the tokens with our header, a signature that verifies, and a payload with an expiry. */
  lemma SignedIff(lib: Lib, h: string, p: string, s: string, token: string, exp: nat, sub: Option<string>, groups: seq<string>)
    requires IsCutInto(token, h, p, s)
    ensures Check(lib, token) == Signed(exp, sub, groups) <==>
      OurHeader(lib, h) && ProperlySigned(lib, h, p, s) && Claims(lib, p, exp, sub, groups)
    ensures Check(lib, token).Foreign? <==> ForeignHeader(lib, h)
  {
    hide Pieces, IsCutInto;
    PiecesFound(token, h, p, s);
  }

  lemma TokenPieces(lib: Lib, token: string) returns (h: string, p: string, s: string)
    requires !Check(lib, token).Rejected?
    ensures IsCutInto(token, h, p, s)
  {
    PiecesJoin(token);
    h, p, s := Pieces(token).value.0, Pieces(token).value.1, Pieces(token).value.2;
  }

  /**
   A token is accepted for an identity exactly when it is one of ours, its signature verifies over
   header and payload, and its payload names that subject and groups and an expiry still ahead.
   */
  lemma ValidIff(lib: Lib, token: string, now: nat, id: Identity)
    ensures SlowPath(lib, token, now) == Valid(id) <==>
      exists h, p, s, exp: nat :: IsCutInto(token, h, p, s) && OurHeader(lib, h) && ProperlySigned(lib, h, p, s)
        && Claims(lib, p, exp, Some(id.username), id.groups) && exp > now
  {
    hide Check, Pieces, IsCutInto, OurHeader, ProperlySigned, Claims, ForeignHeader;
    if SlowPath(lib, token, now) == Valid(id) {
      var h, p, s := TokenPieces(lib, token);
      SignedIff(lib, h, p, s, token, Check(lib, token).exp, Some(id.username), id.groups);
    }
    forall h, p, s, exp: nat | IsCutInto(token, h, p, s) && OurHeader(lib, h) && ProperlySigned(lib, h, p, s)
      && Claims(lib, p, exp, Some(id.username), id.groups) && exp > now
      ensures SlowPath(lib, token, now) == Valid(id)
    {
      SignedIff(lib, h, p, s, token, exp, Some(id.username), id.groups);
    }
  }

  /** Expired are exactly the genuine tokens whose expiry has come, with or without a subject. */
  lemma ExpiredIff(lib: Lib, token: string, now: nat)
    ensures SlowPath(lib, token, now) == Expired <==>
      exists h, p, s, exp: nat, sub, groups :: IsCutInto(token, h, p, s) && OurHeader(lib, h)
        && ProperlySigned(lib, h, p, s) && Claims(lib, p, exp, sub, groups) && exp <= now
  {
    hide Check, Pieces, IsCutInto, OurHeader, ProperlySigned, Claims, ForeignHeader;
    if SlowPath(lib, token, now) == Expired {
      var h, p, s := TokenPieces(lib, token);
      var c := Check(lib, token);
      SignedIff(lib, h, p, s, token, c.exp, c.sub, c.groups);
    }
    forall h, p, s, exp: nat, sub, groups | IsCutInto(token, h, p, s) && OurHeader(lib, h)
      && ProperlySigned(lib, h, p, s) && Claims(lib, p, exp, sub, groups) && exp <= now
      ensures SlowPath(lib, token, now) == Expired
    {
      SignedIff(lib, h, p, s, token, exp, sub, groups);
    }
  }

  /** Not ours are exactly the tokens whose header names ES256 and another key; their signature is not looked at. */
  lemma NotMineIff(lib: Lib, token: string, now: nat)
    ensures SlowPath(lib, token, now) == NotMine <==>
      exists h, p, s :: IsCutInto(token, h, p, s) && ForeignHeader(lib, h)
  {
    hide Check, Pieces, IsCutInto, OurHeader, ProperlySigned, Claims, ForeignHeader;
    if SlowPath(lib, token, now) == NotMine {
      var h, p, s := TokenPieces(lib, token);
      SignedIff(lib, h, p, s, token, 0, None, []);
    }
    forall h, p, s | IsCutInto(token, h, p, s) && ForeignHeader(lib, h) ensures SlowPath(lib, token, now) == NotMine {
      SignedIff(lib, h, p, s, token, 0, None, []);
    }
  }
}
