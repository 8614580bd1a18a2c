/** server/middleware/auth.js: reading a bearer token from the Authorization
    header, and the two middlewares that set the request's user. Token
    verification (jwt.verify with the server's secret) is a parameter: a total
    function that yields the payload, or None where jwt.verify throws. */
module Auth {
  import opened Wrappers
  import opened EventModel
  import opened Http
  import Strings

  /** `"Bearer <t>"` up to case: the first space is at index 6, the scheme before
      it lower-cases to "bearer", and the second piece is not empty. */
  predicate BearerShaped(h: string)
  {
    |h| > 7 && Strings.Lower(h[..6]) == "bearer" && h[6] == ' ' && h[7] != ' '
  }

  /** `t` is the second space-separated piece of `h`: it starts after the
      scheme's space and runs to the next space or the end. */
  predicate IsSecondPiece(h: string, t: string)
  {
    7 + |t| <= |h| && h[7..7 + |t|] == t && ' ' !in t && (7 + |t| == |h| || h[7 + |t|] == ' ')
  }

  /** parseToken: an absent header is read as "". A token comes back exactly for
      a bearer-shaped header, and it is the header's second piece. */
  function ParseToken(header: Option<string>): (token: Option<string>)
    ensures token.Some? <==> header.Some? && BearerShaped(header.value)
    ensures token.Some? ==> IsSecondPiece(header.value, token.value)
  {
    var h := if header.Some? then header.value else "";
    var pieces := Strings.Split(h, ' ');
    BearerFacts(h);
    if Strings.Lower(pieces[0]) == "bearer" && |pieces| >= 2 && pieces[1] != "" then Some(pieces[1]) else None
  }

  lemma BearerFacts(h: string)
    ensures var pieces := Strings.Split(h, ' ');
      (Strings.Lower(pieces[0]) == "bearer" && |pieces| >= 2 && pieces[1] != "") <==> BearerShaped(h)
    ensures var pieces := Strings.Split(h, ' ');
      (Strings.Lower(pieces[0]) == "bearer" && |pieces| >= 2 && pieces[1] != "") ==> IsSecondPiece(h, pieces[1])
  {
    var pieces := Strings.Split(h, ' ');
    Strings.SplitPieces(h, ' ');
    if BearerShaped(h) {
      SchemeEndsAtSix(h);
    }
    if Strings.Lower(pieces[0]) == "bearer" {
      assert Strings.IndexOf(h, ' ') == 6;
      if |pieces| >= 2 {
        SecondPiece(h);
      }
    }
  }

  /** In a bearer-shaped header the first space is the one at index 6. */
  lemma SchemeEndsAtSix(h: string)
    requires BearerShaped(h)
    ensures Strings.IndexOf(h, ' ') == 6
  {
    var k := Strings.IndexOf(h, ' ');
    forall j | 0 <= j < 6 ensures h[j] != ' ' {
      assert Strings.Lower(h[..6])[j] == Strings.LowerChar(h[..6][j]);
    }
  }

  /** With the first space at index 6, the second piece starts at index 7. */
  lemma SecondPiece(h: string)
    requires 6 < |h| && Strings.IndexOf(h, ' ') == 6
    ensures var pieces := Strings.Split(h, ' ');
      var m := Strings.IndexOf(h[7..], ' ');
      |pieces| >= 2 && pieces[1] == h[7..7 + m] && (pieces[1] != "" <==> |h| > 7 && h[7] != ' ') &&
      IsSecondPiece(h, pieces[1])
  {
    Strings.SplitPieces(h, ' ');
    Strings.SplitPieces(h[7..], ' ');
    var m := Strings.IndexOf(h[7..], ' ');
    assert h[7..][..m] == h[7..7 + m];
  }

  /** A header built from a scheme, a token and any tail that starts with a
      space: the token comes back when the scheme is "bearer" in any case and the
      token is not empty; later pieces are ignored. */
  lemma ParseOfParts(scheme: string, t: string, rest: string)
    requires ' ' !in scheme && ' ' !in t
    requires rest == [] || rest[0] == ' '
    ensures ParseToken(Some(scheme + " " + t + rest)) ==
      if Strings.Lower(scheme) == "bearer" && t != "" then Some(t) else None
  {
    if Strings.Lower(scheme) == "bearer" {
      BearerParts(scheme, t, rest);
    } else {
      OtherSchemeParts(scheme, t, rest);
    }
  }

  /** With the scheme "bearer" in any case, the header is bearer-shaped exactly
      when the token is not empty, and the token is then its second piece. */
  lemma BearerParts(scheme: string, t: string, rest: string)
    requires ' ' !in scheme && ' ' !in t && Strings.Lower(scheme) == "bearer"
    requires rest == [] || rest[0] == ' '
    ensures var h := scheme + " " + t + rest;
      (BearerShaped(h) <==> t != "") && (t != "" ==> ParseToken(Some(h)) == Some(t))
  {
    var h := scheme + " " + t + rest;
    assert h[..6] == scheme && h[6] == ' ';
    if t != "" {
      assert h[7] == t[0];
      assert h[7..7 + |t|] == t;
      assert IsSecondPiece(h, t);
      SecondPieceUnique(h, ParseToken(Some(h)).value, t);
    } else {
      assert |h| == 7 || h[7] == rest[0];
    }
  }

  /** A header has one second piece. */
  lemma SecondPieceUnique(h: string, x: string, y: string)
    requires IsSecondPiece(h, x) && IsSecondPiece(h, y)
    ensures x == y
  {
    PieceEndsAtSpace(h, x);
    PieceEndsAtSpace(h, y);
  }

  /** A second piece runs up to the first space after the scheme's. */
  lemma PieceEndsAtSpace(h: string, x: string)
    requires IsSecondPiece(h, x)
    ensures Strings.IndexOf(h[7..], ' ') == |x|
  {
    forall j | 0 <= j < |x| ensures h[7..][j] != ' ' {
      assert h[7..][j] == h[7..7 + |x|][j];
    }
    Strings.IndexOfFirst(h[7..], ' ', |x|);
  }

  /** Any other scheme makes the header not bearer-shaped. */
  lemma OtherSchemeParts(scheme: string, t: string, rest: string)
    requires ' ' !in scheme && Strings.Lower(scheme) != "bearer"
    ensures !BearerShaped(scheme + " " + t + rest)
  {
    var h := scheme + " " + t + rest;
    if |scheme| < 6 {
      if |h| > 7 && h[6] == ' ' {
        assert h[..6][|scheme|] == ' ';
        assert Strings.Lower(h[..6])[|scheme|] == ' ';
      }
    } else if |scheme| == 6 {
      assert h[..6] == scheme;
    } else {
      assert h[6] == scheme[6];
    }
  }

  /** The user fields copied from a verified token's payload. */
  datatype Identity = Identity(id: UserId, email: string, name: string)

  /** A middleware either calls `next()` or ends the request with a response. */
  datatype Outcome = Proceed | Respond(response: Response)

  const AuthenticationRequired := "Authentication required"
  const InvalidToken := "Invalid or expired token"

  /** The request as the two middlewares see it: the Authorization header, and
      `req.user`, which they assign. */
  class Request {
    const authorization: Option<string>
    var user: Option<Identity>

    constructor (authorization: Option<string>)
      ensures this.authorization == authorization && user == None
    {
      this.authorization := authorization;
      user := None;
    }

    /** optionalAuth always proceeds; it sets the user only from a token that verifies. */
    method OptionalAuth(verify: string -> Option<Identity>) returns (outcome: Outcome)
      modifies this
      ensures outcome == Proceed
      ensures ParseToken(authorization).None? ==> user == old(user)
      ensures ParseToken(authorization).Some? ==>
        user == (if verify(ParseToken(authorization).value).Some? then verify(ParseToken(authorization).value) else old(user))
    {
      var token := ParseToken(authorization);
      if token.None? {
        return Proceed;
      }
      var payload := verify(token.value);
      if payload.Some? {
        user := payload;
      }
      outcome := Proceed;
    }

    /** authRequired answers 401 without a token or with one that fails
        verification, leaving the user alone; otherwise it sets the user from the
        payload and proceeds, so a handler behind it always has a user. */
    method AuthRequired(verify: string -> Option<Identity>) returns (outcome: Outcome)
      modifies this
      ensures ParseToken(authorization).None? ==>
        outcome == Respond(Fail(401, AuthenticationRequired)) && user == old(user)
      ensures ParseToken(authorization).Some? && verify(ParseToken(authorization).value).None? ==>
        outcome == Respond(Fail(401, InvalidToken)) && user == old(user)
      ensures ParseToken(authorization).Some? && verify(ParseToken(authorization).value).Some? ==>
        outcome == Proceed && user == verify(ParseToken(authorization).value)
      ensures outcome == Proceed ==> user.Some?
    {
      var token := ParseToken(authorization);
      if token.None? {
        return Respond(Fail(401, AuthenticationRequired));
      }
      var payload := verify(token.value);
      if payload.None? {
        return Respond(Fail(401, InvalidToken));
      }
      user := payload;
      outcome := Proceed;
    }
  }
}
