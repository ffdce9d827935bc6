/** The authentication middleware and the role guard. Token verification is
    a parameter: `verify(token)` is the user id in the token's payload, or
    `None` when `jwt.verify` throws (bad signature, expired, malformed). */
module Auth {
  import opened Base
  import Text
  import UserModel

  /** `header?.split(' ')[1]`, where an empty piece counts as no token: the
      text between the first and the second space of the header. */
  function BearerToken(header: Option<string>): (token: Option<string>)
    ensures header.None? ==> token.None?
    ensures token.Some? <==>
      header.Some? && |Text.Split(header.value, ' ')| >= 2 && Text.Split(header.value, ' ')[1] != ""
    ensures token.Some? ==> token.value == Text.Split(header.value, ' ')[1]
    ensures token.Some? ==> token.value != "" && ' ' !in token.value
    ensures token.Some? ==>
      && |Text.Split(header.value, ' ')| >= 2
      && TokenEnd(header.value) <= |header.value|
      && header.value[Text.IndexOf(header.value, ' ') + 1..TokenEnd(header.value)] == token.value
      && (TokenEnd(header.value) == |header.value| || header.value[TokenEnd(header.value)] == ' ')
  {
    if header.None? then None
    else
      var parts := Text.Split(header.value, ' ');
      if |parts| >= 2 && parts[1] != "" then
        SecondPiece(header.value);
        Text.SplitPieces(header.value, ' ');
        Some(parts[1])
      else None
  }

  /** Where the second piece of a split ends. */
  function TokenEnd(h: string): nat
    requires |Text.Split(h, ' ')| >= 2
  {
    Text.IndexOf(h, ' ') + 1 + |Text.Split(h, ' ')[1]|
  }

  /** The second piece of a split runs from just after the first space to
      the next space or the end. */
  lemma SecondPiece(h: string)
    requires |Text.Split(h, ' ')| >= 2
    ensures Text.IndexOf(h, ' ') + 1 <= TokenEnd(h) <= |h|
    ensures h[Text.IndexOf(h, ' ') + 1..TokenEnd(h)] == Text.Split(h, ' ')[1]
    ensures TokenEnd(h) == |h| || h[TokenEnd(h)] == ' '
  {
    TokenEndAt(h);
    SecondPieceSlice(h);
    SecondPieceEnd(h);
  }

  /** The second piece ends where the rest after the first space has its
      first space. */
  lemma TokenEndAt(h: string)
    requires |Text.Split(h, ' ')| >= 2
    ensures Text.IndexOf(h, ' ') < |h|
    ensures var i := Text.IndexOf(h, ' ');
      TokenEnd(h) == i + 1 + Text.IndexOf(h[i + 1..], ' ') <= |h|
  {
    SplitSecond(h);
  }

  lemma SecondPieceSlice(h: string)
    requires |Text.Split(h, ' ')| >= 2
    ensures TokenEnd(h) <= |h|
    ensures h[Text.IndexOf(h, ' ') + 1..TokenEnd(h)] == Text.Split(h, ' ')[1]
  {
    TokenEndAt(h);
    SplitSecond(h);
    var i := Text.IndexOf(h, ' ');
    Slices(h, i + 1, Text.IndexOf(h[i + 1..], ' '));
  }

  lemma SecondPieceEnd(h: string)
    requires |Text.Split(h, ' ')| >= 2
    ensures TokenEnd(h) == |h| || (TokenEnd(h) < |h| && h[TokenEnd(h)] == ' ')
  {
    TokenEndAt(h);
    var i := Text.IndexOf(h, ' ');
    var rest := h[i + 1..];
    var j := Text.IndexOf(rest, ' ');
    Slices(h, i + 1, j);
  }

  /** A split with two pieces or more splits at the first space, and its
      second piece is the first piece of the rest. */
  lemma SplitSecond(h: string)
    requires |Text.Split(h, ' ')| >= 2
    ensures Text.IndexOf(h, ' ') < |h|
    ensures var rest := h[Text.IndexOf(h, ' ') + 1..];
      Text.Split(h, ' ')[1] == rest[..Text.IndexOf(rest, ' ')]
  {
    var i := Text.IndexOf(h, ' ');
    assert Text.Split(h, ' ') == [h[..i]] + Text.Split(h[i + 1..], ' ');
  }

  lemma Slices(h: string, a: nat, j: nat)
    requires a <= |h| && j <= |h| - a
    ensures h[a..a + j] == h[a..][..j]
    ensures a + j < |h| ==> h[a + j] == h[a..][j]
  {
  }

  /** The client's `Bearer <token>` header yields the token back. */
  lemma BearerRoundTrip(scheme: string, token: string)
    requires ' ' !in scheme && ' ' !in token && token != ""
    ensures BearerToken(Some(scheme + " " + token)) == Some(token)
  {
    var h := scheme + " " + token;
    Text.IndexOfAfter(scheme, ' ', token);
    assert h[|scheme| + 1..] == token;
    Text.IndexOfAbsent(token, ' ');
    assert Text.Split(token, ' ') == [token];
    assert h[..|scheme|] == scheme;
    assert Text.Split(h, ' ') == [h[..|scheme|]] + Text.Split(h[|scheme| + 1..], ' ');
    assert Text.Split(h, ' ') == [scheme, token];
  }

  /** Whatever follows a second space is ignored: `Bearer tok extra` yields
      `tok`. */
  lemma BearerIgnoresRest(scheme: string, token: string, rest: string)
    requires ' ' !in scheme && ' ' !in token && token != ""
    ensures BearerToken(Some(scheme + " " + token + " " + rest)) == Some(token)
  {
    var h := scheme + " " + token + " " + rest;
    var tail := token + " " + rest;
    assert h == scheme + [' '] + tail;
    Text.IndexOfAfter(scheme, ' ', tail);
    assert h[|scheme| + 1..] == tail;
    assert tail == token + [' '] + rest;
    Text.IndexOfAfter(token, ' ', rest);
    assert tail[..|token|] == token;
    assert Text.Split(tail, ' ') == [tail[..|token|]] + Text.Split(tail[|token| + 1..], ' ');
    assert h[..|scheme|] == scheme;
    assert Text.Split(h, ' ') == [h[..|scheme|]] + Text.Split(h[|scheme| + 1..], ' ');
    assert Text.Split(h, ' ')[1] == token;
  }

  /** A header without a space carries no token. */
  lemma NoSpaceNoToken(header: string)
    requires ' ' !in header
    ensures BearerToken(Some(header)).None?
  {
    Text.IndexOfAbsent(header, ' ');
  }

  /** The request fields the middleware sets, and how often it has handed
      the request on to the next handler. */
  class Request {
    var userId: Option<UserId>
    var user: Option<UserModel.User>
    var nextCalls: nat

    constructor()
      ensures userId.None? && user.None? && nextCalls == 0
    {
      userId, user, nextCalls := None, None, 0;
    }
  }

  /** authMiddleware: 401 for a missing token, a token that fails
      verification, or one whose user does not exist (in that last case
      `userId` has already been set). On success `userId` and `user` are
      set and `next` is called once; `None` stands for "passed on". */
  method Authenticate(req: Request, header: Option<string>, verify: string -> Option<UserId>,
                      users: map<UserId, UserModel.User>) returns (rejected: Option<Status>)
    modifies req
    ensures rejected.Some? ==> rejected.value == Unauthorized && req.nextCalls == old(req.nextCalls)
    ensures rejected.Some? ==> req.user == old(req.user)
    ensures BearerToken(header).None? ==> rejected.Some? && req.userId == old(req.userId)
    ensures BearerToken(header).Some? && verify(BearerToken(header).value).None? ==>
      rejected.Some? && req.userId == old(req.userId)
    ensures BearerToken(header).Some? && verify(BearerToken(header).value).Some? ==>
      var id := verify(BearerToken(header).value).value;
      && req.userId == Some(id)
      && (rejected.None? <==> id in users)
      && (rejected.None? ==> req.user == Some(users[id]) && req.nextCalls == old(req.nextCalls) + 1)
  {
    var token := BearerToken(header);
    if token.None? {
      return Some(Unauthorized);
    }
    var decoded := verify(token.value);
    if decoded.None? {
      return Some(Unauthorized);
    }
    req.userId := decoded;
    if decoded.value !in users {
      return Some(Unauthorized);
    }
    req.user := Some(users[decoded.value]);
    req.nextCalls := req.nextCalls + 1;
    return None;
  }

  /** The argument of `requireRole`: one role or a list of them. */
  datatype Roles = OneRole(role: UserModel.Role) | AnyOf(roles: seq<UserModel.Role>)

  /** `Array.isArray(roles) ? roles : [roles]`. */
  function Allowed(roles: Roles): (r: seq<UserModel.Role>)
    ensures roles.OneRole? ==> r == [roles.role]
    ensures roles.AnyOf? ==> r == roles.roles
  {
    match roles
    case OneRole(x) => [x]
    case AnyOf(xs) => xs
  }

  /** requireRole: 403 unless there is a user and its role is allowed;
      `None` means `next` is called. */
  function RequireRole(roles: Roles, user: Option<UserModel.User>): (r: Option<Status>)
    ensures r.None? <==> user.Some? && user.value.role in Allowed(roles)
    ensures r.Some? ==> r.value == Forbidden
  {
    if user.Some? && user.value.role in Allowed(roles) then None else Some(Forbidden)
  }

  /** A single role behaves as the list holding just that role. */
  lemma OneRoleIsSingleton(x: UserModel.Role, user: Option<UserModel.User>)
    ensures RequireRole(OneRole(x), user) == RequireRole(AnyOf([x]), user)
  {
  }

  /** The admin guard the admin routes sit behind. */
  lemma AdminGuard(user: Option<UserModel.User>)
    ensures RequireRole(OneRole(UserModel.Admin), user).None? <==>
      user.Some? && user.value.role == UserModel.Admin
  {
  }
}
