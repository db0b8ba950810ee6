/**
 * The caller as a request sees it: the authenticated principal with its
 * NameIdentifier claim, and the per-request items the guest-session
 * middleware fills in. Includes the `HttpContext` extension methods and the
 * ways the controllers read the claim.
 */
module HttpContextExtensions {
  import opened Wrappers
  import opened Text

  datatype ClaimsPrincipal = ClaimsPrincipal(isAuthenticated: bool, nameIdentifier: Option<string>)

  /** `HttpContext.Items`, with each stored value already in its `ToString()` form (or null). */
  datatype HttpContext = HttpContext(user: ClaimsPrincipal, items: map<string, Option<string>>)

  const GuestSessionKey: string := "GuestSessionId"

  /** A principal as the issued access token describes it: authenticated, NameIdentifier = the user id. */
  function SignedIn(userId: int): ClaimsPrincipal {
    ClaimsPrincipal(true, Some(FormatInt32(userId)))
  }

  const Anonymous: ClaimsPrincipal := ClaimsPrincipal(false, None)

  /** `GetGuestSessionId`: the "GuestSessionId" item, or null when there is none. */
  function GetGuestSessionId(ctx: HttpContext): (r: Option<string>)
    ensures GuestSessionKey !in ctx.items ==> r.None?
    ensures r.Some? ==> GuestSessionKey in ctx.items && ctx.items[GuestSessionKey] == r
  {
    if GuestSessionKey in ctx.items then ctx.items[GuestSessionKey] else None
  }

  /** `GetUserId`: the claim as an integer, only for an authenticated principal. */
  function GetUserId(ctx: HttpContext): (r: Option<int>)
    ensures !ctx.user.isAuthenticated ==> r.None?
    ensures r.Some? ==> ctx.user.nameIdentifier.Some? && MinInt32 <= r.value <= MaxInt32
    ensures ctx.user.isAuthenticated && ctx.user.nameIdentifier.None? ==> r.None?
  {
    if ctx.user.isAuthenticated then TryParseInt32(ctx.user.nameIdentifier) else None
  }

  /** A request carrying a token issued for `userId` resolves to that user. */
  lemma GetUserIdOfSignedIn(userId: int, items: map<string, Option<string>>)
    requires MinInt32 <= userId <= MaxInt32
    ensures GetUserId(HttpContext(SignedIn(userId), items)) == Some(userId)
  {
    FormatThenParse(userId);
  }

  /**
   * `int.TryParse` of the NameIdentifier claim, without looking at
   * `IsAuthenticated` (the attempt service and the quiz read endpoints).
   */
  function ClaimUserId(p: ClaimsPrincipal): (r: Option<int>)
    ensures p.nameIdentifier.None? ==> r.None?
    ensures r.Some? ==> MinInt32 <= r.value <= MaxInt32
  {
    TryParseInt32(p.nameIdentifier)
  }

  /** On a principal that is authenticated, `ClaimUserId` agrees with `GetUserId`. */
  lemma ClaimUserIdAgrees(ctx: HttpContext)
    requires ctx.user.isAuthenticated
    ensures ClaimUserId(ctx.user) == GetUserId(ctx)
  {
  }

  /**
   * The anonymous-allowed endpoints' reading: when authenticated and the
   * claim is non-empty, `int.Parse` it (an unparsable claim throws);
   * otherwise there is no user.
   */
  function OptionalCallerId(p: ClaimsPrincipal): (r: Result<Option<int>>)
    ensures !p.isAuthenticated ==> r == Success(None)
    ensures r.Failure? <==> p.isAuthenticated && !IsNullOrEmpty(p.nameIdentifier) && TryParseInt32(p.nameIdentifier).None?
    ensures r.Success? && r.value.Some? ==> p.isAuthenticated && TryParseInt32(p.nameIdentifier) == r.value
    ensures p.isAuthenticated && TryParseInt32(p.nameIdentifier).Some? ==> r == Success(TryParseInt32(p.nameIdentifier))
    ensures p.isAuthenticated && IsNullOrEmpty(p.nameIdentifier) ==> r == Success(None)
  {
    if p.isAuthenticated && !IsNullOrEmpty(p.nameIdentifier) then
      match ParseInt32(p.nameIdentifier)
      case Success(v) => Success(Some(v))
      case Failure(f) => Failure(f)
    else Success(None)
  }

  /** The `[Authorize]` endpoints' reading: `int.Parse` of the claim; a missing claim throws too. */
  function RequiredCallerId(p: ClaimsPrincipal): (r: Result<int>)
    ensures p.nameIdentifier.None? ==> r.Failure?
    ensures r.Success? ==> MinInt32 <= r.value <= MaxInt32
    ensures r.Success? <==> ClaimUserId(p).Some?
    ensures r.Success? ==> Some(r.value) == ClaimUserId(p)
  {
    ParseInt32(p.nameIdentifier)
  }

  /** A token issued for `userId` gives that id back to every `[Authorize]` endpoint. */
  lemma RequiredCallerIdOfSignedIn(userId: int)
    requires MinInt32 <= userId <= MaxInt32
    ensures RequiredCallerId(SignedIn(userId)) == Success(userId)
  {
    FormatThenParse(userId);
  }

  /** A claim holding a character that is no digit, sign or white space makes the endpoint throw. */
  lemma NonNumericClaimRefused(p: ClaimsPrincipal, i: int)
    requires p.nameIdentifier.Some? && 0 <= i < |p.nameIdentifier.value|
    requires var c := p.nameIdentifier.value[i]; !IsNumberWhite(c) && !IsDigit(c) && c != '+' && c != '-'
    ensures RequiredCallerId(p).Failure?
    ensures p.isAuthenticated ==> OptionalCallerId(p).Failure?
  {
  }
}
