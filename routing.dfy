/** Identity extraction and notification routing of `lambda_handler`: who the
    actor is, and which recipient and cc lists every email of the invocation uses. */
module Routing {
  import opened Wrappers
  import opened Strings
  import opened EmailPattern

  /** `arn.split('/')[-1]`: the text after the last `/` of the actor's ARN, or the
      whole ARN when it holds no `/`. */
  function ActorIdentity(arn: string): (id: string)
    ensures '/' !in id
    ensures |id| <= |arn| && id == arn[|arn| - |id|..]
    ensures |id| < |arn| ==> arn[|arn| - |id| - 1] == '/'
    ensures '/' !in arn ==> id == arn
  {
    LastFieldIsTail(arn, '/');
    LastField(arn, '/')
  }

  /** Conversely, whatever precedes the last `/`, the identity is what follows it. */
  lemma ActorIdentityAfterSlash(prefix: string, id: string)
    requires '/' !in id
    ensures ActorIdentity(prefix + ['/'] + id) == id
  {
    LastFieldAfter(prefix, id, '/');
  }

  /** The recipient list (`violatorEmail`) and the cc list (`adminEmail`) that every
      notification of one invocation is sent with; `None` is Python's None. */
  datatype Route = Route(recipient: Option<seq<string>>, cc: Option<seq<string>>)

  /** The admin address as a one-element list, when the account has one. */
  function AdminList(admin: Option<string>): Option<seq<string>>
  {
    if admin.Some? then Some([admin.value]) else None
  }

  /** The route of an invocation. An email-shaped actor is the recipient and the
      admin, if any, is copied; otherwise the admin, if any, is the recipient and
      nobody is copied, even when an admin exists. */
  function ResolveRoute(arn: string, admin: Option<string>): (route: Route)
    ensures MatchesEmailPattern(ActorIdentity(arn)) ==>
      route.recipient == Some([ActorIdentity(arn)]) && route.cc == AdminList(admin)
    ensures !MatchesEmailPattern(ActorIdentity(arn)) ==>
      route.recipient == AdminList(admin) && route.cc == None
  {
    var adminEmail := AdminList(admin);
    var email := ActorIdentity(arn);
    if MatchesEmailPattern(email) then Route(Some([email]), adminEmail)
    else Route(adminEmail, None)
  }

  /** Every list of a route holds exactly one address, the actor's identity or the
      admin's; the admin, when known, is always on one of them; something is copied
      only when the actor is email-shaped and an admin exists; and nobody at all is
      addressed only when the actor is not email-shaped and there is no admin. */
  lemma RouteParties(arn: string, admin: Option<string>)
    ensures var route, id := ResolveRoute(arn, admin), ActorIdentity(arn);
      && (route.recipient.Some? ==>
            && |route.recipient.value| == 1
            && (route.recipient.value[0] == id || admin == Some(route.recipient.value[0])))
      && (route.cc.Some? ==> admin.Some? && route.cc.value == [admin.value])
      && (admin.Some? ==> route.recipient == Some([admin.value]) || route.cc == Some([admin.value]))
      && (route.cc.Some? <==> MatchesEmailPattern(id) && admin.Some?)
      && (route.recipient.None? <==> !MatchesEmailPattern(id) && admin.None?)
  {
  }

  /** `alice@example.com` passes the email test. */
  lemma ExampleAddress()
    ensures MatchesEmailPattern("alice@example.com")
  {
    var s := "alice@example.com";
    assert s[..5] == "alice" && s[6..13] == "example" && s[14..] == "com";
    assert AddressSplitAt(s, 5, 13);
    AcceptsIffAddress(s);
  }

  /** An ARN ending in an email-shaped name routes to that name, copying the admin. */
  lemma EmailActorRoute(prefix: string, id: string, admin: Option<string>)
    requires '/' !in id && MatchesEmailPattern(id)
    ensures ResolveRoute(prefix + "/" + id, admin) == Route(Some([id]), AdminList(admin))
  {
    ActorIdentityAfterSlash(prefix, id);
  }

  /** An ARN ending in a name without `@` (a role session, a service) routes to the
      admin alone, if there is one, and copies nobody. */
  lemma OtherActorRoute(prefix: string, id: string, admin: Option<string>)
    requires '/' !in id && '@' !in id
    ensures ResolveRoute(prefix + "/" + id, admin) == Route(AdminList(admin), None)
  {
    ActorIdentityAfterSlash(prefix, id);
    NoAtRejected(id);
  }

  /** When the actor's own address is the admin's, the admin is both the recipient
      and the cc: the route repeats the address. */
  lemma AdminMayBeRepeated(prefix: string, id: string)
    requires '/' !in id && MatchesEmailPattern(id)
    ensures ResolveRoute(prefix + "/" + id, Some(id)) == Route(Some([id]), Some([id]))
  {
    EmailActorRoute(prefix, id, Some(id));
  }

  /** An actor whose name has no `@`, in an account without an admin address:
      neither list is present. */
  lemma RouteMayBeEmpty(prefix: string, id: string)
    requires '/' !in id && '@' !in id
    ensures ResolveRoute(prefix + "/" + id, None) == Route(None, None)
  {
    OtherActorRoute(prefix, id, None);
  }
}
