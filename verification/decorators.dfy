/** The route guards: Flask-Login's `login_required` and the application's
    `requires_role` and `owns_resource` decorators, each as a decision about one
    request, and the stacking of decorators on a route. */
module Decorators {
  import opened Wrappers
  import opened Models

  /** `current_user`: anonymous, or a loaded user with an id and a role. */
  datatype Principal = Anonymous | Authenticated(id: nat, role: string)

  /** What a guard does with a request: pass it on to the handler, redirect to
      the login page, or abort with 400, 404 or 403. */
  datatype Decision = Allow | RedirectToLogin | BadRequest | NotFound | Forbidden

  /** `login_required`: anonymous requests go to the login view. */
  function LoginRequired(p: Principal): (d: Decision)
    ensures d == Allow <==> p.Authenticated?
    ensures d != Allow ==> d == RedirectToLogin
  {
    if p.Anonymous? then RedirectToLogin else Allow
  }

  /** `requires_role(roleName)`: an anonymous request is redirected to login and
      nothing else; a logged-in user passes exactly when their role is
      `roleName` or `'admin'`, and gets 403 otherwise. */
  function RequiresRole(p: Principal, roleName: string): (d: Decision)
    ensures p.Anonymous? ==> d == RedirectToLogin
    ensures p.Authenticated? ==> (d == Allow <==> p.role == roleName || p.role == ADMIN)
    ensures p.Authenticated? && d != Allow ==> d == Forbidden
  {
    match p
    case Anonymous => RedirectToLogin
    case Authenticated(_, role) => if role != roleName && role != ADMIN then Forbidden else Allow
  }

  /** Python truthiness of `kwargs.get(id_param)`: a missing argument and 0 are both falsy. */
  predicate Truthy(rawId: Option<int>) {
    rawId.Some? && rawId.value != 0
  }

  /** `owns_resource(model, id_param, owner_attr)`. `find` is `model.query.get`;
      `owner` reads `owner_attr` off a resource, `None` when it has no such
      attribute. The checks run in `owns_resource`'s order: login, a truthy id (400),
      the lookup (404), the admin bypass, then ownership (403). */
  function OwnsResource<R>(p: Principal, rawId: Option<int>, find: int -> Option<R>,
                           owner: R -> Option<int>): (d: Decision)
    ensures p.Anonymous? ==> d == RedirectToLogin
    ensures p.Authenticated? && !Truthy(rawId) ==> d == BadRequest
    ensures p.Authenticated? && Truthy(rawId) && find(rawId.value).None? ==> d == NotFound
    ensures p.Authenticated? && Truthy(rawId) && find(rawId.value).Some? ==>
      (d == Allow <==> p.role == ADMIN || owner(find(rawId.value).value) == Some(p.id))
    ensures p.Authenticated? && Truthy(rawId) && find(rawId.value).Some? && d != Allow ==> d == Forbidden
  {
    if p.Anonymous? then RedirectToLogin
    else if !Truthy(rawId) then BadRequest
    else match find(rawId.value)
      case None => NotFound
      case Some(resource) =>
        if p.role == ADMIN then Allow
        else if owner(resource) == Some(p.id) then Allow
        else Forbidden
  }

  /** Two stacked decorators: the outer one decides first, and the inner one is
      consulted only when the outer one lets the request through. */
  function Stack(outer: Decision, inner: Decision): (d: Decision)
    ensures outer != Allow ==> d == outer
    ensures outer == Allow ==> d == inner
  {
    if outer == Allow then inner else outer
  }

  /** A stack lets a request through exactly when every layer does. */
  lemma StackAllowsIffBoth(outer: Decision, inner: Decision)
    ensures Stack(outer, inner) == Allow <==> outer == Allow && inner == Allow
  {
  }

  /** An admin passes `requires_role` whatever role it names. */
  lemma AdminPassesEveryRole(id: nat, roleName: string)
    ensures RequiresRole(Authenticated(id, ADMIN), roleName) == Allow
  {
  }

  /** For an admin, `owns_resource` can only refuse a bad or unknown id: the
      lookup runs before the admin bypass, so a missing resource is 404 even for
      an admin, and an existing one is always allowed whoever owns it. */
  lemma AdminOwnershipOutcomes<R>(id: nat, rawId: Option<int>, find: int -> Option<R>,
                                  owner: R -> Option<int>)
    ensures var d := OwnsResource(Authenticated(id, ADMIN), rawId, find, owner);
      && (d == Allow <==> Truthy(rawId) && find(rawId.value).Some?)
      && d != Forbidden
      && d != RedirectToLogin
  {
  }
}
