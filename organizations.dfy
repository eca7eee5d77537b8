/**
 * _getOrganizationsForUser: which organizations a user belongs to, read from the
 * user's profile. A singular organization wins over a list of organizations;
 * a profile with neither falls back to the global group.
 */
module Organizations {
  import opened Wrappers

  /** The two profile fields the decision reads; None is an absent field. */
  datatype Profile = Profile(organization: Option<string>, organizations: Option<seq<string>>)

  /** A user object; None is an absent profile. */
  datatype User = User(profile: Option<Profile>)

  /** The singular field is truthy: present and not the empty string. */
  predicate HasSingular(p: Profile)
  {
    p.organization.Some? && p.organization.value != ""
  }

  /** The profile carries organization information at all: a truthy singular
      field, or a plural field (an array is truthy even when empty). */
  predicate HasOrganizationInfo(u: User)
  {
    u.profile.Some? && (HasSingular(u.profile.value) || u.profile.value.organizations.Some?)
  }

  /** user is None for a falsy user argument; globalGroup stands for _GLOBAL_GROUP.
      The result is empty only for a missing user or an explicitly empty list, and
      every entry is one the profile names or the global group. */
  function OrganizationsForUser(user: Option<User>, globalGroup: string): (r: seq<string>)
    ensures r == [] <==> user.None? ||
                         (HasOrganizationInfo(user.value) && !HasSingular(user.value.profile.value) &&
                          user.value.profile.value.organizations.value == [])
    ensures forall o :: o in r ==>
              o == globalGroup ||
              (user.Some? && user.value.profile.Some? &&
               (Some(o) == user.value.profile.value.organization ||
                (user.value.profile.value.organizations.Some? && o in user.value.profile.value.organizations.value)))
  {
    match user
    case None => []
    case Some(u) =>
      if HasOrganizationInfo(u) then
        if HasSingular(u.profile.value) then [u.profile.value.organization.value]
        else u.profile.value.organizations.value
      else [globalGroup]
  }

  /** A profile with only the plural field yields a copy of that list. */
  lemma PluralIsCopied(orgs: seq<string>, singular: Option<string>, globalGroup: string)
    requires singular.None? || singular == Some("")
    ensures OrganizationsForUser(Some(User(Some(Profile(singular, Some(orgs))))), globalGroup) == orgs
  {
  }

  /** A user without organization information belongs to the global group alone. */
  lemma GlobalGroupFallback(u: User, globalGroup: string)
    requires !HasOrganizationInfo(u)
    ensures OrganizationsForUser(Some(u), globalGroup) == [globalGroup]
  {
  }

  /** When the singular field is set, the plural field does not matter. */
  lemma SingularTakesPrecedence(o: string, plural: Option<seq<string>>, plural': Option<seq<string>>, globalGroup: string)
    requires o != ""
    ensures OrganizationsForUser(Some(User(Some(Profile(Some(o), plural)))), globalGroup) ==
            OrganizationsForUser(Some(User(Some(Profile(Some(o), plural')))), globalGroup) == [o]
  {
  }
}
