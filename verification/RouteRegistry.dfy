/** The route registry: tags, the mounting decision, and the audit at the end
    (internal/platform/routes/registry.go). */
module RouteRegistry {
  import opened Wrappers
  import opened AccessConfig
  import opened Text

  const ADMIN_GROUP := "Admin"
  const THEME_PAGES := "ThemePages"

  // ---------- tags ----------

  /** strings.Split(s, "."). */
  function Split(s: string): (parts: seq<string>)
    ensures parts != []
    decreases |s|
  {
    var i := FirstDot(s);
    if i == |s| then [s] else [s[..i]] + Split(s[i + 1..])
  }

  /** parseTag; None stands for the panic. */
  function ParseTag(tag: string): Option<(string, string)> {
    var parts := Split(tag);
    if |parts| != 2 || parts[0] == "" || parts[1] == "" then None else Some((parts[0], parts[1]))
  }

  function TagOf(group: string, action: string): string {
    group + "." + action
  }

  /** A name that can stand in a tag. */
  predicate IsSegment(s: string) {
    s != "" && '.' !in s
  }

  lemma SplitPlain(s: string)
    ensures |Split(s)| == 1 <==> '.' !in s
    ensures '.' !in s ==> Split(s) == [s]
  {
    var i := FirstDot(s);
    assert i == |s| ==> s[..i] == s;
  }

  lemma ParsedIsTag(tag: string)
    requires ParseTag(tag).Some?
    ensures var (group, action) := ParseTag(tag).value;
            tag == TagOf(group, action) && IsSegment(group) && IsSegment(action)
  {
    var i := FirstDot(tag);
    if i < |tag| {
      SplitPlain(tag[i + 1..]);
      assert tag == TagOf(tag[..i], tag[i + 1..]);
    }
  }

  lemma TagParses(group: string, action: string)
    requires IsSegment(group) && IsSegment(action)
    ensures ParseTag(TagOf(group, action)) == Some((group, action))
  {
    var tag := TagOf(group, action);
    FirstDotOf(group, action);
    assert tag[..|group|] == group && tag[|group| + 1..] == action;
    SplitPlain(action);
  }

  /** parseTag and group + "." + action are inverse to each other on the names a tag can hold,
      and every other text is refused. */
  lemma ParseTagInverse(tag: string, group: string, action: string)
    ensures ParseTag(tag) == Some((group, action)) <==>
            tag == TagOf(group, action) && IsSegment(group) && IsSegment(action)
  {
    if ParseTag(tag).Some? {
      ParsedIsTag(tag);
    }
    if IsSegment(group) && IsSegment(action) {
      TagParses(group, action);
    }
  }

  /** group + "." + action only parses back to the same pair. */
  lemma TagDeterminesPair(group: string, action: string)
    requires ParseTag(TagOf(group, action)).Some?
    ensures ParseTag(TagOf(group, action)) == Some((group, action))
  {
    var tag := TagOf(group, action);
    var (g, a) := ParseTag(tag).value;
    ParseTagInverse(tag, g, a);
    FirstDotOf(g, a);
    assert tag[|group|] == '.';
    assert forall k :: 0 <= k < |g| ==> tag[k] == g[k] && g[k] in g;
    assert forall k :: 0 <= k < |a| ==> tag[|g| + 1 + k] == a[k] && a[k] in a;
    assert |group| == |g|;
    assert group == tag[..|g|] == g && action == tag[|g| + 1..] == a;
  }

  // ---------- roles ----------

  datatype Role = Role(name: string, groupID: int)

  const ROLE_AUTHENTICATED := Role(MEMBER_ROLE, -1)
  const ROLE_PUBLIC := Role("Public", -2)
  const ROLE_ADMIN := Role("Admin", 99)

  /** The byName table of NewRoleResolver. */
  function NewResolver(roles: map<string, int>): map<string, Role> {
    map[ROLE_ADMIN.name := ROLE_ADMIN] + map name <- roles :: Role(name, roles[name])
  }

  function GetRole(byName: map<string, Role>, name: string): Option<Role> {
    if name == ROLE_PUBLIC.name then Some(ROLE_PUBLIC)
    else if name == MEMBER_ROLE || name == VERIFIED_ROLE then Some(ROLE_AUTHENTICATED)
    else if name in byName then Some(byName[name]) else None
  }

  /** The unreserved names and group numbers validateRolesConfig lets through, as far as needed here. */
  predicate ValidRoleConfig(roles: map<string, int>) {
    forall name <- roles :: name !in ["Admin", "Player", "Public", MEMBER_ROLE, VERIFIED_ROLE] && 0 < roles[name] != 99
  }

  function ResolveRoles(byName: map<string, Role>, names: seq<string>): (r: Option<seq<Role>>)
    ensures r.Some? ==> |r.value| == |names|
    ensures r.Some? ==> forall i :: 0 <= i < |names| ==> GetRole(byName, names[i]) == Some(r.value[i])
  {
    if names == [] then Some([]) else
      var k := |names| - 1;
      match (ResolveRoles(byName, names[..k]), GetRole(byName, names[k]))
      case (Some(init), Some(role)) => Some(init + [role])
      case _ => None
  }

  // ---------- the mounting decision ----------

  /** How a handler is mounted. */
  datatype Mount =
    | AdminOnly
    | AnyUser                      // not configured: authentication only, and noted for the audit
    | Public
    | PublicWithKey
    | ForRoles(roles: seq<Role>, hidden: bool, unrestricted: bool, requireVerified: bool)

  datatype WrapPanic = InvalidTag | NoRoles | UnknownRole | NoKeyGate

  function Lookup(cfg: Config, group: string, action: string): Option<Entry> {
    if group in cfg && action in cfg[group] then Some(cfg[group][action]) else None
  }

  /** The decision of wrap for a tag that parsed. */
  function Decide(cfg: Config, byName: map<string, Role>, hasGate: bool, group: string, action: string, hidden: bool)
    : Result<Mount, WrapPanic>
  {
    if group == ADMIN_GROUP then Success(AdminOnly) else
    match Lookup(cfg, group, action)
    case None => Success(AnyUser)
    case Some(entry) =>
      if entry.RoleNames() == [] then Failure(NoRoles) else
      match ResolveRoles(byName, entry.RoleNames())
      case None => Failure(UnknownRole)
      case Some(roles) =>
        if roles == [ROLE_ADMIN] then Success(AdminOnly)
        else if roles == [ROLE_PUBLIC] then
          if !entry.RequiresAPIKey() then Success(Public)
          else if hasGate then Success(PublicWithKey) else Failure(NoKeyGate)
        else Success(ForRoles(roles, hidden, entry.RequiresUnrestricted(), entry.RequiresVerified()))
  }

  /** isPublicEntry in server/server.go: requests are limited per user unless this holds. */
  predicate IsPublicEntry(e: Entry) {
    PUBLIC_ROLE in e.RoleNames()
  }

  /** Limiter, mounting and API-key gate judge an accepted configuration alike: an entry is
      limited per address iff it is mounted without a session check, an entry that asks for a
      key is mounted behind the gate and no other is, and a sole Admin entry is Admin-only. */
  lemma DecisionsAgree(cfg: Config, custom: map<string, int>, hasGate: bool, group: string, action: string, hidden: bool)
    requires ValidConfig(cfg) && ValidRoleConfig(custom)
    requires group in cfg && action in cfg[group]
    requires Decide(cfg, NewResolver(custom), hasGate, group, action, hidden).Success?
    ensures var e := cfg[group][action];
            var mount := Decide(cfg, NewResolver(custom), hasGate, group, action, hidden).value;
            && (IsPublicEntry(e) <==> mount.Public? || mount.PublicWithKey?)
            && (IsPublicEntry(e) <==> e.roles == Some(["Public"]))
            && ("APIKey" in e.tags <==> mount.PublicWithKey?)
            && (mount == AdminOnly <==> e.roles == Some(["Admin"]))
            && mount != AnyUser
            && (mount.ForRoles? ==> ROLE_PUBLIC !in mount.roles && ROLE_ADMIN !in mount.roles)
  {
    var e := cfg[group][action];
    assert ValidEntry(e);
    var names := e.RoleNames();
    var roles := ResolveRoles(NewResolver(custom), names).value;
    RolesReflectNames(custom, names);
    if PUBLIC_ROLE in names {
      assert PUBLIC_ROLE in [PUBLIC_ROLE, MEMBER_ROLE, VERIFIED_ROLE, ADMIN_ROLE];
      assert names == [PUBLIC_ROLE] && roles == [ROLE_PUBLIC];
    } else if ADMIN_ROLE in names {
      assert ADMIN_ROLE in [PUBLIC_ROLE, MEMBER_ROLE, VERIFIED_ROLE, ADMIN_ROLE];
      assert names == [ADMIN_ROLE] && roles == [ROLE_ADMIN];
    } else {
      assert ROLE_PUBLIC !in roles && ROLE_ADMIN !in roles;
    }
  }

  /** A name of the list that stands for a role. */
  ghost predicate Known(custom: map<string, int>, name: string) {
    name in {"Public", "Member", "Verified", "Admin"} || name in custom
  }

  /** The role a name stands for: Member and Verified both mean any logged-in account. */
  ghost function RoleNamed(custom: map<string, int>, name: string): Role
    requires Known(custom, name)
  {
    if name == "Public" then ROLE_PUBLIC
    else if name == "Member" || name == "Verified" then ROLE_AUTHENTICATED
    else if name == "Admin" then ROLE_ADMIN
    else Role(name, custom[name])
  }

  lemma ResolvedExactly(custom: map<string, int>, name: string)
    requires ValidRoleConfig(custom)
    ensures GetRole(NewResolver(custom), name) == if Known(custom, name) then Some(RoleNamed(custom, name)) else None
  {
  }

  lemma {:induction false} AllResolvedExactly(custom: map<string, int>, names: seq<string>)
    requires ValidRoleConfig(custom)
    ensures ResolveRoles(NewResolver(custom), names).Some? <==> forall name <- names :: Known(custom, name)
  {
    if names != [] {
      var k := |names| - 1;
      AllResolvedExactly(custom, names[..k]);
      ResolvedExactly(custom, names[k]);
      assert names == names[..k] + [names[k]];
    }
  }

  /** The gated mount of an accepted entry: one role for each name, in order, and each condition on the
      account from the entry itself. */
  lemma RoleMountExactly(cfg: Config, custom: map<string, int>, hasGate: bool, group: string, action: string, hidden: bool)
    requires ValidConfig(cfg) && ValidRoleConfig(custom)
    requires group in cfg && action in cfg[group]
    requires var r := Decide(cfg, NewResolver(custom), hasGate, group, action, hidden); r.Success? && r.value.ForRoles?
    ensures var e := cfg[group][action];
            var mount := Decide(cfg, NewResolver(custom), hasGate, group, action, hidden).value;
            && e.roles.Some? && |mount.roles| == |e.roles.value|
            && (forall i :: 0 <= i < |mount.roles| ==>
                  Known(custom, e.roles.value[i]) && mount.roles[i] == RoleNamed(custom, e.roles.value[i]))
            && (mount.requireVerified <==> "Public" !in e.roles.value && "Member" !in e.roles.value)
            && (mount.unrestricted <==> "Unrestricted" in e.tags)
            && mount.hidden == hidden
  {
    RolesOfNames(custom, cfg[group][action].RoleNames());
  }

  lemma RolesOfNames(custom: map<string, int>, names: seq<string>)
    requires ValidRoleConfig(custom) && ResolveRoles(NewResolver(custom), names).Some?
    ensures var roles := ResolveRoles(NewResolver(custom), names).value;
            && |roles| == |names|
            && forall i :: 0 <= i < |names| ==> Known(custom, names[i]) && roles[i] == RoleNamed(custom, names[i])
  {
    forall i | 0 <= i < |names|
      ensures GetRole(NewResolver(custom), names[i]) == if Known(custom, names[i]) then Some(RoleNamed(custom, names[i])) else None
    {
      ResolvedExactly(custom, names[i]);
    }
  }

  /** So a Member entry lets in every logged-in account, a Verified one those that are verified. */
  lemma MemberAndVerified(cfg: Config, byName: map<string, Role>, hasGate: bool, group: string, action: string, hidden: bool)
    requires group in cfg && action in cfg[group] && group != ADMIN_GROUP
    ensures var e := cfg[group][action];
            var r := Decide(cfg, byName, hasGate, group, action, hidden);
            var unrestricted := "Unrestricted" in e.tags;
            && (e.roles == Some(["Member"]) ==> r == Success(ForRoles([ROLE_AUTHENTICATED], hidden, unrestricted, false)))
            && (e.roles == Some(["Verified"]) ==> r == Success(ForRoles([ROLE_AUTHENTICATED], hidden, unrestricted, true)))
  {
    SoleRole(byName, "Member");
    SoleRole(byName, "Verified");
    assert ROLE_AUTHENTICATED != ROLE_ADMIN && ROLE_AUTHENTICATED != ROLE_PUBLIC;
    assert [ROLE_AUTHENTICATED][0] != [ROLE_ADMIN][0] && [ROLE_AUTHENTICATED][0] != [ROLE_PUBLIC][0];
    assert "Member" in ["Member"] && forall r <- ["Verified"] :: r != "Public" && r != "Member";
  }

  lemma SoleRole(byName: map<string, Role>, name: string)
    requires name == "Member" || name == "Verified"
    ensures ResolveRoles(byName, [name]) == Some([ROLE_AUTHENTICATED])
  {
    var names := [name];
    assert names[..|names| - 1] == [] && ResolveRoles(byName, []) == Some([]);
    assert GetRole(byName, names[|names| - 1]) == Some(ROLE_AUTHENTICATED);
    assert [] + [ROLE_AUTHENTICATED] == [ROLE_AUTHENTICATED];
  }

  /** What is not up to access.yml: the admin group, and tags it does not configure. */
  lemma MountedWithoutEntry(cfg: Config, byName: map<string, Role>, hasGate: bool, group: string, action: string, hidden: bool)
    ensures var r := Decide(cfg, byName, hasGate, group, action, hidden);
            && (group == "Admin" ==> r == Success(AdminOnly))
            && (group != "Admin" ==> (r == Success(AnyUser) <==> group !in cfg || action !in cfg[group]))
  {
  }

  /** Which accepted entries are mounted at all, and which panic is raised for the others. */
  lemma MountsExactly(cfg: Config, custom: map<string, int>, hasGate: bool, group: string, action: string, hidden: bool)
    requires ValidConfig(cfg) && ValidRoleConfig(custom)
    requires group in cfg && action in cfg[group]
    ensures var e := cfg[group][action];
            var r := Decide(cfg, NewResolver(custom), hasGate, group, action, hidden);
            && (r == Failure(NoRoles) <==> e.roles == None)
            && (r == Failure(UnknownRole) <==> e.roles.Some? && exists name <- e.roles.value :: !Known(custom, name))
            && (r == Failure(NoKeyGate) <==> e.roles == Some(["Public"]) && "APIKey" in e.tags && !hasGate)
            && r != Failure(InvalidTag)
            && (r.Success? && r.value.ForRoles? <==>
                  && e.roles.Some? && e.roles != Some(["Public"]) && e.roles != Some(["Admin"])
                  && forall name <- e.roles.value :: Known(custom, name))
  {
    var e := cfg[group][action];
    assert ValidEntry(e);
    if e.roles.Some? {
      AllResolvedExactly(custom, e.roles.value);
      if ResolveRoles(NewResolver(custom), e.roles.value).Some? {
        RolesReflectNames(custom, e.roles.value);
        SoleRoles(custom, e);
      }
    }
  }

  lemma SoleRoles(custom: map<string, int>, e: Entry)
    requires ValidRoleConfig(custom) && ValidEntry(e) && e.roles.Some? && ResolveRoles(NewResolver(custom), e.roles.value).Some?
    ensures var roles := ResolveRoles(NewResolver(custom), e.roles.value).value;
            && (roles == [ROLE_PUBLIC] <==> e.roles == Some(["Public"]))
            && (roles == [ROLE_ADMIN] <==> e.roles == Some(["Admin"]))
  {
    var names := e.roles.value;
    RolesReflectNames(custom, names);
    assert PUBLIC_ROLE in [PUBLIC_ROLE, MEMBER_ROLE, VERIFIED_ROLE, ADMIN_ROLE];
    assert ADMIN_ROLE in [PUBLIC_ROLE, MEMBER_ROLE, VERIFIED_ROLE, ADMIN_ROLE];
  }

  lemma RoleReflectsName(custom: map<string, int>, name: string)
    requires ValidRoleConfig(custom) && GetRole(NewResolver(custom), name).Some?
    ensures var role := GetRole(NewResolver(custom), name).value;
            && (role == ROLE_PUBLIC <==> name == PUBLIC_ROLE)
            && (role == ROLE_ADMIN <==> name == ADMIN_ROLE)
  {
  }

  /** Public and Admin are resolved from their own names and from no other. */
  lemma RolesReflectNames(custom: map<string, int>, names: seq<string>)
    requires ValidRoleConfig(custom) && ResolveRoles(NewResolver(custom), names).Some?
    ensures var roles := ResolveRoles(NewResolver(custom), names).value;
            && (PUBLIC_ROLE in names <==> ROLE_PUBLIC in roles)
            && (ADMIN_ROLE in names <==> ROLE_ADMIN in roles)
            && (names == [PUBLIC_ROLE] ==> roles == [ROLE_PUBLIC])
            && (names == [ADMIN_ROLE] ==> roles == [ROLE_ADMIN])
  {
    var roles := ResolveRoles(NewResolver(custom), names).value;
    forall i | 0 <= i < |names|
      ensures roles[i] == ROLE_PUBLIC <==> names[i] == PUBLIC_ROLE
      ensures roles[i] == ROLE_ADMIN <==> names[i] == ADMIN_ROLE
    {
      RoleReflectsName(custom, names[i]);
    }
  }

  // ---------- the registry ----------

  datatype RouteInfo = RouteInfo(tag: string, pattern: string)

  datatype Mounted = Mounted(mount: Mount, limited: bool)

  datatype FinalizeResult =
    | Ready(deadThemeEntries: seq<string>)
    | DeadEntries(tags: seq<string>)
    | UngatedRoutes(routes: seq<RouteInfo>)

  /** The tag is in the admin group or configured in access.yml. */
  predicate IsGated(cfg: Config, tag: string) {
    var parsed := ParseTag(tag);
    parsed.Some? && (parsed.value.0 == ADMIN_GROUP || Lookup(cfg, parsed.value.0, parsed.value.1).Some?)
  }

  /** That is: a group and an action, the group being Admin or the pair configured. */
  lemma GatedExactly(cfg: Config, tag: string)
    ensures IsGated(cfg, tag) <==>
            exists group, action ::
              && tag == group + "." + action && IsSegment(group) && IsSegment(action)
              && (group == "Admin" || (group in cfg && action in cfg[group]))
  {
    if IsGated(cfg, tag) {
      var (group, action) := ParseTag(tag).value;
      ParseTagInverse(tag, group, action);
      assert tag == group + "." + action;
    }
    if group, action :| tag == group + "." + action && IsSegment(group) && IsSegment(action)
                        && (group == "Admin" || (group in cfg && action in cfg[group])) {
      ParseTagInverse(tag, group, action);
    }
  }

  function UngatedOf(cfg: Config, routes: seq<RouteInfo>): seq<RouteInfo> {
    if routes == [] then [] else
      var k := |routes| - 1;
      UngatedOf(cfg, routes[..k]) + (if IsGated(cfg, routes[k].tag) then [] else [routes[k]])
  }

  lemma {:induction false} UngatedMembers(cfg: Config, routes: seq<RouteInfo>)
    ensures forall r :: r in UngatedOf(cfg, routes) <==> r in routes && !IsGated(cfg, r.tag)
  {
    if routes != [] {
      UngatedMembers(cfg, routes[..|routes| - 1]);
      assert routes == routes[..|routes| - 1] + [routes[|routes| - 1]];
    }
  }

  class Registry {
    const cfg: Config
    const byName: map<string, Role>
    const limiters: set<string>
    const hasGate: bool
    var registered: set<string>
    var routes: seq<RouteInfo>
    var ungated: seq<RouteInfo>

    /** registered and ungated are what the routes, in order of registration, make them. */
    ghost predicate Valid()
      reads this
    {
      && registered == (set r <- routes :: r.tag)
      && (forall r <- routes :: ParseTag(r.tag).Some?)
      && ungated == UngatedOf(cfg, routes)
    }

    constructor (cfg: Config, byName: map<string, Role>, limiters: set<string>, hasGate: bool)
      ensures Valid() && routes == []
      ensures this.cfg == cfg && this.byName == byName && this.limiters == limiters && this.hasGate == hasGate
    {
      this.cfg, this.byName, this.limiters, this.hasGate := cfg, byName, limiters, hasGate;
      registered, routes, ungated := {}, [], [];
    }

    /** The branches of wrap for a configured entry. */
    method MountConfigured(entry: Entry, hidden: bool) returns (r: Result<Mount, WrapPanic>)
      ensures forall group, action | group != ADMIN_GROUP && Lookup(cfg, group, action) == Some(entry) ::
                r == Decide(cfg, byName, hasGate, group, action, hidden)
    {
      if |entry.RoleNames()| == 0 {
        return Failure(NoRoles);
      }
      var roles := ResolveRoles(byName, entry.RoleNames());
      if roles.None? {
        return Failure(UnknownRole);
      }
      if |roles.value| == 1 && roles.value[0] == ROLE_ADMIN {
        return Success(AdminOnly);
      }
      if |roles.value| == 1 && roles.value[0] == ROLE_PUBLIC {
        if !entry.RequiresAPIKey() {
          return Success(Public);
        }
        if !hasGate {
          return Failure(NoKeyGate);
        }
        return Success(PublicWithKey);
      }
      return Success(ForRoles(roles.value, hidden, entry.RequiresUnrestricted(), entry.RequiresVerified()));
    }

    /** wrap, with hidden set by WrapHidden; the handler itself stays out of the model. */
    method Wrap(tag: string, pattern: string, hidden: bool) returns (r: Result<Mounted, WrapPanic>)
      requires Valid()
      modifies this
      ensures Valid()
      ensures routes == if ParseTag(tag).None? then old(routes) else old(routes) + [RouteInfo(tag, pattern)]
      ensures match ParseTag(tag)
              case None => r == Failure(InvalidTag)
              case Some((group, action)) =>
                match Decide(cfg, byName, hasGate, group, action, hidden)
                case Failure(p) => r == Failure(p)
                case Success(mount) => r == Success(Mounted(mount, tag in limiters))
    {
      var parsed := ParseTag(tag);
      if parsed.None? {
        return Failure(InvalidTag);
      }
      var (group, action) := parsed.value;
      ghost var was := routes;
      registered := registered + {tag};
      routes := routes + [RouteInfo(tag, pattern)];
      assert routes[..|was|] == was;
      assert registered == (set x <- routes :: x.tag);
      var limited := tag in limiters;
      if group == ADMIN_GROUP {
        return Success(Mounted(AdminOnly, limited));
      }
      if group !in cfg || action !in cfg[group] {
        ungated := ungated + [RouteInfo(tag, pattern)];
        return Success(Mounted(AnyUser, limited));
      }
      var mount :- MountConfigured(cfg[group][action], hidden);
      return Success(Mounted(mount, limited));
    }

    // ---------- Finalize ----------

    /** The pair was registered. */
    ghost predicate HasRoute(group: string, action: string)
      reads this
    {
      exists r <- routes :: ParseTag(r.tag) == Some((group, action))
    }

    /** The lookup of group + "." + action in registered finds exactly the registered pairs. */
    lemma RegisteredPair(group: string, action: string)
      requires Valid()
      ensures TagOf(group, action) in registered <==> HasRoute(group, action)
    {
      if TagOf(group, action) in registered {
        var r :| r in routes && r.tag == TagOf(group, action);
        TagDeterminesPair(group, action);
      }
      if HasRoute(group, action) {
        var r :| r in routes && ParseTag(r.tag) == Some((group, action));
        ParseTagInverse(r.tag, group, action);
      }
    }

    /** The dead entries found by the nested loops, each configured tag looked up once; maps are
        visited in any order. */
    method DeadEntriesOf() returns (dead: seq<string>, deadTheme: seq<string>)
      requires Valid()
      ensures forall t :: t in dead <==>
                exists g <- cfg | g != THEME_PAGES :: exists a <- cfg[g] :: t == TagOf(g, a) && t !in registered
      ensures forall t :: t in deadTheme <==>
                exists a <- Lookups(THEME_PAGES) :: t == TagOf(THEME_PAGES, a) && t !in registered
    {
      dead, deadTheme := [], [];
      var groups := cfg.Keys;
      while groups != {}
        invariant groups <= cfg.Keys
        invariant forall t :: t in dead <==>
                    exists g <- cfg | g != THEME_PAGES && g !in groups :: exists a <- cfg[g] :: t == TagOf(g, a) && t !in registered
        invariant forall t :: t in deadTheme <==>
                    THEME_PAGES !in groups && exists a <- Lookups(THEME_PAGES) :: t == TagOf(THEME_PAGES, a) && t !in registered
      {
        var g :| g in groups;
        var found := DeadActions(g, cfg[g]);
        if g == THEME_PAGES {
          deadTheme := deadTheme + found;
        } else {
          dead := dead + found;
        }
        groups := groups - {g};
      }
    }

    function Lookups(group: string): Actions {
      if group in cfg then cfg[group] else map[]
    }

    method DeadActions(group: string, configured: Actions) returns (found: seq<string>)
      ensures forall t :: t in found <==> exists a <- configured :: t == TagOf(group, a) && t !in registered
    {
      found := [];
      var todo := configured.Keys;
      while todo != {}
        invariant todo <= configured.Keys
        invariant forall t :: t in found <==>
                    exists a <- configured | a !in todo :: t == TagOf(group, a) && t !in registered
      {
        var a :| a in todo;
        var tag := TagOf(group, a);
        if tag !in registered {
          found := found + [tag];
        }
        todo := todo - {a};
      }
    }

    /** Finalize returns normally iff every route is in the admin group or configured and every
        configured pair outside ThemePages was registered; it warns about the dead theme pages. */
    method Finalize() returns (r: FinalizeResult)
      requires Valid()
      ensures r.Ready? <==>
                && (forall route <- routes :: IsGated(cfg, route.tag))
                && (forall g <- cfg | g != THEME_PAGES :: forall a <- cfg[g] :: HasRoute(g, a))
      ensures r.Ready? ==> forall a <- Lookups(THEME_PAGES) :: TagOf(THEME_PAGES, a) in r.deadThemeEntries <==> !HasRoute(THEME_PAGES, a)
      ensures r.UngatedRoutes? ==> r.routes != [] && forall x :: x in r.routes <==> x in routes && !IsGated(cfg, x.tag)
      ensures r.DeadEntries? ==> r.tags != [] && forall g <- cfg | g != THEME_PAGES ::
                forall a <- cfg[g] :: TagOf(g, a) in r.tags <==> !HasRoute(g, a)
    {
      var dead, deadTheme := DeadEntriesOf();
      UngatedMembers(cfg, routes);
      forall g, a
        ensures TagOf(g, a) in registered <==> HasRoute(g, a)
      {
        RegisteredPair(g, a);
      }
      if |dead| > 0 {
        assert dead[0] in dead;
        return DeadEntries(dead);
      }
      if |ungated| > 0 {
        assert ungated[0] in ungated;
        return UngatedRoutes(ungated);
      }
      return Ready(deadTheme);
    }
  }
}
