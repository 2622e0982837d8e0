/** access.yml: validation of entries and the merge of root and theme (server/config/access.go). */
module AccessConfig {
  import opened Wrappers

  const REQUIRE_UNRESTRICTED := "Unrestricted"
  const REQUIRE_KEY_TAG := "APIKey"
  const PUBLIC_ROLE := "Public"
  const MEMBER_ROLE := "Member"
  const VERIFIED_ROLE := "Verified"
  const ADMIN_ROLE := "Admin"

  datatype RateLimitRule = RateLimitRule(ratePerMinute: int, burst: int)

  /** roles is None for the source's nil list, which an entry without Roles has. */
  datatype Entry = Entry(roles: Option<seq<string>>, rateLimit: Option<RateLimitRule>, tags: seq<string>) {

    function RoleNames(): seq<string> {
      if roles.Some? then roles.value else []
    }

    predicate RequiresUnrestricted() {
      REQUIRE_UNRESTRICTED in tags
    }

    predicate RequiresAPIKey() {
      REQUIRE_KEY_TAG in tags
    }

    predicate RequiresVerified() {
      forall r <- RoleNames() :: r != PUBLIC_ROLE && r != MEMBER_ROLE
    }
  }

  type Actions = map<string, Entry>

  type Config = map<string, Actions>

  // ---------- validateAccessConfig ----------

  datatype Complaint =
    | AdminGroup
    | UnknownTag(tag: string)
    | BadRate
    | BadBurst
    | EmptyRoles
    | CombinedRole(role: string)
    | KeyWithoutPublic
    | PublicUnrestricted
    | CombinedAdmin
    | EmptyRoleName
    | AdminUnrestricted

  /** What the validator requires of an entry. */
  ghost predicate ValidEntry(e: Entry) {
    && (forall t <- e.tags :: t == REQUIRE_UNRESTRICTED || t == REQUIRE_KEY_TAG)
    && (e.rateLimit.Some? ==> e.rateLimit.value.ratePerMinute > 0 && e.rateLimit.value.burst > 0)
    && (e.roles.Some? ==> ValidRoles(e, e.roles.value))
  }

  ghost predicate ValidRoles(e: Entry, roles: seq<string>) {
    && roles != [] && "" !in roles
    && (forall r <- [PUBLIC_ROLE, MEMBER_ROLE, VERIFIED_ROLE, ADMIN_ROLE] | r in roles :: roles == [r])
    && (REQUIRE_KEY_TAG in e.tags ==> PUBLIC_ROLE in roles)
    && (REQUIRE_UNRESTRICTED in e.tags ==> PUBLIC_ROLE !in roles && ADMIN_ROLE !in roles)
  }

  ghost predicate ValidConfig(cfg: Config) {
    ADMIN_ROLE !in cfg && forall g <- cfg :: forall a <- cfg[g] :: ValidEntry(cfg[g][a])
  }

  /** What a complaint says of the entry. */
  ghost predicate Holds(e: Entry, c: Complaint) {
    var roles := if e.roles.Some? then e.roles.value else [];
    match c
    case AdminGroup => false
    case UnknownTag(tag) => tag in e.tags && tag != "Unrestricted" && tag != "APIKey"
    case BadRate => e.rateLimit.Some? && e.rateLimit.value.ratePerMinute <= 0
    case BadBurst => e.rateLimit.Some? && e.rateLimit.value.burst <= 0
    case EmptyRoles => e.roles == Some([])
    case CombinedRole(role) => role in ["Public", "Member", "Verified"] && role in roles && |roles| > 1
    case KeyWithoutPublic => "APIKey" in e.tags && "Public" !in roles
    case PublicUnrestricted => "Unrestricted" in e.tags && "Public" in roles
    case CombinedAdmin => "Admin" in roles && |roles| > 1
    case EmptyRoleName => "" in roles
    case AdminUnrestricted => "Unrestricted" in e.tags && roles == ["Admin"]
  }

  method CheckTags(tags: seq<string>) returns (c: Option<Complaint>)
    ensures c.None? <==> forall t <- tags :: t == REQUIRE_UNRESTRICTED || t == REQUIRE_KEY_TAG
    ensures c.Some? ==> c.value.UnknownTag? && c.value.tag in tags && c.value.tag != "Unrestricted" && c.value.tag != "APIKey"
  {
    for i := 0 to |tags|
      invariant forall j :: 0 <= j < i ==> tags[j] == REQUIRE_UNRESTRICTED || tags[j] == REQUIRE_KEY_TAG
    {
      if tags[i] != REQUIRE_UNRESTRICTED && tags[i] != REQUIRE_KEY_TAG {
        assert tags[i] in tags;
        return Some(UnknownTag(tags[i]));
      }
    }
    return None;
  }

  /** panicIfCombinedRole. */
  predicate CombinedWithOthers(roles: seq<string>, role: string) {
    role in roles && |roles| > 1
  }

  method CheckRoles(e: Entry, roles: seq<string>) returns (c: Option<Complaint>)
    ensures c.None? <==> ValidRoles(e, roles)
    ensures c.Some? && e.roles == Some(roles) ==> Holds(e, c.value)
  {
    if |roles| == 0 {
      return Some(EmptyRoles);
    }
    if CombinedWithOthers(roles, PUBLIC_ROLE) {
      return Some(CombinedRole(PUBLIC_ROLE));
    }
    if CombinedWithOthers(roles, MEMBER_ROLE) {
      return Some(CombinedRole(MEMBER_ROLE));
    }
    if CombinedWithOthers(roles, VERIFIED_ROLE) {
      return Some(CombinedRole(VERIFIED_ROLE));
    }
    var hasPublic := PUBLIC_ROLE in roles;
    if e.RequiresAPIKey() && !hasPublic {
      return Some(KeyWithoutPublic);
    }
    if hasPublic && e.RequiresUnrestricted() {
      return Some(PublicUnrestricted);
    }
    var soleAdmin := |roles| == 1 && roles[0] == ADMIN_ROLE;
    for i := 0 to |roles|
      invariant forall j :: 0 <= j < i ==> roles[j] != "" && (roles[j] == ADMIN_ROLE ==> soleAdmin)
    {
      if roles[i] == ADMIN_ROLE && !soleAdmin {
        assert roles != [ADMIN_ROLE];
        return Some(CombinedAdmin);
      }
      if roles[i] == "" {
        return Some(EmptyRoleName);
      }
    }
    assert forall r <- [PUBLIC_ROLE, MEMBER_ROLE, VERIFIED_ROLE, ADMIN_ROLE] | r in roles :: roles == [r];
    if soleAdmin && e.RequiresUnrestricted() {
      return Some(AdminUnrestricted);
    }
    return None;
  }

  method CheckEntry(e: Entry) returns (c: Option<Complaint>)
    ensures c.None? <==> ValidEntry(e)
    ensures c.Some? ==> Holds(e, c.value)
  {
    c := CheckTags(e.tags);
    if c.Some? {
      return;
    }
    if e.rateLimit.Some? {
      if e.rateLimit.value.ratePerMinute <= 0 {
        return Some(BadRate);
      }
      if e.rateLimit.value.burst <= 0 {
        return Some(BadBurst);
      }
    }
    if e.roles.None? {
      return None;
    }
    c := CheckRoles(e, e.roles.value);
  }

  /** validateAccessConfig: Some stands for the panic. Maps are visited in any order. */
  method ValidateAccessConfig(cfg: Config) returns (c: Option<Complaint>)
    ensures c.None? <==> ValidConfig(cfg)
    ensures c.Some? ==> if c.value == AdminGroup then "Admin" in cfg
                        else exists g <- cfg :: exists a <- cfg[g] :: Holds(cfg[g][a], c.value)
  {
    if ADMIN_ROLE in cfg {
      return Some(AdminGroup);
    }
    var groups := cfg.Keys;
    while groups != {}
      invariant groups <= cfg.Keys
      invariant forall g <- cfg | g !in groups :: forall a <- cfg[g] :: ValidEntry(cfg[g][a])
    {
      var g :| g in groups;
      var actions := cfg[g].Keys;
      while actions != {}
        invariant actions <= cfg[g].Keys
        invariant forall a <- cfg[g] | a !in actions :: ValidEntry(cfg[g][a])
      {
        var a :| a in actions;
        c := CheckEntry(cfg[g][a]);
        if c.Some? {
          assert g in cfg && a in cfg[g] && !ValidEntry(cfg[g][a]);
          return;
        }
        actions := actions - {a};
      }
      groups := groups - {g};
    }
    return None;
  }

  // ---------- mergeAccessConfigs, on maps that are shared by reference ----------

  /** A Go map value; the reference is null for a nil map. */
  class ActionMap {
    var entries: Actions

    constructor (entries: Actions)
      ensures this.entries == entries
    {
      this.entries := entries;
    }
  }

  type SharedConfig = map<string, ActionMap?>

  /** The contents of a config at one moment; None for a nil map. */
  type Contents = map<string, Option<Actions>>

  ghost function Read(cfg: SharedConfig): (c: Contents)
    reads set g <- cfg :: cfg[g]
    ensures c.Keys == cfg.Keys
  {
    map g <- cfg :: if cfg[g] == null then None else Some(cfg[g].entries)
  }

  /** What a lookup finds; a missing group and a nil map have no actions. */
  function ActionsOf(c: Contents, group: string): Actions {
    if group in c && c[group].Some? then c[group].value else map[]
  }

  datatype MergePanic = Duplicate(group: string, action: string) | NilMapWrite(group: string)

  ghost predicate SharesAction(root: Contents, theme: Contents, group: string) {
    !(ActionsOf(root, group).Keys !! ActionsOf(theme, group).Keys)
  }

  /** The root declares the group without any action, and the theme adds to it. */
  ghost predicate WritesNilMap(root: Contents, theme: Contents, group: string) {
    group in root && root[group].None? && ActionsOf(theme, group) != map[]
  }

  ghost predicate Panics(root: Contents, theme: Contents, group: string) {
    SharesAction(root, theme, group) || WritesNilMap(root, theme, group)
  }

  /** A group that access.yml names without actions is a nil map, and a theme that adds to it
      makes the merge panic although no action is declared twice. */
  lemma EmptyRootGroupPanics(e: Entry)
    ensures var root: Contents := map["ThemePages" := None];
            var theme: Contents := map["ThemePages" := Some(map["Rates" := e])];
            Panics(root, theme, "ThemePages") && !SharesAction(root, theme, "ThemePages")
  {
    assert "Rates" in ActionsOf(map["ThemePages" := Some(map["Rates" := e])], "ThemePages");
  }

  /** The inner loop: the theme's actions are added to one group. */
  method AddActions(existing: ActionMap?, group: string, added: Actions, ghost before: Actions)
    returns (panic: Option<MergePanic>)
    requires existing != null ==> existing.entries == before
    requires existing == null ==> before == map[]
    modifies existing
    ensures panic.None? <==> before.Keys !! added.Keys && (existing == null ==> added == map[])
    ensures panic.None? && existing != null ==> existing.entries == before + added
    ensures match panic
            case Some(Duplicate(g, a)) => g == group && a in before && a in added
            case Some(NilMapWrite(g)) => g == group && existing == null && added != map[]
            case None => true
  {
    var todo := added.Keys;
    while todo != {}
      invariant todo <= added.Keys
      invariant existing != null ==> existing.entries == before + (added - todo)
      invariant existing == null ==> todo == added.Keys
      invariant before.Keys !! (added - todo).Keys
    {
      var action :| action in todo;
      if existing != null && action in existing.entries {
        assert action in before;
        return Some(Duplicate(group, action));
      }
      if existing == null {
        return Some(NilMapWrite(group));
      }
      existing.entries := existing.entries[action := added[action]];
      todo := todo - {action};
    }
    assert added - {} == added;
    return None;
  }

  /** No two groups share a map. */
  ghost predicate Separate(cfg: SharedConfig) {
    forall g <- cfg, h <- cfg | g != h && cfg[g] != null :: cfg[g] != cfg[h]
  }

  twostate predicate AllNew(new cfg: SharedConfig) {
    forall g <- cfg | cfg[g] != null :: fresh(cfg[g])
  }

  method CloneGroups(root: SharedConfig) returns (out: SharedConfig)
    ensures AllNew(out) && Separate(out) && Read(out) == Read(root)
  {
    out := map[];
    var todo := root.Keys;
    while todo != {}
      invariant todo <= root.Keys && out.Keys == root.Keys - todo
      invariant AllNew(out) && Separate(out)
      invariant forall g <- out :: Read(out)[g] == Read(root)[g]
    {
      var g :| g in todo;
      var copy: ActionMap? := null;
      if root[g] != null {
        copy := new ActionMap(root[g].entries);
      }
      out := out[g := copy];
      todo := todo - {g};
    }
  }

  /** The outer loop's step for one group of the theme. */
  method MergeGroup(out: SharedConfig, group: string, actions: Actions)
    returns (panic: Option<MergePanic>, out': SharedConfig)
    requires Separate(out)
    modifies if group in out then {out[group]} else {}
    ensures out'.Keys == out.Keys + {group} && Separate(out')
    ensures forall g <- out' :: if g in out then out'[g] == out[g] else out'[g] != null && fresh(out'[g])
    ensures panic.None? <==>
              ActionsOf(old(Read(out)), group).Keys !! actions.Keys &&
              (group in out && out[group] == null ==> actions == map[])
    ensures match panic
            case Some(Duplicate(g, a)) => g == group && a in ActionsOf(old(Read(out)), group) && a in actions
            case Some(NilMapWrite(g)) => g == group && group in out && out[group] == null && actions != map[]
            case None => true
    ensures panic.None? ==>
              ActionsOf(Read(out'), group) == ActionsOf(old(Read(out)), group) + actions &&
              forall g <- out | g != group :: Read(out')[g] == old(Read(out)[g])
  {
    ghost var before := ActionsOf(Read(out), group);
    var existing: ActionMap?;
    if group in out {
      existing := out[group];
    } else {
      existing := new ActionMap(map[]);
    }
    panic := AddActions(existing, group, actions, before);
    out' := out[group := existing];
  }

  /** After some groups of the theme: those are merged, the others still as in the root. */
  ghost predicate MergedSoFar(root: Contents, theme: Contents, out: Contents, todo: set<string>) {
    && todo <= theme.Keys && out.Keys == root.Keys + (theme.Keys - todo)
    && (forall g <- out | g in todo || g !in theme :: g in root && out[g] == root[g])
    && (forall g <- out | g in theme && g !in todo ::
          !Panics(root, theme, g) && ActionsOf(out, g) == ActionsOf(root, g) + ActionsOf(theme, g))
  }

  lemma MergedOneMore(root: Contents, theme: Contents, out: Contents, out': Contents, todo: set<string>, g: string)
    requires MergedSoFar(root, theme, out, todo) && g in todo
    requires ActionsOf(out, g).Keys !! ActionsOf(theme, g).Keys
    requires g in out && out[g].None? ==> ActionsOf(theme, g) == map[]
    requires out'.Keys == out.Keys + {g} && forall h <- out | h != g :: out'[h] == out[h]
    requires ActionsOf(out', g) == ActionsOf(out, g) + ActionsOf(theme, g)
    ensures MergedSoFar(root, theme, out', todo - {g})
  {
    assert ActionsOf(out, g) == ActionsOf(root, g);
    forall h <- out' | h in theme && h !in todo - {g}
      ensures !Panics(root, theme, h) && ActionsOf(out', h) == ActionsOf(root, h) + ActionsOf(theme, h)
    {
      assert h == g || ActionsOf(out', h) == ActionsOf(out, h);
    }
  }

  /** What the step for g finds, and when it panics. */
  lemma StillAsInRoot(root: Contents, theme: Contents, out: Contents, todo: set<string>, g: string)
    requires MergedSoFar(root, theme, out, todo) && g in todo
    ensures ActionsOf(out, g) == ActionsOf(root, g)
    ensures Panics(root, theme, g) <==>
              !(ActionsOf(out, g).Keys !! ActionsOf(theme, g).Keys && (g in out && out[g].None? ==> ActionsOf(theme, g) == map[]))
  {
  }

  twostate lemma ReadSame(cfg: SharedConfig)
    requires forall g <- cfg | cfg[g] != null :: unchanged(cfg[g])
    ensures Read(cfg) == old(Read(cfg))
  {
  }

  lemma MergedAll(root: Contents, theme: Contents, out: Contents)
    requires MergedSoFar(root, theme, out, {})
    ensures out.Keys == root.Keys + theme.Keys
    ensures !exists g <- theme :: Panics(root, theme, g)
    ensures forall g <- out :: ActionsOf(root, g).Keys !! ActionsOf(theme, g).Keys
    ensures forall g <- out :: ActionsOf(out, g) == ActionsOf(root, g) + ActionsOf(theme, g)
  {
    forall g <- theme
      ensures g in out && !Panics(root, theme, g)
    {
    }
  }

  /** What a panic of the merge says. */
  ghost predicate Tells(root: Contents, theme: Contents, panic: MergePanic) {
    match panic
    case Duplicate(g, a) => a in ActionsOf(root, g) && a in ActionsOf(theme, g)
    case NilMapWrite(g) => WritesNilMap(root, theme, g)
  }

  lemma PanicTells(root: Contents, theme: Contents, out: Contents, todo: set<string>, g: string, panic: MergePanic)
    requires MergedSoFar(root, theme, out, todo) && g in todo
    requires match panic
             case Duplicate(h, a) => h == g && a in ActionsOf(out, g) && a in ActionsOf(theme, g)
             case NilMapWrite(h) => h == g && g in out && out[g] == None && ActionsOf(theme, g) != map[]
    ensures Tells(root, theme, panic)
  {
    StillAsInRoot(root, theme, out, todo, g);
  }

  /** mergeAccessConfigs. Nothing that existed before is modified, so neither input is; every
      map in the result is new. It panics exactly on a shared action or on a write to the nil
      map of a group the root left empty, and otherwise returns the exact disjoint union. */
  method MergeAccessConfigs(root: SharedConfig, theme: SharedConfig)
    returns (r: Result<SharedConfig, MergePanic>)
    ensures r.Failure? <==> exists g <- theme :: Panics(Read(root), Read(theme), g)
    ensures r.Failure? ==> Tells(Read(root), Read(theme), r.error)
    ensures r.Success? ==>
              && AllNew(r.value) && Separate(r.value)
              && r.value.Keys == root.Keys + theme.Keys
              && forall g <- r.value ::
                   && ActionsOf(Read(root), g).Keys !! ActionsOf(Read(theme), g).Keys
                   && ActionsOf(Read(r.value), g) == ActionsOf(Read(root), g) + ActionsOf(Read(theme), g)
  {
    ghost var rootWas, themeWas := Read(root), Read(theme);
    var out := CloneGroups(root);
    var todo := theme.Keys;
    var panic: Option<MergePanic> := None;
    while todo != {} && panic.None?
      invariant AllNew(out) && Separate(out)
      invariant panic.None? ==> MergedSoFar(rootWas, themeWas, Read(out), todo)
      invariant panic.Some? ==> (exists g <- theme :: Panics(rootWas, themeWas, g)) && Tells(rootWas, themeWas, panic.value)
    {
      var group :| group in todo;
      var actions: Actions := if theme[group] == null then map[] else theme[group].entries;
      assert actions == ActionsOf(themeWas, group);
      ghost var outWas := Read(out);
      StillAsInRoot(rootWas, themeWas, outWas, todo, group);
      panic, out := MergeGroup(out, group, actions);
      if panic.None? {
        MergedOneMore(rootWas, themeWas, outWas, Read(out), todo, group);
      } else {
        PanicTells(rootWas, themeWas, outWas, todo, group, panic.value);
      }
      todo := todo - {group};
    }
    ReadSame(root);
    ReadSame(theme);
    if panic.Some? {
      return Failure(panic.value);
    }
    MergedAll(rootWas, themeWas, Read(out));
    return Success(out);
  }
}
